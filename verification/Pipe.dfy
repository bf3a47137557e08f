/** Pipes (kernel/file.c): a ring buffer shared by a read end and a write end, each a
    reference-counted file object. */
module Pipe {
  import opened Layout

  const CAPACITY := 4096

  datatype End = Reading | Writing

  /** What one pass of a blocking call comes to; `Sleeps` is the pass that blocks. */
  datatype Outcome = Moved(n: nat) | EndOfFile | Broken | Sleeps

  function Cell(head: nat, i: nat): (r: nat)
    ensures r < CAPACITY
  {
    (head + i) % CAPACITY
  }

  /** The `count` bytes from position `head` of the ring. */
  function Window(data: seq<Byte>, head: nat, count: nat): seq<Byte>
    requires |data| == CAPACITY
  {
    seq(count, i requires 0 <= i < count => data[Cell(head, i)])
  }

  lemma WindowTake(data: seq<Byte>, head: nat, count: nat)
    requires |data| == CAPACITY && head < CAPACITY && 0 < count <= CAPACITY
    ensures Window(data, head, count) == [data[head]] + Window(data, Cell(head, 1), count - 1)
    ensures Cell(Cell(head, 1), count - 1) == Cell(head, count)
  {
    var a, b := Window(data, head, count), Window(data, Cell(head, 1), count - 1);
    forall i | 0 < i < count ensures a[i] == b[i - 1] { NextCell(head, i - 1); }
    NextCell(head, count - 1);
  }

  lemma NextCell(head: nat, i: nat)
    ensures Cell(Cell(head, 1), i) == Cell(head, i + 1) && Cell(Cell(head, i), 1) == Cell(head, i + 1)
  {
  }

  lemma WindowPut(data: seq<Byte>, head: nat, count: nat, x: Byte)
    requires |data| == CAPACITY && head < CAPACITY && count < CAPACITY
    ensures Window(data[Cell(head, count) := x], head, count + 1) == Window(data, head, count) + [x]
  {
    hide Cell;
    var d := data[Cell(head, count) := x];
    forall i | 0 <= i < count ensures d[Cell(head, i)] == data[Cell(head, i)] { OtherCell(head, i, count); }
  }

  lemma OtherCell(head: nat, i: nat, count: nat)
    requires i < count < CAPACITY && head < CAPACITY
    ensures Cell(head, i) != Cell(head, count)
  {
  }

  class PipeObject {
    const data: array<Byte>
    var head: nat
    var tail: nat
    var count: nat
    var readers: nat
    var writers: nat
    var readRefs: nat           // references to the two file objects
    var writeRefs: nat
    var sleepers: map<nat, End> // blocked threads and what they wait to do
    ghost var written: seq<Byte>
    ghost var taken: seq<Byte>
    ghost var frees: nat        // how often the pipe has been freed

    ghost function Contents(): seq<Byte>
      requires data.Length == CAPACITY && head < CAPACITY && count <= CAPACITY
      reads this, data
    {
      Window(data[..], head, count)
    }

    /** The bytes taken so far followed by the ring's contents are the bytes written; the
        counts are those of the file objects; the pipe is gone exactly when no reference
        is left; and nobody sleeps who could go on. */
    ghost predicate Valid()
      reads this, data
    {
      && data.Length == CAPACITY && head < CAPACITY && count <= CAPACITY && tail == Cell(head, count)
      && written == taken + Contents()
      && readers == readRefs && writers == writeRefs
      && frees == (if readRefs == 0 && writeRefs == 0 then 1 else 0)
      && (forall t :: t in sleepers && sleepers[t] == Reading ==> count == 0 && writers > 0)
      && (forall t :: t in sleepers && sleepers[t] == Writing ==> count == CAPACITY && readers > 0)
    }

    /** pipe_create once its three objects have been had. */
    constructor ()
      ensures Valid() && Contents() == [] && written == [] && readRefs == 1 && writeRefs == 1 && frees == 0 &&
        sleepers == map[] && fresh(data)
    {
      data := new Byte[CAPACITY](_ => 0);
      head, tail, count, readers, writers, readRefs, writeRefs := 0, 0, 0, 1, 1, 1, 1;
      sleepers, written, taken, frees := map[], [], [], 0;
    }

    /** The copying loop of pipe_read. */
    method TakeBytes(n: nat) returns (out: seq<Byte>)
      requires data.Length == CAPACITY && head < CAPACITY && n <= count <= CAPACITY && tail == Cell(head, count)
      modifies this`head, this`count
      ensures head < CAPACITY && count == old(count) - n && tail == Cell(head, count)
      ensures old(Contents()) == out + Contents() && |out| == n
    {
      hide Window, Cell;
      out := [];
      var left := count;
      ghost var all := Contents();
      for i := 0 to n
        invariant head < CAPACITY && left == old(count) - i && |out| == i && tail == Cell(head, left)
        invariant all == out + Window(data[..], head, left)
      {
        WindowTake(data[..], head, left);
        out := out + [data[head]];
        head := Cell(head, 1);
        left := left - 1;
      }
      count := left;
    }

    /** One pass of pipe_read; waking is for everybody asleep on the pipe. */
    method Read(thread: nat, length: nat) returns (r: Outcome, out: seq<Byte>)
      requires Valid() && readRefs > 0 && thread !in sleepers
      modifies this`head, this`count, this`sleepers, this`taken
      ensures Valid()
      ensures old(Contents()) == out + Contents() && taken == old(taken) + out
      ensures r == if old(count) != 0 then Moved(|out|) else if writers == 0 then EndOfFile else Sleeps
      ensures |out| == if length < old(count) then length else old(count)
      ensures sleepers ==
        if r.Moved? then map[] else if r.Sleeps? then old(sleepers)[thread := Reading] else old(sleepers)
    {
      hide Window, Cell;
      out := [];
      if count != 0 {
        var n := if length < count then length else count;
        out := TakeBytes(n);
        assert taken + (out + Contents()) == (taken + out) + Contents();
        taken := taken + out;
        sleepers := map[];
        return Moved(n), out;
      }
      if writers == 0 { return EndOfFile, out; }
      sleepers := sleepers[thread := Reading];
      return Sleeps, out;
    }

    /** The copying loop of pipe_write. */
    method PutBytes(input: seq<Byte>, n: nat)
      requires data.Length == CAPACITY && head < CAPACITY && count + n <= CAPACITY && tail == Cell(head, count)
      requires n <= |input|
      modifies this`tail, this`count, data
      ensures count == old(count) + n && tail == Cell(head, count) && Contents() == old(Contents()) + input[..n]
    {
      hide Window, Cell;
      var have := count;
      ghost var before := Contents();
      for i := 0 to n
        invariant have == old(count) + i && tail == Cell(head, have)
        invariant Window(data[..], head, have) == before + input[..i]
      {
        WindowPut(data[..], head, have, input[i]);
        ghost var was := data[..];
        data[tail] := input[i];
        assert data[..] == was[Cell(head, have) := input[i]];
        assert input[..i + 1] == input[..i] + [input[i]];
        NextCell(head, have);
        tail := Cell(tail, 1);
        have := have + 1;
      }
      count := have;
    }

    /** One pass of pipe_write. */
    method Write(thread: nat, input: seq<Byte>) returns (r: Outcome)
      requires Valid() && writeRefs > 0 && thread !in sleepers
      modifies this`tail, this`count, this`sleepers, this`written, data
      ensures Valid()
      ensures r ==
        if readers == 0 then Broken
        else if old(count) < CAPACITY then Moved(Room(|input|, old(count))) else Sleeps
      ensures r.Moved? ==> r.n <= |input| && (r.n == |input| || count == CAPACITY)
      ensures r.Moved? ==> Contents() == old(Contents()) + input[..r.n] && written == old(written) + input[..r.n]
      ensures !r.Moved? ==> Contents() == old(Contents()) && written == old(written)
      ensures sleepers ==
        if r.Moved? then map[] else if r.Sleeps? then old(sleepers)[thread := Writing] else old(sleepers)
    {
      hide Window, Cell;
      if readers == 0 { return Broken; }
      if count < CAPACITY {
        var n := Room(|input|, count);
        PutBytes(input, n);
        assert taken + (old(Contents()) + input[..n]) == (taken + old(Contents())) + input[..n];
        written := written + input[..n];
        sleepers := map[];
        return Moved(n);
      }
      sleepers := sleepers[thread := Writing];
      return Sleeps;
    }

    /** file_retain on one end. */
    method Retain(end: End)
      requires Valid() && (if end == Reading then readRefs else writeRefs) > 0
      modifies this`readers, this`writers, this`readRefs, this`writeRefs
      ensures Valid() && frees == old(frees)
      ensures readRefs == old(readRefs) + (if end == Reading then 1 else 0)
      ensures writeRefs == old(writeRefs) + (if end == Writing then 1 else 0)
    {
      if end == Reading { readRefs, readers := readRefs + 1, readers + 1; }
      else { writeRefs, writers := writeRefs + 1, writers + 1; }
    }

    /** file_release on one end: the file goes with its last reference, the pipe with the
        last of both. */
    method Release(end: End) returns (fileFreed: bool)
      requires Valid() && (if end == Reading then readRefs else writeRefs) > 0
      modifies this`readers, this`writers, this`readRefs, this`writeRefs, this`sleepers, this`frees
      ensures Valid() && sleepers == map[]
      ensures readRefs == old(readRefs) - (if end == Reading then 1 else 0)
      ensures writeRefs == old(writeRefs) - (if end == Writing then 1 else 0)
      ensures fileFreed <==> (if end == Reading then readRefs else writeRefs) == 0
      ensures frees == old(frees) + (if readRefs == 0 && writeRefs == 0 then 1 else 0)
    {
      if end == Reading {
        readRefs := readRefs - 1;
        if readers != 0 { readers := readers - 1; }
        fileFreed := readRefs == 0;
      } else {
        writeRefs := writeRefs - 1;
        if writers != 0 { writers := writers - 1; }
        fileFreed := writeRefs == 0;
      }
      sleepers := map[];
      if readers == 0 && writers == 0 { frees := frees + 1; }
    }
  }

  function Room(length: nat, count: nat): nat
    requires count <= CAPACITY
  {
    if length < CAPACITY - count then length else CAPACITY - count
  }

  // ------------------------------------------------------------------ whole runs

  datatype Call =
    | ReadCall(thread: nat, length: nat) | WriteCall(thread: nat, input: seq<Byte>)
    | RetainCall(end: End) | ReleaseCall(end: End)

  /** A pipe without a ring: a list of bytes, what went in and out, references, sleepers. */
  datatype Queue = Queue(bytes: seq<Byte>, got: seq<Byte>, put: seq<Byte>, readRefs: nat, writeRefs: nat,
                         sleepers: map<nat, End>)

  /** A call is made only while its end is referenced, and not by a thread that sleeps. */
  function QueueStep(q: Queue, c: Call): Queue {
    match c
    case ReadCall(t, n) =>
      if q.readRefs == 0 || t in q.sleepers then q
      else if q.bytes != [] then
        var k := if n < |q.bytes| then n else |q.bytes|;
        q.(bytes := q.bytes[k..], got := q.got + q.bytes[..k], sleepers := map[])
      else if q.writeRefs == 0 then q else q.(sleepers := q.sleepers[t := Reading])
    case WriteCall(t, input) =>
      if q.writeRefs == 0 || t in q.sleepers || q.readRefs == 0 then q
      else if |q.bytes| < CAPACITY then
        var k := Room(|input|, |q.bytes|);
        q.(bytes := q.bytes + input[..k], put := q.put + input[..k], sleepers := map[])
      else q.(sleepers := q.sleepers[t := Writing])
    case RetainCall(Reading) => if q.readRefs > 0 then q.(readRefs := q.readRefs + 1) else q
    case RetainCall(Writing) => if q.writeRefs > 0 then q.(writeRefs := q.writeRefs + 1) else q
    case ReleaseCall(Reading) => if q.readRefs > 0 then q.(readRefs := q.readRefs - 1, sleepers := map[]) else q
    case ReleaseCall(Writing) => if q.writeRefs > 0 then q.(writeRefs := q.writeRefs - 1, sleepers := map[]) else q
  }

  function QueueRun(calls: seq<Call>): Queue {
    if calls == [] then Queue([], [], [], 1, 1, map[])
    else QueueStep(QueueRun(calls[..|calls| - 1]), calls[|calls| - 1])
  }

  lemma QueueNext(calls: seq<Call>, i: nat)
    requires i < |calls|
    ensures QueueRun(calls[..i + 1]) == QueueStep(QueueRun(calls[..i]), calls[i])
  {
    assert calls[..i + 1][..i] == calls[..i];
  }

  /** Over any sequence of calls the ring is that list; what the readers have got is a prefix
      of what the writers have put in, and the rest is in the ring; the pipe has been freed
      once if all references are gone, and else not. */
  method Serve(calls: seq<Call>) returns (p: PipeObject, got: seq<Byte>, put: seq<Byte>)
    ensures p.Valid() && put == got + p.Contents()
    ensures Queue(p.Contents(), got, put, p.readRefs, p.writeRefs, p.sleepers) == QueueRun(calls)
    ensures p.frees == if p.readRefs == 0 && p.writeRefs == 0 then 1 else 0
  {
    hide QueueRun, Window;
    p := new PipeObject();
    got, put := [], [];
    QueueStart(calls);
    for i := 0 to |calls|
      invariant p.Valid() && fresh(p) && fresh(p.data) && put == p.written && got == p.taken
      invariant Queue(p.Contents(), got, put, p.readRefs, p.writeRefs, p.sleepers) == QueueRun(calls[..i])
    {
      QueueNext(calls, i);
      WindowLength(p.data[..], p.head, p.count);
      match calls[i]
      case ReadCall(t, n) =>
        if p.readRefs > 0 && t !in p.sleepers {
          ghost var bytes := p.Contents();
          var r, out := p.Read(t, n);
          TakenFront(bytes, out, p.Contents());
          got := got + out;
        }
      case WriteCall(t, input) =>
        if p.writeRefs > 0 && t !in p.sleepers {
          var r := p.Write(t, input);
          if r.Moved? { put := put + input[..r.n]; }
        }
      case RetainCall(e) =>
        if (if e == Reading then p.readRefs else p.writeRefs) > 0 { p.Retain(e); }
      case ReleaseCall(e) =>
        if (if e == Reading then p.readRefs else p.writeRefs) > 0 { var f := p.Release(e); }
    }
    assert calls[..|calls|] == calls;
  }

  lemma QueueStart(calls: seq<Call>)
    ensures QueueRun(calls[..0]) == Queue([], [], [], 1, 1, map[])
  {
  }

  lemma WindowLength(data: seq<Byte>, head: nat, count: nat)
    requires |data| == CAPACITY
    ensures |Window(data, head, count)| == count
  {
  }

  lemma TakenFront(all: seq<Byte>, front: seq<Byte>, rest: seq<Byte>)
    requires all == front + rest
    ensures front == all[..|front|] && rest == all[|front|..]
  {
  }
}
