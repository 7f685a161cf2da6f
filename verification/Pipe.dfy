/** The blocking pipe (`pipe.c`).  Interrupts are off except while a task is blocked, so an operation
    is a few atomic segments; between them anything else may run. */
module Pipe {
  import opened Bytes
  import opened Results

  const SIZE: nat := 4096

  type Task = nat

  /** An operation in flight.  A waiting one sits in the scheduler's blocked list: readers on the
      channel of `count`, writers on the channel of `read_pos`. */
  datatype Op =
    | Reading(len: nat, waiting: bool)
    | Writing(data: seq<byte>, put: nat, waiting: bool)

  /** The pipe, the operations using it, and the descriptors still open.  `accepted` and
      `delivered` record every byte that went in and came out; `freed` counts deallocations. */
  datatype State = State(queue: seq<byte>, readers: nat, writers: nat, freed: nat, ops: map<Task, Op>,
                         readEnds: nat, writeEnds: nat, accepted: seq<byte>, delivered: seq<byte>)

  const FRESH: State := State([], 1, 1, 0, map[], 1, 1, [], [])

  // ------------------------------------------------------------------------ segments

  function Woken(op: Op): Op {
    op.(waiting := false)
  }

  /** `task_wake_all` on the channel readers wait on. */
  function WakeReaders(ops: map<Task, Op>): (r: map<Task, Op>)
    ensures r.Keys == ops.Keys
  {
    map t | t in ops :: if ops[t].Reading? then Woken(ops[t]) else ops[t]
  }

  function WakeWriters(ops: map<Task, Op>): (r: map<Task, Op>)
    ensures r.Keys == ops.Keys
  {
    map t | t in ops :: if ops[t].Writing? then Woken(ops[t]) else ops[t]
  }

  function FreeIfDone(s: State): State {
    if s.readers == 0 && s.writers == 0 then s.(freed := s.freed + 1) else s
  }

  /** `pipe_close_read`: drop one reader; the last one wakes the writers. */
  function CloseRead(s: State): State {
    var left := if s.readers > 0 then s.readers - 1 else 0;
    FreeIfDone(s.(readers := left, ops := if left == 0 then WakeWriters(s.ops) else s.ops))
  }

  function CloseWrite(s: State): State {
    var left := if s.writers > 0 then s.writers - 1 else 0;
    FreeIfDone(s.(writers := left, ops := if left == 0 then WakeReaders(s.ops) else s.ops))
  }

  function Min(a: nat, b: nat): nat {
    if a <= b then a else b
  }

  /** A reader from the top of its loop to its next block or its return. */
  function ReadSegment(s: State, t: Task, len: nat, killed: bool): State {
    if s.queue == [] && s.writers > 0 then
      if killed then CloseRead(s.(ops := s.ops - {t})) else s.(ops := s.ops[t := Reading(len, true)])
    else
      var n := Min(len, |s.queue|);
      CloseRead(s.(queue := s.queue[n..], delivered := s.delivered + s.queue[..n],
                   ops := (if n > 0 then WakeWriters(s.ops) else s.ops) - {t}))
  }

  /** A writer likewise. */
  function WriteSegment(s: State, t: Task, data: seq<byte>, put: nat, killed: bool): State
    decreases |data| - put
  {
    if put >= |data| || s.readers == 0 then CloseWrite(s.(ops := s.ops - {t}))
    else if |s.queue| >= SIZE then
      var woken := WakeReaders(s.ops);
      if killed then CloseWrite(s.(ops := woken - {t})) else s.(ops := woken[t := Writing(data, put, true)])
    else
      var n := Min(|data| - put, SIZE - |s.queue|);
      WriteSegment(s.(queue := s.queue + data[put..put + n], accepted := s.accepted + data[put..put + n],
          ops := WakeReaders(s.ops)),
                   t, data, put + n, killed)
  }

  // ------------------------------------------------------------------------ the machine

  datatype Event =
    | BeginRead(task: Task, len: nat, killed: bool)
    | BeginWrite(task: Task, data: seq<byte>, killed: bool)
    | Resume(task: Task, killed: bool)
    | Wake(task: Task)  // a kill, or any other wake-up that proves spurious
    | RefRead
    | RefWrite
    | DropRead
    | DropWrite

  /** Operations and duplications go through an open descriptor; only runnable operations resume. */
  predicate Possible(s: State, e: Event) {
    match e
    case BeginRead(t, len, _) => t !in s.ops && s.readEnds > 0 && len > 0
    case BeginWrite(t, data, _) => t !in s.ops && s.writeEnds > 0 && data != []
    case Resume(t, _) => t in s.ops && !s.ops[t].waiting
    case Wake(t) => t in s.ops && s.ops[t].waiting
    case RefRead => s.readEnds > 0
    case RefWrite => s.writeEnds > 0
    case DropRead => s.readEnds > 0
    case DropWrite => s.writeEnds > 0
  }

  function Step(s: State, e: Event): State
    requires Possible(s, e)
  {
    match e
    case BeginRead(t, len, killed) => ReadSegment(s.(readers := s.readers + 1, ops := s.ops[t := Reading(len, false)]),
        t, len, killed)
    case BeginWrite(t, data,
        killed) => WriteSegment(s.(writers := s.writers + 1, ops := s.ops[t := Writing(data, 0, false)]), t, data, 0,
        killed)
    case Resume(t, killed) =>
      (match s.ops[t]
       case Reading(len, _) =>
         if killed then CloseRead(s.(ops := s.ops - {t})) else ReadSegment(s, t, len, false)
       case Writing(data, put, _) =>
         if killed then CloseWrite(s.(ops := s.ops - {t})) else WriteSegment(s, t, data, put, false))
    case Wake(t) => s.(ops := s.ops[t := Woken(s.ops[t])])
    case RefRead => s.(readers := s.readers + 1, readEnds := s.readEnds + 1)
    case RefWrite => s.(writers := s.writers + 1, writeEnds := s.writeEnds + 1)
    case DropRead => CloseRead(s.(readEnds := s.readEnds - 1))
    case DropWrite => CloseWrite(s.(writeEnds := s.writeEnds - 1))
  }

  function Run(s: State, es: seq<Event>): (r: Option<State>) {
    if es == [] then Some(s)
    else
      var mid := Run(s, es[..|es| - 1]);
      if mid.Some? && Possible(mid.value, es[|es| - 1]) then Some(Step(mid.value, es[|es| - 1])) else None
  }

  // ------------------------------------------------------------------------ the invariant

  function Readers(ops: map<Task, Op>): set<Task> {
    set t | t in ops && ops[t].Reading?
  }

  function Writers(ops: map<Task, Op>): set<Task> {
    set t | t in ops && ops[t].Writing?
  }

  /** What holds whether or not one extra reader or writer reference is held. */
  ghost predicate Core(s: State, extraReaders: nat, extraWriters: nat) {
    && s.readers == s.readEnds + |Readers(s.ops)| + extraReaders
    && s.writers == s.writeEnds + |Writers(s.ops)| + extraWriters
    && |s.queue| <= SIZE && s.delivered + s.queue == s.accepted
    && (forall t :: t in s.ops && s.ops[t].Reading? && s.ops[t].waiting ==> s.queue == [] && s.writers > 0)
    && (forall t :: t in s.ops && s.ops[t].Writing? && s.ops[t].waiting ==> |s.queue| == SIZE && s.readers > 0)
  }

  /** Nothing is lost, nobody sleeps through a wake-up, and the pipe is freed exactly when the last
      reference goes. */
  ghost predicate Inv(s: State) {
    Core(s, 0, 0) && s.freed == if s.readers == 0 && s.writers == 0 then 1 else 0
  }

  lemma WakingKeepsTasks(ops: map<Task, Op>)
    ensures Readers(WakeReaders(ops)) == Readers(ops) == Readers(WakeWriters(ops))
    ensures Writers(WakeReaders(ops)) == Writers(ops) == Writers(WakeWriters(ops))
  {
  }

  lemma WithoutTask(ops: map<Task, Op>, t: Task)
    requires t in ops
    ensures |Readers(ops - {t})| == |Readers(ops)| - (if ops[t].Reading? then 1 else 0)
    ensures |Writers(ops - {t})| == |Writers(ops)| - (if ops[t].Writing? then 1 else 0)
  {
    assert Readers(ops - {t}) == Readers(ops) - {t};
    assert Writers(ops - {t}) == Writers(ops) - {t};
  }

  lemma WithReader(ops: map<Task, Op>, t: Task, op: Op)
    requires op.Reading? && (t in ops ==> ops[t].Reading?)
    ensures |Readers(ops[t := op])| == |Readers(ops)| + (if t in ops then 0 else 1)
    ensures Writers(ops[t := op]) == Writers(ops)
  {
    assert Readers(ops[t := op]) == Readers(ops) + {t};
    assert t in ops <==> t in Readers(ops);
  }

  lemma WithWriter(ops: map<Task, Op>, t: Task, op: Op)
    requires op.Writing? && (t in ops ==> ops[t].Writing?)
    ensures |Writers(ops[t := op])| == |Writers(ops)| + (if t in ops then 0 else 1)
    ensures Readers(ops[t := op]) == Readers(ops)
  {
    assert Writers(ops[t := op]) == Writers(ops) + {t};
    assert t in ops <==> t in Writers(ops);
  }

  /** Giving up the extra reader reference. */
  lemma CloseReadKeeps(s: State)
    requires Core(s, 1, 0) && s.freed == 0
    ensures Inv(CloseRead(s))
  {
    WakingKeepsTasks(s.ops);
  }

  lemma CloseWriteKeeps(s: State)
    requires Core(s, 0, 1) && s.freed == 0
    ensures Inv(CloseWrite(s))
  {
    WakingKeepsTasks(s.ops);
  }

  lemma ReadSegmentKeeps(s: State, t: Task, len: nat, killed: bool)
    requires Core(s, 0, 0) && s.freed == 0 && t in s.ops && s.ops[t].Reading?
    ensures Inv(ReadSegment(s, t, len, killed))
  {
    if s.queue == [] && s.writers > 0 {
      if killed {
        WithoutTask(s.ops, t);
        CloseReadKeeps(s.(ops := s.ops - {t}));
      } else {
        WithReader(s.ops, t, Reading(len, true));
        AlreadyIn(s, t);
      }
    } else {
      hide Core, CloseRead;
      TakenKeeps(s, t, Min(len, |s.queue|));
    }
  }

  lemma TakenKeeps(s: State, t: Task, n: nat)
    requires Core(s, 0, 0) && s.freed == 0 && t in s.ops && s.ops[t].Reading? && n <= |s.queue|
    ensures Inv(CloseRead(s.(queue := s.queue[n..], delivered := s.delivered + s.queue[..n],
                             ops := (if n > 0 then WakeWriters(s.ops) else s.ops) - {t})))
  {
    hide CloseRead;
    WakingKeepsTasks(s.ops);
    var ops := if n > 0 then WakeWriters(s.ops) else s.ops;
    WithoutTask(ops, t);
    assert s.queue == s.queue[..n] + s.queue[n..];
    assert s.delivered + s.queue == (s.delivered + s.queue[..n]) + s.queue[n..];
    assert n == 0 ==> s.queue[n..] == s.queue;
    CloseReadKeeps(s.(queue := s.queue[n..], delivered := s.delivered + s.queue[..n], ops := ops - {t}));
  }

  /** A reader in flight keeps the pipe alive. */
  lemma AlreadyIn(s: State, t: Task)
    requires Core(s, 0, 0) && t in s.ops
    ensures s.ops[t].Reading? ==> s.readers > 0
    ensures s.ops[t].Writing? ==> s.writers > 0
  {
    assert s.ops[t].Reading? ==> t in Readers(s.ops);
    assert s.ops[t].Writing? ==> t in Writers(s.ops);
  }

  lemma FilledKeeps(s: State, bytes: seq<byte>)
    requires Core(s, 0, 0) && s.readers > 0 && 0 < |bytes| <= SIZE - |s.queue|
    ensures Core(s.(queue := s.queue + bytes, accepted := s.accepted + bytes, ops := WakeReaders(s.ops)), 0, 0)
  {
    WakingKeepsTasks(s.ops);
    assert s.delivered + (s.queue + bytes) == (s.delivered + s.queue) + bytes;
  }

  lemma {:induction false} WriteSegmentKeeps(s: State, t: Task, data: seq<byte>, put: nat, killed: bool)
    requires Core(s, 0, 0) && s.freed == 0 && t in s.ops && s.ops[t].Writing?
    ensures Inv(WriteSegment(s, t, data, put, killed))
    decreases |data| - put
  {
    if put >= |data| || s.readers == 0 {
      WithoutTask(s.ops, t);
      CloseWriteKeeps(s.(ops := s.ops - {t}));
    } else if |s.queue| >= SIZE {
      WakingKeepsTasks(s.ops);
      WithoutTask(WakeReaders(s.ops), t);
      if killed {
        CloseWriteKeeps(s.(ops := WakeReaders(s.ops) - {t}));
      } else {
        WithWriter(WakeReaders(s.ops), t, Writing(data, put, true));
        AlreadyIn(s, t);
      }
    } else {
      var n := Min(|data| - put, SIZE - |s.queue|);
      var mid :=
          s.(queue := s.queue + data[put..put + n], accepted := s.accepted + data[put..put + n],
          ops := WakeReaders(s.ops));
      FilledKeeps(s, data[put..put + n]);
      WriteSegmentKeeps(mid, t, data, put + n, killed);
    }
  }

  /** Every event keeps the invariant. */
  lemma StepKeeps(s: State, e: Event)
    requires Inv(s) && Possible(s, e)
    ensures Inv(Step(s, e))
  {
    hide ReadSegment, WriteSegment, CloseRead, CloseWrite;
    match e {
      case BeginRead(t, len, killed) =>
        WithReader(s.ops, t, Reading(len, false));
        ReadSegmentKeeps(s.(readers := s.readers + 1, ops := s.ops[t := Reading(len, false)]), t, len, killed);
      case BeginWrite(t, data, killed) =>
        WithWriter(s.ops, t, Writing(data, 0, false));
        WriteSegmentKeeps(s.(writers := s.writers + 1, ops := s.ops[t := Writing(data, 0, false)]), t, data, 0, killed);
      case Resume(t, killed) =>
        ResumeKeeps(s, t, killed);
      case Wake(t) =>
        WakeKeeps(s, t);
      case RefRead =>
      case RefWrite =>
      case DropRead =>
        CloseReadKeeps(s.(readEnds := s.readEnds - 1));
      case DropWrite =>
        CloseWriteKeeps(s.(writeEnds := s.writeEnds - 1));
    }
  }

  lemma WakeKeeps(s: State, t: Task)
    requires Inv(s) && t in s.ops
    ensures Inv(s.(ops := s.ops[t := Woken(s.ops[t])]))
  {
    if s.ops[t].Reading? {
      WithReader(s.ops, t, Woken(s.ops[t]));
    } else {
      WithWriter(s.ops, t, Woken(s.ops[t]));
    }
  }

  lemma ResumeKeeps(s: State, t: Task, killed: bool)
    requires Inv(s) && t in s.ops && !s.ops[t].waiting
    ensures Inv(Step(s, Resume(t, killed)))
  {
    hide ReadSegment, WriteSegment, CloseRead, CloseWrite;
    AlreadyIn(s, t);
    WithoutTask(s.ops, t);
    match s.ops[t] {
      case Reading(len, _) =>
        if killed {
          CloseReadKeeps(s.(ops := s.ops - {t}));
        } else {
          ReadSegmentKeeps(s, t, len, false);
        }
      case Writing(data, put, _) =>
        if killed {
          CloseWriteKeeps(s.(ops := s.ops - {t}));
        } else {
          WriteSegmentKeeps(s, t, data, put, false);
        }
    }
  }

  /** Over all interleavings. */
  lemma {:induction false} RunKeeps(s: State, es: seq<Event>)
    requires Inv(s) && Run(s, es).Some?
    ensures Inv(Run(s, es).value)
    decreases |es|
  {
    if es != [] {
      var n := |es| - 1;
      RunKeeps(s, es[..n]);
      StepKeeps(Run(s, es[..n]).value, es[n]);
    }
  }

  lemma FreshPipe()
    ensures Inv(FRESH)
  {
    assert Readers(map[]) == {} && Writers(map[]) == {};
  }

  /** What every interleaving guarantees. */
  lemma PipeSafety(es: seq<Event>)
    requires Run(FRESH, es).Some?
    ensures var s := Run(FRESH, es).value;
            && s.delivered <= s.accepted && s.delivered + s.queue == s.accepted && |s.queue| <= SIZE
            && (forall t :: t in s.ops && s.ops[t].waiting && s.ops[t].Reading? ==> s.queue == [] && s.writers > 0)
            && (forall t :: t in s.ops && s.ops[t].waiting && s.ops[t].Writing? ==> |s.queue| == SIZE && s.readers > 0)
            && s.freed <= 1 && (s.freed == 1 <==> s.ops == map[] && s.readEnds == 0 && s.writeEnds == 0)
  {
    FreshPipe();
    RunKeeps(FRESH, es);
    NobodyLeft(Run(FRESH, es).value);
  }

  /** The pipe goes away exactly when no descriptor and no operation refers to it. */
  lemma NobodyLeft(s: State)
    requires Inv(s)
    ensures s.readers == 0 && s.writers == 0 <==> s.ops == map[] && s.readEnds == 0 && s.writeEnds == 0
  {
    if s.ops == map[] {
      assert Readers(s.ops) == {} && Writers(s.ops) == {};
    }
    if s.readers == 0 && s.writers == 0 {
      forall t | t in s.ops ensures false {
        AlreadyIn(s, t);
      }
    }
  }

  /** A reader blocks exactly when the pipe is empty and someone may still write.  Otherwise it returns at once, with
      the smaller of what it asked for and what is buffered, from the front. */
  lemma ReadDelivers(s: State, t: Task, len: nat)
    requires t in s.ops
    ensures var s' := ReadSegment(s, t, len, false);
            && (t in s'.ops <==> s.queue == [] && s.writers > 0)
            && (t in s'.ops ==> s'.delivered == s.delivered && s'.queue == s.queue && s'.ops[t] == Reading(len, true))
            && (t !in s'.ops ==>
                  && |s.queue| - |s'.queue| == (if len < |s.queue| then len else |s.queue|)
                  && s'.delivered + s'.queue == s.delivered + s.queue)
  {
    var n := if len < |s.queue| then len else |s.queue|;
    assert s.queue[..n] + s.queue[n..] == s.queue;
    assert (s.delivered + s.queue[..n]) + s.queue[n..] == s.delivered + s.queue;
  }

  /** A read that returns no bytes has met the end of the stream. */
  lemma ReadZeroIsEof(s: State, t: Task, len: nat)
    requires len > 0 && t in s.ops
    requires var s' := ReadSegment(s, t, len, false); t !in s'.ops && s'.delivered == s.delivered
    ensures s.queue == [] && s.writers == 0
  {
    var n := Min(len, |s.queue|);
    assert |s.delivered + s.queue[..n]| == |s.delivered| + n;
  }

  /** A write that returns early has lost its last reader; all it reports went in, in order. */
  lemma {:induction false} ShortWriteIsBroken(s: State, t: Task, data: seq<byte>, put: nat)
    requires put <= |data| && t in s.ops && s.ops[t].Writing? && |s.queue| <= SIZE
    ensures var s' := WriteSegment(s, t, data, put, false);
            && |s'.accepted| >= |s.accepted| && put + (|s'.accepted| - |s.accepted|) <= |data|
            && s'.accepted == s.accepted + data[put..put + (|s'.accepted| - |s.accepted|)]
            && (t !in s'.ops && put + (|s'.accepted| - |s.accepted|) < |data| ==> s.readers == 0)
            && (t in s'.ops ==> s'.ops[t] == Writing(data, put + (|s'.accepted| - |s.accepted|), true))
    decreases |data| - put
  {
    if put >= |data| || s.readers == 0 || |s.queue| >= SIZE {
      assert s.accepted + data[put..put] == s.accepted;
    } else {
      var n := Min(|data| - put, SIZE - |s.queue|);
      var mid :=
          s.(queue := s.queue + data[put..put + n], accepted := s.accepted + data[put..put + n],
          ops := WakeReaders(s.ops));
      ShortWriteIsBroken(mid, t, data, put + n);
      var s' := WriteSegment(mid, t, data, put + n, false);
      var m := |s'.accepted| - |mid.accepted|;
      assert data[put..put + n] + data[put + n..put + n + m] == data[put..put + n + m];
      assert s'.accepted == (s.accepted + data[put..put + n]) + data[put + n..put + n + m];
    }
  }

  // ------------------------------------------------------------------------ the ring buffer

  /** The ring of the pipe, with its positions. */
  class Ring {
    const buf: array<byte>
    var readPos: nat
    var writePos: nat
    var count: nat

    ghost predicate Valid()
      reads this
    {
      && buf.Length == SIZE && readPos < SIZE && count <= SIZE
      && writePos == At(readPos, count)
    }

    /** The bytes in the ring, oldest first. */
    ghost function Queue(): (q: seq<byte>)
      requires Valid()
      reads this, buf
      ensures |q| == count
    {
      seq(count, i requires 0 <= i < count && Valid() reads this, buf => buf[At(readPos, i)])
    }

    constructor ()
      ensures Valid() && Queue() == [] && fresh(buf)
    {
      buf, readPos, writePos, count := new byte[SIZE], 0, 0, 0;
    }

    method TakeOne() returns (b: byte)
      requires Valid() && count > 0
      modifies this
      ensures Valid() && count == old(count) - 1 && b == old(Queue())[0] && Queue() == old(Queue())[1..]
    {
      hide At;
      Shift(readPos, (readPos + 1) % SIZE, count);
      b := buf[readPos];
      assert b == Queue()[0];
      readPos := (readPos + 1) % SIZE;
      count := count - 1;
    }

    /** The copying loop of a read. */
    method Take(len: nat) returns (bytes: seq<byte>)
      requires Valid()
      modifies this
      ensures Valid() && |bytes| == Min(len, |old(Queue())|)
      ensures bytes == old(Queue())[..|bytes|] && Queue() == old(Queue())[|bytes|..]
    {
      hide Queue, At;
      bytes := [];
      ghost var q := Queue();
      while |bytes| < len && count > 0
        invariant Valid() && |bytes| <= |q| && |bytes| <= len
        invariant bytes == q[..|bytes|] && Queue() == q[|bytes|..]
        decreases count
      {
        var b := TakeOne();
        bytes := bytes + [b];
      }
    }

    method PutOne(b: byte)
      requires Valid() && count < SIZE
      modifies this, buf
      ensures Valid() && readPos == old(readPos) && count == old(count) + 1 && Queue() == old(Queue()) + [b]
    {
      hide At;
      Slots(readPos, count);
      buf[writePos] := b;
      writePos := (writePos + 1) % SIZE;
      count := count + 1;
    }

    /** The copying loop of a write, from `put` on. */
    method Put(data: seq<byte>, put: nat) returns (n: nat)
      requires Valid() && put <= |data|
      modifies this, buf
      ensures Valid() && n == Min(|data| - put, SIZE - |old(Queue())|)
      ensures Queue() == old(Queue()) + data[put..put + n]
    {
      hide Queue, At;
      n := 0;
      ghost var q := Queue();
      while put + n < |data| && count < SIZE
        invariant Valid() && put + n <= |data| && count == |q| + n
        invariant Queue() == q + data[put..put + n]
        decreases SIZE - count
      {
        PutOne(data[put + n]);
        n := n + 1;
      }
    }
  }

  // ------------------------------------------------------------------------ the pipe

  class KernelPipe {
    const ring: Ring
    var readers: nat
    var writers: nat
    var freed: nat
    var ops: map<Task, Op>
    var readEnds: nat
    var writeEnds: nat
    ghost var accepted: seq<byte>
    ghost var delivered: seq<byte>

    ghost predicate Valid()
      reads this, ring
    {
      ring.Valid()
    }

    ghost function View(): State
      requires Valid()
      reads this, ring, ring.buf
    {
      State(ring.Queue(), readers, writers, freed, ops, readEnds, writeEnds, accepted, delivered)
    }

    constructor ()
      ensures Valid() && View() == FRESH
    {
      ring := new Ring();
      readers, writers, freed, ops := 1, 1, 0, map[];
      readEnds, writeEnds, accepted, delivered := 1, 1, [], [];
    }

    /** `pipe_close_read`. */
    method DropReader()
      requires Valid()
      modifies this`readers, this`ops, this`freed
      ensures Valid() && View() == CloseRead(old(View())) && ops.Keys == old(ops).Keys
    {
      if readers > 0 {
        readers := readers - 1;
      }
      if readers == 0 {
        ops := WakeWriters(ops);
      }
      if readers == 0 && writers == 0 {
        freed := freed + 1;
      }
    }

    /** `pipe_close_write`. */
    method DropWriter()
      requires Valid()
      modifies this`writers, this`ops, this`freed
      ensures Valid() && View() == CloseWrite(old(View())) && ops.Keys == old(ops).Keys
    {
      if writers > 0 {
        writers := writers - 1;
      }
      if writers == 0 {
        ops := WakeReaders(ops);
      }
      if readers == 0 && writers == 0 {
        freed := freed + 1;
      }
    }

    /** A read, from the test of its waiting loop on; `None` when it blocks or dies. */
    method RunReader(t: Task, len: nat, killed: bool) returns (r: Option<seq<byte>>)
      requires Valid() && t in ops
      modifies this`delivered, this`ops, this`readers, this`freed, ring
      ensures Valid() && View() == ReadSegment(old(View()), t, len, killed)
      ensures r.Some? ==> t !in ops && delivered == old(delivered) + r.value
      ensures r.None? <==> old(ring.Queue()) == [] && old(writers) > 0
      ensures r.Some? ==> |r.value| == if len < |old(ring.Queue())| then len else |old(ring.Queue())|
      ensures r.Some? ==> r.value + ring.Queue() == old(ring.Queue())
    {
      hide CloseRead, WakeWriters, Ring.Queue;
      if ring.count == 0 && writers > 0 {
        if killed {
          ops := ops - {t};
          DropReader();
        } else {
          ops := ops[t := Reading(len, true)];
        }
        return None;
      }
      var bytes := ring.Take(len);
      delivered := delivered + bytes;
      if |bytes| > 0 {
        ops := WakeWriters(ops);
      }
      ops := ops - {t};
      DropReader();
      return Some(bytes);
    }

    /** A write, from the top of its loop on; `None` when it blocks or dies. */
    method RunWriter(t: Task, data: seq<byte>, start: nat, killed: bool) returns (r: Option<nat>)
      requires Valid() && t in ops && start <= |data|
      modifies this`accepted, this`ops, this`writers, this`freed, ring, ring.buf
      ensures Valid() && View() == WriteSegment(old(View()), t, data, start, killed)
      ensures r.Some? ==> start <= r.value <= |data| && t !in ops && accepted == old(accepted) + data[start..r.value]
      ensures r.Some? ==> r.value == |data| || old(readers) == 0
      ensures r.None? ==> |ring.Queue()| == SIZE && old(readers) > 0
    {
      hide CloseWrite, WriteSegment, WakeReaders, Ring.Queue;
      var put := start;
      while put < |data| && readers > 0
        invariant Valid() && start <= put <= |data| && t in ops
        invariant WriteSegment(View(), t, data, put, killed) == WriteSegment(old(View()), t, data, start, killed)
        invariant accepted == old(accepted) + data[start..put]
        decreases |data| - put
      {
        ghost var s := View();
        WriteTurn(s, t, data, put, killed);
        if ring.count == SIZE {
          ops := WakeReaders(ops);
          if killed {
            ops := ops - {t};
            DropWriter();
          } else {
            ops := ops[t := Writing(data, put, true)];
          }
          return None;
        }
        var n := ring.Put(data, put);
        assert data[start..put] + data[put..put + n] == data[start..put + n];
        accepted := accepted + data[put..put + n];
        ops := WakeReaders(ops);
        put := put + n;
      }
      WriteEnd(View(), t, data, put, killed);
      ops := ops - {t};
      DropWriter();
      return Some(put);
    }
  }

  lemma WriteEnd(s: State, t: Task, data: seq<byte>, put: nat, killed: bool)
    requires put >= |data| || s.readers == 0
    ensures WriteSegment(s, t, data, put, killed) == CloseWrite(s.(ops := s.ops - {t}))
  {
  }

  /** One turn of a writer's loop. */
  lemma WriteTurn(s: State, t: Task, data: seq<byte>, put: nat, killed: bool)
    requires put < |data| && s.readers > 0
    ensures |s.queue| >= SIZE && killed ==>
              WriteSegment(s, t, data, put, killed) == CloseWrite(s.(ops := WakeReaders(s.ops) - {t}))
    ensures |s.queue| >= SIZE && !killed ==>
              WriteSegment(s, t, data, put, killed) == s.(ops := WakeReaders(s.ops)[t := Writing(data, put, true)])
    ensures |s.queue| < SIZE ==>
              var n := Min(|data| - put, SIZE - |s.queue|);
              WriteSegment(s, t, data, put, killed) ==
              WriteSegment(s.(queue := s.queue + data[put..put + n], accepted := s.accepted + data[put..put + n],
                  ops := WakeReaders(s.ops)),
                           t, data, put + n, killed)
  {
  }

  /** The slot `i` places after `start`. */
  function At(start: nat, i: nat): nat {
    (start + i) % SIZE
  }

  /** Slots seen from one place further on. */
  lemma Shift(start: nat, next: nat, n: nat)
    requires start < SIZE && next == (start + 1) % SIZE && 0 < n <= SIZE
    ensures At(start, 0) == start && At(next, n - 1) == At(start, n)
    ensures forall i :: 0 <= i < n ==> At(next, i) == At(start, i + 1)
    ensures forall i :: 0 <= i < n ==> At(start, i) < SIZE
  {
  }

  /** The next free slot is none of the slots in use. */
  lemma Slots(start: nat, n: nat)
    requires start < SIZE && n < SIZE
    ensures forall i :: 0 <= i < n ==> At(start, i) != At(start, n)
    ensures forall i :: 0 <= i <= n ==> At(start, i) < SIZE
    ensures (At(start, n) + 1) % SIZE == At(start, n + 1)
  {
  }
}
