/** Block devices with an explicit durability boundary (`block.rs`, and the volatile write queue of
    the mock device in `cache.rs`). */
module Device {
  import opened Bytes
  import opened Blocks
  import opened Results

  /** `durable` survives power loss; `pending` holds the writes issued since the last flush. */
  datatype Disk = Disk(durable: seq<Block>, pending: seq<HomeWrite>)

  datatype Op = Put(w: HomeWrite) | Sync

  predicate Sane(d: Disk) {
    InRange(d.pending, |d.durable|)
  }

  predicate OpFits(op: Op, count: nat) {
    op.Put? ==> op.w.block < count
  }

  predicate OpsFit(ops: seq<Op>, count: nat) {
    forall i :: 0 <= i < |ops| ==> OpFits(ops[i], count)
  }

  function Step(d: Disk, op: Op): (r: Disk)
    requires Sane(d) && OpFits(op, |d.durable|)
    ensures Sane(r) && |r.durable| == |d.durable|
  {
    match op
    case Put(w) => d.(pending := d.pending + [w])
    case Sync => Disk(Apply(d.durable, d.pending), [])
  }

  function Run(d: Disk, ops: seq<Op>): (r: Disk)
    requires Sane(d) && OpsFit(ops, |d.durable|)
    ensures Sane(r) && |r.durable| == |d.durable|
  {
    if ops == [] then d else Step(Run(d, ops[..|ops| - 1]), ops[|ops| - 1])
  }

  function Puts(ws: seq<HomeWrite>): (ops: seq<Op>)
    ensures |ops| == |ws|
    ensures forall i :: 0 <= i < |ws| ==> ops[i] == Put(ws[i])
  {
    seq(|ws|, i requires 0 <= i < |ws| => Put(ws[i]))
  }

  lemma {:induction false} RunConcat(d: Disk, a: seq<Op>, b: seq<Op>)
    requires Sane(d) && OpsFit(a, |d.durable|) && OpsFit(b, |d.durable|)
    ensures OpsFit(a + b, |d.durable|)
    ensures Run(d, a + b) == Run(Run(d, a), b)
  {
    if b == [] {
      assert a + b == a;
    } else {
      RunConcat(d, a, b[..|b| - 1]);
      assert (a + b)[..|a + b| - 1] == a + b[..|b| - 1];
    }
  }

  lemma {:induction false} RunPuts(d: Disk, ws: seq<HomeWrite>)
    requires Sane(d) && InRange(ws, |d.durable|)
    ensures Run(d, Puts(ws)) == d.(pending := d.pending + ws)
  {
    if ws == [] {
      assert d.pending + ws == d.pending;
    } else {
      RunPuts(d, ws[..|ws| - 1]);
      assert Puts(ws)[..|ws| - 1] == Puts(ws[..|ws| - 1]);
      assert d.pending + ws == d.pending + ws[..|ws| - 1] + [ws[|ws| - 1]];
    }
  }

  /** A device whose every operation may fail.  `log` records the operations that took effect, so
      `disk` is always what they lead to from `boot`. */
  class BlockDevice {
    var disk: Disk
    /** Whether operations may fail at all. */
    const faulty: bool
    ghost const boot: Disk
    ghost var log: seq<Op>

    ghost predicate Valid()
      reads this
    {
      && Sane(boot) && OpsFit(log, |boot.durable|)
      && disk == Run(boot, log)
    }

    constructor (blocks: seq<Block>, mayFail: bool)
      ensures Valid() && disk == boot == Disk(blocks, []) && log == [] && faulty == mayFail
    {
      disk, boot, log, faulty := Disk(blocks, []), Disk(blocks, []), [], mayFail;
    }

    function BlockCount(): nat
      reads this
    {
      |disk.durable|
    }

    /** Serves a durable or a queued value of the block; which, while a write to it is queued, is
        up to the device. */
    method ReadBlock(block: u64) returns (r: Result<Block>)
      requires Valid()
      ensures r.Ok? ==> block < BlockCount() &&
                        (r.value == disk.durable[block] || HomeWrite(block, r.value) in disk.pending)
      ensures r.Err? ==> r == Err(Other)
      ensures !faulty && block < BlockCount() ==> r.Ok?
    {
      if block >= BlockCount() {
        return Err(Other);
      }
      var fault: bool, queued: bool := *, *;
      if faulty && fault {
        return Err(Other);
      }
      var last := LastWrite(disk.pending, block);
      if queued && last.Some? {
        assert HomeWrite(block, last.value) in disk.pending;
        return Ok(last.value);
      }
      return Ok(disk.durable[block]);
    }

    /** A failed operation has either had its whole effect or none. */
    method WriteBlock(block: u64, data: Block) returns (ok: bool)
      requires Valid()
      modifies this
      ensures Valid()
      ensures ok ==> log == old(log) + [Put(HomeWrite(block, data))]
      ensures !ok ==> log == old(log) || log == old(log) + [Put(HomeWrite(block, data))]
      ensures BlockCount() == old(BlockCount())
      ensures block >= BlockCount() ==> !ok && log == old(log)
      ensures !faulty && block < BlockCount() ==> ok
    {
      if block >= BlockCount() {
        return false;
      }
      var fault: bool, queued: bool := *, *;
      fault := faulty && fault;
      if !fault || queued {
        var op := Put(HomeWrite(block, data));
        RunConcat(boot, log, [op]);
        assert Run(disk, [op]) == Step(disk, op) by { assert [op][..0] == []; }
        disk := Step(disk, op);
        log := log + [op];
      }
      return !fault;
    }

    method Flush() returns (ok: bool)
      requires Valid()
      modifies this
      ensures Valid()
      ensures ok ==> log == old(log) + [Sync]
      ensures !ok ==> log == old(log) || log == old(log) + [Sync]
      ensures BlockCount() == old(BlockCount())
      ensures !faulty ==> ok
    {
      var fault: bool, landed: bool := *, *;
      fault := faulty && fault;
      if !fault || landed {
        RunConcat(boot, log, [Sync]);
        assert Run(disk, [Sync]) == Step(disk, Sync) by { assert [Sync][..0] == []; }
        disk := Step(disk, Sync);
        log := log + [Sync];
      }
      return !fault;
    }
  }
}
