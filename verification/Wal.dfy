/** Crash atomicity of journaled transactions, over whole runs. */
module Wal {
  import opened Bytes
  import opened Blocks
  import opened Results
  import opened Format
  import opened Journal
  import opened JournalRegion
  import opened Device
  import opened Crash

  // ------------------------------------------------------------------------ device step lists

  /** Queue some writes, then flush. */
  function Phase(ws: seq<HomeWrite>): (ops: seq<Op>)
    ensures |ops| == |ws| + 1
  {
    Puts(ws) + [Sync]
  }

  function StoreOps(crc: Checksum, sb: Superblock, es: seq<Entry>): (ops: seq<Op>)
    requires RegionOk(sb, sb.totalBlocks) && Fits(crc, Capacity(sb), es)
    ensures |ops| == sb.journalBlocks + 1
  {
    Phase(StoreWrites(sb, RegionImage(crc, Capacity(sb), es)))
  }

  function RecoverOps(ws: seq<HomeWrite>): seq<Op> {
    if ws == [] then [] else Phase(ws)
  }

  function CheckpointOps(sb: Superblock, es: seq<Entry>): seq<Op>
    requires RegionOk(sb, sb.totalBlocks)
  {
    if es == [] then [] else Phase(CheckpointWrites(sb))
  }

  function RecoveryOps(sb: Superblock, es: seq<Entry>, checkpoint: bool): seq<Op>
    requires RegionOk(sb, sb.totalBlocks) && WellFormed(es)
  {
    RecoverOps(Committed(es)) + if checkpoint then CheckpointOps(sb, es) else []
  }

  /** The log of one transaction: a fresh `JournalLog` numbers it zero. */
  function TxEntries(changed: seq<HomeWrite>): seq<Entry> {
    DoneLog([Txn(0, changed)])
  }

  function TxOps(crc: Checksum, sb: Superblock, changed: seq<HomeWrite>, checkpoint: bool): seq<Op>
    requires RegionOk(sb, sb.totalBlocks) && Fits(crc, Capacity(sb), TxEntries(changed))
  {
    TxCommits(changed);
    StoreOps(crc, sb, TxEntries(changed)) + RecoveryOps(sb, TxEntries(changed), checkpoint)
  }

  lemma TxCommits(changed: seq<HomeWrite>)
    ensures WellFormed(TxEntries(changed)) && Committed(TxEntries(changed)) == changed
    ensures ScanLog(TxEntries(changed)).value.commits == 1
    ensures TxEntries(changed) == Records(Txn(0, changed)) != []
  {
    var t := Txn(0, changed);
    DoneScans([t]);
    assert [t][..0] == [];
    assert AllWrites([t]) == [] + changed == changed;
    assert DoneLog([t]) == [] + Records(t) == Records(t);
  }

  lemma TxAdmissible(sb: Superblock, changed: seq<HomeWrite>)
    requires AllHome(sb, changed)
    ensures Admissible(sb, TxEntries(changed))
  {
    TxCommits(changed);
  }

  // ------------------------------------------------------------------------ cutting a step list

  lemma PhasePart(blocks: seq<Block>, ws: seq<HomeWrite>, k: nat)
    requires InRange(ws, |blocks|) && k <= |ws|
    ensures OpsFit(Phase(ws)[..k], |blocks|)
    ensures Run(Disk(blocks, []), Phase(ws)[..k]) == Disk(blocks, ws[..k])
  {
    hide Run;
    assert Phase(ws)[..k] == Puts(ws[..k]);
    RunPuts(Disk(blocks, []), ws[..k]);
    assert [] + ws[..k] == ws[..k];
  }

  lemma PhaseWhole(blocks: seq<Block>, ws: seq<HomeWrite>)
    requires InRange(ws, |blocks|)
    ensures OpsFit(Phase(ws), |blocks|)
    ensures Run(Disk(blocks, []), Phase(ws)) == Disk(Apply(blocks, ws), [])
  {
    hide Apply;
    PhasePart(blocks, ws, |ws|);
    assert ws[..|ws|] == ws;
  }

  lemma PhaseCut(blocks: seq<Block>, ws: seq<HomeWrite>, k: nat)
    requires InRange(ws, |blocks|) && k <= |ws| + 1
    ensures OpsFit(Phase(ws)[..k], |blocks|)
    ensures Run(Disk(blocks, []), Phase(ws)[..k]) ==
            if k <= |ws| then Disk(blocks, ws[..k]) else Disk(Apply(blocks, ws), [])
  {
    hide Run, Apply;
    if k <= |ws| {
      PhasePart(blocks, ws, k);
    } else {
      PhaseWhole(blocks, ws);
      assert Phase(ws)[..k] == Phase(ws);
    }
  }

  lemma RunNothing(blocks: seq<Block>)
    ensures Run(Disk(blocks, []), []) == Disk(blocks, [])
    ensures Apply(blocks, []) == blocks
  {
  }

  lemma ConcatCut(d: Disk, a: seq<Op>, b: seq<Op>, k: nat)
    requires Sane(d) && OpsFit(a, |d.durable|) && OpsFit(b, |d.durable|) && k <= |a| + |b|
    ensures OpsFit((a + b)[..k], |d.durable|)
    ensures Run(d, (a + b)[..k]) == if k <= |a| then Run(d, a[..k]) else Run(Run(d, a), b[..k - |a|])
  {
    if k <= |a| {
      assert (a + b)[..k] == a[..k];
    } else {
      assert (a + b)[..k] == a + b[..k - |a|];
      RunConcat(d, a, b[..k - |a|]);
    }
  }

  /** Whatever a crash leaves of `d` stands for `h`. */
  ghost predicate Stands(crc: Checksum, sb: Superblock, d: Disk, h: seq<Block>)
    requires Mounted(sb, |d.durable|)
  {
    forall c :: CrashImage(sb, d, c) ==> Load(crc, sb, c).Ok? && Abs(crc, sb, c) == h
  }

  lemma JournalPhaseStands(crc: Checksum, sb: Superblock, blocks: seq<Block>, ws: seq<HomeWrite>)
    requires Mounted(sb, |blocks|) && Load(crc, sb, blocks).Ok? && AllJournal(sb, ws)
    ensures Stands(crc, sb, Disk(blocks, ws), Abs(crc, sb, blocks))
  {
    forall c | CrashImage(sb, Disk(blocks, ws), c) ensures c == blocks {
      JournalQueueLost(sb, blocks, ws, c);
    }
  }

  lemma HomePhaseStands(crc: Checksum, sb: Superblock, blocks: seq<Block>, ws: seq<HomeWrite>, k: nat)
    requires Mounted(sb, |blocks|) && Load(crc, sb, blocks).Ok?
    requires ws == Committed(Load(crc, sb, blocks).value) && k <= |ws|
    ensures Stands(crc, sb, Disk(blocks, ws[..k]), Abs(crc, sb, blocks))
  {
    forall c | CrashImage(sb, Disk(blocks, ws[..k]), c)
      ensures Load(crc, sb, c).Ok? && Abs(crc, sb, c) == Abs(crc, sb, blocks)
    {
      PartialReplay(crc, sb, blocks, ws, k, c);
    }
  }

  // ------------------------------------------------------------------------ recovery and checkpoint

  /** Recovery leaves the state alone at every step, and ends with home showing it. */
  lemma RecoverStands(crc: Checksum, sb: Superblock, blocks: seq<Block>, ws: seq<HomeWrite>, k: nat)
    requires Mounted(sb, |blocks|) && Load(crc, sb, blocks).Ok?
    requires ws == Committed(Load(crc, sb, blocks).value) && k <= |RecoverOps(ws)|
    ensures OpsFit(RecoverOps(ws), |blocks|)
    ensures Run(Disk(blocks, []), RecoverOps(ws)) == Disk(Replayed(crc, sb, blocks), [])
    ensures Stands(crc, sb, Run(Disk(blocks, []), RecoverOps(ws)[..k]), Abs(crc, sb, blocks))
  {
    hide Run, Apply, Load, Committed, Strip;
    HomeInRange(sb, Load(crc, sb, blocks).value);
    FullReplay(crc, sb, blocks);
    if ws == [] {
      RunNothing(blocks);
      assert RecoverOps(ws)[..k] == [];
      assert ws[..0] == [];
      HomePhaseStands(crc, sb, blocks, ws, 0);
    } else {
      PhaseWhole(blocks, ws);
      PhaseCut(blocks, ws, k);
      if k <= |ws| {
        HomePhaseStands(crc, sb, blocks, ws, k);
      } else {
        JournalPhaseStands(crc, sb, Replayed(crc, sb, blocks), []);
      }
    }
  }

  lemma EmptyJournalQuiescent(crc: Checksum, sb: Superblock, blocks: seq<Block>)
    requires Mounted(sb, |blocks|) && Load(crc, sb, blocks) == Ok([])
    ensures Quiescent(crc, sb, blocks)
  {
  }

  /** Checkpointing a quiescent disk leaves the state alone at every step, and empties the journal. */
  lemma CheckpointStands(crc: Checksum, sb: Superblock, blocks: seq<Block>, es: seq<Entry>, k: nat)
    requires Mounted(sb, |blocks|) && Quiescent(crc, sb, blocks) && Load(crc, sb, blocks) == Ok(es)
    requires k <= |CheckpointOps(sb, es)|
    ensures OpsFit(CheckpointOps(sb, es), |blocks|)
    ensures var after := Run(Disk(blocks, []), CheckpointOps(sb, es));
            && after.pending == [] && |after.durable| == |blocks|
            && Load(crc, sb, after.durable) == Ok([])
            && Quiescent(crc, sb, after.durable)
            && Strip(sb, after.durable) == Strip(sb, blocks)
    ensures Stands(crc, sb, Run(Disk(blocks, []), CheckpointOps(sb, es)[..k]), Abs(crc, sb, blocks))
  {
    hide Run, Apply, Load, Committed, Strip;
    if es == [] {
      RunNothing(blocks);
      assert CheckpointOps(sb, es)[..k] == [];
      JournalPhaseStands(crc, sb, blocks, []);
    } else {
      var ws := CheckpointWrites(sb);
      CheckpointInstalls(crc, sb, blocks);
      PhaseWhole(blocks, ws);
      EmptyJournalQuiescent(crc, sb, Apply(blocks, ws));
      PhaseCut(blocks, ws, k);
      if k <= |ws| {
        JournalPhaseStands(crc, sb, blocks, ws[..k]);
      } else {
        JournalPhaseStands(crc, sb, Apply(blocks, ws), []);
      }
    }
  }

  /** Recovery, with or without a checkpoint, cut anywhere. */
  lemma RecoveryStands(crc: Checksum, sb: Superblock, blocks: seq<Block>, es: seq<Entry>, checkpoint: bool, k: nat)
    requires Mounted(sb, |blocks|) && Load(crc, sb, blocks) == Ok(es)
    requires k <= |RecoveryOps(sb, es, checkpoint)|
    ensures OpsFit(RecoveryOps(sb, es, checkpoint), |blocks|)
    ensures Stands(crc, sb, Run(Disk(blocks, []), RecoveryOps(sb, es, checkpoint)[..k]), Abs(crc, sb, blocks))
    ensures var after := Run(Disk(blocks, []), RecoveryOps(sb, es, checkpoint));
            && after.pending == [] && |after.durable| == |blocks|
            && Quiescent(crc, sb, after.durable)
            && Strip(sb, after.durable) == Abs(crc, sb, blocks)
            && Load(crc, sb, after.durable) == Ok(if checkpoint then [] else es)
  {
    var d, a := Disk(blocks, []), RecoverOps(Committed(es));
    var b := if checkpoint then CheckpointOps(sb, es) else [];
    var mid := Replayed(crc, sb, blocks);
    FullReplay(crc, sb, blocks);
    RecoverStands(crc, sb, blocks, Committed(es), if k <= |a| then k else |a|);
    if checkpoint {
      CheckpointStands(crc, sb, mid, es, if k <= |a| then 0 else k - |a|);
    }
    ConcatCut(d, a, b, k);
    RunConcat(d, a, b);
  }

  // ------------------------------------------------------------------------ one transaction

  /** A transaction the journal can hold. */
  predicate Publishable(crc: Checksum, sb: Superblock, changed: seq<HomeWrite>) {
    changed != [] && AllHome(sb, changed) && Fits(crc, Capacity(sb), TxEntries(changed))
  }

  /** Publishing a journal image is the one step that changes the state: its last, the flush. */
  lemma StoreStands(crc: Checksum, sb: Superblock, blocks: seq<Block>, es: seq<Entry>, k: nat)
    requires Mounted(sb, |blocks|) && Quiescent(crc, sb, blocks)
    requires Admissible(sb, es) && Fits(crc, Capacity(sb), es)
    requires k <= sb.journalBlocks
    ensures OpsFit(StoreOps(crc, sb, es), |blocks|)
    ensures Stands(crc, sb, Run(Disk(blocks, []), StoreOps(crc, sb, es)[..k]), Strip(sb, blocks))
    ensures var after := Run(Disk(blocks, []), StoreOps(crc, sb, es));
            && after.pending == [] && |after.durable| == |blocks|
            && Load(crc, sb, after.durable) == Ok(es)
            && Strip(sb, after.durable) == Strip(sb, blocks)
  {
    hide Run, Apply, Load, Committed, Strip, RegionImage, StoreWrites;
    var ws := StoreWrites(sb, RegionImage(crc, Capacity(sb), es));
    StoreInstalls(crc, sb, blocks, es);
    PhaseWhole(blocks, ws);
    PhasePart(blocks, ws, k);
    JournalPhaseStands(crc, sb, blocks, ws[..k]);
  }

  /** Cut after any number of device steps, the disk stands for the state before the transaction,
      or -- once the journal flush is among the steps -- for the state after it. */
  lemma CutTransaction(crc: Checksum, sb: Superblock, blocks: seq<Block>, changed: seq<HomeWrite>, checkpoint: bool,
                       k: nat)
    requires Mounted(sb, |blocks|) && Quiescent(crc, sb, blocks) && Publishable(crc, sb, changed)
    requires k <= |TxOps(crc, sb, changed, checkpoint)|
    ensures InRange(changed, |blocks|)
    ensures OpsFit(TxOps(crc, sb, changed, checkpoint), |blocks|)
    ensures Stands(crc, sb, Run(Disk(blocks, []), TxOps(crc, sb, changed, checkpoint)[..k]),
                   if k <= sb.journalBlocks then Strip(sb, blocks) else Apply(Strip(sb, blocks), changed))
    ensures var after := Run(Disk(blocks, []), TxOps(crc, sb, changed, checkpoint));
            && after.pending == [] && |after.durable| == |blocks|
            && Quiescent(crc, sb, after.durable)
            && Strip(sb, after.durable) == Apply(Strip(sb, blocks), changed)
            && Load(crc, sb, after.durable) == Ok(if checkpoint then [] else TxEntries(changed))
  {
    hide Run, Apply, Load, Committed, Strip, Stands, StoreOps, RecoveryOps, TxEntries;
    var es := TxEntries(changed);
    TxCommits(changed);
    TxAdmissible(sb, changed);
    HomeInRange(sb, es);
    var a, b := StoreOps(crc, sb, es), RecoveryOps(sb, es, checkpoint);
    var d := Disk(blocks, []);
    StoreStands(crc, sb, blocks, es, if k <= sb.journalBlocks then k else 0);
    var mid := Run(d, a).durable;
    assert Run(d, a) == Disk(mid, []);
    assert Abs(crc, sb, mid) == Apply(Strip(sb, blocks), changed);
    RecoveryStands(crc, sb, mid, es, checkpoint, if k <= |a| then 0 else k - |a|);
    ConcatCut(d, a, b, k);
    RunConcat(d, a, b);
    if k == |a| {
      assert a[..k] == a && b[..0] == [];
      RunNothing(mid);
    }
  }

  // ------------------------------------------------------------------------ whole runs

  /** What can happen to a disk: a transaction or a recovery runs to its end, or is cut after `k`
      device steps by a power loss that leaves `image`. */
  datatype Event =
    | Tx(changed: seq<HomeWrite>, checkpoint: bool)
    | TxCut(changed: seq<HomeWrite>, checkpoint: bool, k: nat, image: seq<Block>)
    | Recover(checkpoint: bool)
    | RecoverCut(checkpoint: bool, k: nat, image: seq<Block>)

  /** `ready` says that nothing was cut since the last completed event; only then may the next
      transaction start. */
  datatype State = State(blocks: seq<Block>, ready: bool)

  predicate Good(crc: Checksum, sb: Superblock, s: State) {
    && Mounted(sb, |s.blocks|)
    && Load(crc, sb, s.blocks).Ok?
    && (s.ready ==> Quiescent(crc, sb, s.blocks))
  }

  function EventOps(crc: Checksum, sb: Superblock, s: State, e: Event): seq<Op>
    requires Good(crc, sb, s)
    requires e.Tx? || e.TxCut? ==> Publishable(crc, sb, e.changed)
  {
    if e.Tx? || e.TxCut? then TxOps(crc, sb, e.changed, e.checkpoint)
    else RecoveryOps(sb, Load(crc, sb, s.blocks).value, e.checkpoint)
  }

  lemma EventOpsFit(crc: Checksum, sb: Superblock, s: State, e: Event)
    requires Good(crc, sb, s)
    requires e.Tx? || e.TxCut? ==> Publishable(crc, sb, e.changed)
    ensures OpsFit(EventOps(crc, sb, s, e), |s.blocks|)
  {
    hide Run, Apply, Load, Committed, Strip, RegionImage, StoreWrites, CheckpointWrites, TxEntries, Admissible;
    CheckpointInstalls(crc, sb, s.blocks);
    PhaseWhole(s.blocks, CheckpointWrites(sb));
    var es := if e.Tx? || e.TxCut? then TxEntries(e.changed) else Load(crc, sb, s.blocks).value;
    if e.Tx? || e.TxCut? {
      TxCommits(e.changed);
      TxAdmissible(sb, e.changed);
      StoreInstalls(crc, sb, s.blocks, es);
      PhaseWhole(s.blocks, StoreWrites(sb, RegionImage(crc, Capacity(sb), es)));
    }
    AdmissibleIsWellFormed(sb, es);
    HomeInRange(sb, es);
    PhaseWhole(s.blocks, Committed(es));
  }

  lemma AdmissibleIsWellFormed(sb: Superblock, es: seq<Entry>)
    requires Admissible(sb, es)
    ensures WellFormed(es)
  {
  }

  ghost predicate Legal(crc: Checksum, sb: Superblock, s: State, e: Event)
    requires Good(crc, sb, s)
  {
    && (e.Tx? || e.TxCut? ==> s.ready && Publishable(crc, sb, e.changed))
    && (e.TxCut? || e.RecoverCut? ==>
          && e.k <= |EventOps(crc, sb, s, e)|
          && (EventOpsFit(crc, sb, s, e);
              CrashImage(sb, Run(Disk(s.blocks, []), EventOps(crc, sb, s, e)[..e.k]), e.image)))
  }

  function Next(crc: Checksum, sb: Superblock, s: State, e: Event): State
    requires Good(crc, sb, s)
    requires e.Tx? || e.TxCut? ==> Publishable(crc, sb, e.changed)
  {
    EventOpsFit(crc, sb, s, e);
    if e.TxCut? || e.RecoverCut? then State(e.image, false)
    else State(Run(Disk(s.blocks, []), EventOps(crc, sb, s, e)).durable, true)
  }

  /** What an event does to the state a user sees. */
  function Effect(sb: Superblock, h: seq<Block>, e: Event): (r: seq<Block>)
    requires e.Tx? || e.TxCut? ==> InRange(e.changed, |h|)
    ensures |r| == |h|
  {
    match e
    case Tx(changed, _) => Apply(h, changed)
    case TxCut(changed, _, k, _) => if k <= sb.journalBlocks then h else Apply(h, changed)
    case _ => h
  }

  lemma EventIsAtomic(crc: Checksum, sb: Superblock, s: State, e: Event)
    requires Good(crc, sb, s) && Legal(crc, sb, s, e)
    ensures e.Tx? || e.TxCut? ==> InRange(e.changed, |s.blocks|)
    ensures Good(crc, sb, Next(crc, sb, s, e))
    ensures |Next(crc, sb, s, e).blocks| == |s.blocks|
    ensures Abs(crc, sb, Next(crc, sb, s, e).blocks) == Effect(sb, Abs(crc, sb, s.blocks), e)
  {
    var k := if e.TxCut? || e.RecoverCut? then e.k else 0;
    if e.Tx? || e.TxCut? {
      CutTransaction(crc, sb, s.blocks, e.changed, e.checkpoint, k);
    } else {
      RecoveryStands(crc, sb, s.blocks, Load(crc, sb, s.blocks).value, e.checkpoint, k);
    }
  }

  ghost predicate LegalRun(crc: Checksum, sb: Superblock, s: State, es: seq<Event>)
    decreases |es|
  {
    es != [] ==> Good(crc, sb, s) && Legal(crc, sb, s, es[0]) && LegalRun(crc, sb, Next(crc, sb, s, es[0]), es[1..])
  }

  ghost function Final(crc: Checksum, sb: Superblock, s: State, es: seq<Event>): State
    requires LegalRun(crc, sb, s, es)
    decreases |es|
  {
    if es == [] then s else Final(crc, sb, Next(crc, sb, s, es[0]), es[1..])
  }

  ghost predicate EventsFit(es: seq<Event>, count: nat) {
    forall i :: 0 <= i < |es| && (es[i].Tx? || es[i].TxCut?) ==> InRange(es[i].changed, count)
  }

  ghost function Effects(sb: Superblock, h: seq<Block>, es: seq<Event>): (r: seq<Block>)
    requires EventsFit(es, |h|)
    ensures |r| == |h|
    decreases |es|
  {
    if es == [] then h else Effects(sb, Effect(sb, h, es[0]), es[1..])
  }

  /** Over every run, the disk stands for the initial state with exactly the completed
      transactions and the interrupted ones whose journal flush had succeeded, in order; and
      whenever the run is not in the middle of something, home shows that state. */
  lemma {:induction false} RunIsAtomic(crc: Checksum, sb: Superblock, s: State, es: seq<Event>)
    requires Good(crc, sb, s) && LegalRun(crc, sb, s, es)
    ensures EventsFit(es, |s.blocks|)
    ensures var end := Final(crc, sb, s, es);
            && Good(crc, sb, end) && |end.blocks| == |s.blocks|
            && Abs(crc, sb, end.blocks) == Effects(sb, Abs(crc, sb, s.blocks), es)
            && (end.ready ==> Strip(sb, end.blocks) == Effects(sb, Abs(crc, sb, s.blocks), es))
    decreases |es|
  {
    if es != [] {
      var next := Next(crc, sb, s, es[0]);
      EventIsAtomic(crc, sb, s, es[0]);
      RunIsAtomic(crc, sb, next, es[1..]);
      assert forall i :: 1 <= i < |es| ==> es[i] == es[1..][i - 1];
    }
  }
}
