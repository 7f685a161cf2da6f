/** The logical write-ahead log of `journal.rs`: records, transactions and replay. */
module Journal {
  import opened Bytes
  import opened Blocks
  import opened Results

  type TxId = u64

  datatype Entry =
    | Begin(txid: TxId)
    | Write(txid: TxId, block: u64, data: Block)
    | Commit(txid: TxId)

  /** Where a reader of the log stands: the open transaction, the writes it has collected, the
      writes of committed transactions in log order, and how many have committed. */
  datatype Scan = Scan(active: Option<TxId>, pending: seq<HomeWrite>,
                       committed: seq<HomeWrite>, commits: nat)

  function ScanStep(s: Scan, e: Entry): (r: Result<Scan>) {
    match e
    case Begin(t) =>
      if s.active.Some? then Err(InvalidData) else Ok(s.(active := Some(t), pending := []))
    case Write(t, b, d) =>
      if s.active != Some(t) then Err(InvalidData)
      else Ok(s.(pending := s.pending + [HomeWrite(b, d)]))
    case Commit(t) =>
      if s.active != Some(t) then Err(InvalidData)
      else Ok(Scan(None, [], s.committed + s.pending, s.commits + 1))
  }

  function ScanLog(es: seq<Entry>): (r: Result<Scan>) {
    if es == [] then Ok(Scan(None, [], [], 0))
    else
      var s :- ScanLog(es[..|es| - 1]);
      ScanStep(s, es[|es| - 1])
  }

  predicate WellFormed(es: seq<Entry>) {
    ScanLog(es).Ok?
  }

  /** The writes recovery must bring home. */
  function Committed(es: seq<Entry>): (ws: seq<HomeWrite>)
    requires WellFormed(es)
  {
    ScanLog(es).value.committed
  }

  lemma {:induction false} PrefixWellFormed(es: seq<Entry>, k: nat)
    requires k <= |es| && WellFormed(es)
    ensures WellFormed(es[..k])
  {
    if k == |es| {
      assert es[..k] == es;
    } else {
      PrefixWellFormed(es[..|es| - 1], k);
      assert es[..|es| - 1][..k] == es[..k];
    }
  }

  // ---------------------------------------------------------------- the grammar of a log

  /** A transaction as its caller thinks of it. */
  datatype Txn = Txn(id: TxId, writes: seq<HomeWrite>)

  function WriteRecords(id: TxId, ws: seq<HomeWrite>): (es: seq<Entry>)
    ensures |es| == |ws|
  {
    seq(|ws|, i requires 0 <= i < |ws| => Write(id, ws[i].block, ws[i].data))
  }

  function OpenRecords(t: Txn): (es: seq<Entry>)
    ensures |es| == 1 + |t.writes|
  {
    [Begin(t.id)] + WriteRecords(t.id, t.writes)
  }

  function Records(t: Txn): seq<Entry> {
    OpenRecords(t) + [Commit(t.id)]
  }

  function DoneLog(done: seq<Txn>): seq<Entry> {
    if done == [] then [] else DoneLog(done[..|done| - 1]) + Records(done[|done| - 1])
  }

  /** Completed transactions, then possibly one whose commit record is missing. */
  function Log(done: seq<Txn>, open: Option<Txn>): seq<Entry> {
    DoneLog(done) + (if open.Some? then OpenRecords(open.value) else [])
  }

  function AllWrites(done: seq<Txn>): seq<HomeWrite> {
    if done == [] then [] else AllWrites(done[..|done| - 1]) + done[|done| - 1].writes
  }

  function ScanOf(done: seq<Txn>, open: Option<Txn>): Scan {
    Scan(if open.Some? then Some(open.value.id) else None,
         if open.Some? then open.value.writes else [],
         AllWrites(done), |done|)
  }

  lemma ScanSnoc(es: seq<Entry>, e: Entry)
    ensures ScanLog(es + [e]) == if WellFormed(es) then ScanStep(ScanLog(es).value, e) else ScanLog(es)
  {
    assert (es + [e])[..|es|] == es;
  }

  lemma OpenSnoc(t: Txn)
    requires t.writes != []
    ensures var n := |t.writes| - 1;
            OpenRecords(t) == OpenRecords(Txn(t.id, t.writes[..n])) +
                              [Write(t.id, t.writes[n].block, t.writes[n].data)]
  {
  }

  lemma {:induction false} OpenScans(es: seq<Entry>, t: Txn)
    requires WellFormed(es) && ScanLog(es).value.active.None?
    ensures ScanLog(es + OpenRecords(t)) ==
            Ok(ScanLog(es).value.(active := Some(t.id), pending := t.writes))
    decreases |t.writes|
  {
    if t.writes == [] {
      assert OpenRecords(t) == [Begin(t.id)];
      ScanSnoc(es, Begin(t.id));
    } else {
      var n := |t.writes| - 1;
      var shorter, w := Txn(t.id, t.writes[..n]), t.writes[n];
      OpenScans(es, shorter);
      OpenSnoc(t);
      assert es + OpenRecords(t) == (es + OpenRecords(shorter)) + [Write(t.id, w.block, w.data)];
      ScanSnoc(es + OpenRecords(shorter), Write(t.id, w.block, w.data));
      assert shorter.writes + [w] == t.writes;
    }
  }

  lemma {:induction false} DoneScans(done: seq<Txn>)
    ensures ScanLog(DoneLog(done)) == Ok(ScanOf(done, None))
  {
    if done != [] {
      var t := done[|done| - 1];
      var before := DoneLog(done[..|done| - 1]);
      DoneScans(done[..|done| - 1]);
      OpenScans(before, t);
      assert DoneLog(done) == (before + OpenRecords(t)) + [Commit(t.id)];
      ScanSnoc(before + OpenRecords(t), Commit(t.id));
    }
  }

  /** Every log of the grammar is accepted, and exactly its completed transactions are replayed. */
  lemma LogScans(done: seq<Txn>, open: Option<Txn>)
    ensures ScanLog(Log(done, open)) == Ok(ScanOf(done, open))
  {
    DoneScans(done);
    if open.Some? {
      OpenScans(DoneLog(done), open.value);
    } else {
      assert Log(done, open) == DoneLog(done);
    }
  }

  /** Every accepted record list is a log of the grammar. */
  lemma {:induction false} LogParses(es: seq<Entry>) returns (done: seq<Txn>, open: Option<Txn>)
    requires WellFormed(es)
    ensures es == Log(done, open)
    ensures ScanLog(es).value == ScanOf(done, open)
  {
    if es == [] {
      done, open := [], None;
    } else {
      var e := es[|es| - 1];
      var d, o := LogParses(es[..|es| - 1]);
      done, open := Extended(d, o, e);
      assert es == es[..|es| - 1] + [e];
    }
    LogScans(done, open);
  }

  lemma Extended(done: seq<Txn>, open: Option<Txn>, e: Entry) returns (done': seq<Txn>, open': Option<Txn>)
    requires ScanStep(ScanOf(done, open), e).Ok?
    ensures Log(done', open') == Log(done, open) + [e]
  {
    done', open' := done, open;
    match e {
      case Begin(t) =>
        open' := Some(Txn(t, []));
      case Write(t, b, d) =>
        open' := Some(Txn(t, open.value.writes + [HomeWrite(b, d)]));
        OpenSnoc(open'.value);
        assert (open.value.writes + [HomeWrite(b, d)])[..|open.value.writes|] == open.value.writes;
        assert OpenRecords(open'.value) == OpenRecords(open.value) + [e];
      case Commit(t) =>
        done', open' := done + [open.value], None;
        assert done'[..|done|] == done;
        assert DoneLog(done') == DoneLog(done) + Records(open.value);
    }
  }

  // ------------------------------------------------------------------------ crash prefixes

  lemma OpenPrefix(t: Txn, j: nat) returns (open: Option<Txn>)
    requires j <= |OpenRecords(t)|
    ensures OpenRecords(t)[..j] == if open.Some? then OpenRecords(open.value) else []
  {
    if j == 0 {
      open := None;
    } else {
      open := Some(Txn(t.id, t.writes[..j - 1]));
      assert OpenRecords(t)[..j] == OpenRecords(open.value);
    }
  }

  lemma {:induction false} DonePrefix(done: seq<Txn>, k: nat) returns (m: nat, torn: Option<Txn>)
    requires k <= |DoneLog(done)|
    ensures m <= |done|
    ensures DoneLog(done)[..k] == Log(done[..m], torn)
  {
    if done == [] {
      m, torn := 0, None;
    } else if k == |DoneLog(done)| {
      m, torn := |done|, None;
      assert done[..m] == done;
    } else {
      var before, t := done[..|done| - 1], done[|done| - 1];
      var head := DoneLog(before);
      if k >= |head| {
        m := |done| - 1;
        torn := OpenPrefix(t, k - |head|);
        assert (head + Records(t))[..k] == head + OpenRecords(t)[..k - |head|];
      } else {
        m, torn := DonePrefix(before, k);
        assert (head + Records(t))[..k] == head[..k];
        assert before[..m] == done[..m];
      }
    }
  }

  /** A prefix of a log is a log: some of its completed transactions, then a torn one. */
  lemma PrefixIsLog(done: seq<Txn>, open: Option<Txn>, k: nat) returns (m: nat, torn: Option<Txn>)
    requires k <= |Log(done, open)|
    ensures m <= |done|
    ensures Log(done, open)[..k] == Log(done[..m], torn)
  {
    var head := DoneLog(done);
    if k <= |head| {
      m, torn := DonePrefix(done, k);
      assert Log(done, open)[..k] == head[..k];
    } else {
      m := |done|;
      torn := OpenPrefix(open.value, k - |head|);
      assert done[..m] == done;
      assert Log(done, open)[..k] == head + OpenRecords(open.value)[..k - |head|];
    }
  }

  /** A crash that keeps only `k` records replays a whole number of transactions: the first `m`,
      where `m` is the number of commit records kept. */
  lemma CrashPrefixIsAtomic(done: seq<Txn>, open: Option<Txn>, k: nat)
    requires k <= |Log(done, open)|
    ensures var kept := Log(done, open)[..k];
            && WellFormed(kept)
            && ScanLog(kept).value.commits <= |done|
            && Committed(kept) == AllWrites(done[..ScanLog(kept).value.commits])
  {
    var m, torn := PrefixIsLog(done, open, k);
    LogScans(done[..m], torn);
  }

  // ------------------------------------------------------------------------ replay_into

  function ApplyMap(home: map<u64, Block>, ws: seq<HomeWrite>): map<u64, Block> {
    if ws == [] then home
    else ApplyMap(home, ws[..|ws| - 1])[ws[|ws| - 1].block := ws[|ws| - 1].data]
  }

  lemma {:induction false} ApplyMapConcat(home: map<u64, Block>, a: seq<HomeWrite>, b: seq<HomeWrite>)
    ensures ApplyMap(home, a + b) == ApplyMap(ApplyMap(home, a), b)
  {
    if b == [] {
      assert a + b == a;
    } else {
      ApplyMapConcat(home, a, b[..|b| - 1]);
      assert (a + b)[..|a + b| - 1] == a + b[..|b| - 1];
    }
  }

  method Drain(home: map<u64, Block>, pending: seq<HomeWrite>) returns (out: map<u64, Block>)
    ensures out == ApplyMap(home, pending)
  {
    out := home;
    var j := 0;
    while j < |pending|
      invariant 0 <= j <= |pending|
      invariant out == ApplyMap(home, pending[..j])
    {
      out := out[pending[j].block := pending[j].data];
      assert pending[..j + 1][..j] == pending[..j];
      j := j + 1;
    }
    assert pending[..j] == pending;
  }

  /** Replay accepts exactly the well-formed logs.  It brings the committed writes home in log
      order; on a malformed log it has applied what committed before the offending record. */
  method ReplayInto(es: seq<Entry>, home: map<u64, Block>) returns (r: Result<nat>, out: map<u64, Block>)
    ensures r.Ok? <==> WellFormed(es)
    ensures r.Ok? ==> r.value == ScanLog(es).value.commits && out == ApplyMap(home, Committed(es))
    ensures r.Err? ==> exists k :: 0 <= k < |es| && WellFormed(es[..k]) && !WellFormed(es[..k + 1]) &&
                                   out == ApplyMap(home, Committed(es[..k]))
  {
    var active: Option<TxId> := None;
    var pending: seq<HomeWrite> := [];
    var replayed := 0;
    out := home;
    var i := 0;
    ghost var s := Scan(None, [], [], 0);
    while i < |es|
      invariant 0 <= i <= |es|
      invariant ScanLog(es[..i]) == Ok(s)
      invariant s.active == active && s.commits == replayed
      invariant s.pending == if active.Some? then pending else []
      invariant out == ApplyMap(home, s.committed)
    {
      hide ScanLog;
      hide ApplyMap;
      var e := es[i];
      assert es[..i + 1] == es[..i] + [e];
      ScanSnoc(es[..i], e);
      if (if e.Begin? then active.Some? else active != Some(e.txid)) {
        RejectedPrefix(es, i + 1);
        return Err(InvalidData), out;
      }
      match e {
        case Begin(t) =>
          active := Some(t);
          pending := [];
        case Write(t, b, d) =>
          pending := pending + [HomeWrite(b, d)];
        case Commit(t) =>
          ApplyMapConcat(home, s.committed, pending);
          out := Drain(out, pending);
          active := None;
          replayed := replayed + 1;
      }
      s := ScanStep(s, e).value;
      i := i + 1;
    }
    assert es[..|es|] == es;
    return Ok(replayed), out;
  }

  lemma RejectedPrefix(es: seq<Entry>, k: nat)
    requires k <= |es| && !WellFormed(es[..k])
    ensures !WellFormed(es)
  {
    if WellFormed(es) {
      PrefixWellFormed(es, k);
    }
  }

  // ------------------------------------------------------------------------ JournalLog

  class JournalLog {
    var entries: seq<Entry>
    var active: Option<TxId>
    var nextTxid: TxId
    ghost var done: seq<Txn>
    ghost var open: Option<Txn>

    /** The log is the grammar's rendering of the transactions so far. */
    ghost predicate Valid()
      reads this
    {
      && entries == Log(done, open)
      && active == (if open.Some? then Some(open.value.id) else None)
    }

    constructor ()
      ensures Valid() && done == [] && open == None && nextTxid == 0
    {
      entries, active, nextTxid := [], None, 0;
      done, open := [], None;
    }

    method Begin() returns (r: Result<TxId>)
      requires Valid()
      modifies this
      ensures Valid()
      ensures r.Ok? <==> old(active).None? && old(nextTxid) + 1 < U64_LIMIT
      ensures old(active).Some? ==> r == Err(WouldBlock)
      ensures r.Ok? ==> r.value == old(nextTxid) && nextTxid == r.value + 1
      ensures r.Ok? ==> done == old(done) && open == Some(Txn(r.value, []))
      ensures r.Err? ==> unchanged(this)
    {
      if active.Some? {
        return Err(WouldBlock);
      }
      var txid := nextTxid;
      if nextTxid + 1 >= U64_LIMIT {
        return Err(Other);
      }
      nextTxid := nextTxid + 1;
      entries := entries + [Entry.Begin(txid)];
      active := Some(txid);
      open := Some(Txn(txid, []));
      return Ok(txid);
    }

    method Write(txid: TxId, block: u64, data: Block) returns (r: Result<()>)
      requires Valid()
      modifies this
      ensures Valid() && nextTxid == old(nextTxid)
      ensures r.Ok? <==> old(active) == Some(txid)
      ensures r.Ok? ==> done == old(done) && open == Some(Txn(txid, old(open).value.writes + [HomeWrite(block, data)]))
      ensures r.Err? ==> r == Err(InvalidInput) && unchanged(this)
    {
      if active != Some(txid) {
        return Err(InvalidInput);
      }
      entries := entries + [Entry.Write(txid, block, data)];
      open := Some(Txn(txid, open.value.writes + [HomeWrite(block, data)]));
      assert WriteRecords(txid, open.value.writes) ==
             WriteRecords(txid, old(open).value.writes) + [Entry.Write(txid, block, data)];
      return Ok(());
    }

    method Commit(txid: TxId) returns (r: Result<()>)
      requires Valid()
      modifies this
      ensures Valid() && nextTxid == old(nextTxid)
      ensures r.Ok? <==> old(active) == Some(txid)
      ensures r.Ok? ==> done == old(done) + [old(open).value] && open == None
      ensures r.Err? ==> r == Err(InvalidInput) && unchanged(this)
    {
      if active != Some(txid) {
        return Err(InvalidInput);
      }
      entries := entries + [Entry.Commit(txid)];
      active := None;
      done, open := done + [open.value], None;
      assert done[..|done| - 1] == old(done);
      return Ok(());
    }

    /** The records a crash after `durable` of them leaves behind replay the transactions whose
        commit record is among them, and nothing of any other. */
    method CrashPrefix(durable: nat) returns (r: Result<seq<Entry>>)
      requires Valid()
      ensures r.Ok? <==> durable <= |entries|
      ensures r.Ok? ==> r.value == entries[..durable] && WellFormed(r.value)
      ensures r.Ok? ==> ScanLog(r.value).value.commits <= |done| &&
                        Committed(r.value) == AllWrites(done[..ScanLog(r.value).value.commits])
      ensures r.Err? ==> r == Err(InvalidInput)
    {
      if durable > |entries| {
        return Err(InvalidInput);
      }
      CrashPrefixIsAtomic(done, open, durable);
      return Ok(entries[..durable]);
    }
  }
}
