/** The write-back buffer cache (`cache.rs`) over a device with a volatile write queue. */
module Cache {
  import opened Blocks
  import opened Results

  // ------------------------------------------------------------------------ what the cache should be

  /** A plain block map with a durability point. */
  datatype Plain = Plain(now: seq<Block>, synced: seq<Block>)

  datatype Event =
    | ReadOk(block: nat, data: Block)
    | WriteOk(block: nat, data: Block)
    | FlushOk
    | Nothing  // failed operations, write-back of one block, eviction

  /** The event could happen here: a read returns the current contents. */
  predicate Possible(p: Plain, e: Event) {
    && (e.ReadOk? ==> e.block < |p.now| && e.data == p.now[e.block])
    && (e.WriteOk? ==> e.block < |p.now|)
  }

  function PlainStep(p: Plain, e: Event): (r: Plain)
    requires Possible(p, e)
    ensures |r.now| == |p.now|
  {
    match e
    case WriteOk(b, d) => p.(now := p.now[b := d])
    case FlushOk => p.(synced := p.now)
    case ReadOk(_, _) => p
    case Nothing => p
  }

  /** Where a run of events leads, if each of them is possible. */
  function RunOf(p: Plain, es: seq<Event>): (r: Option<Plain>)
    ensures r.Some? ==> |r.value.now| == |p.now|
  {
    if es == [] then Some(p)
    else
      var mid := RunOf(p, es[..|es| - 1]);
      if mid.Some? && Possible(mid.value, es[|es| - 1]) then Some(PlainStep(mid.value, es[|es| - 1])) else None
  }

  /** The last value written to a block in a run. */
  function LastWritten(es: seq<Event>, block: nat): Option<Block> {
    if es == [] then None
    else
      var e := es[|es| - 1];
      if e.WriteOk? && e.block == block then Some(e.data) else LastWritten(es[..|es| - 1], block)
  }

  /** The contents are the last writes over the initial contents. */
  lemma {:induction false} NowIsLastWritten(p: Plain, es: seq<Event>, block: nat)
    requires RunOf(p, es).Some? && block < |p.now|
    ensures RunOf(p, es).value.now[block] == if LastWritten(es, block).Some? then LastWritten(es, block).value
              else p.now[block]
  {
    if es != [] {
      NowIsLastWritten(p, es[..|es| - 1], block);
    }
  }

  /** Every read in a run returns what was last written before it. */
  lemma {:induction false} ReadsLastWritten(p: Plain, es: seq<Event>, i: nat)
    requires RunOf(p, es).Some? && i < |es| && es[i].ReadOk?
    ensures es[i].block < |p.now|
    ensures es[i].data == if LastWritten(es[..i], es[i].block).Some? then LastWritten(es[..i], es[i].block).value
              else p.now[es[i].block]
    decreases |es|
  {
    var n := |es| - 1;
    if i == n {
      NowIsLastWritten(p, es[..n], es[n].block);
    } else {
      ReadsLastWritten(p, es[..n], i);
      assert es[..n][..i] == es[..i];
    }
  }

  /** What survives a crash is the contents at the last successful flush. */
  lemma {:induction false} SyncedAtLastFlush(p: Plain, es: seq<Event>, k: nat)
    requires RunOf(p, es).Some? && k <= |es| && forall i :: k <= i < |es| ==> !es[i].FlushOk?
    requires k > 0 ==> es[k - 1].FlushOk?
    ensures k == 0 ==> RunOf(p, es).value.synced == p.synced
    ensures k > 0 ==> RunOf(p, es[..k - 1]).Some? && RunOf(p, es).value.synced == RunOf(p, es[..k - 1]).value.now
    decreases |es|
  {
    if es != [] {
      var n := |es| - 1;
      if k <= n {
        SyncedAtLastFlush(p, es[..n], k);
        assert k > 0 ==> es[..n][..k - 1] == es[..k - 1];
      }
    }
  }

  // ------------------------------------------------------------------------ the device

  /** Writes go to a queue; a flush that succeeds makes the queue durable, one that fails leaves it. */
  class QueueDevice {
    var durable: seq<Block>
    var pending: map<nat, Block>
    const faulty: bool

    constructor (blocks: seq<Block>, mayFail: bool)
      ensures durable == blocks && pending == map[] && faulty == mayFail
    {
      durable, pending, faulty := blocks, map[], mayFail;
    }

    /** May serve the durable value even while another one is queued. */
    method ReadBlock(block: nat) returns (r: Result<Block>)
      ensures r.Ok? ==>
                block < |durable| && (r.value == durable[block] || (block in pending && r.value == pending[block]))
      ensures r.Err? ==> faulty || block >= |durable|
    {
      var fault: bool, fromQueue: bool := *, *;
      if block >= |durable| || (faulty && fault) {
        return Err(Other);
      }
      if fromQueue && block in pending {
        return Ok(pending[block]);
      }
      return Ok(durable[block]);
    }

    /** A failed write may or may not have reached the queue. */
    method WriteBlock(block: nat, data: Block) returns (ok: bool)
      modifies this
      ensures durable == old(durable)
      ensures ok ==> pending == old(pending)[block := data]
      ensures !ok ==> pending == old(pending) || pending == old(pending)[block := data]
      ensures !ok ==> faulty || block >= |durable|
    {
      var fault: bool, reached: bool := *, *;
      if block >= |durable| {
        return false;
      }
      if !(faulty && fault) || reached {
        pending := pending[block := data];
      }
      return !(faulty && fault);
    }

    method Flush() returns (ok: bool)
      modifies this
      ensures |durable| == |old(durable)|
      ensures ok ==> pending == map[] && forall b :: 0 <= b < |durable| ==>
                durable[b] == if b in old(pending) then old(pending)[b] else old(durable)[b]
      ensures !ok ==> unchanged(this) && faulty
    {
      var fault: bool := *;
      if faulty && fault {
        return false;
      }
      durable :=
          seq(|durable|, b requires 0 <= b < |durable| reads this => if b in pending then pending[b] else durable[b]);
      pending := map[];
      return true;
    }
  }

  // ------------------------------------------------------------------------ the cache

  datatype BufferState = Clean | Dirty | Writeback
  datatype CacheEntry = CacheEntry(data: Block, state: BufferState)

  /** How an entry relates to the device below it. */
  predicate EntryOk(durable: seq<Block>, pending: map<nat, Block>, b: nat, e: CacheEntry) {
    && b < |durable|
    && (e.state.Clean? ==> b !in pending && durable[b] == e.data)
    && (e.state.Writeback? ==> b in pending && pending[b] == e.data)
  }

  class BufferCache {
    const device: QueueDevice
    var entries: map<nat, CacheEntry>

    constructor (d: QueueDevice)
      requires d.pending == map[]
      ensures device == d && entries == map[] && Valid()
      ensures View() == Plain(d.durable, d.durable)
    {
      device, entries := d, map[];
      new;
      assert Logical() == d.durable;
    }

    /** Whatever is queued is also cached, so nothing newer hides below the cache. */
    ghost predicate Valid()
      reads this, device
    {
      && (forall b :: b in entries ==> EntryOk(device.durable, device.pending, b, entries[b]))
      && (forall b :: b in device.pending ==> b in entries)
    }

    /** The contents a user sees. */
    ghost function Logical(): (r: seq<Block>)
      reads this, device
      ensures |r| == |device.durable|
    {
      seq(|device.durable|, b requires 0 <= b < |device.durable| reads this,
          device => if b in entries then entries[b].data else device.durable[b])
    }

    ghost function View(): Plain
      reads this, device
    {
      Plain(Logical(), device.durable)
    }

    ghost predicate After(before: Plain, e: Event)
      reads this, device
    {
      Valid() && Possible(before, e) && View() == PlainStep(before, e)
    }

    method ReadBlock(block: nat) returns (r: Result<Block>)
      requires Valid()
      modifies this
      ensures After(old(View()), if r.Ok? then ReadOk(block, r.value) else Nothing)
      ensures r.Err? ==> device.faulty || block >= |device.durable|
    {
      if block >= |device.durable| {
        return Err(UnexpectedEof);
      }
      if block !in entries {
        var data := device.ReadBlock(block);
        if data.Err? {
          return data;
        }
        entries := entries[block := CacheEntry(data.value, Clean)];
        assert Logical() == old(Logical());
      }
      return Ok(entries[block].data);
    }

    method WriteBlock(block: nat, data: Block) returns (ok: bool)
      requires Valid()
      modifies this
      ensures After(old(View()), if ok then WriteOk(block, data) else Nothing)
      ensures ok <==> block < |device.durable|
    {
      if block >= |device.durable| {
        return false;
      }
      entries := entries[block := CacheEntry(data, Dirty)];
      assert Logical() == old(Logical())[block := data];
      return true;
    }

    /** Issues one dirty block; its state says so until the next flush. */
    method WriteBack(block: nat) returns (ok: bool)
      requires Valid()
      modifies this, device
      ensures After(old(View()), Nothing)
      ensures ok ==> block in entries && !entries[block].state.Dirty?
      ensures !ok ==> block !in old(entries) || device.faulty
      ensures entries.Keys == old(entries).Keys
      ensures forall b :: b in entries && b != block ==> entries[b] == old(entries)[b]
    {
      if block !in entries {
        return false;
      }
      if !entries[block].state.Dirty? {
        return true;
      }
      var data := entries[block].data;
      ok := device.WriteBlock(block, data);
      if ok {
        entries := entries[block := CacheEntry(data, Writeback)];
      }
      assert Logical() == old(Logical());
    }

    /** Success means the contents are durable, all of them; failure changes nothing durable. */
    method Flush() returns (ok: bool)
      requires Valid()
      modifies this, device
      ensures After(old(View()), if ok then FlushOk else Nothing)
      ensures !ok ==> device.faulty
    {
      var b := 0;
      while b < |device.durable|
        invariant 0 <= b <= |device.durable|
        invariant Valid() && View() == old(View())
        invariant forall i :: 0 <= i < b && i in entries ==> !entries[i].state.Dirty?
      {
        if b in entries && entries[b].state.Dirty? {
          ok := WriteBack(b);
          if !ok {
            return false;
          }
        }
        b := b + 1;
      }
      if exists i :: i in entries && entries[i].state.Writeback? {
        ok := device.Flush();
        if !ok {
          return false;
        }
        Settle(old(View()));
      } else {
        assert Logical() == device.durable;
      }
      return true;
    }

    /** After the device flush every written-back entry is clean. */
    method Settle(ghost before: Plain)
      requires device.pending == map[] && |before.now| == |device.durable|
      requires forall b :: b in entries ==> b < |device.durable| && !entries[b].state.Dirty?
      requires forall b :: 0 <= b < |device.durable| ==> device.durable[b] == before.now[b]
      requires forall b :: b in entries ==> entries[b].data == before.now[b]
      modifies this
      ensures Valid() && View() == Plain(before.now, before.now)
    {
      entries := map b | b in entries :: CacheEntry(entries[b].data, Clean);
      assert Logical() == before.now && device.durable == before.now;
    }

    /** Only clean blocks leave the cache. */
    method Evict(block: nat) returns (ok: bool)
      requires Valid()
      modifies this
      ensures After(old(View()), Nothing)
      ensures ok <==> block in old(entries) && old(entries)[block].state.Clean?
      ensures ok ==> entries == old(entries) - {block}
    {
      if block !in entries || !entries[block].state.Clean? {
        return false;
      }
      entries := entries - {block};
      assert Logical() == old(Logical());
      return true;
    }
  }

  // ------------------------------------------------------------------------ whole runs

  datatype Request =
    | Read(block: nat)
    | Write(block: nat, data: Block)
    | WriteBack(block: nat)
    | Flush
    | Evict(block: nat)

  /** The event is what the request asks for, or nothing. */
  predicate Answers(e: Event, q: Request) {
    match e
    case ReadOk(b, _) => q == Read(b)
    case WriteOk(b, d) => q == Write(b, d)
    case FlushOk => q == Flush
    case Nothing => true
  }

  /** On a device without faults a request inside it does what it asks for. */
  predicate Served(e: Event, q: Request, count: nat) {
    && (q.Read? && q.block < count ==> e.ReadOk?)
    && (q.Write? && q.block < count ==> e.WriteOk?)
    && (q.Flush? ==> e.FlushOk?)
  }

  /** Any requests, one after the other: the cache has gone through a run of the plain block map. */
  method Serve(cache: BufferCache, requests: seq<Request>) returns (events: seq<Event>)
    requires cache.Valid()
    modifies cache, cache.device
    ensures cache.Valid() && RunOf(old(cache.View()), events) == Some(cache.View())
    ensures |events| == |requests| && forall i :: 0 <= i < |events| ==> Answers(events[i], requests[i])
    ensures !cache.device.faulty ==>
              forall i :: 0 <= i < |events| ==> Served(events[i], requests[i], |old(cache.View()).now|)
  {
    events := [];
    for k := 0 to |requests|
      invariant cache.Valid() && RunOf(old(cache.View()), events) == Some(cache.View())
      invariant |events| == k && forall i :: 0 <= i < k ==> Answers(events[i], requests[i])
      invariant !cache.device.faulty ==>
                  forall i :: 0 <= i < k ==> Served(events[i], requests[i], |old(cache.View()).now|)
    {
      var e := ServeOne(cache, requests[k]);
      assert (events + [e])[..k] == events;
      events := events + [e];
    }
  }

  method ServeOne(cache: BufferCache, q: Request) returns (e: Event)
    requires cache.Valid()
    modifies cache, cache.device
    ensures cache.After(old(cache.View()), e) && Answers(e, q)
    ensures !cache.device.faulty ==> Served(e, q, |old(cache.View()).now|)
  {
    e := Nothing;
    match q {
      case Read(block) =>
        var r := cache.ReadBlock(block);
        e := if r.Ok? then ReadOk(block, r.value) else Nothing;
      case Write(block, data) =>
        var ok := cache.WriteBlock(block, data);
        e := if ok then WriteOk(block, data) else Nothing;
      case WriteBack(block) =>
        var _ := cache.WriteBack(block);
      case Flush =>
        var ok := cache.Flush();
        e := if ok then FlushOk else Nothing;
      case Evict(block) =>
        var _ := cache.Evict(block);
    }
  }
}
