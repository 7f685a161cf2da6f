/** The scheduler (`task.c`): a circular list of ready tasks, a list of blocked ones, and a slot for
    the task that has just exited. */
module Sched {
  import opened Results
  import opened Sequences

  type Id = nat
  type Channel = nat

  datatype TaskState = Ready | Blocked

  /** A task control block; `next` links the ready ring, `blockedNext` the blocked list. */
  datatype Tcb = Tcb(next: Option<Id>, blockedNext: Option<Id>, channel: Option<Channel>, state: TaskState,
      process: Option<nat>, killPending: bool)

  type Tasks = map<Id, Tcb>

  // ------------------------------------------------------------------------ the two lists

  /** The position after `i` in a ring of `n`. */
  function Succ(i: nat, n: nat): nat {
    if i + 1 == n then 0 else i + 1
  }

  /** The `next` pointers of `ring` run around it, and its tasks are ready. */
  ghost predicate RingOk(tasks: Tasks, ring: seq<Id>) {
    && ring != [] && NoRepeats(ring)
    && (forall i :: 0 <= i < |ring| ==> ring[i] in tasks && tasks[ring[i]].state.Ready?)
    && (forall i :: 0 <= i < |ring| ==> tasks[ring[i]].next == Some(ring[Succ(i, |ring|)]))
  }

  function HeadOf(list: seq<Id>): Option<Id> {
    if list == [] then None else Some(list[0])
  }

  /** The `blockedNext` pointers of `waiting` run along it to the end, and its tasks are blocked. */
  ghost predicate ListOk(tasks: Tasks, waiting: seq<Id>) {
    && NoRepeats(waiting)
    && (forall i :: 0 <= i < |waiting| ==>
        waiting[i] in tasks && tasks[waiting[i]].state.Blocked? && tasks[waiting[i]].channel.Some?)
    && (forall i :: 0 <= i < |waiting| ==> tasks[waiting[i]].blockedNext == HeadOf(waiting[i + 1..]))
  }

  lemma RingFrame(tasks: Tasks, tasks': Tasks, ring: seq<Id>)
    requires RingOk(tasks, ring)
    requires forall t :: t in ring ==>
               t in tasks' && tasks'[t].next == tasks[t].next && tasks'[t].state == tasks[t].state
    ensures RingOk(tasks', ring)
  {
    assert forall i :: 0 <= i < |ring| ==> ring[i] in ring;
  }

  lemma ListFrame(tasks: Tasks, tasks': Tasks, waiting: seq<Id>)
    requires ListOk(tasks, waiting)
    requires forall t :: t in waiting ==>
               t in tasks' && tasks'[t].blockedNext == tasks[t].blockedNext && tasks'[t].state == tasks[t].state
               && tasks'[t].channel == tasks[t].channel
    ensures ListOk(tasks', waiting)
  {
    assert forall i :: 0 <= i < |waiting| ==> waiting[i] in waiting;
  }

  // ------------------------------------------------------------------------ the ready ring

  /** New tasks go in right behind the head. */
  function Inserted(ring: seq<Id>, t: Id): (r: seq<Id>)
    requires ring != []
    ensures |r| == |ring| + 1
  {
    [ring[0], t] + ring[1..]
  }

  /** The ring without position `k`. */
  function Removed(ring: seq<Id>, k: nat): seq<Id>
    requires k < |ring|
  {
    ring[..k] + ring[k + 1..]
  }

  lemma RingAt(tasks: Tasks, ring: seq<Id>, i: nat)
    requires RingOk(tasks, ring) && i < |ring|
    ensures ring[i] in ring && ring[i] in tasks && tasks[ring[i]].state.Ready?
    ensures tasks[ring[i]].next == Some(ring[Succ(i, |ring|)])
  {
  }

  lemma Elsewhere(s: seq<Id>, i: nat, j: nat)
    requires NoRepeats(s) && i < |s| && j < |s| && i != j
    ensures s[i] != s[j]
  {
    assert i < j || j < i;
  }

  /** One position of a ring, as it should be. */
  ghost predicate LinkOk(tasks: Tasks, ring: seq<Id>, i: nat)
    requires i < |ring|
  {
    ring[i] in tasks && tasks[ring[i]].state.Ready? && tasks[ring[i]].next == Some(ring[Succ(i, |ring|)])
  }

  lemma RingFrom(tasks: Tasks, ring: seq<Id>)
    requires ring != [] && NoRepeats(ring) && forall i :: 0 <= i < |ring| ==> LinkOk(tasks, ring, i)
    ensures RingOk(tasks, ring)
  {
    hide NoRepeats;
    forall i | 0 <= i < |ring|
      ensures ring[i] in tasks && tasks[ring[i]].state.Ready? && tasks[ring[i]].next == Some(ring[Succ(i, |ring|)])
    {
      assert LinkOk(tasks, ring, i);
    }
  }

  lemma InsertedDistinct(ring: seq<Id>, t: Id)
    requires ring != [] && NoRepeats(ring) && t !in ring
    ensures NoRepeats(Inserted(ring, t))
  {
    var r := Inserted(ring, t);
    assert forall i :: 2 <= i < |r| ==> r[i] == ring[i - 1] && ring[i - 1] in ring;
  }

  lemma InsertedOk(tasks: Tasks, tasks': Tasks, ring: seq<Id>, t: Id)
    requires RingOk(tasks, ring) && t !in ring && t in tasks'
    requires tasks'[t].state.Ready? && tasks'[t].next == tasks[ring[0]].next
    requires forall x :: x in ring ==> x in tasks' && tasks'[x].state == tasks[x].state
    requires forall x :: x in ring && x != ring[0] ==> tasks'[x].next == tasks[x].next
    requires ring[0] in tasks' && tasks'[ring[0]].next == Some(t)
    ensures RingOk(tasks', Inserted(ring, t))
  {
    hide RingOk, NoRepeats, LinkOk;
    RingDistinct(tasks, ring);
    var r := Inserted(ring, t);
    InsertedDistinct(ring, t);
    forall i | 0 <= i < |r| ensures LinkOk(tasks', r, i) {
      InsertedAt(tasks, tasks', ring, t, i);
    }
    RingFrom(tasks', r);
  }

  lemma InsertedAt(tasks: Tasks, tasks': Tasks, ring: seq<Id>, t: Id, i: nat)
    requires RingOk(tasks, ring) && t in tasks' && i < |Inserted(ring, t)|
    requires tasks'[t].state.Ready? && tasks'[t].next == tasks[ring[0]].next
    requires forall x :: x in ring ==> x in tasks' && tasks'[x].state == tasks[x].state
    requires forall x :: x in ring && x != ring[0] ==> tasks'[x].next == tasks[x].next
    requires ring[0] in tasks' && tasks'[ring[0]].next == Some(t)
    ensures LinkOk(tasks', Inserted(ring, t), i)
  {
    hide RingOk, NoRepeats, Inserted, Succ;
    RingDistinct(tasks, ring);
    InsertedNext(ring, t, i);
    RingAt(tasks, ring, 0);
    if i >= 2 {
      RingAt(tasks, ring, i - 1);
      Elsewhere(ring, 0, i - 1);
    }
  }

  lemma InsertedNext(ring: seq<Id>, t: Id, i: nat)
    requires ring != [] && i < |ring| + 1
    ensures var r := Inserted(ring, t);
            && |r| == |ring| + 1
            && r[i] == (if i == 0 then ring[0] else if i == 1 then t else ring[i - 1])
            && r[Succ(i, |r|)] == (if i == 0 then t else if i == 1 then ring[Succ(0, |ring|)]
                else ring[Succ(i - 1, |ring|)])
  {
  }

  lemma RemovedDistinct(ring: seq<Id>, k: nat)
    requires k < |ring| && NoRepeats(ring)
    ensures NoRepeats(Removed(ring, k)) && ring[k] !in Removed(ring, k)
  {
    var r := Removed(ring, k);
    assert forall i :: 0 <= i < |r| ==> r[i] == ring[if i < k then i else i + 1];
  }

  function Before(k: nat, n: nat): (p: nat)
    requires k < n
    ensures p < n
  {
    if k == 0 then n - 1 else k - 1
  }

  lemma RemovedOk(tasks: Tasks, tasks': Tasks, ring: seq<Id>, k: nat)
    requires RingOk(tasks, ring) && |ring| > 1 && k < |ring|
    requires var prev := ring[Before(k, |ring|)];
             && prev in tasks' && tasks'[prev].next == tasks[ring[k]].next && tasks'[prev].state.Ready?
             && forall x :: x in ring && x != ring[k] && x != prev ==>
                 x in tasks' && tasks'[x].next == tasks[x].next && tasks'[x].state == tasks[x].state
    ensures RingOk(tasks', Removed(ring, k))
  {
    hide RingOk, NoRepeats, LinkOk;
    var r := Removed(ring, k);
    RingDistinct(tasks, ring);
    RemovedDistinct(ring, k);
    forall i | 0 <= i < |r| ensures LinkOk(tasks', r, i) {
      RemovedAt(tasks, tasks', ring, k, i);
    }
    RingFrom(tasks', r);
  }

  lemma RemovedNext(ring: seq<Id>, k: nat, i: nat)
    requires |ring| > 1 && k < |ring| && i < |ring| - 1
    ensures var r, i' := Removed(ring, k), if i < k then i else i + 1;
            && |r| == |ring| - 1 && r[i] == ring[i'] && Before(k, |ring|) != k
            && r[Succ(i, |r|)] == ring[if i' == Before(k, |ring|) then Succ(k, |ring|) else Succ(i', |ring|)]
  {
  }

  lemma RemovedAt(tasks: Tasks, tasks': Tasks, ring: seq<Id>, k: nat, i: nat)
    requires RingOk(tasks, ring) && |ring| > 1 && k < |ring| && i < |ring| - 1
    requires var prev := ring[Before(k, |ring|)];
             && prev in tasks' && tasks'[prev].next == tasks[ring[k]].next && tasks'[prev].state.Ready?
             && forall x :: x in ring && x != ring[k] && x != prev ==>
                 x in tasks' && tasks'[x].next == tasks[x].next && tasks'[x].state == tasks[x].state
    ensures LinkOk(tasks', Removed(ring, k), i)
  {
    hide RingOk, NoRepeats, Removed, Succ, Before;
    RingDistinct(tasks, ring);
    RemovedNext(ring, k, i);
    var i', p := if i < k then i else i + 1, Before(k, |ring|);
    RingAt(tasks, ring, i');
    RingAt(tasks, ring, k);
    Elsewhere(ring, i', k);
    if i' != p {
      Elsewhere(ring, i', p);
    }
  }

  /** `find_ready_previous`: once around the ring. */
  method FindPrevious(tasks: Tasks, ghost ring: seq<Id>, ghost k: nat, task: Id) returns (previous: Id)
    requires RingOk(tasks, ring) && k < |ring| && ring[k] == task
    ensures previous == ring[Before(k, |ring|)]
  {
    hide RingOk;
    previous := task;
    ghost var at, steps := k, 0;
    RingAt(tasks, ring, k);
    while tasks[previous].next != Some(task)
      invariant 0 <= at < |ring| && previous == ring[at] && previous in tasks
      invariant tasks[previous].next == Some(ring[Succ(at, |ring|)])
      invariant at == if k + steps < |ring| then k + steps else k + steps - |ring|
      invariant 0 <= steps < |ring|
      decreases |ring| - steps
    {
      previous := tasks[previous].next.value;
      at, steps := Succ(at, |ring|), steps + 1;
      RingAt(tasks, ring, at);
    }
    RingDistinct(tasks, ring);
    if Succ(at, |ring|) != k {
      Elsewhere(ring, Succ(at, |ring|), k);
    }
  }

  lemma RingDistinct(tasks: Tasks, ring: seq<Id>)
    requires RingOk(tasks, ring)
    ensures ring != [] && NoRepeats(ring)
  {
  }

  // ------------------------------------------------------------------------ the blocked list

  lemma ListAt(tasks: Tasks, waiting: seq<Id>, i: nat)
    requires ListOk(tasks, waiting) && i < |waiting|
    ensures waiting[i] in waiting && waiting[i] in tasks && tasks[waiting[i]].state.Blocked?
    ensures tasks[waiting[i]].channel.Some?
    ensures tasks[waiting[i]].blockedNext == HeadOf(waiting[i + 1..])
    ensures NoRepeats(waiting)
  {
  }

  lemma AppendedOk(tasks: Tasks, tasks': Tasks, waiting: seq<Id>, t: Id)
    requires ListOk(tasks, waiting) && t !in waiting && t in tasks'
    requires tasks'[t].state.Blocked? && tasks'[t].channel.Some? && tasks'[t].blockedNext.None?
    requires forall x :: x in waiting ==>
               x in tasks' && tasks'[x].state == tasks[x].state && tasks'[x].channel == tasks[x].channel
    requires forall x :: x in waiting && x != waiting[|waiting| - 1] ==> tasks'[x].blockedNext == tasks[x].blockedNext
    requires waiting != [] ==> tasks'[waiting[|waiting| - 1]].blockedNext == Some(t)
    ensures ListOk(tasks', waiting + [t])
  {
    var w, n := waiting + [t], |waiting|;
    forall i | 0 <= i < |w|
      ensures w[i] in tasks' && tasks'[w[i]].state.Blocked? && tasks'[w[i]].channel.Some?
      ensures tasks'[w[i]].blockedNext == HeadOf(w[i + 1..])
    {
      if i < n {
        ListAt(tasks, waiting, i);
        if i < n - 1 {
          Elsewhere(waiting, i, n - 1);
        }
      }
    }
  }

  /** The control blocks once `t` is appended to the blocked list. */
  function Queued(tasks: Tasks, waiting: seq<Id>, t: Id, channel: Channel): Tasks
    requires t in tasks && forall x :: x in waiting ==> x in tasks
  {
    var asleep := tasks[t := tasks[t].(next := None, blockedNext := None, channel := Some(channel), state := Blocked)];
    if waiting == [] then asleep
    else
      var last := waiting[|waiting| - 1];
      asleep[last := asleep[last].(blockedNext := Some(t))]
  }

  lemma QueuedOk(tasks: Tasks, ring: seq<Id>, waiting: seq<Id>, t: Id, channel: Channel)
    requires RingOk(tasks, ring) && ListOk(tasks, waiting) && t in tasks && t !in ring && t !in waiting
    requires forall x :: x in waiting ==> x in tasks && x !in ring
    ensures var after := Queued(tasks, waiting, t, channel);
            && after.Keys == tasks.Keys && OnlyLinks(tasks, after, tasks.Keys - {t})
            && RingOk(after, ring) && ListOk(after, waiting + [t])
            && after[t].channel == Some(channel) && after[t].process == tasks[t].process
            && after[t].killPending == tasks[t].killPending
  {
    hide RingOk, ListOk;
    var after := Queued(tasks, waiting, t, channel);
    RingMembers(tasks, ring);
    if waiting != [] {
      assert waiting[|waiting| - 1] in waiting;
    }
    AppendedOk(tasks, after, waiting, t);
    RingFrame(tasks, after, ring);
  }

  /** What the walk to the end of the list meets. */
  lemma QueuedIs(tasks: Tasks, waiting: seq<Id>, t: Id, channel: Channel)
    requires ListOk(tasks, waiting) && t in tasks && t !in waiting && forall x :: x in waiting ==> x in tasks
    ensures var asleep :=
              tasks[t := tasks[t].(next := None, blockedNext := None, channel := Some(channel), state := Blocked)];
            && ListOk(asleep, waiting)
            && (waiting == [] <==> HeadOf(waiting).None?)
                && HeadOf(waiting + [t]) == (if waiting == [] then Some(t) else HeadOf(waiting))
            && (waiting == [] ==> Queued(tasks, waiting, t, channel) == asleep)
            && (waiting != [] ==>
                  var last := waiting[|waiting| - 1];
                  last in asleep && Queued(tasks, waiting, t, channel) ==
                      asleep[last := asleep[last].(blockedNext := Some(t))])
  {
    hide ListOk;
    var asleep := tasks[t := tasks[t].(next := None, blockedNext := None, channel := Some(channel), state := Blocked)];
    ListFrame(tasks, asleep, waiting);
  }

  lemma AgedMore(waiting: seq<Id>, since: map<Id, nat>, clock: nat, t: Id)
    requires Aged(waiting, since, clock) && t !in waiting
    ensures Aged(waiting + [t], since[t := clock], clock + 1)
  {
  }

  lemma UnlinkedOk(tasks: Tasks, tasks': Tasks, waiting: seq<Id>, j: nat)
    requires ListOk(tasks, waiting) && j < |waiting|
    requires forall x :: x in waiting && x != waiting[j] ==>
               x in tasks' && tasks'[x].state == tasks[x].state && tasks'[x].channel == tasks[x].channel
    requires forall x :: x in waiting && x != waiting[j] && (j == 0 || x != waiting[j - 1]) ==>
               tasks'[x].blockedNext == tasks[x].blockedNext
    requires j > 0 ==> waiting[j - 1] in tasks' && tasks'[waiting[j - 1]].blockedNext == tasks[waiting[j]].blockedNext
    ensures ListOk(tasks', Removed(waiting, j))
  {
    var w := Removed(waiting, j);
    RemovedDistinct(waiting, j);
    forall i | 0 <= i < |w|
      ensures w[i] in tasks' && tasks'[w[i]].state.Blocked? && tasks'[w[i]].channel.Some?
      ensures tasks'[w[i]].blockedNext == HeadOf(w[i + 1..])
    {
      UnlinkedAt(tasks, tasks', waiting, j, i);
    }
  }

  lemma UnlinkedAt(tasks: Tasks, tasks': Tasks, waiting: seq<Id>, j: nat, i: nat)
    requires ListOk(tasks, waiting) && j < |waiting| && i < |waiting| - 1
    requires forall x :: x in waiting && x != waiting[j] ==>
               x in tasks' && tasks'[x].state == tasks[x].state && tasks'[x].channel == tasks[x].channel
    requires forall x :: x in waiting && x != waiting[j] && (j == 0 || x != waiting[j - 1]) ==>
               tasks'[x].blockedNext == tasks[x].blockedNext
    requires j > 0 ==> waiting[j - 1] in tasks' && tasks'[waiting[j - 1]].blockedNext == tasks[waiting[j]].blockedNext
    ensures var w := Removed(waiting, j);
            w[i] in tasks' && tasks'[w[i]].state.Blocked? && tasks'[w[i]].channel.Some?
                && tasks'[w[i]].blockedNext == HeadOf(w[i + 1..])
  {
    hide ListOk, NoRepeats;
    var w, i' := Removed(waiting, j), if i < j then i else i + 1;
    ListAt(tasks, waiting, i');
    ListAt(tasks, waiting, j);
    Elsewhere(waiting, i', j);
    assert w[i] == waiting[i'];
    assert HeadOf(w[i + 1..]) == if i' + 1 == j then HeadOf(waiting[j + 1..]) else HeadOf(waiting[i' + 1..]) by {
      assert i + 1 < |w| ==> w[i + 1] == waiting[if i + 1 < j then i + 1 else i + 2];
    }
    if j > 0 && i' != j - 1 {
      Elsewhere(waiting, i', j - 1);
    }
  }

  /** Redirecting the pointer to waiter `j` takes it off the list, and leaves the ring alone. */
  lemma UnlinkResult(tasks: Tasks, ring: seq<Id>, waiting: seq<Id>, j: nat)
    requires RingOk(tasks, ring) && ListOk(tasks, waiting) && j < |waiting|
    ensures forall x :: x in Removed(waiting, j) <==> x in waiting && x != waiting[j]
    ensures var tasks' := if j == 0 then tasks
              else tasks[waiting[j - 1] := tasks[waiting[j - 1]].(blockedNext := tasks[waiting[j]].blockedNext)];
            tasks'.Keys == tasks.Keys && ListOk(tasks', Removed(waiting, j)) && RingOk(tasks', ring)
  {
    hide RingOk, ListOk, Removed, NoRepeats;
    ListAt(tasks, waiting, j);
    RemovedMembers(waiting, j);
    ListMembers(tasks, waiting);
    RingMembers(tasks, ring);
    if j > 0 {
      ListAt(tasks, waiting, j - 1);
      Elsewhere(waiting, j - 1, j);
      var tasks' := tasks[waiting[j - 1] := tasks[waiting[j - 1]].(blockedNext := tasks[waiting[j]].blockedNext)];
      UnlinkedOk(tasks, tasks', waiting, j);
      RingFrame(tasks, tasks', ring);
    } else {
      UnlinkedOk(tasks, tasks, waiting, 0);
    }
  }

  // ------------------------------------------------------------------------ choosing waiters

  /** Which waiters a wake-up is for, by id, channel and process. */
  type Wanted = (Id, Option<Channel>, Option<nat>) -> bool

  predicate Wants(tasks: Tasks, wanted: Wanted, t: Id) {
    t in tasks && wanted(t, tasks[t].channel, tasks[t].process)
  }

  function Chosen(tasks: Tasks, waiting: seq<Id>, wanted: Wanted): seq<Id> {
    if waiting == [] then []
    else
      var n := |waiting| - 1;
      Chosen(tasks, waiting[..n], wanted) + if Wants(tasks, wanted, waiting[n]) then [waiting[n]] else []
  }

  function Kept(tasks: Tasks, waiting: seq<Id>, wanted: Wanted): (r: seq<Id>)
    ensures forall t :: t in r ==> t in waiting
  {
    if waiting == [] then []
    else
      var n := |waiting| - 1;
      Kept(tasks, waiting[..n], wanted) + if Wants(tasks, wanted, waiting[n]) then [] else [waiting[n]]
  }

  /** Tasks put in behind the head one after the other. */
  function AllInserted(ring: seq<Id>, ids: seq<Id>): (r: seq<Id>)
    requires ring != []
    ensures r != [] && r[0] == ring[0]
  {
    if ids == [] then ring else Inserted(AllInserted(ring, ids[..|ids| - 1]), ids[|ids| - 1])
  }

  /** They stand in the ring right behind the head, the last one first. */
  lemma {:induction false} AllInsertedIs(ring: seq<Id>, ids: seq<Id>)
    requires ring != []
    ensures var r, n := AllInserted(ring, ids), |ids|;
            && |r| == |ring| + n && r[0] == ring[0]
            && (forall i :: 0 <= i < n ==> r[n - i] == ids[i])
            && (forall j :: 1 <= j < |ring| ==> r[n + j] == ring[j])
  {
    if ids != [] {
      var n := |ids| - 1;
      AllInsertedIs(ring, ids[..n]);
      var before, after := AllInserted(ring, ids[..n]), AllInserted(ring, ids);
      assert after == Inserted(before, ids[n]);
      assert after[1] == ids[n] && forall k :: 1 <= k < |before| ==> after[k + 1] == before[k];
      forall i | 0 <= i < n ensures after[n + 1 - i] == ids[i] {
        assert before[n - i] == ids[..n][i];
      }
    }
  }

  /** Those released, and those who stay, keep the order they waited in. */
  lemma {:induction false} ChosenInOrder(tasks: Tasks, waiting: seq<Id>, wanted: Wanted, since: map<Id, nat>,
                                         clock: nat)
    requires Aged(waiting, since, clock)
    ensures Aged(Chosen(tasks, waiting, wanted), since, clock) && Aged(Kept(tasks, waiting, wanted), since, clock)
  {
    if waiting != [] {
      var n := |waiting| - 1;
      ChosenInOrder(tasks, waiting[..n], wanted, since, clock);
      ChosenWaited(tasks, waiting[..n], wanted);
      var last := waiting[n];
      assert forall t :: t in waiting[..n] ==> t in since && since[t] < since[last];
      AgedSnoc(Chosen(tasks, waiting[..n], wanted), last, since, clock);
      AgedSnoc(Kept(tasks, waiting[..n], wanted), last, since, clock);
    }
  }

  lemma {:induction false} ChosenWaited(tasks: Tasks, waiting: seq<Id>, wanted: Wanted)
    ensures forall t :: t in Chosen(tasks, waiting, wanted) ==> t in waiting
  {
    if waiting != [] {
      ChosenWaited(tasks, waiting[..|waiting| - 1], wanted);
    }
  }

  lemma AgedSnoc(ids: seq<Id>, t: Id, since: map<Id, nat>, clock: nat)
    requires Aged(ids, since, clock) && t in since && since[t] < clock
    requires forall x :: x in ids ==> x in since && since[x] < since[t]
    ensures Aged(ids + [t], since, clock)
  {
    assert forall i :: 0 <= i < |ids| ==> ids[i] in ids;
  }

  // ------------------------------------------------------------------------ the scheduler

  /** Every task is in the ring, or waiting, or retired: exactly one of the three. */
  ghost predicate Partition(tasks: Tasks, ring: seq<Id>, waiting: seq<Id>, retired: Option<Id>) {
    && (forall t :: t in tasks ==> t in ring || t in waiting || retired == Some(t))
    && (forall t :: t in ring ==> t in tasks && t !in waiting && retired != Some(t))
    && (forall t :: t in waiting ==> t in tasks && retired != Some(t))
    && (retired.Some? ==> retired.value in tasks)
  }

  /** Waiters are listed in the order they blocked. */
  ghost predicate Aged(waiting: seq<Id>, since: map<Id, nat>, clock: nat) {
    && (forall i :: 0 <= i < |waiting| ==> waiting[i] in since && since[waiting[i]] < clock)
    && (forall i, j :: 0 <= i < j < |waiting| ==> since[waiting[i]] < since[waiting[j]])
  }

  /** Every control block ever allocated is live, or was given back exactly once. */
  ghost predicate Conserved(born: seq<Id>, reclaimed: seq<Id>, live: set<Id>) {
    multiset(born) == multiset(reclaimed) + multiset(live)
  }

  lemma BornOnce(born: seq<Id>, reclaimed: seq<Id>, live: set<Id>, t: Id)
    requires Conserved(born, reclaimed, live) && t !in live
    ensures Conserved(born + [t], reclaimed, live + {t})
  {
    assert multiset(live + {t}) == multiset(live) + multiset{t};
  }

  lemma ReclaimedOnce(born: seq<Id>, reclaimed: seq<Id>, live: set<Id>, t: Id)
    requires Conserved(born, reclaimed, live) && t in live
    ensures Conserved(born, reclaimed + [t], live - {t})
  {
    assert multiset(live) == multiset(live - {t}) + multiset{t};
  }

  /** So a control block has been given back as often as it was allocated, once less while it is live. */
  lemma ReclaimedPerBirth(born: seq<Id>, reclaimed: seq<Id>, live: set<Id>, t: Id)
    requires Conserved(born, reclaimed, live)
    ensures multiset(born)[t] == multiset(reclaimed)[t] + if t in live then 1 else 0
    ensures NoRepeats(born) ==> NoRepeats(reclaimed) && forall x :: x in reclaimed ==> x !in live
  {
    if NoRepeats(born) {
      forall i, j | 0 <= i < j < |reclaimed| ensures reclaimed[i] != reclaimed[j] {
        var x := reclaimed[i];
        TwiceCounts(reclaimed, i, j);
        OnceEach(born, x);
        assert multiset(born)[x] == multiset(reclaimed)[x] + multiset(live)[x];
      }
      forall x | x in reclaimed ensures x !in live {
        OnceEach(born, x);
        assert multiset(born)[x] == multiset(reclaimed)[x] + multiset(live)[x];
        assert x in multiset(reclaimed);
      }
    }
  }

  lemma {:induction false} OnceEach(s: seq<Id>, x: Id)
    requires NoRepeats(s)
    ensures multiset(s)[x] <= 1
  {
    if s != [] {
      OnceEach(s[..|s| - 1], x);
      assert s == s[..|s| - 1] + [s[|s| - 1]];
    }
  }

  lemma TwiceCounts(s: seq<Id>, i: nat, j: nat)
    requires i < j < |s|
    ensures s[i] == s[j] ==> multiset(s)[s[i]] >= 2
  {
    assert s == s[..j] + [s[j]] + s[j + 1..];
    assert s[i] in s[..j];
  }

  lemma KeysWithout(tasks: Tasks, t: Id)
    ensures (tasks - {t}).Keys == tasks.Keys - {t}
  {
  }

  class Scheduler {
    var tasks: Tasks
    var current: Id
    var readyQueue: Id
    var blockedTasks: Option<Id>
    var retired: Option<Id>
    ghost var ring: seq<Id>
    ghost var waiting: seq<Id>
    /** When each waiter blocked. */
    ghost var since: map<Id, nat>
    ghost var clock: nat
    /** Every control block ever allocated, and every one given back. */
    ghost var born: seq<Id>
    ghost var reclaimed: seq<Id>

    ghost predicate Valid()
      reads this
    {
      && RingOk(tasks, ring) && readyQueue == ring[0] && current in ring
      && ListOk(tasks, waiting) && blockedTasks == HeadOf(waiting)
      && Partition(tasks, ring, waiting, retired) && Aged(waiting, since, clock)
      && Conserved(born, reclaimed, tasks.Keys)
    }

    /** `tasking_init`, before the idle task is added. */
    constructor (first: Id)
      ensures Valid() && ring == [first] && waiting == [] && retired.None? && current == first && born == [first]
      ensures reclaimed == []
    {
      tasks := map[first := Tcb(Some(first), None, None, Ready, None, false)];
      current, readyQueue, blockedTasks, retired := first, first, None, None;
      ring, waiting, since, clock := [first], [], map[], 0;
      born, reclaimed := [first], [];
    }

    /** `add_ready_task`. */
    method AddReady(t: Id)
      requires RingOk(tasks, ring) && readyQueue == ring[0] && t in tasks && t !in ring
      requires ListOk(tasks, waiting) && t !in waiting && readyQueue !in waiting
      modifies this`tasks, this`ring
      ensures ring == Inserted(old(ring), t) && RingOk(tasks, ring) && ListOk(tasks, waiting)
      ensures tasks.Keys == old(tasks).Keys
      ensures forall x :: x in tasks && x != t && x != readyQueue ==> tasks[x] == old(tasks)[x]
      ensures tasks[readyQueue] == old(tasks)[readyQueue].(next := Some(t))
      ensures tasks[t].process == old(tasks)[t].process && tasks[t].killPending == old(tasks)[t].killPending
    {
      hide RingOk, ListOk, Inserted, Conserved;
      RingMembers(tasks, ring);
      ListMembers(tasks, waiting);
      RingAt(tasks, ring, 0);
      ghost var before := tasks;
      var tcb := tasks[t].(state := Ready, channel := None, blockedNext := None, next := tasks[readyQueue].next);
      tasks := tasks[t := tcb];
      tasks := tasks[readyQueue := tasks[readyQueue].(next := Some(t))];
      InsertedOk(before, tasks, ring, t);
      ListFrame(before, tasks, waiting);
      ring := Inserted(ring, t);
    }

    /** `create_task`, once its memory has been found. */
    method Create(t: Id, process: Option<nat>)
      requires Valid() && t !in tasks
      modifies this`tasks, this`ring, this`born
      ensures Valid() && ring == Inserted(old(ring), t) && born == old(born) + [t]
      ensures tasks.Keys == old(tasks).Keys + {t} && OnlyLinks(old(tasks), tasks, old(tasks).Keys)
      ensures tasks[t].process == process && !tasks[t].killPending
    {
      hide RingOk, ListOk, Partition, Aged, Inserted, HeadOf, Conserved;
      ghost var before := tasks;
      var tcb := Tcb(None, None, None, Ready, process, false);
      Newcomer(tasks, ring, waiting, retired, t, tcb);
      tasks := tasks[t := tcb];
      AddReady(t);
      InsertedMembers(old(ring), t);
      InsertedHead(old(ring), t);
      Joins(before, tasks, old(ring), ring, waiting, waiting, retired, t);
      BornOnce(born, reclaimed, before.Keys, t);
      born := born + [t];
    }

    /** `task_block_current`: out of the ring, onto the end of the blocked list.  A task alone in the
        ring is not blocked. */
    method BlockCurrent(channel: Channel)
      requires Valid()
      modifies this`tasks, this`ring, this`readyQueue, this`waiting, this`blockedTasks, this`since, this`clock,
          this`current
      ensures Valid() && tasks.Keys == old(tasks).Keys && OnlyLinks(old(tasks), tasks, old(tasks).Keys - {old(current)})
      ensures tasks[old(current)].process == old(tasks)[old(current)].process
      ensures tasks[old(current)].killPending == old(tasks)[old(current)].killPending
      ensures |old(ring)| == 1 ==> unchanged(this)
      ensures |old(ring)| > 1 ==>
                && waiting == old(waiting) + [old(current)] && tasks[old(current)].channel == Some(channel)
                && since == old(since)[old(current) := old(clock)] && clock == old(clock) + 1
                && exists k ::
                    0 <= k < |old(ring)| && old(ring)[k] == old(current) && ring == Removed(old(ring), k)
                    && current == old(ring)[Succ(k, |old(ring)|)]
    {
      hide RingOk, ListOk, Aged, Partition, Removed, Succ, HeadOf, Conserved, OnlyLinks;
      ghost var k :| 0 <= k < |ring| && ring[k] == current;
      RingAt(tasks, ring, k);
      RingMembers(tasks, ring);
      OnlyTask(tasks, ring, k);
      NoLinks(tasks, tasks.Keys - {current});
      if tasks[current].next == Some(current) {
        return;
      }
      var previous := FindPrevious(tasks, ring, k, current);
      var next := tasks[current].next.value;
      MoveToWaiting(k, previous, channel);
      current := next;
    }

    /** The task at `ring[k]` leaves the ring and joins the blocked list. */
    method MoveToWaiting(ghost k: nat, previous: Id, channel: Channel)
      requires Valid() && |ring| > 1 && k < |ring| && ring[k] == current && previous == ring[Before(k, |ring|)]
      modifies this`tasks, this`ring, this`readyQueue, this`waiting, this`blockedTasks, this`since, this`clock
      ensures RingOk(tasks, ring) && readyQueue == ring[0] && old(ring)[Succ(k, |old(ring)|)] in ring
      ensures ListOk(tasks, waiting) && blockedTasks == HeadOf(waiting)
      ensures Partition(tasks, ring, waiting, retired) && Aged(waiting, since, clock)
      ensures tasks.Keys == old(tasks).Keys && OnlyLinks(old(tasks), tasks, old(tasks).Keys - {current})
      ensures current in tasks && tasks[current].channel == Some(channel)
      ensures tasks[current].process == old(tasks)[current].process
      ensures tasks[current].killPending == old(tasks)[current].killPending
      ensures ring == Removed(old(ring), k) && waiting == old(waiting) + [current]
      ensures since == old(since)[current := old(clock)] && clock == old(clock) + 1
    {
      hide RingOk, ListOk, Aged, Partition, Removed, Succ, HeadOf, Conserved, OnlyLinks, Before;
      Apart(tasks, ring, waiting, retired);
      ghost var before, around, list := tasks, ring, waiting;
      UnlinkCurrent(k, previous);
      ghost var unlinked := tasks;
      AppendWaiter(current, channel);
      LinksTrans(before, unlinked, tasks, current);
      Moves(before, tasks, around, ring, list, waiting, retired, current);
    }

    /** Takes `ring[k]` out of the ring. */
    method UnlinkCurrent(ghost k: nat, previous: Id)
      requires Valid() && |ring| > 1 && k < |ring| && ring[k] == current && previous == ring[Before(k, |ring|)]
      modifies this`tasks, this`ring, this`readyQueue
      ensures ring == Removed(old(ring), k) && RingOk(tasks, ring) && readyQueue == ring[0]
      ensures tasks.Keys == old(tasks).Keys
      ensures old(ring)[Succ(k, |old(ring)|)] in ring && current in tasks && current !in ring
      ensures forall x :: x in tasks && x != previous ==> tasks[x] == old(tasks)[x]
      ensures tasks[previous] == old(tasks)[previous].(next := tasks[previous].next)
      ensures OnlyLinks(old(tasks), tasks, old(tasks).Keys)
      ensures forall x :: x in ring <==> x in old(ring) && x != current
      ensures ListOk(tasks, waiting)
    {
      hide RingOk, ListOk, Aged, Partition, Conserved;
      Apart(tasks, ring, waiting, retired);
      ListMembers(tasks, waiting);
      RingAt(tasks, ring, k);
      RingAt(tasks, ring, Before(k, |ring|));
      RingMembers(tasks, ring);
      ghost var before := tasks;
      var next := tasks[current].next.value;
      tasks := tasks[previous := tasks[previous].(next := Some(next))];
      RemovedOk(before, tasks, ring, k);
      RingDistinct(before, ring);
      RemovedMembers(ring, k);
      ListFrame(before, tasks, waiting);
      ring := Removed(ring, k);
      if readyQueue == current {
        readyQueue := next;
      }
    }

    /** Appends a task to the blocked list. */
    method AppendWaiter(task: Id, channel: Channel)
      requires RingOk(tasks, ring) && ListOk(tasks, waiting) && blockedTasks == HeadOf(waiting)
      requires Aged(waiting, since, clock)
      requires task in tasks && task !in ring && task !in waiting && forall x :: x in waiting ==> x !in ring
      modifies this`tasks, this`waiting, this`blockedTasks, this`since, this`clock
      ensures waiting == old(waiting) + [task] && ListOk(tasks, waiting) && blockedTasks == HeadOf(waiting)
      ensures Aged(waiting, since, clock)
      ensures RingOk(tasks, ring) && tasks.Keys == old(tasks).Keys && tasks[task].channel == Some(channel)
      ensures since == old(since)[task := old(clock)] && clock == old(clock) + 1
      ensures OnlyLinks(old(tasks), tasks, old(tasks).Keys - {task})
      ensures tasks[task].process == old(tasks)[task].process && tasks[task].killPending == old(tasks)[task].killPending
    {
      hide RingOk, ListOk, Conserved, Aged, OnlyLinks, HeadOf, Queued;
      ListMembers(tasks, waiting);
      QueuedOk(tasks, ring, waiting, task, channel);
      QueuedIs(tasks, waiting, task, channel);
      AgedMore(waiting, since, clock, task);
      tasks :=
          tasks[task := tasks[task].(next := None, blockedNext := None, channel := Some(channel), state := Blocked)];
      if blockedTasks.None? {
        blockedTasks := Some(task);
      } else {
        var last := FindLast(tasks, blockedTasks.value, waiting);
        tasks := tasks[last := tasks[last].(blockedNext := Some(task))];
      }
      waiting, since, clock := waiting + [task], since[task := clock], clock + 1;
    }

    /** Takes a waiter off the blocked list and makes it ready: the body of every wake-up loop. */
    method Release(ghost j: nat, prev: Option<Id>, t: Id)
      requires Valid() && j < |waiting| && t == waiting[j] && prev == if j == 0 then None else Some(waiting[j - 1])
      modifies this`tasks, this`ring, this`waiting, this`blockedTasks
      ensures Valid() && waiting == Removed(old(waiting), j) && ring == Inserted(old(ring), t)
      ensures SameTasks(old(tasks), tasks, waiting, [])
    {
      hide RingOk, ListOk, Aged, Partition, Inserted, HeadOf, Removed, Conserved;
      Apart(tasks, ring, waiting, retired);
      UnlinkWaiter(j, prev, t);
      RingMembers(tasks, ring);
      AddReady(t);
      InsertedMembers(old(ring), t);
      InsertedHead(old(ring), t);
      Joins(old(tasks), tasks, old(ring), ring, old(waiting), waiting, retired, t);
    }

    method UnlinkWaiter(ghost j: nat, prev: Option<Id>, t: Id)
      requires RingOk(tasks, ring) && ListOk(tasks, waiting) && blockedTasks == HeadOf(waiting)
      requires Aged(waiting, since, clock)
      requires forall x :: x in waiting ==> x !in ring
      requires j < |waiting| && t == waiting[j] && prev == if j == 0 then None else Some(waiting[j - 1])
      modifies this`tasks, this`waiting, this`blockedTasks
      ensures waiting == Removed(old(waiting), j) && ListOk(tasks, waiting) && blockedTasks == HeadOf(waiting)
      ensures Aged(waiting, since, clock)
      ensures RingOk(tasks, ring) && tasks.Keys == old(tasks).Keys && t in tasks && t !in waiting
      ensures forall x :: x in waiting <==> x in old(waiting) && x != t
      ensures forall x :: x in tasks ==> tasks[x] == old(tasks)[x].(blockedNext := tasks[x].blockedNext)
    {
      hide RingOk, ListOk, Aged, HeadOf, Removed, Conserved;
      ListAt(tasks, waiting, j);
      if j > 0 {
        ListAt(tasks, waiting, j - 1);
      }
      UnlinkResult(tasks, ring, waiting, j);
      HeadRemoved(waiting, j);
      AgedRemoved(waiting, since, clock, j);
      var next := tasks[t].blockedNext;
      if prev.None? {
        blockedTasks := next;
      } else {
        tasks := tasks[prev.value := tasks[prev.value].(blockedNext := next)];
      }
      waiting := Removed(waiting, j);
    }

    /** `task_wake_one` and `task_wake_task`: the first waiter that is wanted, if any. */
    method WakeFirst(wanted: Wanted) returns (ghost j: nat)
      requires Valid()
      modifies this`tasks, this`ring, this`waiting, this`blockedTasks
      ensures Valid() && SameTasks(old(tasks), tasks, waiting, [])
      ensures FirstWanted(old(tasks), old(waiting), wanted, j)
      ensures j < |old(waiting)| ==> waiting == Removed(old(waiting), j) && ring == Inserted(old(ring), old(waiting)[j])
      ensures j == |old(waiting)| ==> ring == old(ring) && waiting == old(waiting)
      ensures j < |old(waiting)| ==> Oldest(old(tasks), old(waiting), wanted, old(waiting)[j], old(since))
    {
      hide RingOk, ListOk, Aged, Partition, Inserted, Removed, Conserved;
      var prev, found;
      prev, found, j := FindWaiter(tasks, blockedTasks, wanted, waiting);
      OldestFirst(tasks, waiting, wanted, j, since, clock);
      if found.Some? {
        Release(j, prev, found.value);
      }
    }

    /** `task_wake_all` and `task_kill_blocked`: every wanted waiter, first to last, each put right
        behind the head of the ring.  A kill also marks them. */
    method WakeMatching(wanted: Wanted, kill: bool) returns (count: nat)
      requires Valid()
      modifies this`tasks, this`ring, this`waiting, this`blockedTasks
      ensures Valid() && waiting == Kept(old(tasks), old(waiting), wanted)
      ensures ring == AllInserted(old(ring), Chosen(old(tasks), old(waiting), wanted))
      ensures count == |Chosen(old(tasks), old(waiting), wanted)|
      ensures SameTasks(old(tasks), tasks, waiting, if kill then Chosen(old(tasks), old(waiting), wanted) else [])
      ensures forall t :: t in ring <==> t in old(ring) || (t in old(waiting) && Wants(old(tasks), wanted, t))
    {
      hide RingOk, ListOk, Aged, Partition, Inserted, Removed, Kept, Chosen, AllInserted, SameTasks, Progress,
        Conserved;
      ghost var all, before, ring0 := waiting, tasks, ring;
      var prev, cur := None, blockedTasks;
      ghost var i := 0;
      count := 0;
      RingMembers(tasks, ring);
      Begin(before, all, wanted, ring0, kill);
      while cur.Some?
        invariant Valid() && 0 <= i <= |all|
        invariant Progress(before, tasks, all, waiting, ring0, ring, wanted, i, count, kill)
        invariant cur == HeadOf(all[i..]) && prev == LastOf(Kept(before, all[..i], wanted))
        decreases |all| - i
      {
        ghost var j := |Kept(before, all[..i], wanted)|;
        Current(before, tasks, all, waiting, ring0, ring, wanted, i, count, kill);
        ListAt(tasks, waiting, j);
        var t := cur.value;
        var next := tasks[t].blockedNext;
        if wanted(t, tasks[t].channel, tasks[t].process) {
          ghost var seen, listed, tasks0 := ring, waiting, tasks;
          if kill {
            MarkKilled(t);
          }
          ghost var marked := tasks;
          Release(j, prev, t);
          ChosenStep(before, tasks0, marked, tasks, all, listed, waiting, ring0, seen, ring, wanted, i, count, kill);
          count := count + 1;
          cur := next;
        } else {
          KeptStep(before, tasks, all, waiting, ring0, ring, wanted, i, count, kill);
          prev, cur := cur, next;
        }
        i := i + 1;
      }
      assert i == |all|;
      Finish(before, tasks, all, waiting, ring0, ring, wanted, count, kill);
      ChosenAre(before, all, wanted);
      InsertedAll(ring0, Chosen(before, all, wanted));
    }

    method MarkKilled(t: Id)
      requires Valid() && t in tasks
      modifies this`tasks
      ensures Valid() && tasks == old(tasks)[t := old(tasks)[t].(killPending := true)]
    {
      hide RingOk, ListOk, Aged, Conserved, Partition;
      RingMembers(tasks, ring);
      ListMembers(tasks, waiting);
      ghost var before := tasks;
      tasks := tasks[t := tasks[t].(killPending := true)];
      assert tasks.Keys == before.Keys;
      RingFrame(before, tasks, ring);
      ListFrame(before, tasks, waiting);
      SamePartition(before, tasks, ring, waiting, retired);
    }

    /** `task_kill_blocked`: exactly the tasks of the process in the ring or waiting are marked, and none
        of them is left waiting. */
    method KillBlocked(process: Option<nat>) returns (woken: nat)
      requires Valid()
      modifies this`tasks, this`ring, this`waiting, this`blockedTasks
      ensures process.None? ==> unchanged(this) && woken == 0
      ensures Valid() && SameTasks(old(tasks), tasks, waiting, Owned(old(tasks), process, old(ring) + old(waiting)))
      ensures waiting == Kept(old(tasks), old(waiting), ByProcess(process)) && woken == |old(waiting)| - |waiting|
      ensures ring == AllInserted(old(ring), Chosen(old(tasks), old(waiting), ByProcess(process)))
    {
      hide RingOk, ListOk, Aged, Partition, AllInserted, Chosen, Kept, Conserved, Owned;
      RingMembers(tasks, ring);
      ListMembers(tasks, waiting);
      if process.None? {
        NobodyChosen(tasks, waiting, process);
        NoneChosen(tasks, waiting, ByProcess(process), ring);
        NobodyOwned(tasks, ring + waiting, process);
        return 0;
      }
      MarkRing(process.value);
      ghost var marked := tasks;
      woken := WakeMatching(ByProcess(process), true);
      SameChoice(old(tasks), marked, old(waiting), process);
      ChosenSplit(old(tasks), old(waiting), ByProcess(process));
      KilledAre(old(tasks), marked, tasks, old(ring), old(waiting), waiting, process);
    }

    /** Once around the ring, marking the tasks of a process. */
    method MarkRing(process: nat)
      requires Valid()
      modifies this`tasks
      ensures Valid() && tasks.Keys == old(tasks).Keys
      ensures forall t :: t in tasks ==> tasks[t] == old(tasks)[t].(killPending := tasks[t].killPending)
      ensures forall t :: t in tasks ==>
                (tasks[t].killPending <==>
                    old(tasks)[t].killPending || (t in ring && old(tasks)[t].process == Some(process)))
    {
      hide RingOk, ListOk, Aged, Partition, Conserved;
      RingMembers(tasks, ring);
      var task := readyQueue;
      ghost var i := 0;
      var more := true;
      while more
        invariant Valid() && tasks.Keys == old(tasks).Keys && 0 <= i <= |ring| && (more <==> i < |ring|)
        invariant more ==> task == ring[i]
        invariant forall t :: t in tasks ==> tasks[t] == old(tasks)[t].(killPending := tasks[t].killPending)
        invariant forall t :: t in tasks ==>
                    (tasks[t].killPending <==>
                        old(tasks)[t].killPending || (t in ring[..i] && old(tasks)[t].process == Some(process)))
        decreases |ring| - i
      {
        RingAt(tasks, ring, i);
        if tasks[task].process == Some(process) {
          MarkKilled(task);
        }
        RingAt(tasks, ring, i);
        task := tasks[task].next.value;
        RingDistinct(tasks, ring);
        if i + 1 < |ring| {
          Elsewhere(ring, 0, i + 1);
        }
        assert ring[..i + 1] == ring[..i] + [ring[i]];
        i := i + 1;
        more := task != readyQueue;
      }
      assert ring[..i] == ring;
    }

    /** `reap_retired_task`: the memory of the last exited task goes back, once. */
    method Reap()
      requires Valid()
      modifies this`tasks, this`reclaimed, this`retired
      ensures Valid() && retired.None?
      ensures (old(retired).Some? ==> old(retired).value in old(tasks)) && tasks == Without(old(tasks), old(retired))
      ensures reclaimed == old(reclaimed) + if old(retired).Some? then [old(retired).value] else []
    {
      hide RingOk, ListOk, Aged, Conserved, Partition;
      if retired.None? {
        return;
      }
      Apart(tasks, ring, waiting, retired);
      Leaves(tasks, ring, waiting, retired.value);
      ghost var before := tasks;
      tasks := tasks - {retired.value};
      ReclaimedOnce(born, reclaimed, before.Keys, retired.value);
      KeysWithout(before, retired.value);
      reclaimed := reclaimed + [retired.value];
      retired := None;
      RingFrame(before, tasks, ring);
      ListFrame(before, tasks, waiting);
    }

    /** `schedule`: on to the next task of the ring. */
    method Schedule()
      requires Valid()
      modifies this`tasks, this`reclaimed, this`retired, this`current
      ensures Valid() && retired.None? && tasks == Without(old(tasks), old(retired))
      ensures reclaimed == old(reclaimed) + if old(retired).Some? then [old(retired).value] else []
      ensures exists k :: 0 <= k < |ring| && ring[k] == old(current) && current == ring[Succ(k, |ring|)]
    {
      hide RingOk, ListOk, Aged, Partition, Conserved;
      Reap();
      ghost var k :| 0 <= k < |ring| && ring[k] == current;
      RingAt(tasks, ring, k);
      RingMembers(tasks, ring);
      var next := tasks[current].next.value;
      if current == next {
        OnlyTask(tasks, ring, k);
        return;
      }
      current := next;
    }

    /** `task_exit`: the task leaves the ring for the retired slot, whose previous occupant is
        reclaimed first.  The last task cannot exit; the system halts instead. */
    method Exit() returns (halted: bool)
      requires Valid()
      modifies this`tasks, this`ring, this`readyQueue, this`reclaimed, this`retired, this`current
      ensures halted <==> |old(ring)| == 1
      ensures halted ==> unchanged(this)
      ensures !halted ==>
                Valid() && retired == Some(old(current)) && tasks.Keys == Without(old(tasks), old(retired)).Keys
      ensures !halted ==> OnlyLinks(old(tasks), tasks, tasks.Keys)
      ensures !halted ==>
                exists k ::
                0 <= k < |old(ring)| && old(ring)[k] == old(current) && ring == Removed(old(ring), k)
                && current == old(ring)[Succ(k, |old(ring)|)]
      ensures !halted ==> reclaimed == old(reclaimed) + if old(retired).Some? then [old(retired).value] else []
    {
      hide RingOk, ListOk, Aged, Removed, Succ, Conserved, Partition;
      ghost var k :| 0 <= k < |ring| && ring[k] == current;
      RingAt(tasks, ring, k);
      OnlyTask(tasks, ring, k);
      var previous := FindPrevious(tasks, ring, k, current);
      if tasks[current].next == Some(current) {
        return true;
      }
      Reap();
      RingAt(tasks, ring, k);
      var next := tasks[current].next.value;
      var task := current;
      ghost var before, seen := tasks, ring;
      UnlinkCurrent(k, previous);
      Retires(before, tasks, seen, ring, waiting, task);
      current := next;
      retired := Some(task);
      return false;
    }
  }

  /** Walks the blocked list to its end. */
  method FindLast(tasks: Tasks, head: Id, ghost waiting: seq<Id>) returns (last: Id)
    requires ListOk(tasks, waiting) && HeadOf(waiting) == Some(head)
    ensures last == waiting[|waiting| - 1]
  {
    hide ListOk;
    last := head;
    ghost var i := 0;
    ListAt(tasks, waiting, 0);
    while tasks[last].blockedNext.Some?
      invariant 0 <= i < |waiting| && last == waiting[i] && last in tasks
      invariant tasks[last].blockedNext == HeadOf(waiting[i + 1..])
      decreases |waiting| - i
    {
      last := tasks[last].blockedNext.value;
      i := i + 1;
      ListAt(tasks, waiting, i);
    }
  }

  lemma Apart(tasks: Tasks, ring: seq<Id>, waiting: seq<Id>, retired: Option<Id>)
    requires Partition(tasks, ring, waiting, retired)
    ensures forall t :: t in ring ==> t in tasks && t !in waiting && retired != Some(t)
    ensures forall t :: t in waiting ==> t in tasks && t !in ring && retired != Some(t)
    ensures retired.Some? ==> retired.value in tasks
  {
  }

  /** A task new to the ring, from nowhere or from the blocked list. */
  lemma Joins(tasks: Tasks, tasks': Tasks, ring: seq<Id>, ring': seq<Id>, waiting: seq<Id>, waiting': seq<Id>,
              retired: Option<Id>, t: Id)
    requires Partition(tasks, ring, waiting, retired) && tasks'.Keys == tasks.Keys + {t} && t !in ring
    requires retired != Some(t)
    requires forall x :: x in ring' <==> x in ring || x == t
    requires forall x :: x in waiting' <==> x in waiting && x != t
    ensures Partition(tasks', ring', waiting', retired)
  {
  }

  /** A control block nobody points to disturbs neither list. */
  lemma Newcomer(tasks: Tasks, ring: seq<Id>, waiting: seq<Id>, retired: Option<Id>, t: Id, tcb: Tcb)
    requires RingOk(tasks, ring) && ListOk(tasks, waiting) && Partition(tasks, ring, waiting, retired) && t !in tasks
    ensures RingOk(tasks[t := tcb], ring) && ListOk(tasks[t := tcb], waiting)
    ensures tasks[t := tcb].Keys == tasks.Keys + {t}
    ensures ring != [] && t !in ring && t !in waiting && ring[0] !in waiting && retired != Some(t)
  {
    hide RingOk, ListOk;
    RingMembers(tasks, ring);
    ListMembers(tasks, waiting);
    RingAt(tasks, ring, 0);
    RingFrame(tasks, tasks[t := tcb], ring);
    ListFrame(tasks, tasks[t := tcb], waiting);
  }

  lemma SamePartition(tasks: Tasks, tasks': Tasks, ring: seq<Id>, waiting: seq<Id>, retired: Option<Id>)
    requires Partition(tasks, ring, waiting, retired) && tasks'.Keys == tasks.Keys
    ensures Partition(tasks', ring, waiting, retired)
  {
  }

  /** The retired task goes. */
  lemma Leaves(tasks: Tasks, ring: seq<Id>, waiting: seq<Id>, t: Id)
    requires Partition(tasks, ring, waiting, Some(t))
    ensures Partition(tasks - {t}, ring, waiting, None)
  {
  }

  /** A task from the ring to the retired slot. */
  lemma Retires(tasks: Tasks, tasks': Tasks, ring: seq<Id>, ring': seq<Id>, waiting: seq<Id>, t: Id)
    requires Partition(tasks, ring, waiting, None) && tasks'.Keys == tasks.Keys && t in ring
    requires forall x :: x in ring' <==> x in ring && x != t
    ensures Partition(tasks', ring', waiting, Some(t))
  {
  }

  /** A task from the ring to the blocked list. */
  lemma Moves(tasks: Tasks, tasks': Tasks, ring: seq<Id>, ring': seq<Id>, waiting: seq<Id>, waiting': seq<Id>,
              retired: Option<Id>, t: Id)
    requires Partition(tasks, ring, waiting, retired) && tasks'.Keys == tasks.Keys && t in ring
    requires forall x :: x in ring' <==> x in ring && x != t
    requires forall x :: x in waiting' <==> x in waiting || x == t
    ensures Partition(tasks', ring', waiting', retired)
  {
  }

  function ByProcess(process: Option<nat>): Wanted {
    (t: Id, channel: Option<Channel>, owner: Option<nat>) => process.Some? && owner == process
  }

  /** The tasks of a process among `ids`. */
  function Owned(tasks: Tasks, process: Option<nat>, ids: seq<Id>): seq<Id> {
    Chosen(tasks, ids, ByProcess(process))
  }

  lemma NobodyOwned(tasks: Tasks, ids: seq<Id>, process: Option<nat>)
    requires process.None?
    ensures Owned(tasks, process, ids) == []
  {
    NobodyChosen(tasks, ids, process);
  }

  lemma {:induction false} NobodyChosen(tasks: Tasks, ids: seq<Id>, process: Option<nat>)
    requires process.None?
    ensures Chosen(tasks, ids, ByProcess(process)) == [] && Kept(tasks, ids, ByProcess(process)) == ids
  {
    if ids != [] {
      NobodyChosen(tasks, ids[..|ids| - 1], process);
      assert ids == ids[..|ids| - 1] + [ids[|ids| - 1]];
    }
  }

  /** A kill mark changes no one's process, so it changes no choice by process. */
  lemma {:induction false} SameChoice(before: Tasks, after: Tasks, ids: seq<Id>, process: Option<nat>)
    requires after.Keys == before.Keys && forall t :: t in before ==> after[t].process == before[t].process
    ensures Chosen(after, ids, ByProcess(process)) == Chosen(before, ids, ByProcess(process))
    ensures Kept(after, ids, ByProcess(process)) == Kept(before, ids, ByProcess(process))
  {
    if ids != [] {
      SameChoice(before, after, ids[..|ids| - 1], process);
    }
  }

  lemma {:induction false} ChosenSplit(tasks: Tasks, ids: seq<Id>, wanted: Wanted)
    ensures |Chosen(tasks, ids, wanted)| + |Kept(tasks, ids, wanted)| == |ids|
  {
    if ids != [] {
      ChosenSplit(tasks, ids[..|ids| - 1], wanted);
    }
  }

  /** The marks of both loops together. */
  lemma KilledAre(before: Tasks, marked: Tasks, after: Tasks, ring: seq<Id>, all: seq<Id>, waiting: seq<Id>,
                  process: Option<nat>)
    requires process.Some? && marked.Keys == before.Keys
    requires forall t :: t in before ==> marked[t] == before[t].(killPending := marked[t].killPending)
    requires forall t :: t in before ==>
               (marked[t].killPending <==> before[t].killPending || (t in ring && before[t].process == process))
    requires SameTasks(marked, after, waiting, Chosen(before, all, ByProcess(process)))
    ensures SameTasks(before, after, waiting, Owned(before, process, ring + all))
  {
    hide Chosen;
    ChosenAre(before, all, ByProcess(process));
    ChosenAre(before, ring + all, ByProcess(process));
  }

  /** No one wanted has waited longer than `t`. */
  ghost predicate Oldest(tasks: Tasks, waiting: seq<Id>, wanted: Wanted, t: Id, since: map<Id, nat>) {
    && t in waiting && Wants(tasks, wanted, t) && t in since
    && forall x :: x in waiting && Wants(tasks, wanted, x) ==> x in since && since[t] <= since[x]
  }

  /** The tasks in `ids` differ in their links at most. */
  ghost predicate OnlyLinks(before: Tasks, after: Tasks, ids: set<Id>) {
    forall t :: t in ids ==>
      t in before && t in after && after[t] == before[t].(next := after[t].next, blockedNext := after[t].blockedNext)
  }

  lemma LinksTrans(a: Tasks, b: Tasks, c: Tasks, t: Id)
    requires a.Keys == b.Keys == c.Keys && t in a && OnlyLinks(a, b, a.Keys) && OnlyLinks(b, c, b.Keys - {t})
    ensures OnlyLinks(a, c, a.Keys - {t}) && b[t].process == a[t].process && b[t].killPending == a[t].killPending
  {
  }

  lemma NoLinks(a: Tasks, ids: set<Id>)
    requires ids <= a.Keys
    ensures OnlyLinks(a, a, ids)
  {
  }

  function Without(tasks: Tasks, gone: Option<Id>): Tasks {
    if gone.Some? then tasks - {gone.value} else tasks
  }

  /** The first wanted waiter has waited longest. */
  lemma OldestFirst(tasks: Tasks, waiting: seq<Id>, wanted: Wanted, j: nat, since: map<Id, nat>, clock: nat)
    requires Aged(waiting, since, clock) && FirstWanted(tasks, waiting, wanted, j)
    ensures j < |waiting| ==> Oldest(tasks, waiting, wanted, waiting[j], since)
  {
    forall t | j < |waiting| && t in waiting && Wants(tasks, wanted, t)
      ensures t in since && since[waiting[j]] <= since[t]
    {
      var i :| 0 <= i < |waiting| && waiting[i] == t;
      assert i >= j;
    }
  }

  /** Waking everyone wanted leaves no one wanted waiting. */
  lemma {:induction false} ChosenAre(tasks: Tasks, waiting: seq<Id>, wanted: Wanted)
    ensures forall t :: t in Chosen(tasks, waiting, wanted) <==> t in waiting && Wants(tasks, wanted, t)
    ensures forall t :: t in Kept(tasks, waiting, wanted) <==> t in waiting && !Wants(tasks, wanted, t)
  {
    if waiting != [] {
      var n := |waiting| - 1;
      ChosenAre(tasks, waiting[..n], wanted);
      assert waiting == waiting[..n] + [waiting[n]];
    }
  }

  lemma {:induction false} InsertedAll(ring: seq<Id>, ids: seq<Id>)
    requires ring != []
    ensures forall x :: x in AllInserted(ring, ids) <==> x in ring || x in ids
  {
    if ids != [] {
      var n := |ids| - 1;
      InsertedAll(ring, ids[..n]);
      InsertedMembers(AllInserted(ring, ids[..n]), ids[n]);
      assert ids == ids[..n] + [ids[n]];
    }
  }

  /** `j` is the first wanted position, or the end. */
  ghost predicate FirstWanted(tasks: Tasks, waiting: seq<Id>, wanted: Wanted, j: nat) {
    && j <= |waiting| && (j < |waiting| ==> Wants(tasks, wanted, waiting[j]))
    && forall i :: 0 <= i < j ==> !Wants(tasks, wanted, waiting[i])
  }

  /** Walks the list to the first wanted waiter. */
  method FindWaiter(tasks: Tasks, head: Option<Id>, wanted: Wanted, ghost waiting: seq<Id>)
    returns (prev: Option<Id>, found: Option<Id>, ghost j: nat)
    requires ListOk(tasks, waiting) && head == HeadOf(waiting)
    ensures FirstWanted(tasks, waiting, wanted, j) && prev == (if j == 0 then None else Some(waiting[j - 1]))
    ensures found == if j < |waiting| then Some(waiting[j]) else None
  {
    hide ListOk;
    prev, found, j := None, head, 0;
    assert waiting[0..] == waiting;
    while found.Some?
      invariant 0 <= j <= |waiting| && found == HeadOf(waiting[j..])
      invariant prev == if j == 0 then None else Some(waiting[j - 1])
      invariant forall i :: 0 <= i < j ==> !Wants(tasks, wanted, waiting[i])
      decreases |waiting| - j
    {
      ListAt(tasks, waiting, j);
      var t := found.value;
      if wanted(t, tasks[t].channel, tasks[t].process) {
        return;
      }
      prev, found, j := found, tasks[t].blockedNext, j + 1;
    }
  }

  /** Wake-ups leave who a task is alone, and what the remaining waiters wait for; exactly the tasks in
      `killed` get a kill mark. */
  ghost predicate SameTasks(before: Tasks, after: Tasks, waiting: seq<Id>, killed: seq<Id>) {
    && after.Keys == before.Keys
    && (forall t :: t in before ==> after[t].process == before[t].process)
    && (forall t :: t in before ==> (after[t].killPending <==> before[t].killPending || t in killed))
    && (forall t :: t in waiting && t in before ==> after[t].channel == before[t].channel)
  }

  lemma SameTasksTrans(a: Tasks, b: Tasks, c: Tasks, waiting: seq<Id>, waiting': seq<Id>, killed: seq<Id>,
                       killed': seq<Id>)
    requires SameTasks(a, b, waiting, killed) && SameTasks(b, c, waiting', killed')
    requires forall t :: t in waiting' ==> t in waiting
    ensures SameTasks(a, c, waiting', killed + killed')
  {
  }

  /** Where a wake-up loop has got to after `i` of the waiters it found. */
  ghost predicate Progress(before: Tasks, tasks: Tasks, all: seq<Id>, waiting: seq<Id>, ring0: seq<Id>, ring: seq<Id>,
                           wanted: Wanted, i: nat, count: nat, kill: bool)
    requires i <= |all|
  {
    && ring0 != []
    && waiting == Kept(before, all[..i], wanted) + all[i..]
    && ring == AllInserted(ring0, Chosen(before, all[..i], wanted)) && count == |Chosen(before, all[..i], wanted)|
    && SameTasks(before, tasks, waiting, if kill then Chosen(before, all[..i], wanted) else [])
  }

  lemma Begin(before: Tasks, all: seq<Id>, wanted: Wanted, ring: seq<Id>, kill: bool)
    requires ring != []
    ensures Progress(before, before, all, all, ring, ring, wanted, 0, 0, kill)
    ensures LastOf(Kept(before, all[..0], wanted)) == None && all[0..] == all
  {
    NoneChosen(before, all, wanted, ring);
  }

  lemma Finish(before: Tasks, tasks: Tasks, all: seq<Id>, waiting: seq<Id>, ring0: seq<Id>, ring: seq<Id>,
               wanted: Wanted, count: nat, kill: bool)
    requires Progress(before, tasks, all, waiting, ring0, ring, wanted, |all|, count, kill)
    ensures ring0 != [] && waiting == Kept(before, all, wanted)
    ensures ring == AllInserted(ring0, Chosen(before, all, wanted))
    ensures count == |Chosen(before, all, wanted)|
    ensures SameTasks(before, tasks, waiting, if kill then Chosen(before, all, wanted) else [])
  {
    assert all[..|all|] == all && all[|all|..] == [];
  }

  lemma Current(before: Tasks, tasks: Tasks, all: seq<Id>, waiting: seq<Id>, ring0: seq<Id>, ring: seq<Id>,
                wanted: Wanted, i: nat, count: nat, kill: bool)
    requires i < |all| && Progress(before, tasks, all, waiting, ring0, ring, wanted, i, count, kill)
    ensures var j := |Kept(before, all[..i], wanted)|;
            && j < |waiting| && waiting[j] == all[i] && HeadOf(waiting[j + 1..]) == HeadOf(all[i + 1..])
            && (if j == 0 then None else Some(waiting[j - 1])) == LastOf(Kept(before, all[..i], wanted))
    ensures all[i] in tasks ==>
              (Wants(before, wanted, all[i]) <==> wanted(all[i], tasks[all[i]].channel, tasks[all[i]].process))
  {
    hide Kept, Chosen, SameTasks;
    NextAfter(Kept(before, all[..i], wanted), all, i);
    if all[i] in tasks {
      assert waiting[|Kept(before, all[..i], wanted)|] == all[i];
      StillWants(before, tasks, waiting, wanted, if kill then Chosen(before, all[..i], wanted) else [], all[i]);
    }
  }

  lemma ChosenStep(before: Tasks, tasks: Tasks, marked: Tasks, after: Tasks, all: seq<Id>, waiting: seq<Id>,
                   waiting': seq<Id>,
                   ring0: seq<Id>, ring: seq<Id>, ring': seq<Id>, wanted: Wanted, i: nat, count: nat, kill: bool)
    requires i < |all| && Progress(before, tasks, all, waiting, ring0, ring, wanted, i, count, kill)
    requires Wants(before, wanted, all[i]) && all[i] in tasks
    requires marked == if kill then tasks[all[i] := tasks[all[i]].(killPending := true)] else tasks
    requires |Kept(before, all[..i], wanted)| < |waiting|
    requires waiting' == Removed(waiting, |Kept(before, all[..i], wanted)|)
    requires ring != [] && ring' == Inserted(ring, all[i]) && SameTasks(marked, after, waiting', [])
    ensures Progress(before, after, all, waiting', ring0, ring', wanted, i + 1, count + 1, kill)
    ensures Kept(before, all[..i + 1], wanted) == Kept(before, all[..i], wanted)
  {
    hide Kept, Chosen, AllInserted, Inserted;
    OneChosen(before, all, wanted, i, ring0);
    assert forall t :: t in waiting' ==> t in waiting;
    var killed, mark := if kill then Chosen(before, all[..i], wanted) else [], if kill then [all[i]] else [];
    SameTasksTrans(before, tasks, marked, waiting, waiting, killed, mark);
    SameTasksTrans(before, marked, after, waiting, waiting', killed + mark, []);
    assert killed + mark + [] == if kill then Chosen(before, all[..i + 1], wanted) else [];
  }

  lemma KeptStep(before: Tasks, tasks: Tasks, all: seq<Id>, waiting: seq<Id>, ring0: seq<Id>, ring: seq<Id>,
                 wanted: Wanted, i: nat, count: nat, kill: bool)
    requires i < |all| && Progress(before, tasks, all, waiting, ring0, ring, wanted, i, count, kill)
    requires !Wants(before, wanted, all[i])
    ensures Progress(before, tasks, all, waiting, ring0, ring, wanted, i + 1, count, kill)
    ensures LastOf(Kept(before, all[..i + 1], wanted)) == Some(all[i])
  {
    hide Kept, Chosen, AllInserted, SameTasks;
    OneKept(before, all, wanted, i);
  }

  function LastOf(s: seq<Id>): Option<Id> {
    if s == [] then None else Some(s[|s| - 1])
  }

  lemma NoneChosen(tasks: Tasks, all: seq<Id>, wanted: Wanted, ring: seq<Id>)
    requires ring != []
    ensures Kept(tasks, all[..0], wanted) == [] && Chosen(tasks, all[..0], wanted) == []
    ensures AllInserted(ring, []) == ring && all[0..] == all
    ensures [] + all == all
  {
  }

  lemma NextAfter(kept: seq<Id>, all: seq<Id>, i: nat)
    requires i < |all|
    ensures HeadOf((kept + all[i..])[|kept| + 1..]) == HeadOf(all[i + 1..])
  {
    assert (kept + all[i..])[|kept| + 1..] == all[i + 1..];
  }

  lemma StillWants(before: Tasks, now: Tasks, waiting: seq<Id>, wanted: Wanted, killed: seq<Id>, t: Id)
    requires SameTasks(before, now, waiting, killed) && t in waiting && t in now
    ensures Wants(before, wanted, t) <==> wanted(t, now[t].channel, now[t].process)
  {
  }

  lemma OneChosen(tasks: Tasks, all: seq<Id>, wanted: Wanted, i: nat, ring: seq<Id>)
    requires i < |all| && Wants(tasks, wanted, all[i]) && ring != []
    ensures Chosen(tasks, all[..i + 1], wanted) == Chosen(tasks, all[..i], wanted) + [all[i]]
    ensures Kept(tasks, all[..i + 1], wanted) == Kept(tasks, all[..i], wanted)
    ensures AllInserted(ring, Chosen(tasks, all[..i + 1], wanted)) ==
              Inserted(AllInserted(ring, Chosen(tasks, all[..i], wanted)), all[i])
    ensures var kept := Kept(tasks, all[..i], wanted); Removed(kept + all[i..], |kept|) == kept + all[i + 1..]
  {
    assert all[..i + 1][..i] == all[..i];
    var chosen := Chosen(tasks, all[..i], wanted);
    assert (chosen + [all[i]])[..|chosen|] == chosen;
  }

  lemma OneKept(tasks: Tasks, all: seq<Id>, wanted: Wanted, i: nat)
    requires i < |all| && !Wants(tasks, wanted, all[i])
    ensures Chosen(tasks, all[..i + 1], wanted) == Chosen(tasks, all[..i], wanted)
    ensures Kept(tasks, all[..i + 1], wanted) == Kept(tasks, all[..i], wanted) + [all[i]]
    ensures Kept(tasks, all[..i], wanted) + all[i..] == Kept(tasks, all[..i + 1], wanted) + all[i + 1..]
    ensures LastOf(Kept(tasks, all[..i + 1], wanted)) == Some(all[i])
  {
    assert all[..i + 1][..i] == all[..i];
  }

  lemma HeadRemoved(waiting: seq<Id>, j: nat)
    requires j < |waiting|
    ensures HeadOf(Removed(waiting, j)) == if j == 0 then HeadOf(waiting[1..]) else HeadOf(waiting)
  {
  }

  lemma AgedRemoved(waiting: seq<Id>, since: map<Id, nat>, clock: nat, j: nat)
    requires Aged(waiting, since, clock) && j < |waiting|
    ensures Aged(Removed(waiting, j), since, clock)
  {
    var r := Removed(waiting, j);
    assert forall i :: 0 <= i < |r| ==> r[i] == waiting[if i < j then i else i + 1];
  }

  lemma RingMembers(tasks: Tasks, ring: seq<Id>)
    requires RingOk(tasks, ring)
    ensures ring != [] && forall t :: t in ring ==> t in tasks
  {
  }

  lemma ListMembers(tasks: Tasks, waiting: seq<Id>)
    requires ListOk(tasks, waiting)
    ensures forall t :: t in waiting ==> t in tasks
  {
  }

  lemma InsertedHead(ring: seq<Id>, t: Id)
    requires ring != []
    ensures Inserted(ring, t)[0] == ring[0]
  {
  }

  lemma InsertedMembers(ring: seq<Id>, t: Id)
    requires ring != []
    ensures forall x :: x in Inserted(ring, t) <==> x in ring || x == t
  {
    assert ring == [ring[0]] + ring[1..];
  }

  lemma RemovedMembers(ring: seq<Id>, k: nat)
    requires NoRepeats(ring) && k < |ring|
    ensures forall x :: x in Removed(ring, k) <==> x in ring && x != ring[k]
    ensures |ring| > 1 ==> ring[Succ(k, |ring|)] in Removed(ring, k)
  {
    var r := Removed(ring, k);
    assert ring == ring[..k] + [ring[k]] + ring[k + 1..];
    RemovedDistinct(ring, k);
    forall x | x in ring && x != ring[k] ensures x in r {
    }
  }

  /** A task is its own successor exactly when it is alone. */
  lemma OnlyTask(tasks: Tasks, ring: seq<Id>, k: nat)
    requires RingOk(tasks, ring) && k < |ring|
    ensures tasks[ring[k]].next == Some(ring[k]) <==> |ring| == 1
  {
    if |ring| > 1 {
      Elsewhere(ring, k, Succ(k, |ring|));
    }
  }
}
