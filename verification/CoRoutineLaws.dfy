/**
 What the calls on the co-routine scheduler do to lists and priorities, said from outside: who
 comes when on a ready list, who runs next, in which order events are served, and who is on an
 event list.
 */
module CoRoutineLaws {
  import opened ListSpec
  import opened CoRoutineSpec
  import opened CoRoutineRuns

  /** One more on a ready list: behind all others but the one that ran last. */
  ghost predicate JoinedLast(w: Walk<nat>, w': Walk<nat>, id: nat)
    requires w.pos < |w.ring| && w'.pos < |w'.ring|
  {
    if w.pos == 0 then Coming(w') == Coming(w) + [id]
    else Coming(w') == Coming(w)[..|w.ring| - 2] + [id] + [w.ring[w.pos]]
  }

  /** Only the list of its priority changes, and there it is the last to come. */
  lemma ReadiedComesLast(ready: seq<Walk<nat>>, priorityOf: map<nat, nat>, id: nat)
    requires id in priorityOf && priorityOf[id] < |ready| && ready[priorityOf[id]].pos < |ready[priorityOf[id]].ring|
    ensures var p, r := priorityOf[id], Ready(ready, priorityOf, id);
      && |r| == |ready| && (forall q :: 0 <= q < |r| && q != p ==> r[q] == ready[q])
      && r[p].pos < |r[p].ring| && JoinedLast(ready[p], r[p], id)
  {
    var w := ready[priorityOf[id]];
    UpcomingInsertEnd(w.ring, w.pos, id);
  }

  /** A co-routine is created with the priority asked for, the highest if there is none such, and is
      ready; the first one becomes the current one, and nobody else is touched. */
  lemma CreatedIsReady(s: Sched, id: nat, priority: nat)
    requires PlacesOk(s) && CoRoutineRuns.Enabled(s, CallCreate(id, priority))
    ensures var s' := Do(s, CallCreate(id, priority));
      && id in s'.priorityOf
      && (priority < |s.ready| ==> s'.priorityOf[id] == priority)
      && (priority >= |s.ready| ==> s'.priorityOf[id] == |s.ready| - 1)
      && (forall u :: u != id ==> (u in s'.priorityOf <==> u in s.priorityOf))
      && (forall u :: u in s.priorityOf ==> s'.priorityOf[u] == s.priorityOf[u])
      && (s.current == MARKER ==> s'.current == id) && (s.current != MARKER ==> s'.current == s.current)
      && s'.time == s.time && s'.waiting == s.waiting && s'.pending == s.pending
    ensures var s' := Do(s, CallCreate(id, priority)); var p := s'.priorityOf[id];
      && |s'.ready| == |s.ready| && (forall q :: 0 <= q < |s.ready| && q != p ==> s'.ready[q] == s.ready[q])
      && s.ready[p].pos < |s.ready[p].ring| && s'.ready[p].pos < |s'.ready[p].ring|
      && JoinedLast(s.ready[p], s'.ready[p], id)
  {
    var s' := Do(s, CallCreate(id, priority));
    assert ListOk(s.ready[s'.priorityOf[id]], s.priorityOf, s'.priorityOf[id]);
    ReadiedComesLast(s.ready, s'.priorityOf, id);
  }

  /** The co-routine that delays itself sleeps until so many ticks from now, the others as long as
      before, and it joins an event list if there is one. */
  lemma DelayedSleeps(s: Sched, d: nat, onEventList: bool)
    requires PlacesOk(s) && CoRoutineRuns.Enabled(s, CallDelay(d, onEventList))
    ensures var s' := Do(s, CallDelay(d, onEventList));
      && TimesOf(s'.time.sleepers, s.current) == [s.time.now + d]
      && (forall id :: id != s.current ==> TimesOf(s'.time.sleepers, id) == TimesOf(s.time.sleepers, id))
      && s'.time.now == s.time.now && s'.time.woken == s.time.woken
      && (forall id :: id in s'.waiting <==> id in s.waiting || (onEventList && id == s.current))
      && s'.pending == s.pending && s'.priorityOf == s.priorityOf && s'.current == s.current
  {
    var x := Sleeper(s.current, s.time.now + d);
    RunningIsAwake(s);
    InsertSelf(s.time.sleepers, x);
    forall id | id != s.current
      ensures TimesOf(Insert(s.time.sleepers, x), id) == TimesOf(s.time.sleepers, id)
    {
      InsertOther(s.time.sleepers, x, id);
    }
  }

  /** And it leaves its ready list, the others there keeping their order. */
  lemma DelayedLeaves(s: Sched, d: nat, onEventList: bool) returns (due: nat)
    requires PlacesOk(s) && CoRoutineRuns.Enabled(s, CallDelay(d, onEventList))
    ensures var s', p := Do(s, CallDelay(d, onEventList)), s.priorityOf[s.current];
      && |s'.ready| == |s.ready| && (forall q :: 0 <= q < |s.ready| && q != p ==> s'.ready[q] == s.ready[q])
      && s.ready[p].pos < |s.ready[p].ring| && s'.ready[p].pos < |s'.ready[p].ring|
      && due < |Coming(s.ready[p])| && Coming(s.ready[p])[due] == s.current
      && Coming(s'.ready[p]) == DropAt(Coming(s.ready[p]), due)
  {
    var w := s.ready[s.priorityOf[s.current]];
    var k := 1 + Find(w.ring[1..], s.current);
    RemovalKeepsOrder(w, k);
    due := Due(|w.ring|, w.pos, k);
  }

  /** Of the highest priority that has any ready co-routine the next in turn runs, and has its next
      turn after all the others there; with none ready nothing changes. */
  lemma NextOfHighestRuns(s: Sched, p: nat)
    requires PlacesOk(s) && p < |s.ready|
    requires |s.ready[p].ring| > 1 && forall q :: p < q < |s.ready| ==> |s.ready[q].ring| == 1
    ensures var s' := Choose(s);
      && s.ready[p].pos < |s.ready[p].ring| && |s'.ready| == |s.ready| && s'.ready[p].pos < |s'.ready[p].ring|
      && s'.current == Coming(s.ready[p])[0]
      && Coming(s'.ready[p]) == Coming(s.ready[p])[1..] + [Coming(s.ready[p])[0]]
      && (forall q :: 0 <= q < |s.ready| && q != p ==> s'.ready[q] == s.ready[q])
      && s'.(ready := s.ready, current := s.current) == s
  {
    assert ListOk(s.ready[p], s.priorityOf, p);
    UpcomingNext(s.ready[p].ring, s.ready[p].pos);
  }

  lemma NobodyReadyNobodyRuns(s: Sched)
    requires forall q :: 0 <= q < |s.ready| ==> |s.ready[q].ring| == 1
    ensures Choose(s) == s
  {
  }

  /** A pending co-routine that is taken, and one whose time has come, is ready behind the others of
      its priority; nothing else changes but that it is no longer waiting for either. */
  lemma TakenIsReady(s: Sched)
    requires PlacesOk(s) && s.pending != []
    ensures var s', id := TakeFirst(s), s.pending[0];
      && s'.pending == s.pending[1..] && s'.waiting == s.waiting
      && TimesOf(s'.time.sleepers, id) == []
      && (forall u :: u != id ==> TimesOf(s'.time.sleepers, u) == TimesOf(s.time.sleepers, u))
      && s'.time.now == s.time.now && s'.time.woken == s.time.woken
      && ReadyBehind(s, s', id)
  {
    var id := s.pending[0];
    PendingIsCreated(s);
    assert ListOk(s.ready[s.priorityOf[id]], s.priorityOf, s.priorityOf[id]);
    ReadiedComesLast(s.ready, s.priorityOf, id);
    forall u ensures TimesOf(Without(s.time.sleepers, id), u) == if u == id then [] else TimesOf(s.time.sleepers, u) {
      TimesOfWithout(s.time.sleepers, id, u);
    }
  }

  lemma WokenIsReady(s: Sched)
    requires PlacesOk(s) && s.time.sleepers != []
    ensures var s', id := WakeFirst(s), s.time.sleepers[0].id;
      && s'.time == s.time.(sleepers := s.time.sleepers[1..], woken := s.time.woken + [Wake(id, s.time.now)])
      && (forall u :: u in s'.waiting <==> u in s.waiting && u != id)
      && (forall u :: Count(s'.pending, u) == if u == id then 0 else Count(s.pending, u))
      && ReadyBehind(s, s', id)
  {
    var id := s.time.sleepers[0].id;
    SleeperIsCreated(s);
    assert ListOk(s.ready[s.priorityOf[id]], s.priorityOf, s.priorityOf[id]);
    ReadiedComesLast(s.ready, s.priorityOf, id);
    forall u ensures Count(Except(s.pending, id), u) == if u == id then 0 else Count(s.pending, u) {
      CountExcept(s.pending, id, u);
    }
  }

  ghost predicate ReadyBehind(s: Sched, s': Sched, id: nat) {
    && s'.current == s.current && s'.priorityOf == s.priorityOf && |s'.ready| == |s.ready|
    && id in s.priorityOf && s.priorityOf[id] < |s.ready|
    && var p := s.priorityOf[id];
    && s.ready[p].pos < |s.ready[p].ring| && s'.ready[p].pos < |s'.ready[p].ring|
    && JoinedLast(s.ready[p], s'.ready[p], id)
    && forall q :: 0 <= q < |s.ready| && q != p ==> s'.ready[q] == s.ready[q]
  }

  /** Events are served in the order in which they came: another one changes nothing for the one
      that is taken first. */
  lemma EventsAreServedInOrder(s: Sched, x: nat)
    requires s.pending != []
    ensures TakeFirst(EventFor(s, x)) == EventFor(TakeFirst(s), x)
    ensures EventFor(s, x).pending[0] == s.pending[0]
  {
    assert (s.pending + [x])[1..] == s.pending[1..] + [x];
  }
}
