/**
 Restarting the Disruption Manager from a file it saved itself: permitted and requested hosts
 come back exactly, and so do the waiters whose time is not over.
 */
module DisruptionRestart {
  import opened Basics
  import opened Listing
  import opened StableSort
  import opened Disruption
  import opened DisruptionExport
  import opened DisruptionLoad
  import opened DisruptionSystem

  // ---------------------------------------------------------------- The manager's own file

  lemma {:induction false} SortedLoadsAsMap(l: seq<Entry<int>>)
    requires DistinctKeys(l)
    ensures LoadPermitted(l) == AsMap(l)
  {
    if l != [] {
      SortedLoadsAsMap(l[..|l| - 1]);
      AsMapKeys(l[..|l| - 1], l[|l| - 1].key);
    }
  }

  lemma {:induction false} DisjointLoadsAsMap(l: seq<Entry<int>>, permitted: map<string, int>)
    requires DistinctKeys(l) && AsMap(l).Keys !! permitted.Keys
    ensures LoadRequested(l, permitted) == AsMap(l) && CountRequested(l, permitted) == |l|
  {
    if l != [] {
      var n := |l| - 1;
      AsMapKeys(l[..n], l[n].key);
      assert AsMap(l[..n]).Keys <= AsMap(l).Keys;
      DisjointLoadsAsMap(l[..n], permitted);
      assert l[n].key in AsMap(l);
    }
  }

  /** The waiters of a saved map that a restart at `now` takes over. */
  function StillAhead(m: map<string, WaitInfo>, now: int): map<string, WaitData> {
    map h | h in m && Ahead(m[h], now) :: WaitData(false, m[h])
  }

  lemma {:induction false} WaitersLoadAhead(l: seq<Entry<WaitInfo>>, now: int)
    requires DistinctKeys(l)
    ensures LoadWaiting(l, now) == StillAhead(AsMap(l), now)
  {
    if l != [] {
      var n := |l| - 1;
      WaitersLoadAhead(l[..n], now);
      AsMapKeys(l[..n], l[n].key);
    }
  }

  /** What a saved group looks like after a restart. */
  function Restarted(g: Group, now: int): Group {
    Group(1, g.permitted, g.requested, StillAhead(Infos(g.waiting), now))
  }

  lemma DescriptionLoads(stats: GroupStats, g: Group, now: int)
    requires Describes(stats, g) && g.permitted.Keys !! g.requested.Keys
    ensures LoadGroup(stats, now) == Restarted(g, now)
    ensures CountRequested(stats.requested, LoadPermitted(stats.permitted)) == |stats.requested|
    ensures |LoadPermitted(stats.permitted)| == |stats.permitted|
  {
    SortedIsDistinct(stats.permitted);
    SortedIsDistinct(stats.requested);
    SortedIsDistinct(stats.waiting);
    SortedLoadsAsMap(stats.permitted);
    AsMapOfDistinct(stats.permitted);
    DisjointLoadsAsMap(stats.requested, g.permitted);
    WaitersLoadAhead(stats.waiting, now);
  }

  lemma {:induction false} SumsAgree<T>(l: seq<T>, v: T -> nat, w: T -> nat)
    requires forall i :: 0 <= i < |l| ==> v(l[i]) == w(l[i])
    ensures SumOf(l, v) == SumOf(l, w)
  {
    if l != [] {
      SumsAgree(l[..|l| - 1], v, w);
    }
  }

  /**
   Saving and restarting: the inhabited groups come back with their permitted and requested
   hosts and times, with exactly the waiters whose timeout is ahead, with the saved totals
   of permitted and requested hosts, and with the total of those waiters. Groups without
   hosts are forgotten.
   */
  lemma RestartRoundTrip(gs: Groups, list: GroupList, now: int, id: string)
    requires Exports(list, gs) && Exclusive(gs)
    ensures var gs' := LoadGroups(list.groups, now);
      && (id in gs' <==> id in gs && !IsEmptyGroup(gs[id]))
      && (id in gs' ==> gs'[id] == Restarted(gs[id], now))
    ensures LoadedList(list.groups, now).totalPermitted == list.totalPermitted
    ensures LoadedList(list.groups, now).totalRequested == list.totalRequested
    ensures LoadedList(list.groups, now).totalWaiting == SumOver(LoadGroups(list.groups, now), Waiters)
  {
    SortedIsDistinct(list.groups);
    WaitingTotalIsExactIff(list.groups, now);
    LoadGroupsAt(list.groups, now, id);
    if id in AsMap(list.groups) {
      DescriptionLoads(AsMap(list.groups)[id], gs[id], now);
    }
    SavedTotalsLoad(gs, list, now);
  }

  /** The same host by host: what comes back is what was there, but for waiters without a timeout or behind it. */
  lemma RestartKeepsHosts(gs: Groups, list: GroupList, now: int, id: string)
    requires Exports(list, gs) && Exclusive(gs)
    ensures var gs' := LoadGroups(list.groups, now);
      && (id in gs' <==> id in gs && gs[id].permitted.Keys + gs[id].requested.Keys + gs[id].waiting.Keys != {})
      && (id in gs' ==> gs'[id].permitted == gs[id].permitted && gs'[id].requested == gs[id].requested)
    ensures var gs' := LoadGroups(list.groups, now);
      id in gs' ==> forall h ::
        && (h in gs'[id].waiting <==>
              && h in gs[id].waiting
              && gs[id].waiting[h].info.readyTimeout != 0 && gs[id].waiting[h].info.readyTimeout > now)
        && (h in gs'[id].waiting ==> gs'[id].waiting[h] == gs[id].waiting[h].(finished := false))
  {
    RestartRoundTrip(gs, list, now, id);
  }

  lemma SavedTotalsLoad(gs: Groups, list: GroupList, now: int)
    requires Exports(list, gs) && Exclusive(gs)
    ensures SumOf(list.groups, LoadedPermitted) == list.totalPermitted
    ensures SumOf(list.groups, LoadedRequested) == list.totalRequested
  {
    var l := list.groups;
    forall i | 0 <= i < |l|
      ensures LoadedPermitted(l[i]) == PermittedCount(l[i])
      ensures LoadedRequested(l[i]) == RequestedCount(l[i])
    {
      SortedIsDistinct(l);
      AsMapOfDistinct(l);
      DescriptionLoads(l[i].value, gs[l[i].key], now);
    }
    SumsAgree(l, LoadedPermitted, PermittedCount);
    SumsAgree(l, LoadedRequested, RequestedCount);
  }

  // ---------------------------------------------------------------- The first export

  /** Every saved waiter's timeout is still ahead. */
  ghost predicate NoneTimedOut(gs: Groups, now: int) {
    forall id, h :: id in gs && h in gs[id].waiting ==> Ahead(gs[id].waiting[h].info, now)
  }

  lemma TimedOutIsNotDescribed(gs: Groups, list: GroupList, now: int, l: GroupList)
    requires Exports(list, gs) && Exclusive(gs) && !NoneTimedOut(gs, now) && l.groups == list.groups
    ensures !Exports(l, LoadGroups(list.groups, now))
  {
    var id, h :| id in gs && h in gs[id].waiting && !Ahead(gs[id].waiting[h].info, now);
    var gs' := LoadGroups(list.groups, now);
    RestartRoundTrip(gs, list, now, id);
    assert h !in Restarted(gs[id], now).waiting && id in gs';
    assert h in Infos(gs[id].waiting) && h !in Infos(gs'[id].waiting);
    assert h in AsMap(AsMap(list.groups)[id].waiting);
  }

  /**
   The list a restarted manager shows before anything changes is right exactly if no saved
   waiter has timed out meanwhile.
   */
  lemma RestartedExportAgreesIff(gs: Groups, list: GroupList, now: int)
    requires Exports(list, gs) && Exclusive(gs)
    ensures Exports(LoadedList(list.groups, now), LoadGroups(list.groups, now)) <==> NoneTimedOut(gs, now)
  {
    if NoneTimedOut(gs, now) {
      RestartedExportAgrees(gs, list, now);
    } else {
      TimedOutIsNotDescribed(gs, list, now, LoadedList(list.groups, now));
    }
  }

  /** And so is the file it was read from. */
  lemma SavedListAgreesIff(gs: Groups, list: GroupList, now: int)
    requires Exports(list, gs) && Exclusive(gs)
    ensures Exports(list, LoadGroups(list.groups, now)) <==> NoneTimedOut(gs, now)
  {
    if NoneTimedOut(gs, now) {
      RestartedExportAgrees(gs, list, now);
    } else {
      TimedOutIsNotDescribed(gs, list, now, list);
    }
  }

  lemma RestartedExportAgrees(gs: Groups, list: GroupList, now: int)
    requires Exports(list, gs) && Exclusive(gs) && NoneTimedOut(gs, now)
    ensures Exports(LoadedList(list.groups, now), LoadGroups(list.groups, now))
    ensures LoadedList(list.groups, now) == list
  {
    var gs', l := LoadGroups(list.groups, now), list.groups;
    forall id
      ensures id in AsMap(l) <==> id in gs' && !IsEmptyGroup(gs'[id])
      ensures id in AsMap(l) ==> Describes(AsMap(l)[id], gs'[id])
    {
      RestartRoundTrip(gs, list, now, id);
      if id in gs' {
        RestartedLooksTheSame(gs[id], now);
      }
    }
    SavedTotalsLoad(gs, list, now);
    forall i | 0 <= i < |l|
      ensures LoadedWaiting(now)(l[i]) == WaitingCount(l[i])
    {
      SortedIsDistinct(l);
      AsMapOfDistinct(l);
      WaitersAllLoad(l[i].value, gs[l[i].key], now);
    }
    SumsAgree(l, LoadedWaiting(now), WaitingCount);
  }

  lemma RestartedLooksTheSame(g: Group, now: int)
    requires forall h :: h in g.waiting ==> Ahead(g.waiting[h].info, now)
    ensures Infos(Restarted(g, now).waiting) == Infos(g.waiting)
    ensures IsEmptyGroup(Restarted(g, now)) == IsEmptyGroup(g)
  {
    var w := Restarted(g, now).waiting;
    assert w.Keys == g.waiting.Keys;
    assert w == map[] <==> w.Keys == {};
    assert g.waiting == map[] <==> g.waiting.Keys == {};
  }

  lemma WaitersAllLoad(stats: GroupStats, g: Group, now: int)
    requires Describes(stats, g)
    requires forall h :: h in g.waiting ==> Ahead(g.waiting[h].info, now)
    ensures |LoadWaiting(stats.waiting, now)| == |stats.waiting|
  {
    SortedIsDistinct(stats.waiting);
    WaitersLoadAhead(stats.waiting, now);
    AsMapOfDistinct(stats.waiting);
    assert LoadWaiting(stats.waiting, now).Keys == AsMap(stats.waiting).Keys;
  }

  /** A restart from any saved file starts exclusive and within the capacity of the saved groups. */
  lemma RestartIsWithinCapacity(gs: Groups, list: GroupList, now: int, k: nat)
    requires Exports(list, gs) && Exclusive(gs) && WithinCapacity(gs, k)
    ensures Exclusive(LoadGroups(list.groups, now)) && WithinCapacity(LoadGroups(list.groups, now), k)
  {
    LoadedGroupsAreExclusive(list.groups, now);
    forall id | id in LoadGroups(list.groups, now)
      ensures |LoadGroups(list.groups, now)[id].permitted| + |LoadGroups(list.groups, now)[id].waiting| <= k
    {
      RestartRoundTrip(gs, list, now, id);
      SubsetIsSmaller(Restarted(gs[id], now).waiting.Keys, gs[id].waiting.Keys);
    }
  }

  /** The system after a restart: the file as read is the first list shown, and the write loop runs. */
  function RestartedSystem(list: GroupList, now: int): System {
    System(LoadGroups(list.groups, now), Some(LoadedList(list.groups, now)), 0, false, Idle, list)
  }

  /** If no saved waiter has timed out, file, memory and export agree from the start. */
  lemma RestartIsGood(gs: Groups, list: GroupList, now: int, k: nat)
    requires Exports(list, gs) && Exclusive(gs) && WithinCapacity(gs, k) && NoneTimedOut(gs, now)
    ensures Good(RestartedSystem(list, now), k)
  {
    RestartedExportAgrees(gs, list, now);
    RestartIsWithinCapacity(gs, list, now, k);
  }

  /**
   In every run from such a restart, also with waiters timed out: a cached export is right
   exactly if none had timed out or an operation has invalidated the first one since.
   */
  lemma RestartedCacheIsRightIff(
    gs: Groups, list: GroupList, now: int, states: seq<System>, labels: seq<Label>, i: nat)
    requires Exports(list, gs) && Exclusive(gs) && Run(states, labels) && i < |states|
    requires states[0] == RestartedSystem(list, now)
    ensures CacheAgrees(states[i]) <==>
      NoneTimedOut(gs, now) || exists j :: 0 <= j < i && Invalidates(labels[j])
  {
    RestartedExportAgreesIff(gs, list, now);
    if NoneTimedOut(gs, now) {
      RunsKeepCacheRight(states, labels, i);
    } else if j :| 0 <= j < i && Invalidates(labels[j]) {
      InvalidationRepairs(states, labels, i, j);
    } else {
      WrongCacheStays(states, labels, i, LoadedList(list.groups, now));
    }
  }

  /**
   The same for the writer: that no change is overlooked, and that the file is right when all
   is at rest, holds in such a run exactly if none had timed out or an operation has
   invalidated since.
   */
  lemma RestartedFileIsRightIff(
    gs: Groups, list: GroupList, now: int, states: seq<System>, labels: seq<Label>, i: nat)
    requires Exports(list, gs) && Exclusive(gs) && Run(states, labels) && i < |states|
    requires states[0] == RestartedSystem(list, now)
    ensures WakeUpPending(states[i]) <==>
      NoneTimedOut(gs, now) || exists j :: 0 <= j < i && Invalidates(labels[j])
    ensures AtRest(states[i]) ==> (Exports(states[i].file, states[i].groups) <==>
      NoneTimedOut(gs, now) || exists j :: 0 <= j < i && Invalidates(labels[j]))
  {
    SavedListAgreesIff(gs, list, now);
    RestartedExportAgreesIff(gs, list, now);
    if NoneTimedOut(gs, now) {
      NoWakeUpIsLost(states, labels, i);
    } else if j :| 0 <= j < i && Invalidates(labels[j]) {
      InvalidationRepairs(states, labels, i, j);
    } else {
      WrongFileStays(states, labels, i);
    }
  }

  /** It happens: a waiter that timed out while the manager was down is still shown. */
  lemma TimedOutWaiterIsStillShown()
    ensures var info := WaitInfo(5, "");
      var stats := GroupStats([], [], [Entry("h", info)]);
      var list := GroupList([Entry("g", stats)], 0, 0, 1);
      && Exports(list, map["g" := Group(1, map[], map[], map["h" := WaitData(false, info)])])
      && !Exports(LoadedList(list.groups, 10), LoadGroups(list.groups, 10))
  {
    var info := WaitInfo(5, "");
    var waiters := [Entry("h", info)];
    var stats := GroupStats([], [], waiters);
    var g := Group(1, map[], map[], map["h" := WaitData(false, info)]);
    var groups := [Entry("g", stats)];
    assert waiters[..0] == [] && groups[..0] == [];
    assert AsMap(waiters) == map["h" := info];
    assert "h" in g.waiting && Infos(g.waiting)["h"] == info;
    assert Infos(g.waiting) == map["h" := info];
    assert AsMap(groups) == map["g" := stats];
    SumOfFew(groups[0], groups[0], PermittedCount);
    SumOfFew(groups[0], groups[0], RequestedCount);
    SumOfFew(groups[0], groups[0], WaitingCount);
    assert Exports(GroupList(groups, 0, 0, 1), map["g" := g]);
    RestartedExportAgreesIff(map["g" := g], GroupList(groups, 0, 0, 1), 10);
  }
}
