/**
 Loading the Disruption Manager's state file, whatever it says: what the loader makes of it,
 and when its totals are right.
 */
module DisruptionLoad {
  import opened Basics
  import opened Listing
  import opened StableSort
  import opened Disruption
  import opened DisruptionExport
  import opened DisruptionManagers

  /** The zero value of a Go time. */
  const ZERO_TIME := 0

  /** A waiter is taken over if its timeout is set and still ahead. */
  predicate Ahead(info: WaitInfo, now: int) {
    info.readyTimeout != ZERO_TIME && info.readyTimeout > now
  }

  function LoadPermitted(l: seq<Entry<int>>): map<string, int> {
    if l == [] then map[] else
    var m, e := LoadPermitted(l[..|l| - 1]), l[|l| - 1];
    if e.key in m then m else m[e.key := e.value]
  }

  function LoadRequested(l: seq<Entry<int>>, permitted: map<string, int>): map<string, int> {
    if l == [] then map[] else
    var m, e := LoadRequested(l[..|l| - 1], permitted), l[|l| - 1];
    if e.key in permitted then m else m[e.key := e.value]
  }

  /** The loader's count of requesters, one for every entry it takes. */
  function CountRequested(l: seq<Entry<int>>, permitted: map<string, int>): nat {
    if l == [] then 0 else
    CountRequested(l[..|l| - 1], permitted) + (if l[|l| - 1].key in permitted then 0 else 1)
  }

  function LoadWaiting(l: seq<Entry<WaitInfo>>, now: int): map<string, WaitData> {
    if l == [] then map[] else
    var m, e := LoadWaiting(l[..|l| - 1], now), l[|l| - 1];
    if e.key in m || !Ahead(e.value, now) then m else m[e.key := WaitData(false, e.value)]
  }

  function LoadGroup(stats: GroupStats, now: int): Group {
    var permitted := LoadPermitted(stats.permitted);
    Group(1, permitted, LoadRequested(stats.requested, permitted), LoadWaiting(stats.waiting, now))
  }

  function LoadGroups(l: seq<Entry<GroupStats>>, now: int): Groups {
    if l == [] then map[] else
    LoadGroups(l[..|l| - 1], now)[l[|l| - 1].key := LoadGroup(l[|l| - 1].value, now)]
  }

  function LoadedPermitted(e: Entry<GroupStats>): nat {
    |LoadPermitted(e.value.permitted)|
  }

  function LoadedRequested(e: Entry<GroupStats>): nat {
    CountRequested(e.value.requested, LoadPermitted(e.value.permitted))
  }

  function LoadedWaiting(now: int): Entry<GroupStats> -> nat {
    (e: Entry<GroupStats>) => |LoadWaiting(e.value.waiting, now)|
  }

  /** The list a restarted manager exports first: the file as read, with the loader's totals. */
  function LoadedList(l: seq<Entry<GroupStats>>, now: int): GroupList {
    GroupList(l, SumOf(l, LoadedPermitted), SumOf(l, LoadedRequested), SumOf(l, LoadedWaiting(now)))
  }

  // ---------------------------------------------------------------- What is loaded, name by name

  predicate Names<V>(l: seq<Entry<V>>, k: string, i: int) {
    0 <= i < |l| && l[i].key == k
  }

  lemma NamesOneMore<V>(l: seq<Entry<V>>, k: string, n: nat)
    requires |l| == n + 1
    ensures forall i :: Names(l[..n], k, i) <==> Names(l, k, i) && i != n
    ensures forall i :: Names(l[..n], k, i) ==> l[..n][i] == l[i]
  {
    assert forall i :: 0 <= i < n ==> l[..n][i] == l[i];
  }

  /** A holder has the time of the first entry of that name. */
  lemma {:induction false} LoadPermittedAt(l: seq<Entry<int>>, h: string)
    ensures h in LoadPermitted(l) <==> exists i :: Names(l, h, i)
    ensures forall i :: Names(l, h, i) && (forall j :: Names(l, h, j) ==> i <= j) ==>
      h in LoadPermitted(l) && LoadPermitted(l)[h] == l[i].value
  {
    if l != [] {
      var n := |l| - 1;
      LoadPermittedAt(l[..n], h);
      NamesOneMore(l, h, n);
      if l[n].key == h {
        assert Names(l, h, n);
      }
    }
  }

  /** A requester is no holder, and has the time of the last entry of that name. */
  lemma {:induction false} LoadRequestedAt(l: seq<Entry<int>>, permitted: map<string, int>, h: string)
    ensures h in LoadRequested(l, permitted) <==> h !in permitted && exists i :: Names(l, h, i)
    ensures forall i :: Names(l, h, i) && (forall j :: Names(l, h, j) ==> j <= i) && h !in permitted ==>
      h in LoadRequested(l, permitted) && LoadRequested(l, permitted)[h] == l[i].value
  {
    if l != [] {
      var n := |l| - 1;
      LoadRequestedAt(l[..n], permitted, h);
      NamesOneMore(l, h, n);
      if l[n].key == h {
        assert Names(l, h, n);
      }
    }
  }

  /** Entry i of that name has a timeout, which is not over. */
  predicate NamesLive(l: seq<Entry<WaitInfo>>, h: string, now: int, i: int) {
    Names(l, h, i) && l[i].value.readyTimeout != 0 && l[i].value.readyTimeout > now
  }

  lemma LiveOneMore(l: seq<Entry<WaitInfo>>, h: string, now: int, n: nat)
    requires |l| == n + 1
    ensures forall i :: NamesLive(l[..n], h, now, i) <==> NamesLive(l, h, now, i) && i != n
    ensures forall i :: NamesLive(l[..n], h, now, i) ==> i < n && l[..n][i] == l[i]
    ensures NamesLive(l, h, now, n) <==> l[n].key == h && Ahead(l[n].value, now)
  {
    NamesOneMore(l, h, n);
  }

  /** A waiter has the data of the first live entry of that name, and is not finished. */
  lemma {:induction false} LoadWaitingAt(l: seq<Entry<WaitInfo>>, now: int, h: string)
    ensures h in LoadWaiting(l, now) <==> exists i :: NamesLive(l, h, now, i)
    ensures forall i :: NamesLive(l, h, now, i) && (forall j :: NamesLive(l, h, now, j) ==> i <= j) ==>
      h in LoadWaiting(l, now) && LoadWaiting(l, now)[h] == WaitData(false, l[i].value)
  {
    if l != [] {
      var n := |l| - 1;
      LoadWaitingAt(l[..n], now, h);
      LiveOneMore(l, h, now, n);
    }
  }

  ghost predicate HoldersAre(l: seq<Entry<int>>, permitted: map<string, int>) {
    && (forall h :: h in permitted <==> exists i :: Names(l, h, i))
    && (forall h, i :: Names(l, h, i) && (forall j :: Names(l, h, j) ==> i <= j) ==>
          h in permitted && permitted[h] == l[i].value)
  }

  ghost predicate RequestersAre(l: seq<Entry<int>>, permitted: map<string, int>, requested: map<string, int>) {
    && (forall h :: h in requested <==> h !in permitted && exists i :: Names(l, h, i))
    && (forall h, i :: Names(l, h, i) && (forall j :: Names(l, h, j) ==> j <= i) && h !in permitted ==>
          h in requested && requested[h] == l[i].value)
  }

  ghost predicate WaitersAre(l: seq<Entry<WaitInfo>>, now: int, waiting: map<string, WaitData>) {
    && (forall h :: h in waiting <==> exists i :: NamesLive(l, h, now, i))
    && (forall h, i :: NamesLive(l, h, now, i) && (forall j :: NamesLive(l, h, now, j) ==> i <= j) ==>
          h in waiting && waiting[h] == WaitData(false, l[i].value))
  }

  /** The group an entry of the file stands for. */
  ghost predicate IsLoadOf(stats: GroupStats, now: int, g: Group) {
    && g.maxPermitted == 1
    && HoldersAre(stats.permitted, g.permitted)
    && RequestersAre(stats.requested, g.permitted, g.requested)
    && WaitersAre(stats.waiting, now, g.waiting)
  }

  lemma GroupIsLoadOf(stats: GroupStats, now: int)
    ensures IsLoadOf(stats, now, LoadGroup(stats, now))
  {
    var g := LoadGroup(stats, now);
    forall h {
      LoadPermittedAt(stats.permitted, h);
    }
    forall h {
      LoadRequestedAt(stats.requested, g.permitted, h);
    }
    forall h {
      LoadWaitingAt(stats.waiting, now, h);
    }
  }

  /** A later entry of the file has the same identifier. */
  ghost predicate Replaced(l: seq<Entry<GroupStats>>, i: int) {
    0 <= i < |l| && exists j :: i < j < |l| && l[j].key == l[i].key
  }

  /** The groups are those the file names, each as the last entry of that name has it. */
  ghost predicate GroupsAre(file: seq<Entry<GroupStats>>, now: int, gs: Groups) {
    && (forall id :: id in gs <==> exists i :: Names(file, id, i))
    && (forall i :: 0 <= i < |file| && !Replaced(file, i) ==>
          file[i].key in gs && IsLoadOf(file[i].value, now, gs[file[i].key]))
  }

  lemma FileLoads(file: seq<Entry<GroupStats>>, now: int)
    ensures GroupsAre(file, now, LoadGroups(file, now))
  {
    forall id
      ensures id in LoadGroups(file, now) <==> exists i :: Names(file, id, i)
    {
      LoadGroupsAt(file, now, id);
      AsMapKeys(file, id);
      if i :| 0 <= i < |file| && file[i].key == id {
        assert Names(file, id, i);
      }
    }
    forall i | 0 <= i < |file| && !Replaced(file, i)
      ensures file[i].key in LoadGroups(file, now)
      ensures IsLoadOf(file[i].value, now, LoadGroups(file, now)[file[i].key])
    {
      SurvivorLoads(file, now, i);
      GroupIsLoadOf(file[i].value, now);
    }
  }

  // ---------------------------------------------------------------- The loader

  method LoadIntoGroup(group: GroupInfo, stats: GroupStats, now: int)
    returns (nPermitted: nat, nRequested: nat, nWaiting: nat)
    requires group.View() == NEW_GROUP
    modifies group
    ensures group.View() == LoadGroup(stats, now)
    ensures nPermitted == |LoadPermitted(stats.permitted)|
    ensures nRequested == CountRequested(stats.requested, LoadPermitted(stats.permitted))
    ensures nWaiting == |LoadWaiting(stats.waiting, now)|
  {
    nPermitted, nRequested, nWaiting := 0, 0, 0;
    for i := 0 to |stats.permitted|
      invariant group.View() == NEW_GROUP.(permitted := LoadPermitted(stats.permitted[..i]))
      invariant nPermitted == |group.permitted|
    {
      var host := stats.permitted[i];
      assert stats.permitted[..i + 1][..i] == stats.permitted[..i];
      if host.key !in group.permitted {
        UpdateGrowsByOne(group.permitted, host.key, host.value);
        group.permitted := group.permitted[host.key := host.value];
        nPermitted := nPermitted + 1;
      }
    }
    assert stats.permitted[..|stats.permitted|] == stats.permitted;
    for i := 0 to |stats.requested|
      invariant group.View() == NEW_GROUP.(permitted := LoadPermitted(stats.permitted),
        requested := LoadRequested(stats.requested[..i], group.permitted))
      invariant nRequested == CountRequested(stats.requested[..i], group.permitted)
    {
      var host := stats.requested[i];
      assert stats.requested[..i + 1][..i] == stats.requested[..i];
      if host.key !in group.permitted {
        group.requested := group.requested[host.key := host.value];
        nRequested := nRequested + 1;
      }
    }
    assert stats.requested[..|stats.requested|] == stats.requested;
    nWaiting := LoadWaiters(group, stats.waiting, now);
  }

  method LoadWaiters(group: GroupInfo, l: seq<Entry<WaitInfo>>, now: int) returns (n: nat)
    requires group.waiting == map[]
    modifies group`waiting
    ensures group.waiting == LoadWaiting(l, now) && n == |group.waiting|
  {
    n := 0;
    for i := 0 to |l|
      invariant group.waiting == LoadWaiting(l[..i], now) && n == |group.waiting|
    {
      var host := l[i];
      assert l[..i + 1][..i] == l[..i];
      if host.key !in group.waiting {
        if host.value.readyTimeout != ZERO_TIME && host.value.readyTimeout > now {
          UpdateGrowsByOne(group.waiting, host.key, WaitData(false, host.value));
          group.waiting := group.waiting[host.key := WaitData(false, host.value)];
          n := n + 1;
        }
      }
    }
    assert l[..|l|] == l;
  }

  lemma LoadOneMore(file: seq<Entry<GroupStats>>, i: nat, now: int)
    requires i < |file|
    ensures LoadGroups(file[..i + 1], now) == LoadGroups(file[..i], now)[file[i].key := LoadGroup(file[i].value, now)]
    ensures SumOf(file[..i + 1], LoadedPermitted) == SumOf(file[..i], LoadedPermitted) + LoadedPermitted(file[i])
    ensures SumOf(file[..i + 1], LoadedRequested) == SumOf(file[..i], LoadedRequested) + LoadedRequested(file[i])
    ensures SumOf(file[..i + 1], LoadedWaiting(now)) == SumOf(file[..i], LoadedWaiting(now)) + LoadedWaiting(now)(file[i])
  {
    assert file[..i + 1][..i] == file[..i];
  }

  /** Loads one group of the file; a repeated identifier replaces the earlier group. */
  method LoadEntry(dm: DisruptionManager, e: Entry<GroupStats>, now: int)
    returns (nPermitted: nat, nRequested: nat, nWaiting: nat)
    requires dm.Valid()
    modifies dm`groups, dm`owned
    ensures dm.Valid() && fresh(dm.owned - old(dm.owned))
    ensures dm.View() == old(dm.View())[e.key := LoadGroup(e.value, now)]
    ensures nPermitted == LoadedPermitted(e)
    ensures nRequested == LoadedRequested(e)
    ensures nWaiting == LoadedWaiting(now)(e)
  {
    var group := new GroupInfo();
    nPermitted, nRequested, nWaiting := LoadIntoGroup(group, e.value, now);
    dm.SetGroup(e.key, group);
  }

  /** newDisruptionManager with a state file that was read. */
  method Restore(file: seq<Entry<GroupStats>>, maxDuration: int, now: int) returns (dm: DisruptionManager)
    ensures fresh(dm) && fresh(dm.owned) && dm.Valid() && dm.maxDuration == maxDuration
    ensures dm.View() == LoadGroups(file, now)
    ensures dm.exportable == Some(LoadedList(file, now)) && !dm.writeNotifier
  {
    dm := new DisruptionManager(maxDuration);
    var totalPermitted, totalRequested, totalWaiting := 0, 0, 0;
    for i := 0 to |file|
      invariant fresh(dm.owned) && dm.Valid() && dm.View() == LoadGroups(file[..i], now)
      invariant !dm.writeNotifier
      invariant totalPermitted == SumOf(file[..i], LoadedPermitted)
      invariant totalRequested == SumOf(file[..i], LoadedRequested)
      invariant totalWaiting == SumOf(file[..i], LoadedWaiting(now))
    {
      LoadOneMore(file, i, now);
      var nPermitted, nRequested, nWaiting := LoadEntry(dm, file[i], now);
      totalPermitted := totalPermitted + nPermitted;
      totalRequested := totalRequested + nRequested;
      totalWaiting := totalWaiting + nWaiting;
    }
    assert file[..|file|] == file;
    dm.exportable := Some(GroupList(file, totalPermitted, totalRequested, totalWaiting));
  }

  // ---------------------------------------------------------------- Any file

  lemma {:induction false} LoadedRequestersAreNotPermitted(l: seq<Entry<int>>, permitted: map<string, int>)
    ensures LoadRequested(l, permitted).Keys !! permitted.Keys
  {
    if l != [] {
      LoadedRequestersAreNotPermitted(l[..|l| - 1], permitted);
    }
  }

  /** Whatever the file says, no loaded host is both permitted and requested. */
  lemma {:induction false} LoadedGroupsAreExclusive(l: seq<Entry<GroupStats>>, now: int)
    ensures Exclusive(LoadGroups(l, now))
  {
    if l != [] {
      LoadedGroupsAreExclusive(l[..|l| - 1], now);
      var stats := l[|l| - 1].value;
      LoadedRequestersAreNotPermitted(stats.requested, LoadPermitted(stats.permitted));
    }
  }

  /** The entries the loader takes as requesters have different names. */
  ghost predicate RequestersDistinct(l: seq<Entry<int>>, permitted: map<string, int>) {
    forall i, j :: 0 <= i < j < |l| && l[i].key !in permitted ==> l[i].key != l[j].key
  }

  lemma {:induction false} LoadRequestedKeys(l: seq<Entry<int>>, permitted: map<string, int>, k: string)
    ensures k in LoadRequested(l, permitted) <==>
      k !in permitted && exists i :: 0 <= i < |l| && l[i].key == k
  {
    if l != [] {
      var n := |l| - 1;
      LoadRequestedKeys(l[..n], permitted, k);
      if k in LoadRequested(l[..n], permitted) {
        var i :| 0 <= i < n && l[..n][i].key == k;
        assert l[i].key == k;
      } else if k !in permitted && k == l[n].key {
        assert l[n].key == k;
      }
    }
  }

  /**
   The requesters of a group are counted without looking for duplicates: the count never
   falls short, and it is right exactly when none is named twice.
   */
  lemma {:induction false} RequestersAreExactIff(l: seq<Entry<int>>, permitted: map<string, int>)
    ensures CountRequested(l, permitted) >= |LoadRequested(l, permitted)|
    ensures CountRequested(l, permitted) == |LoadRequested(l, permitted)| <==> RequestersDistinct(l, permitted)
  {
    if l != [] {
      var n := |l| - 1;
      var front, e := l[..n], l[n];
      RequestersAreExactIff(front, permitted);
      UpdateGrowsByOne(LoadRequested(front, permitted), e.key, e.value);
      LoadRequestedKeys(front, permitted, e.key);
      if e.key !in permitted && e.key in LoadRequested(front, permitted) {
        var i :| 0 <= i < n && front[i].key == e.key;
        assert l[i].key == l[n].key;
      } else {
        assert RequestersDistinct(l, permitted) <==> RequestersDistinct(front, permitted) by {
          DistinctStepwise(l, permitted);
        }
      }
    }
  }

  lemma DistinctStepwise(l: seq<Entry<int>>, permitted: map<string, int>)
    requires l != [] && (l[|l| - 1].key in permitted || l[|l| - 1].key !in LoadRequested(l[..|l| - 1], permitted))
    ensures RequestersDistinct(l, permitted) <==> RequestersDistinct(l[..|l| - 1], permitted)
  {
    var n := |l| - 1;
    LoadRequestedKeys(l[..n], permitted, l[n].key);
    assert forall i :: 0 <= i < n ==> l[..n][i] == l[i];
    if RequestersDistinct(l[..n], permitted) {
      forall i, j | 0 <= i < j < |l| && l[i].key !in permitted
        ensures l[i].key != l[j].key
      {
        if j < n {
          assert l[..n][i].key != l[..n][j].key;
        } else {
          assert l[..n][i].key == l[i].key;
        }
      }
    }
  }

  // ---------------------------------------------------------------- Totals

  /** The sum of a weight over all groups. */
  ghost function SumOver(gs: Groups, weight: Group -> nat): nat
    decreases |gs|
  {
    if gs == map[] then 0 else
    var id :| id in gs;
    RemoveShrinksByOne(gs, id);
    weight(gs[id]) + SumOver(gs - {id}, weight)
  }

  lemma PickedFirst(gs: Groups, weight: Group -> nat) returns (x: string)
    requires gs != map[]
    ensures x in gs && SumOver(gs, weight) == weight(gs[x]) + SumOver(gs - {x}, weight)
  {
    x :| x in gs && SumOver(gs, weight) == weight(gs[x]) + SumOver(gs - {x}, weight);
  }

  lemma {:induction false} SumOverWithout(gs: Groups, id: string, weight: Group -> nat)
    requires id in gs
    ensures SumOver(gs, weight) == weight(gs[id]) + SumOver(gs - {id}, weight)
    decreases |gs|
  {
    var x := PickedFirst(gs, weight);
    if x != id {
      RemoveShrinksByOne(gs, x);
      RemoveShrinksByOne(gs, id);
      SumOverWithout(gs - {x}, id, weight);
      SumOverWithout(gs - {id}, x, weight);
      assert gs - {x} - {id} == gs - {id} - {x};
    }
  }

  /** Putting a group in adds its weight and takes away that of the group it replaces. */
  lemma SumOverPut(gs: Groups, id: string, g: Group, weight: Group -> nat)
    ensures SumOver(gs[id := g], weight) + (if id in gs then weight(gs[id]) else 0) == SumOver(gs, weight) + weight(g)
  {
    SumOverWithout(gs[id := g], id, weight);
    assert gs[id := g] - {id} == gs - {id};
    if id in gs {
      SumOverWithout(gs, id, weight);
    } else {
      assert gs - {id} == gs;
    }
  }

  lemma {:induction false} LoadGroupsAt(l: seq<Entry<GroupStats>>, now: int, id: string)
    ensures id in LoadGroups(l, now) <==> id in AsMap(l)
    ensures id in AsMap(l) ==> LoadGroups(l, now)[id] == LoadGroup(AsMap(l)[id], now)
  {
    if l != [] {
      LoadGroupsAt(l[..|l| - 1], now, id);
    }
  }

  lemma {:induction false} SurvivorLoads(l: seq<Entry<GroupStats>>, now: int, i: nat)
    requires i < |l| && !Replaced(l, i)
    ensures l[i].key in LoadGroups(l, now) && LoadGroups(l, now)[l[i].key] == LoadGroup(l[i].value, now)
  {
    var n := |l| - 1;
    if i < n {
      var front := l[..n];
      assert forall j :: 0 <= j < n ==> front[j] == l[j];
      SurvivorLoads(front, now, i);
    }
  }

  lemma {:induction false} LoadedSurvives(l: seq<Entry<GroupStats>>, now: int, id: string) returns (i: nat)
    requires id in LoadGroups(l, now)
    ensures i < |l| && l[i].key == id && !Replaced(l, i)
  {
    var n := |l| - 1;
    if l[n].key == id {
      i := n;
    } else {
      i := LoadedSurvives(l[..n], now, id);
      assert forall j :: 0 <= j < n ==> l[..n][j] == l[j];
    }
  }

  /** Nothing is counted for entries that are replaced, and the right number for the others. */
  ghost predicate CountsFit(l: seq<Entry<GroupStats>>, now: int, count: Entry<GroupStats> -> nat, weight: Group -> nat) {
    forall i :: 0 <= i < |l| ==>
      count(l[i]) == if Replaced(l, i) then 0 else weight(LoadGroup(l[i].value, now))
  }

  lemma ReplacedOneMore(l: seq<Entry<GroupStats>>, i: nat, n: nat)
    requires |l| == n + 1 && i < n
    ensures Replaced(l, i) <==> Replaced(l[..n], i) || l[i].key == l[n].key
  {
    assert forall j :: 0 <= j < n ==> l[..n][j] == l[j];
    if Replaced(l[..n], i) {
      var j :| i < j < n && l[..n][j].key == l[..n][i].key;
      assert l[j].key == l[i].key;
    }
  }

  lemma CountsFitOneMore(
    l: seq<Entry<GroupStats>>, now: int, count: Entry<GroupStats> -> nat, weight: Group -> nat, n: nat, dropped: nat)
    requires |l| == n + 1 && forall e :: count(e) >= weight(LoadGroup(e.value, now))
    requires dropped == if l[n].key in LoadGroups(l[..n], now) then weight(LoadGroups(l[..n], now)[l[n].key]) else 0
    ensures CountsFit(l, now, count, weight) <==>
      CountsFit(l[..n], now, count, weight) && dropped == 0 && count(l[n]) == weight(LoadGroup(l[n].value, now))
  {
    var front := l[..n];
    assert forall j :: 0 <= j < n ==> front[j] == l[j];
    forall i | 0 <= i < n
      ensures Replaced(l, i) <==> Replaced(front, i) || l[i].key == l[n].key
      ensures !Replaced(front, i) && l[i].key == l[n].key ==> dropped == weight(LoadGroup(l[i].value, now))
    {
      ReplacedOneMore(l, i, n);
      if !Replaced(front, i) {
        SurvivorLoads(front, now, i);
      }
    }
    assert !Replaced(l, n);
    if l[n].key in LoadGroups(front, now) {
      var i := LoadedSurvives(front, now, l[n].key);
      SurvivorLoads(front, now, i);
    }
  }

  /** A total over all entries is never too small for the groups, and right exactly if the counts fit. */
  lemma {:induction false} TotalIsExactIff(
    l: seq<Entry<GroupStats>>, now: int, count: Entry<GroupStats> -> nat, weight: Group -> nat)
    requires forall e :: count(e) >= weight(LoadGroup(e.value, now))
    ensures SumOf(l, count) >= SumOver(LoadGroups(l, now), weight)
    ensures SumOf(l, count) == SumOver(LoadGroups(l, now), weight) <==> CountsFit(l, now, count, weight)
  {
    if l != [] {
      var n := |l| - 1;
      var before, e := LoadGroups(l[..n], now), l[n];
      var dropped := if e.key in before then weight(before[e.key]) else 0;
      TotalIsExactIff(l[..n], now, count, weight);
      SumOverPut(before, e.key, LoadGroup(e.value, now), weight);
      CountsFitOneMore(l, now, count, weight, n, dropped);
      assert count(e) >= weight(LoadGroup(e.value, now));
    }
  }

  function Holders(g: Group): nat { |g.permitted| }
  function Requesters(g: Group): nat { |g.requested| }
  function Waiters(g: Group): nat { |g.waiting| }

  lemma LoadedHoldersIff(l: seq<Entry<int>>)
    ensures |LoadPermitted(l)| == 0 <==> l == []
  {
    if l != [] {
      assert l[|l| - 1].key in LoadPermitted(l);
    }
  }

  /** Every requester is a holder too. */
  ghost predicate AllHold(stats: GroupStats) {
    forall i :: 0 <= i < |stats.requested| ==> stats.requested[i].key in LoadPermitted(stats.permitted)
  }

  lemma {:induction false} CountedRequestersIff(l: seq<Entry<int>>, permitted: map<string, int>)
    ensures CountRequested(l, permitted) == 0 <==> forall i :: 0 <= i < |l| ==> l[i].key in permitted
  {
    if l != [] {
      var n := |l| - 1;
      CountedRequestersIff(l[..n], permitted);
      assert forall i :: 0 <= i < n ==> l[..n][i] == l[i];
    }
  }

  /** Every waiter's time is over. */
  ghost predicate AllOver(stats: GroupStats, now: int) {
    forall i :: 0 <= i < |stats.waiting| ==> !Ahead(stats.waiting[i].value, now)
  }

  lemma {:induction false} LoadedWaitersIff(l: seq<Entry<WaitInfo>>, now: int)
    ensures LoadWaiting(l, now) == map[] <==> forall i :: 0 <= i < |l| ==> !Ahead(l[i].value, now)
  {
    if l != [] {
      var n := |l| - 1;
      LoadedWaitersIff(l[..n], now);
      assert forall i :: 0 <= i < n ==> l[..n][i] == l[i];
      assert LoadWaiting(l[..n], now) != map[] ==> LoadWaiting(l, now) != map[] by {
        if LoadWaiting(l[..n], now) != map[] {
          var h :| h in LoadWaiting(l[..n], now);
          assert h in LoadWaiting(l, now);
        }
      }
    }
  }

  /**
   The loader's totals against the groups it loaded, for any file. None is ever too small.
   Groups that a later entry replaces stay counted, and so do requesters named twice.
   */
  lemma PermittedTotalIsExactIff(l: seq<Entry<GroupStats>>, now: int)
    ensures LoadedList(l, now).totalPermitted >= SumOver(LoadGroups(l, now), Holders)
    ensures LoadedList(l, now).totalPermitted == SumOver(LoadGroups(l, now), Holders) <==>
      forall i :: Replaced(l, i) ==> l[i].value.permitted == []
  {
    TotalIsExactIff(l, now, LoadedPermitted, Holders);
    forall i | 0 <= i < |l|
      ensures LoadedPermitted(l[i]) == 0 <==> l[i].value.permitted == []
    {
      LoadedHoldersIff(l[i].value.permitted);
    }
    assert forall i :: Replaced(l, i) ==> 0 <= i < |l|;
  }

  lemma RequestedTotalIsExactIff(l: seq<Entry<GroupStats>>, now: int)
    ensures LoadedList(l, now).totalRequested >= SumOver(LoadGroups(l, now), Requesters)
    ensures LoadedList(l, now).totalRequested == SumOver(LoadGroups(l, now), Requesters) <==>
      forall i :: 0 <= i < |l| ==>
        if Replaced(l, i) then AllHold(l[i].value)
        else RequestersDistinct(l[i].value.requested, LoadPermitted(l[i].value.permitted))
  {
    forall e
      ensures LoadedRequested(e) >= Requesters(LoadGroup(e.value, now))
    {
      RequestersAreExactIff(e.value.requested, LoadPermitted(e.value.permitted));
    }
    TotalIsExactIff(l, now, LoadedRequested, Requesters);
    forall i | 0 <= i < |l|
      ensures LoadedRequested(l[i]) == 0 <==> AllHold(l[i].value)
      ensures LoadedRequested(l[i]) == Requesters(LoadGroup(l[i].value, now)) <==>
        RequestersDistinct(l[i].value.requested, LoadPermitted(l[i].value.permitted))
    {
      CountedRequestersIff(l[i].value.requested, LoadPermitted(l[i].value.permitted));
      RequestersAreExactIff(l[i].value.requested, LoadPermitted(l[i].value.permitted));
    }
  }

  lemma WaitingTotalIsExactIff(l: seq<Entry<GroupStats>>, now: int)
    ensures LoadedList(l, now).totalWaiting >= SumOver(LoadGroups(l, now), Waiters)
    ensures LoadedList(l, now).totalWaiting == SumOver(LoadGroups(l, now), Waiters) <==>
      forall i :: Replaced(l, i) ==> AllOver(l[i].value, now)
  {
    TotalIsExactIff(l, now, LoadedWaiting(now), Waiters);
    forall i | 0 <= i < |l|
      ensures LoadedWaiting(now)(l[i]) == 0 <==> AllOver(l[i].value, now)
    {
      LoadedWaitersIff(l[i].value.waiting, now);
    }
    assert forall i :: Replaced(l, i) ==> 0 <= i < |l|;
  }

  function Asking(h: string): Entry<GroupStats> {
    Entry("g", GroupStats([], [Entry(h, 1)], []))
  }

  lemma LoadOne(e: Entry<int>)
    ensures LoadPermitted([]) == map[] && LoadRequested([e], map[]) == map[e.key := e.value]
    ensures CountRequested([e], map[]) == 1
  {
    assert [e][..0] == [];
  }

  /** It happens: a group that occurs twice is loaded once and counted twice. */
  lemma RepeatedGroupIsCountedTwice(now: int)
    ensures var file := [Asking("a"), Asking("b")];
      && LoadGroups(file, now) == map["g" := Group(1, map[], map["b" := 1], map[])]
      && LoadedList(file, now).totalRequested == 2
  {
    var file := [Asking("a"), Asking("b")];
    LoadOne(Entry("a", 1));
    LoadOne(Entry("b", 1));
    SumOfFew(Asking("a"), Asking("b"), LoadedRequested);
    assert LoadWaiting([], now) == map[];
    assert LoadGroup(file[1].value, now) == Group(1, map[], map["b" := 1], map[]);
    LoadOneMore(file, 0, now);
    LoadOneMore(file, 1, now);
    assert file[..0] == [] && file[..2] == file;
    assert LoadGroups(file[..0], now) == map[];
  }

  /** And so is a requester that occurs twice in its group. */
  lemma RepeatedRequesterIsCountedTwice()
    ensures var l := [Entry("a", 1), Entry("a", 2)];
      LoadRequested(l, map[]) == map["a" := 2] && CountRequested(l, map[]) == 2
  {
    var l := [Entry("a", 1), Entry("a", 2)];
    var first := l[..1];
    assert first == [Entry("a", 1)] && first[..0] == [];
  }
}
