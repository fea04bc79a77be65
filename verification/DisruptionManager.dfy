/**
 The Disruption Manager: one object per group, updated in place, and the manager that owns
 them. Every operation is proved to be one event of the model in Disruption.dfy. The
 critical sections run under one mutex, so a method stands for one atomic step.
 */
module DisruptionManagers {
  import opened Basics
  import opened Listing
  import opened StableSort
  import opened Disruption
  import opened DisruptionExport

  class GroupInfo {
    var maxPermitted: nat
    var permitted: map<string, int>
    var requested: map<string, int>
    var waiting: map<string, WaitData>

    constructor ()
      ensures View() == NEW_GROUP
    {
      maxPermitted := 1;
      permitted, requested, waiting := map[], map[], map[];
    }

    ghost function View(): Group
      reads this
    {
      Group(maxPermitted, permitted, requested, waiting)
    }

    /** Notes the limit the tags ask for and says whether the group is below it. */
    method CanPermit(tags: map<string, string>) returns (ok: bool)
      modifies this`maxPermitted
      ensures View() == old(View()).(maxPermitted := Maximum(tags))
      ensures ok == HasRoom(View(), Maximum(tags))
    {
      maxPermitted := Maximum(tags);
      ok := |permitted| + |waiting| < maxPermitted;
    }

    method DropFinished() returns (changed: bool)
      modifies this`waiting
      ensures waiting == Unfinished(old(waiting))
      ensures changed == (waiting.Keys != old(waiting).Keys)
    {
      changed := false;
      var todo := waiting.Keys;
      while todo != {}
        invariant todo <= waiting.Keys <= old(waiting).Keys
        invariant forall h :: h in waiting ==> waiting[h] == old(waiting)[h]
        invariant forall h :: h in old(waiting) && h !in todo ==> (h in waiting <==> !old(waiting)[h].finished)
        invariant changed == (waiting.Keys != old(waiting).Keys)
      {
        var h :| h in todo;
        if waiting[h].finished {
          changed := true;
          waiting := waiting - {h};
        }
        todo := todo - {h};
      }
    }

    method DropExpired(expireBefore: int) returns (changed: bool)
      modifies this`permitted
      ensures permitted == Live(old(permitted), expireBefore)
      ensures changed == (permitted != old(permitted))
    {
      changed := false;
      var todo := permitted.Keys;
      while todo != {}
        invariant todo <= permitted.Keys <= old(permitted).Keys
        invariant forall h :: h in permitted ==> permitted[h] == old(permitted)[h]
        invariant forall h :: h in old(permitted) && h !in todo ==>
          (h in permitted <==> old(permitted)[h] >= expireBefore)
        invariant changed == (permitted != old(permitted))
      {
        var h :| h in todo;
        if permitted[h] < expireBefore {
          changed := true;
          permitted := permitted - {h};
        }
        todo := todo - {h};
      }
    }

    /** Visits the requesters in any order: expires, promotes while there is room, or keeps. */
    method VisitRequested(expireBefore: int) returns (changed: bool)
      modifies this`maxPermitted, this`permitted, this`requested
      ensures var asked := Live(old(requested), expireBefore);
        && maxPermitted == (if asked == map[] then old(maxPermitted) else 1)
        && (if old(permitted) == map[] && waiting == map[] && asked != map[]
            then exists r :: Promotes(asked, r, permitted, requested)
            else permitted == old(permitted) && requested == asked)
      ensures changed == (permitted != old(permitted) || requested != old(requested))
    {
      changed := false;
      ghost var asked := Live(requested, expireBefore);
      ghost var promoted: Option<string> := None;
      var todo := requested.Keys;
      while todo != {}
        invariant todo <= requested.Keys <= old(requested).Keys
        invariant forall h :: h in requested ==> requested[h] == old(requested)[h]
        invariant forall h :: h in old(requested) && h !in todo ==>
          (h in requested <==> h in asked && promoted != Some(h))
        invariant promoted.Some? ==> (
            && old(permitted) == map[] && waiting == map[]
            && promoted.value in asked && promoted.value !in requested
            && permitted == map[promoted.value := asked[promoted.value]])
        invariant promoted.None? ==> permitted == old(permitted)
        invariant promoted.None? && old(permitted) == map[] && waiting == map[] ==>
          forall h :: h in asked ==> h in todo
        invariant maxPermitted == (if asked.Keys <= todo then old(maxPermitted) else 1)
        invariant changed == (permitted != old(permitted) || requested != old(requested))
      {
        var h :| h in todo;
        if requested[h] < expireBefore {
          changed := true;
          requested := requested - {h};
        } else {
          var room := CanPermit(map[]);
          EmptyGroupHasRoom(View());
          if room {
            changed := true;
            permitted := permitted[h := requested[h]];
            requested := requested - {h};
            promoted := Some(h);
          }
        }
        todo := todo - {h};
      }
      if promoted.Some? {
        assert Promotes(asked, promoted.value, permitted, requested);
      } else {
        assert requested == asked;
      }
      assert asked == map[] <==> asked.Keys <= {};
    }

    method Recalculate(expireBefore: int) returns (changed: bool)
      modifies this
      ensures AfterRecalculate(old(View()), expireBefore, View())
      ensures changed == !SameExport(old(View()), View())
    {
      var c1 := DropFinished();
      var c2 := DropExpired(expireBefore);
      var c3 := VisitRequested(expireBefore);
      changed := c1 || c2 || c3;
      PermittedChanges(old(View()), expireBefore, View());
      InfosChange(old(waiting));
    }

    /** The group's statistics: three maps collected in any order, then sorted. */
    method Stats() returns (stats: GroupStats)
      ensures Describes(stats, View())
    {
      var permittedList := List(permitted);
      var requestedList := List(requested);
      var waitingList := List(Infos(waiting));
      stats := GroupStats(permittedList, requestedList, waitingList);
    }

    method Request(h: string, tags: map<string, string>, now: int) returns (state: DisruptionState)
      modifies this
      ensures View() == AfterRequest(old(View()), h, Maximum(tags), now)
      ensures state == RequestReply(old(View()), h, Maximum(tags))
    {
      if h in permitted {
        permitted := permitted[h := now];
        return Permitted;
      }
      var room := CanPermit(tags);
      if room {
        permitted := permitted[h := now];
        requested := requested - {h};
        return Permitted;
      }
      requested := requested[h := now];
      return Requested;
    }

    method Check(h: string, tags: map<string, string>) returns (state: DisruptionState, invalidate: bool)
      modifies this
      ensures View() == AfterCheck(old(View()), h, Maximum(tags))
      ensures state == CheckReply(old(View()), h, Maximum(tags))
      ensures invalidate == CheckPromotes(old(View()), h, Maximum(tags))
    {
      if h in permitted {
        return Permitted, false;
      }
      if h !in requested {
        return Denied, false;
      }
      var lastRequestTime := requested[h];
      var room := CanPermit(tags);
      if !room {
        return Requested, false;
      }
      // Previously requested and now there is room.
      permitted := permitted[h := lastRequestTime];
      requested := requested - {h};
      return Permitted, true;
    }

    method Cancel(h: string, waitData: Option<WaitData>) returns (invalidate: bool)
      modifies this
      ensures AfterCancel(old(View()), h, waitData, View())
      ensures invalidate == (h in old(permitted) || h in old(requested))
    {
      invalidate := false;
      if h in permitted {
        invalidate := true;
        if waitData.Some? {
          waiting := waiting[h := waitData.value];
        } else if requested != map[] {
          // Move one host from Requested -> Permitted if possible.
          var r :| r in requested;
          permitted := permitted[r := requested[r]];
          requested := requested - {r};
          assert HandsOver(old(View()), h, r,
            View().(permitted := permitted - {h}, requested := requested - {h}));
        }
        permitted := permitted - {h};
      }
      if h in requested {
        invalidate := true;
        requested := requested - {h};
      } else {
        assert requested - {h} == requested;
      }
    }
  }

  lemma InfosChange(waiting: map<string, WaitData>)
    ensures Infos(waiting) == Infos(Unfinished(waiting)) <==> waiting.Keys == Unfinished(waiting).Keys
  {
    assert Infos(waiting).Keys == waiting.Keys;
    assert Infos(Unfinished(waiting)).Keys == Unfinished(waiting).Keys;
  }

  /** Expiry and promotion never cancel out: what is promoted is live, what expires is not. */
  lemma PermittedChanges(g: Group, expireBefore: int, g': Group)
    requires AfterRecalculate(g, expireBefore, g')
    ensures g.permitted != Live(g.permitted, expireBefore) ==> g.permitted != g'.permitted
    ensures Live(g.permitted, expireBefore) != g'.permitted ==> g.permitted != g'.permitted
  {
    var promoted := OutcomeOfRecalculation(g, expireBefore, g');
    if promoted.Some? {
      assert promoted.value !in Live(g.permitted, expireBefore);
      assert g'.permitted[promoted.value] >= expireBefore;
    }
  }

  /** Without tags the limit is one, which leaves room exactly in a group without holders. */
  lemma EmptyGroupHasRoom(g: Group)
    ensures Maximum(map[]) == 1
    ensures HasRoom(g, Maximum(map[])) <==> g.permitted == map[] && g.waiting == map[]
  {
    if g.permitted != map[] {
      NonemptyCounts(g.permitted);
    }
    if g.waiting != map[] {
      NonemptyCounts(g.waiting);
    }
  }

  class DisruptionManager {
    const maxDuration: int
    var writeNotifier: bool              // the one-slot channel: a token is in it
    var exportable: Option<GroupList>    // None if invalid
    var groups: map<string, GroupInfo>
    ghost var owned: set<GroupInfo>      // the objects in groups

    /** A manager that starts without a state file. */
    constructor (maxDuration: int)
      ensures Valid() && fresh(owned) && this.maxDuration == maxDuration
      ensures View() == map[] && !writeNotifier
      ensures exportable.Some? && Exports(exportable.value, View())
    {
      this.maxDuration := maxDuration;
      writeNotifier := false;
      exportable := Some(GroupList([], 0, 0, 0));
      groups := map[];
      owned := {};
    }

    ghost predicate Valid()
      reads this`groups, this`owned
    {
      && (forall id :: id in groups ==> groups[id] in owned)
      && (forall a, b :: a in groups && b in groups && a != b ==> groups[a] != groups[b])
    }

    ghost function View(): Groups
      requires Valid()
      reads this`groups, this`owned, owned
    {
      map id | id in groups :: groups[id].View()
    }

    /** Enters a new group object, replacing what the identifier named before. */
    method SetGroup(id: string, group: GroupInfo)
      requires Valid() && group !in owned
      modifies this`groups, this`owned
      ensures Valid() && owned == old(owned) + {group} && groups == old(groups)[id := group]
      ensures View() == old(View())[id := group.View()]
    {
      groups, owned := groups[id := group], owned + {group};
    }

    method GetGroup(m: Machine) returns (group: GroupInfo)
      requires Valid()
      modifies this`groups, this`owned
      ensures Valid() && View() == WithGroup(old(View()), GroupIdentifier(m))
      ensures GroupIdentifier(m) in groups && groups[GroupIdentifier(m)] == group
      ensures fresh(owned - old(owned))
    {
      var id := GroupIdentifier(m);
      if id in groups {
        group := groups[id];
      } else {
        group := new GroupInfo();
        SetGroup(id, group);
      }
    }

    /** Drops the cached export and drops a token into the notifier unless one is there. */
    method UnlockAndInvalidate(invalidate: bool)
      modifies this`exportable, this`writeNotifier
      ensures exportable == if invalidate then None else old(exportable)
      ensures writeNotifier == (old(writeNotifier) || invalidate)
    {
      if invalidate {
        exportable := None;
      }
      if !invalidate {
        return;
      }
      writeNotifier := true;
    }

    /** Only the named group's object changed, so only its entry of the view did. */
    twostate lemma OnlyOneChanged(id: string)
      requires old(Valid()) && groups == old(groups) && owned == old(owned) && id in groups
      requires forall o :: o in owned && o != groups[id] ==> unchanged(o)
      ensures Valid() && View() == old(View())[id := groups[id].View()]
    {
      assert forall x :: x in groups && x != id ==> groups[x] in owned;
    }

    method Cancel(m: Machine, waitData: Option<WaitData>) returns (state: DisruptionState, invalidated: bool)
      requires Valid()
      modifies this, owned
      ensures Valid() && fresh(owned - old(owned))
      ensures Next(old(View()), Event.Cancel(m, waitData), View(), Some(state), invalidated)
      ensures exportable == if invalidated then None else old(exportable)
      ensures writeNotifier == (old(writeNotifier) || invalidated)
    {
      var group := GetGroup(m);
      label L:
      invalidated := group.Cancel(m.hostname, waitData);
      UnlockAndInvalidate(invalidated);
      OnlyOneChanged@L(GroupIdentifier(m));
      CreatedGroupIsReplaced(old(View()), GroupIdentifier(m), group.View());
      state := Denied;
    }

    method Check(m: Machine) returns (state: DisruptionState, invalidated: bool)
      requires Valid()
      modifies this, owned
      ensures Valid() && fresh(owned - old(owned))
      ensures Next(old(View()), Event.Check(m), View(), Some(state), invalidated)
      ensures exportable == if invalidated then None else old(exportable)
      ensures writeNotifier == (old(writeNotifier) || invalidated)
    {
      var group := GetGroup(m);
      label L:
      state, invalidated := group.Check(m.hostname, m.tags);
      UnlockAndInvalidate(invalidated);
      OnlyOneChanged@L(GroupIdentifier(m));
      CreatedGroupIsReplaced(old(View()), GroupIdentifier(m), group.View());
    }

    method Request(m: Machine, now: int) returns (state: DisruptionState)
      requires Valid()
      modifies this, owned
      ensures Valid() && fresh(owned - old(owned))
      ensures Next(old(View()), Event.Request(m, now), View(), Some(state), true)
      ensures exportable == None && writeNotifier
    {
      var group := GetGroup(m);
      label L:
      state := group.Request(m.hostname, m.tags, now);
      UnlockAndInvalidate(true);
      OnlyOneChanged@L(GroupIdentifier(m));
      CreatedGroupIsReplaced(old(View()), GroupIdentifier(m), group.View());
    }

    /** A ready-waiter of this group completes; the export is deliberately not invalidated. */
    method Finish(id: string, h: string)
      requires Valid()
      modifies owned
      ensures Valid() && Next(old(View()), Event.Finish(id, h), View(), None, false)
    {
      if id in groups && h in groups[id].waiting {
        var group := groups[id];
        group.waiting := group.waiting[h := group.waiting[h].(finished := true)];
        OnlyOneChanged(id);
      }
    }

    method RecalculateGroup(id: string, expireBefore: int) returns (changed: bool)
      requires Valid() && id in groups
      modifies groups[id]
      ensures Valid() && id in View() && View() == old(View())[id := View()[id]]
      ensures AfterRecalculate(old(View())[id], expireBefore, View()[id])
      ensures changed == !SameExport(old(View())[id], View()[id])
    {
      changed := groups[id].Recalculate(expireBefore);
      OnlyOneChanged(id);
    }

    method RecalculateGroups(expireBefore: int) returns (invalidate: bool)
      requires Valid()
      modifies owned
      ensures Valid() && Next(old(View()), Event.Recalculate(expireBefore), View(), None, invalidate)
    {
      invalidate := false;
      var todo := groups.Keys;
      RecalculateNone(View(), expireBefore);
      while todo != {}
        invariant PartlyRecalculated(old(View()), expireBefore, todo, View(), invalidate)
      {
        var id :| id in todo;
        ghost var gs := View();
        var changed := RecalculateGroup(id, expireBefore);
        RecalculateOneMore(old(View()), expireBefore, todo, gs, invalidate, id, View()[id]);
        invalidate := invalidate || changed;
        todo := todo - {id};
      }
      RecalculatedAll(old(View()), expireBefore, View(), invalidate);
    }

    method RecalculateOnce(now: int) returns (invalidated: bool, expireBefore: int)
      requires Valid()
      modifies this`exportable, this`writeNotifier, owned
      ensures Valid() && expireBefore == now - maxDuration
      ensures Next(old(View()), Event.Recalculate(expireBefore), View(), None, invalidated)
      ensures exportable == if invalidated then None else old(exportable)
      ensures writeNotifier == (old(writeNotifier) || invalidated)
    {
      expireBefore := now - maxDuration;
      invalidated := RecalculateGroups(expireBefore);
      UnlockAndInvalidate(invalidated);
    }

    /** The groups with something to show, in any order, and the totals over them. */
    method CollectStats() returns (entries: seq<Entry<GroupStats>>, permitted: nat, requested: nat, waiting: nat)
      requires Valid()
      ensures PartlyListed(entries, View(), {})
      ensures permitted == SumOf(entries, PermittedCount)
      ensures requested == SumOf(entries, RequestedCount)
      ensures waiting == SumOf(entries, WaitingCount)
    {
      entries := [];
      permitted, requested, waiting := 0, 0, 0;
      var todo := groups.Keys;
      ghost var gs := View();
      while todo != {}
        invariant todo <= groups.Keys && PartlyListed(entries, gs, todo)
        invariant permitted == SumOf(entries, PermittedCount)
        invariant requested == SumOf(entries, RequestedCount)
        invariant waiting == SumOf(entries, WaitingCount)
      {
        var id :| id in todo;
        var group := groups[id];
        if group.permitted != map[] || group.requested != map[] || group.waiting != map[] {
          var stats := group.Stats();
          ListOneMore(entries, gs, todo, id, stats);
          permitted := permitted + |stats.permitted|;
          requested := requested + |stats.requested|;
          waiting := waiting + |stats.waiting|;
          entries := entries + [Entry(id, stats)];
        } else {
          SkipOneMore(entries, gs, todo, id);
        }
        todo := todo - {id};
      }
    }

    /** The cached export if there is one, else a fresh one, which is then cached. */
    method GetGroupList() returns (l: GroupList)
      requires Valid()
      modifies this`exportable
      ensures exportable == Some(l)
      ensures old(exportable).Some? ==> l == old(exportable).value
      ensures old(exportable).None? ==> Exports(l, View())
    {
      if exportable.Some? {
        return exportable.value;
      }
      var entries, permitted, requested, waiting := CollectStats();
      SortedEntriesExport(entries, View());
      l := GroupList(SortBy(ByKey(), entries), permitted, requested, waiting);
      exportable := Some(l);
    }
  }
}
