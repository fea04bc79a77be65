/** The exported group list of the Disruption Manager, which is also its state file. */
module DisruptionExport {
  import opened Basics
  import opened Listing
  import opened StableSort
  import opened Disruption

  datatype GroupStats = GroupStats(
    permitted: seq<Entry<int>>,
    requested: seq<Entry<int>>,
    waiting: seq<Entry<WaitInfo>>)

  datatype GroupList = GroupList(
    groups: seq<Entry<GroupStats>>,
    totalPermitted: nat,
    totalRequested: nat,
    totalWaiting: nat)

  predicate IsEmptyGroup(g: Group) {
    g.permitted == map[] && g.requested == map[] && g.waiting == map[]
  }

  /** The statistics list exactly the group's maps, in order of hostname. */
  ghost predicate Describes(stats: GroupStats, g: Group) {
    && Sorted(stats.permitted) && AsMap(stats.permitted) == g.permitted
    && Sorted(stats.requested) && AsMap(stats.requested) == g.requested
    && Sorted(stats.waiting) && AsMap(stats.waiting) == Infos(g.waiting)
  }

  function PermittedCount(e: Entry<GroupStats>): nat { |e.value.permitted| }
  function RequestedCount(e: Entry<GroupStats>): nat { |e.value.requested| }
  function WaitingCount(e: Entry<GroupStats>): nat { |e.value.waiting| }

  ghost predicate TotalsMatch(l: GroupList) {
    && l.totalPermitted == SumOf(l.groups, PermittedCount)
    && l.totalRequested == SumOf(l.groups, RequestedCount)
    && l.totalWaiting == SumOf(l.groups, WaitingCount)
  }

  /** l is the sorted list of the groups that have anybody in them, with right totals. */
  ghost predicate Exports(l: GroupList, gs: Groups) {
    && Sorted(l.groups)
    && (forall id :: id in AsMap(l.groups) <==> id in gs && !IsEmptyGroup(gs[id]))
    && (forall id :: id in AsMap(l.groups) ==> Describes(AsMap(l.groups)[id], gs[id]))
    && TotalsMatch(l)
  }

  /** The entries describe, in some order, the inhabited groups that are not in `todo`. */
  ghost predicate PartlyListed(entries: seq<Entry<GroupStats>>, gs: Groups, todo: set<string>) {
    && DistinctKeys(entries)
    && (forall id :: id in AsMap(entries) <==> id in gs && id !in todo && !IsEmptyGroup(gs[id]))
    && (forall id :: id in AsMap(entries) ==> Describes(AsMap(entries)[id], gs[id]))
  }

  lemma SkipOneMore(entries: seq<Entry<GroupStats>>, gs: Groups, todo: set<string>, id: string)
    requires PartlyListed(entries, gs, todo) && id in todo && todo <= gs.Keys && IsEmptyGroup(gs[id])
    ensures PartlyListed(entries, gs, todo - {id})
  {
  }

  lemma ListOneMore(entries: seq<Entry<GroupStats>>, gs: Groups, todo: set<string>, id: string, stats: GroupStats)
    requires PartlyListed(entries, gs, todo) && id in todo && todo <= gs.Keys
    requires !IsEmptyGroup(gs[id]) && Describes(stats, gs[id])
    ensures var more := entries + [Entry(id, stats)];
      && PartlyListed(more, gs, todo - {id})
      && SumOf(more, PermittedCount) == SumOf(entries, PermittedCount) + |stats.permitted|
      && SumOf(more, RequestedCount) == SumOf(entries, RequestedCount) + |stats.requested|
      && SumOf(more, WaitingCount) == SumOf(entries, WaitingCount) + |stats.waiting|
  {
    var more := entries + [Entry(id, stats)];
    assert more[..|more| - 1] == entries;
    AsMapKeys(entries, id);
  }

  lemma SortedEntriesExport(entries: seq<Entry<GroupStats>>, gs: Groups)
    requires PartlyListed(entries, gs, {})
    ensures Exports(GroupList(SortBy(ByKey(), entries), SumOf(entries, PermittedCount),
                              SumOf(entries, RequestedCount), SumOf(entries, WaitingCount)), gs)
  {
    SortByKeyLists(entries);
    SortKeepsSum(ByKey(), entries, PermittedCount);
    SortKeepsSum(ByKey(), entries, RequestedCount);
    SortKeepsSum(ByKey(), entries, WaitingCount);
  }

  lemma DescriptionIsUnique(s: GroupStats, s': GroupStats, g: Group)
    requires Describes(s, g) && Describes(s', g)
    ensures s == s'
  {
    SortedListingIsUnique(s.permitted, s'.permitted);
    SortedListingIsUnique(s.requested, s'.requested);
    SortedListingIsUnique(s.waiting, s'.waiting);
  }

  /** The export is a function of the groups: no order of map iteration shows through. */
  lemma ExportIsUnique(l: GroupList, l': GroupList, gs: Groups)
    requires Exports(l, gs) && Exports(l', gs)
    ensures l == l'
  {
    forall id | id in AsMap(l.groups)
      ensures AsMap(l.groups)[id] == AsMap(l'.groups)[id]
    {
      DescriptionIsUnique(AsMap(l.groups)[id], AsMap(l'.groups)[id], gs[id]);
    }
    assert AsMap(l.groups) == AsMap(l'.groups);
    SortedListingIsUnique(l.groups, l'.groups);
  }

  lemma SameExportIsIndistinguishable(g: Group, g': Group)
    requires SameExport(g, g')
    ensures IsEmptyGroup(g) == IsEmptyGroup(g')
    ensures forall stats :: Describes(stats, g) ==> Describes(stats, g')
  {
    assert g.waiting.Keys == Infos(g.waiting).Keys == g'.waiting.Keys;
    assert g.waiting == map[] <==> g.waiting.Keys == {};
    assert g'.waiting == map[] <==> g'.waiting.Keys == {};
  }

  /** Equal visible maps give equal exports; groups without hosts do not count. */
  lemma ExportSurvives(l: GroupList, gs: Groups, gs': Groups)
    requires Exports(l, gs)
    requires forall id :: id in gs ==> id in gs' && SameExport(gs[id], gs'[id])
    requires forall id :: id in gs' && id !in gs ==> IsEmptyGroup(gs'[id])
    ensures Exports(l, gs')
  {
    var listed := AsMap(l.groups);
    forall id
      ensures id in listed <==> id in gs' && !IsEmptyGroup(gs'[id])
      ensures id in listed ==> Describes(listed[id], gs'[id])
    {
      if id in gs {
        SameExportIsIndistinguishable(gs[id], gs'[id]);
      }
    }
  }

  /** An event that does not invalidate changes no visible map and creates only empty groups. */
  lemma UninvalidatedEventIsInvisible(
    gs: Groups, e: Event, gs': Groups, reply: Option<DisruptionState>, id: string)
    requires Next(gs, e, gs', reply, false)
    ensures id in gs ==> id in gs' && SameExport(gs[id], gs'[id])
    ensures id in gs' && id !in gs ==> IsEmptyGroup(gs'[id])
  {
    if e.Cancel? {
      var own, h := GroupIdentifier(e.machine), e.machine.hostname;
      var g := WithGroup(gs, own)[own];
      assert g.requested - {h} == g.requested;
      assert gs'[own] == g;
      assert gs' == gs[own := g];
    }
  }

  /** Whatever leaves the cached export in place leaves it right. */
  lemma UninvalidatedEventKeepsExport(
    gs: Groups, e: Event, gs': Groups, reply: Option<DisruptionState>, l: GroupList)
    requires Next(gs, e, gs', reply, false) && Exports(l, gs)
    ensures Exports(l, gs')
  {
    forall id {
      UninvalidatedEventIsInvisible(gs, e, gs', reply, id);
    }
    ExportSurvives(l, gs, gs');
  }

  /** And what would be right afterwards was right before. */
  lemma UninvalidatedEventRepairsNothing(
    gs: Groups, e: Event, gs': Groups, reply: Option<DisruptionState>, l: GroupList)
    requires Next(gs, e, gs', reply, false) && Exports(l, gs')
    ensures Exports(l, gs)
  {
    var listed := AsMap(l.groups);
    forall id
      ensures id in listed <==> id in gs && !IsEmptyGroup(gs[id])
      ensures id in listed ==> Describes(listed[id], gs[id])
    {
      UninvalidatedEventIsInvisible(gs, e, gs', reply, id);
      if id in gs {
        SameExportIsIndistinguishable(gs'[id], gs[id]);
      }
    }
  }
}
