/**
 What a published update does to any table a client may hold, also to one that is newer
 than the update, and when a client that holds the old table ends up with the new one.
 */
module MdbMeaning {
  import opened Basics
  import opened Machines
  import opened MdbDelta

  function At(t: Table, k: string): Option<Machine> {
    if k in t then Some(t[k]) else None
  }

  /** A table as a client sees it. */
  function WireTable(t: Table): Table {
    map k | k in t :: Wire(t[k])
  }

  function WireAll(l: seq<Machine>): seq<Machine> {
    seq(|l|, i requires 0 <= i < |l| => Wire(l[i]))
  }

  function OnWire(u: MdbUpdate): MdbUpdate {
    MdbUpdate(WireAll(u.toAdd), WireAll(u.toUpdate), u.toDelete)
  }

  lemma {:induction false} PutAllMerges(t: Table, l: seq<Machine>)
    ensures PutAll(t, l) == t + TableOf(l)
  {
    if l == [] {
      assert t + TableOf(l) == t;
    } else {
      var n := |l| - 1;
      PutAllMerges(t, l[..n]);
      TableOfExtend(l[..n], l[n]);
      assert l[..n] + [l[n]] == l;
    }
  }

  lemma {:induction false} TableOfWire(l: seq<Machine>)
    ensures TableOf(WireAll(l)) == WireTable(TableOf(l))
  {
    if l != [] {
      var n := |l| - 1;
      TableOfWire(l[..n]);
      TableOfExtend(l[..n], l[n]);
      assert l[..n] + [l[n]] == l;
      TableOfExtend(WireAll(l[..n]), Wire(l[n]));
      assert WireAll(l[..n]) + [Wire(l[n])] == WireAll(l);
    }
  }

  lemma {:induction false} AddedTable(prev: Table, l: seq<Machine>, k: string)
    requires ProperNames(l)
    ensures At(TableOf(AddedMachines(prev, l)), k) == if k in prev then None else At(TableOf(l), k)
  {
    if l != [] {
      var n := |l| - 1;
      AddedTable(prev, l[..n], k);
      TableOfOneMore(l, n);
      assert l[..n + 1] == l;
      TableOfExtend(AddedMachines(prev, l[..n]), l[n]);
      assert l[n].hostname in prev ==> AddedMachines(prev, l) == AddedMachines(prev, l[..n]);
    }
  }

  lemma {:induction false} ChangedTable(prev: Table, l: seq<Machine>, k: string)
    requires ProperNames(l)
    ensures At(TableOf(ChangedMachines(prev, l)), k) ==
      if k in prev && k in TableOf(l) && !Compare(TableOf(l)[k], prev[k]) then At(TableOf(l), k) else None
  {
    if l != [] {
      var n := |l| - 1;
      ChangedTable(prev, l[..n], k);
      TableOfOneMore(l, n);
      assert l[..n + 1] == l;
      TableOfExtend(ChangedMachines(prev, l[..n]), l[n]);
      assert l[n].hostname !in prev || Compare(l[n], prev[l[n].hostname]) ==>
        ChangedMachines(prev, l) == ChangedMachines(prev, l[..n]);
    }
  }

  /** The update leaves name k alone on the way from prev to next. */
  ghost predicate Untouched(prev: Table, next: Table, k: string) {
    (k in prev <==> k in next) && (k in prev ==> Compare(next[k], prev[k]))
  }

  /** What an update makes of one name, by the tables of its lists. */
  lemma ClientApplyAt(c: Table, u: MdbUpdate, k: string)
    ensures At(ClientApply(c, u), k) ==
      if c == map[] then At(TableOf(u.toAdd), k)
      else if k in u.toDelete then None
      else if k in TableOf(u.toUpdate) then At(TableOf(u.toUpdate), k)
      else if k in TableOf(u.toAdd) then At(TableOf(u.toAdd), k)
      else At(c, k)
  {
    if c == map[] {
      PutAllMerges(map[], u.toAdd);
    } else {
      PutAllMerges(c, u.toAdd);
      PutAllMerges(PutAll(c, u.toAdd), u.toUpdate);
    }
  }

  /** The lists of an update as a client gets them. */
  lemma ListsAt(prev: Table, next: Mdb, u: MdbUpdate, k: string)
    requires WellFormed(next) && IsUpdate(prev, next, u)
    ensures At(TableOf(OnWire(u).toAdd), k) == if k in prev then None else At(WireTable(next.table), k)
    ensures At(TableOf(OnWire(u).toUpdate), k) ==
      if k in prev && k in next.table && !Compare(next.table[k], prev[k]) then At(WireTable(next.table), k) else None
  {
    AddedTable(prev, next.machines, k);
    ChangedTable(prev, next.machines, k);
    TableOfWire(u.toAdd);
    TableOfWire(u.toUpdate);
  }

  /** An update applied to any table, name by name. */
  lemma ApplyAt(prev: Table, next: Mdb, u: MdbUpdate, c: Table, k: string)
    requires WellFormed(next) && IsUpdate(prev, next, u)
    ensures At(ClientApply(c, OnWire(u)), k) ==
      if Untouched(prev, next.table, k) || (c == map[] && k in prev && k in next.table) then At(c, k)
      else At(WireTable(next.table), k)
  {
    ListsAt(prev, next, u, k);
    ClientApplyAt(c, OnWire(u), k);
    assert k in u.toDelete <==> k in Deleted(prev, next.table);
  }

  // ---------------------------------------------------------------- Exact steps

  /** No machine in both tables is confused with its predecessor. */
  ghost predicate ExactStep(prev: Table, next: Table) {
    forall k :: k in prev && k in next ==> !Confuses(next[k], prev[k])
  }

  /** Tables whose tags are never blank are always told apart. */
  lemma NoBlankTagsIsExact(prev: Table, next: Table)
    requires forall k :: k in next ==> NoBlankTags(next[k])
    ensures ExactStep(prev, next)
  {
    forall k | k in prev && k in next {
      NoBlankTagsNoConfusion(next[k], prev[k]);
    }
  }

  lemma UntouchedExactly(prev: Table, next: Table, k: string)
    ensures At(WireTable(prev), k) == At(WireTable(next), k) ==> Untouched(prev, next, k)
    ensures Untouched(prev, next, k) && (k in prev && k in next ==> !Confuses(next[k], prev[k])) ==>
      At(WireTable(prev), k) == At(WireTable(next), k)
  {
    if k in prev && k in next {
      CompareExactly(next[k], prev[k]);
    }
  }

  /** A client with the old table gets the new one exactly if no machine is confused. */
  lemma ClientFollowsIff(prev: Table, next: Mdb, u: MdbUpdate)
    requires WellFormed(next) && IsUpdate(prev, next, u)
    ensures ClientApply(WireTable(prev), OnWire(u)) == WireTable(next.table) <==> ExactStep(prev, next.table)
  {
    var a, b, c := WireTable(prev), WireTable(next.table), ClientApply(WireTable(prev), OnWire(u));
    if ExactStep(prev, next.table) {
      forall k
        ensures At(c, k) == At(b, k)
      {
        ApplyAt(prev, next, u, a, k);
        UntouchedExactly(prev, next.table, k);
      }
      SameAt(c, b);
    } else {
      var k :| k in prev && k in next.table && Confuses(next.table[k], prev[k]);
      ApplyAt(prev, next, u, a, k);
      CompareExactly(next.table[k], prev[k]);
      assert At(c, k) == At(a, k) == Some(Wire(prev[k]));
      assert At(b, k) == Some(Wire(next.table[k]));
    }
  }

  lemma SameAt(t: Table, t': Table)
    requires forall k :: At(t, k) == At(t', k)
    ensures t == t'
  {
    forall k
      ensures k in t <==> k in t'
      ensures k in t ==> t[k] == t'[k]
    {
      assert At(t, k) == At(t', k);
    }
  }

  /** Name by name, what client table c becomes under the update from prev to next. */
  ghost predicate IsPatch(c: Table, prev: Table, next: Table, c': Table) {
    forall k :: PatchesAt(c, prev, next, c', k)
  }

  ghost predicate PatchesAt(c: Table, prev: Table, next: Table, c': Table, k: string) {
    At(c', k) ==
      if Untouched(prev, next, k) || (c == map[] && k in prev && k in next) then At(c, k)
      else At(WireTable(next), k)
  }

  /** What update u means to a client, whatever it holds. */
  ghost predicate Means(u: MdbUpdate, prev: Table, next: Table) {
    forall c :: IsPatch(c, prev, next, ClientApply(c, OnWire(u)))
  }

  lemma UpdateMeaning(prev: Table, next: Mdb, u: MdbUpdate)
    requires WellFormed(next) && IsUpdate(prev, next, u)
    ensures Means(u, prev, next.table)
  {
    forall c: Table, k: string
      ensures PatchesAt(c, prev, next.table, ClientApply(c, OnWire(u)), k)
    {
      ApplyAt(prev, next, u, c, k);
    }
  }

  /** The update is empty exactly if no name is touched. */
  lemma EmptyUpdateMeaning(prev: Table, next: Mdb, u: MdbUpdate)
    requires WellFormed(next) && IsUpdate(prev, next, u)
    ensures IsEmptyUpdate(u) <==> forall k :: Untouched(prev, next.table, k)
  {
    UpdateSizes(prev, next, u);
    var added, changed, deleted := Added(prev, next.table), ChangedForUpdate(prev, next.table), Deleted(prev, next.table);
    forall k
      ensures Untouched(prev, next.table, k) <==> k !in added && k !in changed && k !in deleted
    {
    }
    if forall k :: Untouched(prev, next.table, k) {
      assert added == {} && changed == {} && deleted == {};
    } else {
      var k :| !Untouched(prev, next.table, k);
      assert k in added || k in changed || k in deleted;
    }
  }
}
