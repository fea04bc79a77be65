/**
 The MDB daemon's tables, the counter that decides whether a new table is worth
 publishing, the update that is published, and what a client makes of it.
 */
module MdbDelta {
  import opened Basics
  import opened Listing
  import opened Machines

  type Table = map<string, Machine>

  datatype Mdb = Mdb(machines: seq<Machine>, table: Table)

  datatype MdbUpdate = MdbUpdate(toAdd: seq<Machine>, toUpdate: seq<Machine>, toDelete: seq<string>)

  datatype DifferenceStats = DifferenceStats(added: nat, changed: nat, deleted: nat)

  function TableIn(mdb: Option<Mdb>): Table {
    if mdb.Some? then mdb.value.table else map[]
  }

  function Keyed(l: seq<Machine>): seq<Entry<Machine>> {
    seq(|l|, i requires 0 <= i < |l| => Entry(l[i].hostname, l[i]))
  }

  /** The table of a list of machines, by hostname. */
  function TableOf(l: seq<Machine>): Table {
    AsMap(Keyed(l))
  }

  /** Every hostname is there, once. */
  ghost predicate ProperNames(l: seq<Machine>) {
    && (forall i :: 0 <= i < |l| ==> l[i].hostname != "")
    && (forall i, j :: 0 <= i < j < |l| ==> l[i].hostname != l[j].hostname)
  }

  ghost predicate WellFormed(m: Mdb) {
    ProperNames(m.machines) && m.table == TableOf(m.machines)
  }

  lemma TableOfAt(l: seq<Machine>)
    requires ProperNames(l)
    ensures |TableOf(l)| == |l|
    ensures forall i :: 0 <= i < |l| ==> l[i].hostname in TableOf(l) && TableOf(l)[l[i].hostname] == l[i]
    ensures forall k :: k in TableOf(l) ==> k != "" && TableOf(l)[k].hostname == k && TableOf(l)[k] in l
  {
    var e := Keyed(l);
    AsMapOfDistinct(e);
    forall i | 0 <= i < |l|
      ensures l[i].hostname in TableOf(l) && TableOf(l)[l[i].hostname] == l[i]
    {
      assert e[i].key in AsMap(e);
    }
    forall k | k in TableOf(l)
      ensures k != "" && TableOf(l)[k].hostname == k && TableOf(l)[k] in l
    {
      AsMapKeys(e, k);
      var i :| 0 <= i < |e| && e[i].key == k;
      assert l[i] in l;
    }
  }

  lemma TableOfExtend(l: seq<Machine>, m: Machine)
    ensures TableOf(l + [m]) == TableOf(l)[m.hostname := m]
  {
    var e := Keyed(l + [m]);
    assert e[..|e| - 1] == Keyed(l);
  }

  // ---------------------------------------------------------------- The counter

  function Added(prev: Table, next: Table): set<string> {
    set k | k in next && k !in prev
  }

  function Deleted(prev: Table, next: Table): set<string> {
    set k | k in prev && k !in next
  }

  /** What the counter takes for changed: it asks the old machine about the new one. */
  function ChangedForCounter(prev: Table, next: Table): set<string> {
    set k | k in prev && k in next && !Compare(prev[k], next[k])
  }

  /** What the update takes for changed: it asks the new machine about the old one. */
  function ChangedForUpdate(prev: Table, next: Table): set<string> {
    set k | k in prev && k in next && !Compare(next[k], prev[k])
  }

  /**
   newMdbIsDifferent. The number of deleted machines is found by subtraction from an
   unsigned count; the subtraction never goes below zero.
   */
  method NewMdbIsDifferent(prev: Option<Mdb>, next: Mdb) returns (stats: DifferenceStats)
    requires WellFormed(next) && (prev.Some? ==> WellFormed(prev.value))
    ensures stats.added == |Added(TableIn(prev), next.table)|
    ensures stats.changed == |ChangedForCounter(TableIn(prev), next.table)|
    ensures stats.deleted == |Deleted(TableIn(prev), next.table)|
  {
    TableOfAt(next.machines);
    if prev.None? {
      assert ChangedForCounter(map[], next.table) == {} == Deleted(map[], next.table);
      assert Added(map[], next.table) == next.table.Keys;
      return DifferenceStats(|next.machines|, 0, 0);
    }
    var was := prev.value;
    TableOfAt(was.machines);
    var added, changed, same := 0, 0, 0;
    for i := 0 to |next.machines|
      invariant added == |Added(was.table, TableOf(next.machines[..i]))|
      invariant changed == |ChangedForCounter(was.table, TableOf(next.machines[..i]))|
      invariant same == |Unchanged(was.table, TableOf(next.machines[..i]))|
    {
      var m := next.machines[i];
      TableOfOneMore(next.machines, i);
      CountOneMore(was.table, TableOf(next.machines[..i]), m);
      if m.hostname !in was.table {
        added := added + 1;
      } else if Compare(was.table[m.hostname], m) {
        same := same + 1;
      } else {
        changed := changed + 1;
      }
    }
    assert next.machines[..|next.machines|] == next.machines;
    PrevInThree(was.table, next.table);
    return DifferenceStats(added, changed, |was.machines| - changed - same);
  }

  function Unchanged(prev: Table, next: Table): set<string> {
    set k | k in prev && k in next && Compare(prev[k], next[k])
  }

  lemma TableOfOneMore(l: seq<Machine>, i: nat)
    requires ProperNames(l) && i < |l|
    ensures l[i].hostname !in TableOf(l[..i])
    ensures TableOf(l[..i + 1]) == TableOf(l[..i])[l[i].hostname := l[i]]
  {
    TableOfExtend(l[..i], l[i]);
    assert l[..i] + [l[i]] == l[..i + 1];
    TableOfAt(l[..i]);
  }

  /** One more machine lands in exactly one of the three classes. */
  lemma CountOneMore(prev: Table, t: Table, m: Machine)
    requires m.hostname !in t
    ensures var t', h := t[m.hostname := m], m.hostname;
      && |Added(prev, t')| == |Added(prev, t)| + (if h in prev then 0 else 1)
      && |ChangedForCounter(prev, t')| ==
           |ChangedForCounter(prev, t)| + (if h in prev && !Compare(prev[h], m) then 1 else 0)
      && |Unchanged(prev, t')| ==
           |Unchanged(prev, t)| + (if h in prev && Compare(prev[h], m) then 1 else 0)
  {
    var t', h := t[m.hostname := m], m.hostname;
    GrowBy(Added(prev, t), Added(prev, t'), h, h !in prev);
    GrowBy(ChangedForCounter(prev, t), ChangedForCounter(prev, t'), h, h in prev && !Compare(prev[h], m));
    GrowBy(Unchanged(prev, t), Unchanged(prev, t'), h, h in prev && Compare(prev[h], m));
  }

  lemma GrowBy(s: set<string>, s': set<string>, x: string, grows: bool)
    requires x !in s && forall y :: y in s' <==> y in s || (y == x && grows)
    ensures |s'| == |s| + (if grows then 1 else 0)
  {
    AddElement(s, x);
    assert s' == if grows then s + {x} else s;
  }

  function Common(prev: Table, next: Table): set<string> {
    set k | k in prev && k in next
  }

  lemma PrevInThree(prev: Table, next: Table)
    ensures |prev| == |ChangedForCounter(prev, next)| + |Unchanged(prev, next)| + |Deleted(prev, next)|
  {
    Partition(Common(prev, next), ChangedForCounter(prev, next), Unchanged(prev, next));
    Partition(prev.Keys, Common(prev, next), Deleted(prev, next));
  }

  /** The counts balance the books. */
  lemma CountsBalance(prev: Table, next: Table)
    ensures |next| + |Deleted(prev, next)| == |prev| + |Added(prev, next)|
  {
    Partition(next.Keys, Common(prev, next), Added(prev, next));
    Partition(prev.Keys, Common(prev, next), Deleted(prev, next));
  }

  // ---------------------------------------------------------------- The update

  function AddedMachines(prev: Table, l: seq<Machine>): seq<Machine> {
    if l == [] then [] else
    AddedMachines(prev, l[..|l| - 1]) + (if l[|l| - 1].hostname in prev then [] else [l[|l| - 1]])
  }

  function ChangedMachines(prev: Table, l: seq<Machine>): seq<Machine> {
    if l == [] then [] else
    var m := l[|l| - 1];
    ChangedMachines(prev, l[..|l| - 1]) +
    (if m.hostname in prev && !Compare(m, prev[m.hostname]) then [m] else [])
  }

  /** The update from one table to the next; the deleted names come in no particular order. */
  ghost predicate IsUpdate(prev: Table, next: Mdb, u: MdbUpdate) {
    && u.toAdd == AddedMachines(prev, next.machines)
    && u.toUpdate == ChangedMachines(prev, next.machines)
    && (forall i, j :: 0 <= i < j < |u.toDelete| ==> u.toDelete[i] != u.toDelete[j])
    && (forall k :: k in u.toDelete <==> k in Deleted(prev, next.table))
  }

  predicate IsEmptyUpdate(u: MdbUpdate) {
    |u.toAdd| == 0 && |u.toUpdate| == 0 && |u.toDelete| == 0
  }

  method ByName(machines: seq<Machine>) returns (t: Table)
    ensures t == TableOf(machines)
  {
    t := map[];
    for i := 0 to |machines|
      invariant t == TableOf(machines[..i])
    {
      TableOfExtend(machines[..i], machines[i]);
      assert machines[..i] + [machines[i]] == machines[..i + 1];
      t := t[machines[i].hostname := machines[i]];
    }
    assert machines[..|machines|] == machines;
  }

  method SelectChanges(prev: Table, machines: seq<Machine>) returns (toAdd: seq<Machine>, toUpdate: seq<Machine>)
    ensures toAdd == AddedMachines(prev, machines)
    ensures toUpdate == ChangedMachines(prev, machines)
  {
    toAdd, toUpdate := [], [];
    for i := 0 to |machines|
      invariant toAdd == AddedMachines(prev, machines[..i]) && toUpdate == ChangedMachines(prev, machines[..i])
    {
      var m := machines[i];
      assert machines[..i + 1][..i] == machines[..i];
      if m.hostname in prev {
        if !Compare(m, prev[m.hostname]) {
          toUpdate := toUpdate + [m];
        }
      } else {
        toAdd := toAdd + [m];
      }
    }
    assert machines[..|machines|] == machines;
  }

  method LeftOver(prev: Table, machines: seq<Machine>) returns (names: seq<string>)
    requires ProperNames(machines)
    ensures forall i, j :: 0 <= i < j < |names| ==> names[i] != names[j]
    ensures forall k :: k in names <==> k in Deleted(prev, TableOf(machines))
  {
    var rest := prev;
    for i := 0 to |machines|
      invariant rest.Keys == prev.Keys - TableOf(machines[..i]).Keys
    {
      TableOfExtend(machines[..i], machines[i]);
      assert machines[..i] + [machines[i]] == machines[..i + 1];
      rest := rest - {machines[i].hostname};
    }
    assert machines[..|machines|] == machines;
    names := [];
    var todo := rest.Keys;
    while todo != {}
      invariant todo <= rest.Keys
      invariant forall i, j :: 0 <= i < j < |names| ==> names[i] != names[j]
      invariant forall k :: k in names <==> k in rest.Keys - todo
    {
      var name :| name in todo;
      assert name !in names && forall i :: 0 <= i < |names| ==> names[i] in names;
      names := names + [name];
      todo := todo - {name};
    }
  }

  /** The update pushUpdateToAll sends to its subscribers. */
  method MakeUpdate(prev: Option<Mdb>, next: Mdb) returns (u: MdbUpdate)
    requires WellFormed(next) && (prev.Some? ==> WellFormed(prev.value))
    ensures IsUpdate(TableIn(prev), next, u)
  {
    var prevMachines := ByName(if prev.Some? then prev.value.machines else []);
    var toAdd, toUpdate := SelectChanges(prevMachines, next.machines);
    var toDelete := LeftOver(prevMachines, next.machines);
    u := MdbUpdate(toAdd, toUpdate, toDelete);
  }

  lemma {:induction false} SelectionSizes(prev: Table, l: seq<Machine>)
    requires ProperNames(l)
    ensures |AddedMachines(prev, l)| == |Added(prev, TableOf(l))|
    ensures |ChangedMachines(prev, l)| == |ChangedForUpdate(prev, TableOf(l))|
  {
    if l != [] {
      var n := |l| - 1;
      var m := l[n];
      SelectionSizes(prev, l[..n]);
      TableOfOneMore(l, n);
      assert l[..n + 1] == l;
      CountOneMore(prev, TableOf(l[..n]), m);
      GrowBy(ChangedForUpdate(prev, TableOf(l[..n])), ChangedForUpdate(prev, TableOf(l)), m.hostname,
        m.hostname in prev && !Compare(m, prev[m.hostname]));
    } else {
      assert Added(prev, TableOf(l)) == {} == ChangedForUpdate(prev, TableOf(l));
    }
  }

  lemma {:induction false} DistinctSize(l: seq<string>, s: set<string>)
    requires forall i, j :: 0 <= i < j < |l| ==> l[i] != l[j]
    requires forall k :: k in l <==> k in s
    ensures |l| == |s|
  {
    if l == [] {
      assert s == {};
    } else {
      var n := |l| - 1;
      forall k
        ensures k in l[..n] <==> k in s - {l[n]}
      {
        if k in l && k != l[n] {
          var i :| 0 <= i < |l| && l[i] == k;
          assert l[..n][i] == k;
        }
      }
      assert l[n] in s;
      DistinctSize(l[..n], s - {l[n]});
    }
  }

  /** The three lists of an update are as long as the sets they list. */
  lemma UpdateSizes(prev: Table, next: Mdb, u: MdbUpdate)
    requires WellFormed(next) && IsUpdate(prev, next, u)
    ensures |u.toAdd| == |Added(prev, next.table)|
    ensures |u.toUpdate| == |ChangedForUpdate(prev, next.table)|
    ensures |u.toDelete| == |Deleted(prev, next.table)|
  {
    SelectionSizes(prev, next.machines);
    DistinctSize(u.toDelete, Deleted(prev, next.table));
  }

  // ---------------------------------------------------------------- Counter against update

  /** No machine in both tables differs from its namesake by one-sided tags, seen from either table. */
  ghost predicate NoneOneSided(prev: Table, next: Table) {
    forall k :: k in prev && k in next ==> !OneSided(prev[k], next[k]) && !OneSided(next[k], prev[k])
  }

  /** Which machines the counter and the update see differently, and which way. */
  lemma DisagreementExactly(prev: Table, next: Table, k: string)
    requires k in prev && k in next
    ensures k in ChangedForUpdate(prev, next) && k !in ChangedForCounter(prev, next) <==> OneSided(prev[k], next[k])
    ensures k in ChangedForCounter(prev, next) && k !in ChangedForUpdate(prev, next) <==> OneSided(next[k], prev[k])
  {
    CompareIsOneSidedIff(prev[k], next[k]);
    CompareIsOneSidedIff(next[k], prev[k]);
  }

  /** The counter and the update see the same changes exactly if no machine's tags are one-sided. */
  lemma CounterAndUpdateAgreeIff(prev: Table, next: Table)
    ensures ChangedForCounter(prev, next) == ChangedForUpdate(prev, next) <==> NoneOneSided(prev, next)
  {
    forall k | k in prev && k in next
      ensures (k in ChangedForCounter(prev, next) <==> k in ChangedForUpdate(prev, next)) <==>
        !OneSided(prev[k], next[k]) && !OneSided(next[k], prev[k])
    {
      DisagreementExactly(prev, next, k);
    }
  }

  /** Tables without blank tags: the counter and the update always agree. */
  lemma NoBlankTagsAgree(prev: Table, next: Table)
    requires forall k :: k in prev ==> NoBlankTags(prev[k])
    requires forall k :: k in next ==> NoBlankTags(next[k])
    ensures ChangedForCounter(prev, next) == ChangedForUpdate(prev, next)
  {
    forall k | k in prev && k in next
      ensures !OneSided(prev[k], next[k]) && !OneSided(next[k], prev[k])
    {
      if OneSided(prev[k], next[k]) {
        OneSidedTakesABlankTag(prev[k], next[k]);
      }
      if OneSided(next[k], prev[k]) {
        OneSidedTakesABlankTag(next[k], prev[k]);
      }
    }
    CounterAndUpdateAgreeIff(prev, next);
  }

  /** Then the counts are the lengths, and all are zero exactly for the empty update. */
  lemma CountsAreLengths(prev: Table, next: Mdb, u: MdbUpdate, stats: DifferenceStats)
    requires WellFormed(next) && IsUpdate(prev, next, u) && NoneOneSided(prev, next.table)
    requires stats == DifferenceStats(|Added(prev, next.table)|, |ChangedForCounter(prev, next.table)|,
                                      |Deleted(prev, next.table)|)
    ensures stats == DifferenceStats(|u.toAdd|, |u.toUpdate|, |u.toDelete|)
    ensures stats == DifferenceStats(0, 0, 0) <==> IsEmptyUpdate(u)
  {
    UpdateSizes(prev, next, u);
    CounterAndUpdateAgreeIff(prev, next.table);
  }

  function Tagged(hostname: string, tags: Tags): Machine {
    Machine(hostname, "", "", "", "", "", "", false, "", None, None, Some(tags), None)
  }

  /**
   It does matter: replacing a blank tag by one with a value is an update that is not
   counted, and the reverse is counted although its update is empty.
   */
  lemma BlankTagsMakeThemDisagree()
    ensures var blank, full := Tagged("h", map["a" := ""]), Tagged("h", map["b" := "x"]);
      && ChangedForCounter(map["h" := blank], map["h" := full]) == {}
      && ChangedForUpdate(map["h" := blank], map["h" := full]) == {"h"}
      && ChangedForCounter(map["h" := full], map["h" := blank]) == {"h"}
      && ChangedForUpdate(map["h" := full], map["h" := blank]) == {}
  {
    var blank, full := Tagged("h", map["a" := ""]), Tagged("h", map["b" := "x"]);
    assert Lookup(TagsOf(full.tags), "a") == "";
    assert Lookup(TagsOf(blank.tags), "b") == "" != TagsOf(full.tags)["b"];
    assert map["a" := ""].Keys == {"a"} && map["b" := "x"].Keys == {"b"};
    assert CompareTags(TagsOf(blank.tags), TagsOf(full.tags));
    assert !CompareTags(TagsOf(full.tags), TagsOf(blank.tags));
    assert Compare(blank, full) && !Compare(full, blank);
  }

  // ---------------------------------------------------------------- The client

  function PutAll(t: Table, l: seq<Machine>): Table {
    if l == [] then t else PutAll(t, l[..|l| - 1])[l[|l| - 1].hostname := l[|l| - 1]]
  }

  /** What an update means: put what is added or updated, remove what is deleted. */
  function Apply(t: Table, u: MdbUpdate): Table {
    PutAll(PutAll(t, u.toAdd), u.toUpdate) - (set k | k in u.toDelete)
  }

  /** What the client does: while it has no machines it takes the added ones and nothing else. */
  function ClientApply(t: Table, u: MdbUpdate): Table {
    if t == map[] then PutAll(map[], u.toAdd) else Apply(t, u)
  }

  /** processUpdate of the client. */
  method ProcessUpdate(prev: Table, u: MdbUpdate) returns (t: Table)
    ensures t == ClientApply(prev, u)
  {
    if |prev| < 1 {
      t := map[];
      for i := 0 to |u.toAdd|
        invariant t == PutAll(map[], u.toAdd[..i])
      {
        assert u.toAdd[..i + 1][..i] == u.toAdd[..i];
        t := t[u.toAdd[i].hostname := u.toAdd[i]];
      }
      assert u.toAdd[..|u.toAdd|] == u.toAdd;
      return;
    }
    t := prev;
    for i := 0 to |u.toAdd|
      invariant t == PutAll(prev, u.toAdd[..i])
    {
      assert u.toAdd[..i + 1][..i] == u.toAdd[..i];
      t := t[u.toAdd[i].hostname := u.toAdd[i]];
    }
    assert u.toAdd[..|u.toAdd|] == u.toAdd;
    ghost var t1 := t;
    for i := 0 to |u.toUpdate|
      invariant t == PutAll(t1, u.toUpdate[..i])
    {
      assert u.toUpdate[..i + 1][..i] == u.toUpdate[..i];
      t := t[u.toUpdate[i].hostname := u.toUpdate[i]];
    }
    assert u.toUpdate[..|u.toUpdate|] == u.toUpdate;
    ghost var t2 := t;
    for i := 0 to |u.toDelete|
      invariant t == t2 - (set k | k in u.toDelete[..i])
    {
      assert u.toDelete[..i + 1] == u.toDelete[..i] + [u.toDelete[i]];
      t := t - {u.toDelete[i]};
    }
    assert u.toDelete[..|u.toDelete|] == u.toDelete;
  }
}
