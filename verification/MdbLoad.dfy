/**
 One load cycle of the MDB daemon: the output of all generators is filtered, merged by
 name, passed through the pause table and turned into a table; and when the daemon takes a
 table for different from the last one.
 */
module MdbLoad {
  import opened Basics
  import opened Machines
  import opened MdbDelta
  import opened MdbMeaning
  import opened PauseTables

  datatype Variables = NotOffered | Unavailable | Offered(values: map<string, string>)

  /** What a generator yields in this cycle: machines or an error, and perhaps variables. */
  datatype Generator = Generator(driverName: string, machines: Option<seq<Machine>>, variables: Variables)

  datatype HostFilter = HostFilter(hostnameRE: Option<string -> bool>, exclude: set<string>, only: set<string>)

  predicate Selects(f: HostFilter, name: string) {
    && name !in f.exclude
    && (f.only == {} || name == "" || name in f.only)
    && (f.hostnameRE.Some? ==> f.hostnameRE.value(name))
  }

  function Selected(f: HostFilter, l: seq<Machine>): seq<Machine> {
    if l == [] then [] else
    Selected(f, l[..|l| - 1]) + (if Selects(f, l[|l| - 1].hostname) then [l[|l| - 1]] else [])
  }

  lemma {:induction false} NoFilterSelectsAll(f: HostFilter, l: seq<Machine>)
    requires f.hostnameRE.None? && f.exclude == {} && f.only == {}
    ensures Selected(f, l) == l
  {
    if l != [] {
      NoFilterSelectsAll(f, l[..|l| - 1]);
    }
  }

  method SelectHosts(f: HostFilter, l: seq<Machine>) returns (out: seq<Machine>)
    ensures out == Selected(f, l)
  {
    if f.hostnameRE.None? && |f.exclude| < 1 && |f.only| < 1 {
      NoFilterSelectsAll(f, l);
      return l;
    }
    out := [];
    for i := 0 to |l|
      invariant out == Selected(f, l[..i])
    {
      var m := l[i];
      assert l[..i + 1][..i] == l[..i];
      if m.hostname in f.exclude {
        continue;
      }
      if |f.only| > 0 && m.hostname != "" {
        if m.hostname !in f.only {
          continue;
        }
      }
      if f.hostnameRE.None? {
        out := out + [m];
      } else if f.hostnameRE.value(m.hostname) {
        out := out + [m];
      }
    }
    assert l[..|l|] == l;
  }

  // ---------------------------------------------------------------- Supply and merge

  /** A machine under the name it goes by: its address where it has no hostname. */
  function Named(m: Machine, driverName: string): Machine {
    m.(hostname := if m.hostname == "" then m.ipAddress else m.hostname, dataSourceType := driverName)
  }

  /** The machines of a list that have a name to go by, in order. */
  function NamedAll(l: seq<Machine>, driverName: string): seq<Machine> {
    if l == [] then [] else
    var m := Named(l[|l| - 1], driverName);
    NamedAll(l[..|l| - 1], driverName) + (if m.hostname == "" then [] else [m])
  }

  /** Everything the generators supply after filtering, in order. */
  function Supply(gens: seq<Generator>, f: HostFilter): seq<Machine> {
    if gens == [] then [] else
    var g := gens[|gens| - 1];
    Supply(gens[..|gens| - 1], f) +
    (if g.machines.None? then [] else NamedAll(Selected(f, g.machines.value), g.driverName))
  }

  function MergeOne(t: Table, m: Machine): Table {
    t[m.hostname := if m.hostname in t then UpdateFrom(t[m.hostname], m) else m]
  }

  function Merge(t: Table, l: seq<Machine>): Table {
    if l == [] then t else MergeOne(Merge(t, l[..|l| - 1]), l[|l| - 1])
  }

  /** The machine of one name: the first supplied, updated from the others of that name in order. */
  function MergedFor(l: seq<Machine>, k: string): Option<Machine> {
    if l == [] then None else
    var before, m := MergedFor(l[..|l| - 1], k), l[|l| - 1];
    if m.hostname != k then before
    else if before.None? then Some(m) else Some(UpdateFrom(before.value, m))
  }

  /** Merging into one table treats every name by itself. */
  lemma {:induction false} MergeByName(l: seq<Machine>, k: string)
    ensures At(Merge(map[], l), k) == MergedFor(l, k)
  {
    if l != [] {
      MergeByName(l[..|l| - 1], k);
    }
  }

  lemma {:induction false} MergeAppends(t: Table, l: seq<Machine>, l': seq<Machine>)
    ensures Merge(t, l + l') == Merge(Merge(t, l), l')
  {
    if l' == [] {
      assert l + l' == l;
    } else {
      var n := |l'| - 1;
      MergeAppends(t, l, l'[..n]);
      assert (l + l')[..|l + l'| - 1] == l + l'[..n];
    }
  }

  lemma {:induction false} SuppliedHaveNames(l: seq<Machine>, driverName: string)
    ensures forall i :: 0 <= i < |NamedAll(l, driverName)| ==> NamedAll(l, driverName)[i].hostname != ""
  {
    if l != [] {
      SuppliedHaveNames(l[..|l| - 1], driverName);
    }
  }

  lemma {:induction false} SupplyHasNames(gens: seq<Generator>, f: HostFilter)
    ensures forall i :: 0 <= i < |Supply(gens, f)| ==> Supply(gens, f)[i].hostname != ""
  {
    if gens != [] {
      var g := gens[|gens| - 1];
      SupplyHasNames(gens[..|gens| - 1], f);
      if g.machines.Some? {
        SuppliedHaveNames(Selected(f, g.machines.value), g.driverName);
      }
    }
  }

  lemma {:induction false} MergedKeepsName(l: seq<Machine>, k: string)
    ensures MergedFor(l, k).Some? <==> exists i :: 0 <= i < |l| && l[i].hostname == k
    ensures MergedFor(l, k).Some? ==> MergedFor(l, k).value.hostname == k
  {
    if l != [] {
      var n := |l| - 1;
      MergedKeepsName(l[..n], k);
      if MergedFor(l[..n], k).Some? {
        var i :| 0 <= i < n && l[..n][i].hostname == k;
        assert l[i].hostname == k;
      } else if l[n].hostname == k {
        assert l[n].hostname == k;
      }
    }
  }

  // ---------------------------------------------------------------- Pauses and variables

  function ProcessValue(value: string, variables: map<string, string>): string {
    if |value| >= 2 && value[0] == '$' && value[1..] in variables then variables[value[1..]] else value
  }

  function Expand(m: Machine, variables: map<string, string>): Machine {
    if variables == map[] then m else
    m.(requiredImage := ProcessValue(m.requiredImage, variables),
       plannedImage := ProcessValue(m.plannedImage, variables),
       tags := Some(map k | k in TagsOf(m.tags) :: ProcessValue(TagsOf(m.tags)[k], variables)))
  }

  /** The pause table takes a machine out, unless its updates are disabled anyway. */
  predicate PauseRemoves(m: Machine, pauses: Pauses) {
    !m.disableUpdates && m.hostname in pauses && pauses[m.hostname].remove
  }

  predicate PauseDisables(m: Machine, pauses: Pauses, now: int) {
    m.hostname in pauses && pauses[m.hostname].until > now
  }

  function Processed(m: Machine, pauses: Pauses, now: int, variables: map<string, string>): Option<Machine> {
    if PauseRemoves(m, pauses) then None
    else Some(Expand(m.(disableUpdates := m.disableUpdates || PauseDisables(m, pauses, now)), variables))
  }

  method ProcessMachine(m: Machine, pauses: Pauses, now: int, variables: map<string, string>)
    returns (keep: bool, out: Machine)
    ensures Processed(m, pauses, now, variables) == if keep then Some(out) else None
  {
    out := m;
    if !m.disableUpdates {
      if m.hostname in pauses {
        var pauseData := pauses[m.hostname];
        if pauseData.remove {
          return false, m;
        }
        if pauseData.until - now > 0 {
          out := out.(disableUpdates := true);
        }
      }
    } else {
      assert m == m.(disableUpdates := true);
    }
    if |variables| > 0 {
      var expanded: Tags := map[];
      var tags := TagsOf(out.tags);
      var todo := tags.Keys;
      while todo != {}
        invariant todo <= tags.Keys && expanded.Keys == tags.Keys - todo
        invariant forall k :: k in expanded ==> expanded[k] == ProcessValue(tags[k], variables)
      {
        var k :| k in todo;
        expanded := expanded[k := ProcessValue(tags[k], variables)];
        todo := todo - {k};
      }
      assert expanded == map k | k in tags :: ProcessValue(tags[k], variables);
      out := out.(requiredImage := ProcessValue(out.requiredImage, variables),
                  plannedImage := ProcessValue(out.plannedImage, variables),
                  tags := Some(expanded));
    }
    keep := true;
  }

  // ---------------------------------------------------------------- The load cycle

  /** Some generator could not deliver its machines or its variables. */
  predicate Fails(gens: seq<Generator>) {
    exists i :: 0 <= i < |gens| && (gens[i].machines.None? || gens[i].variables.Unavailable?)
  }

  /** The variables of the last generator that offers any. */
  function LastVariables(gens: seq<Generator>): map<string, string> {
    if gens == [] then map[]
    else if gens[|gens| - 1].variables.Offered? then gens[|gens| - 1].variables.values
    else LastVariables(gens[..|gens| - 1])
  }

  /** What a load cycle must deliver for name k. */
  function Expected(gens: seq<Generator>, f: HostFilter, pauses: Pauses, now: int, k: string): Option<Machine> {
    match MergedFor(Supply(gens, f), k)
    case None => None
    case Some(m) => Processed(m, pauses, now, LastVariables(gens))
  }

  lemma MergeNamedOneMore(t: Table, l: seq<Machine>, i: nat, driverName: string)
    requires i < |l|
    ensures var m := Named(l[i], driverName);
      Merge(t, NamedAll(l[..i + 1], driverName)) ==
      if m.hostname == "" then Merge(t, NamedAll(l[..i], driverName))
      else MergeOne(Merge(t, NamedAll(l[..i], driverName)), m)
  {
    assert l[..i + 1][..i] == l[..i];
    var before, m := NamedAll(l[..i], driverName), Named(l[i], driverName);
    assert (before + [m])[..|before|] == before;
    assert before + [] == before;
  }

  method MergeGenerator(t: Table, l: seq<Machine>, driverName: string) returns (t': Table)
    ensures t' == Merge(t, NamedAll(l, driverName))
  {
    t' := t;
    for i := 0 to |l|
      invariant t' == Merge(t, NamedAll(l[..i], driverName))
    {
      var m := l[i];
      MergeNamedOneMore(t, l, i, driverName);
      if m.hostname == "" {
        m := m.(hostname := m.ipAddress);
      }
      if m.hostname != "" {
        m := m.(dataSourceType := driverName);
        if m.hostname in t' {
          t' := t'[m.hostname := UpdateFrom(t'[m.hostname], m)];
        } else {
          t' := t'[m.hostname := m];
        }
      }
    }
    assert l[..|l|] == l;
  }

  lemma SupplyOneMore(gens: seq<Generator>, f: HostFilter, i: nat)
    requires i < |gens| && gens[i].machines.Some?
    ensures Merge(map[], Supply(gens[..i + 1], f)) ==
      Merge(Merge(map[], Supply(gens[..i], f)), NamedAll(Selected(f, gens[i].machines.value), gens[i].driverName))
  {
    var supplied := NamedAll(Selected(f, gens[i].machines.value), gens[i].driverName);
    assert gens[..i + 1][..i] == gens[..i];
    assert Supply(gens[..i + 1], f) == Supply(gens[..i], f) + supplied;
    MergeAppends(map[], Supply(gens[..i], f), supplied);
  }

  lemma VariablesOneMore(gens: seq<Generator>, i: nat)
    requires i < |gens|
    ensures LastVariables(gens[..i + 1]) ==
      if gens[i].variables.Offered? then gens[i].variables.values else LastVariables(gens[..i])
  {
    assert gens[..i + 1][..i] == gens[..i];
  }

  /** The first i generators are merged, and none of them failed. */
  ghost predicate MergedUpTo(
    gens: seq<Generator>, f: HostFilter, i: nat, t: Table, variables: map<string, string>)
    requires i <= |gens|
  {
    && t == Merge(map[], Supply(gens[..i], f)) && variables == LastVariables(gens[..i])
    && forall j :: 0 <= j < i ==> gens[j].machines.Some? && !gens[j].variables.Unavailable?
  }

  lemma MergeNext(gens: seq<Generator>, f: HostFilter, i: nat, t: Table, variables: map<string, string>)
    requires i < |gens| && MergedUpTo(gens, f, i, t, variables)
    requires gens[i].machines.Some? && !gens[i].variables.Unavailable?
    ensures MergedUpTo(gens, f, i + 1, Merge(t, NamedAll(Selected(f, gens[i].machines.value), gens[i].driverName)),
      if gens[i].variables.Offered? then gens[i].variables.values else variables)
  {
    SupplyOneMore(gens, f, i);
    VariablesOneMore(gens, i);
  }

  method MergeGenerators(gens: seq<Generator>, f: HostFilter) returns (ok: bool, t: Table, variables: map<string, string>)
    ensures ok == !Fails(gens)
    ensures ok ==> t == Merge(map[], Supply(gens, f)) && variables == LastVariables(gens)
  {
    t, variables := map[], map[];
    for i := 0 to |gens|
      invariant MergedUpTo(gens, f, i, t, variables)
    {
      var g := gens[i];
      if g.machines.None? {
        return false, t, variables;
      }
      var selected := SelectHosts(f, g.machines.value);
      ghost var t0, variables0 := t, variables;
      t := MergeGenerator(t, selected, g.driverName);
      match g.variables {
        case NotOffered =>
        case Unavailable => return false, t, variables;
        case Offered(values) => variables := values;
      }
      MergeNext(gens, f, i, t0, variables0);
    }
    assert gens[..|gens|] == gens;
    ok := true;
  }

  /** The part of a table that survives the pause table, listed in any order. */
  ghost predicate PartlyProcessed(t: Table, todo: set<string>, pauses: Pauses, now: int, variables: map<string, string>, mdb: Mdb) {
    && WellFormed(mdb)
    && forall k :: At(mdb.table, k) ==
         if k in t && k !in todo then Processed(t[k], pauses, now, variables) else None
  }

  lemma AddMachine(mdb: Mdb, m: Machine)
    requires WellFormed(mdb) && m.hostname != "" && m.hostname !in mdb.table
    ensures WellFormed(Mdb(mdb.machines + [m], mdb.table[m.hostname := m]))
  {
    TableOfExtend(mdb.machines, m);
    TableOfAt(mdb.machines);
  }

  method ProcessAll(t: Table, pauses: Pauses, now: int, variables: map<string, string>) returns (mdb: Mdb)
    requires forall k :: k in t ==> k != "" && t[k].hostname == k
    ensures PartlyProcessed(t, {}, pauses, now, variables, mdb)
  {
    mdb := Mdb([], map[]);
    var todo := t.Keys;
    while todo != {}
      invariant todo <= t.Keys && PartlyProcessed(t, todo, pauses, now, variables, mdb)
    {
      var k :| k in todo;
      var keep, m := ProcessMachine(t[k], pauses, now, variables);
      assert At(mdb.table, k) == None;
      if keep {
        assert m.hostname == k;
        AddMachine(mdb, m);
        mdb := Mdb(mdb.machines + [m], mdb.table[k := m]);
      }
      todo := todo - {k};
    }
  }

  /** Element i of the supply is of name k and says whether updates are disabled: the last one with a required image, else the first. */
  ghost predicate Decides(l: seq<Machine>, k: string, i: int) {
    && 0 <= i < |l| && l[i].hostname == k
    && if l[i].requiredImage != ""
       then forall j :: i < j < |l| && l[j].hostname == k ==> l[j].requiredImage == ""
       else forall j :: 0 <= j < |l| && l[j].hostname == k ==> l[j].requiredImage == "" && i <= j
  }

  lemma DeciderIsUnique(l: seq<Machine>, k: string, i: int, j: int)
    requires Decides(l, k, i) && Decides(l, k, j)
    ensures i == j
  {
  }

  lemma {:induction false} MergedDisables(l: seq<Machine>, k: string) returns (i: int)
    requires MergedFor(l, k).Some?
    ensures Decides(l, k, i) && MergedFor(l, k).value.disableUpdates == l[i].disableUpdates
  {
    var n := |l| - 1;
    var before := l[..n];
    MergedKeepsName(before, k);
    assert forall j :: 0 <= j < n ==> before[j] == l[j];
    if l[n].hostname != k {
      i := MergedDisables(before, k);
    } else if MergedFor(before, k).None? {
      i := n;
      assert forall j :: 0 <= j < n ==> before[j].hostname != k;
    } else {
      var d := MergedDisables(before, k);
      i := if l[n].requiredImage != "" then n else d;
    }
  }

  /**
   A name is in the table exactly if it was supplied and the pause table does not remove it:
   it has no entry there to that end, or the machine that decides has its updates disabled.
   */
  lemma LoadedIff(gens: seq<Generator>, f: HostFilter, pauses: Pauses, now: int, k: string)
    ensures Expected(gens, f, pauses, now, k).Some? <==>
      exists i :: Decides(Supply(gens, f), k, i) &&
        !(k in pauses && pauses[k].remove && !Supply(gens, f)[i].disableUpdates)
  {
    var l := Supply(gens, f);
    MergedKeepsName(l, k);
    if MergedFor(l, k).Some? {
      var i := MergedDisables(l, k);
      forall j | Decides(l, k, j)
        ensures j == i
      {
        DeciderIsUnique(l, k, i, j);
      }
    }
  }

  /** It happens: a machine paused with removal stays, because its updates were disabled before. */
  lemma PauseWithRemovalCanFail()
    ensures var m := Tagged("h", map[]).(disableUpdates := true);
      Processed(m, map["h" := PauseData("", true, 0, 100, "u")], 0, map[]) == Some(m)
  {
  }

  /** Some machine of the list has name k. */
  ghost predicate HasName(l: seq<Machine>, k: string) {
    exists i :: 0 <= i < |l| && l[i].hostname == k
  }

  lemma HasNameIn(a: seq<Machine>, b: seq<Machine>, k: string)
    ensures HasName(a + b, k) <==> HasName(a, k) || HasName(b, k)
  {
    if i :| 0 <= i < |a| && a[i].hostname == k {
      assert (a + b)[i].hostname == k;
    }
    if i :| 0 <= i < |b| && b[i].hostname == k {
      assert (a + b)[|a| + i].hostname == k;
    }
  }

  /** Some machine of the list goes by name k. */
  ghost predicate GoesBy(l: seq<Machine>, driverName: string, k: string) {
    exists m :: m in l && Named(m, driverName).hostname == k
  }

  lemma {:induction false} NamedIff(l: seq<Machine>, driverName: string, k: string)
    ensures HasName(NamedAll(l, driverName), k) <==> k != "" && GoesBy(l, driverName, k)
  {
    if l != [] {
      var n := |l| - 1;
      var before, m := NamedAll(l[..n], driverName), Named(l[n], driverName);
      NamedIff(l[..n], driverName, k);
      assert l == l[..n] + [l[n]];
      assert GoesBy(l, driverName, k) <==> GoesBy(l[..n], driverName, k) || m.hostname == k;
      HasNameIn(before, [m], k);
      assert HasName([m], k) <==> m.hostname == k by {
        assert [m][0] == m;
      }
      assert NamedAll(l, driverName) == if m.hostname == "" then before else before + [m];
    }
  }

  lemma {:induction false} SelectedIff(f: HostFilter, l: seq<Machine>, m: Machine)
    ensures m in Selected(f, l) <==> m in l && Selects(f, m.hostname)
  {
    if l != [] {
      var n := |l| - 1;
      SelectedIff(f, l[..n], m);
      assert l == l[..n] + [l[n]];
    }
  }

  /** The generator delivers a machine that passes the filter and goes by name k. */
  ghost predicate Supplies(g: Generator, f: HostFilter, k: string) {
    && g.machines.Some?
    && exists m :: m in g.machines.value && Selects(f, m.hostname) && Named(m, g.driverName).hostname == k
  }

  lemma OneSuppliesIff(g: Generator, f: HostFilter, k: string)
    requires g.machines.Some?
    ensures HasName(NamedAll(Selected(f, g.machines.value), g.driverName), k) <==> k != "" && Supplies(g, f, k)
  {
    var chosen := Selected(f, g.machines.value);
    NamedIff(chosen, g.driverName, k);
    forall m
      ensures m in chosen <==> m in g.machines.value && Selects(f, m.hostname)
    {
      SelectedIff(f, g.machines.value, m);
    }
  }

  /** A name is supplied exactly if some generator delivers a machine that passes the filter and goes by it. */
  lemma {:induction false} SuppliedIff(gens: seq<Generator>, f: HostFilter, k: string)
    ensures HasName(Supply(gens, f), k) <==> k != "" && exists g :: g in gens && Supplies(g, f, k)
  {
    if gens != [] {
      var n := |gens| - 1;
      var before, g := Supply(gens[..n], f), gens[n];
      SuppliedIff(gens[..n], f, k);
      assert gens == gens[..n] + [g];
      if g.machines.Some? {
        OneSuppliesIff(g, f, k);
        HasNameIn(before, NamedAll(Selected(f, g.machines.value), g.driverName), k);
      } else {
        assert Supply(gens, f) == before;
      }
    }
  }

  /** Some generator delivered a machine without hostname whose address is k. */
  ghost predicate Nameless(gens: seq<Generator>, k: string) {
    exists g, m :: g in gens && g.machines.Some? && m in g.machines.value && m.hostname == "" && m.ipAddress == k
  }

  /**
   Filters look at the hostname, before an address may stand in for it: a name the filter
   turns down is supplied nevertheless exactly if it is the address of a machine without
   hostname and the filter lets the blank name pass.
   */
  lemma FilteredNamesReturnIff(gens: seq<Generator>, f: HostFilter, k: string)
    requires !Selects(f, k)
    ensures HasName(Supply(gens, f), k) <==> k != "" && Selects(f, "") && Nameless(gens, k)
  {
    SuppliedIff(gens, f, k);
    forall g | g in gens && Supplies(g, f, k)
      ensures Selects(f, "") && Nameless(gens, k)
    {
      var m :| m in g.machines.value && Selects(f, m.hostname) && Named(m, g.driverName).hostname == k;
      assert m.hostname == "" && m.ipAddress == k;
    }
    if Selects(f, "") && Nameless(gens, k) {
      var g, m :| g in gens && g.machines.Some? && m in g.machines.value && m.hostname == "" && m.ipAddress == k;
      assert Named(m, g.driverName).hostname == k;
      assert Supplies(g, f, k);
    }
  }

  /** It happens: an excluded name comes back through the address. */
  lemma ExcludedNameCanReturn()
    ensures var m := Tagged("", map[]).(ipAddress := "a");
      var f := HostFilter(None, {"a"}, {});
      Supply([Generator("d", Some([m]), NotOffered)], f) == [m.(hostname := "a", dataSourceType := "d")]
      && !Selects(f, "a")
  {
    var m := Tagged("", map[]).(ipAddress := "a");
    var f := HostFilter(None, {"a"}, {});
    var g := Generator("d", Some([m]), NotOffered);
    assert [m][..0] == [] && [g][..0] == [];
    assert Selected(f, [m]) == [m];
    assert NamedAll([m], "d") == [Named(m, "d")];
  }

  // ---------------------------------------------------------------- The daemon

  /** The counter finds something added, deleted or changed. */
  predicate Counted(prev: Table, next: Table) {
    Added(prev, next) != {} || Deleted(prev, next) != {} || ChangedForCounter(prev, next) != {}
  }

  method Differs(prev: Option<Mdb>, next: Mdb) returns (different: bool)
    requires WellFormed(next) && (prev.Some? ==> WellFormed(prev.value))
    ensures different == Counted(TableIn(prev), next.table)
  {
    var stats := NewMdbIsDifferent(prev, next);
    different := !(stats.added < 1 && stats.changed < 1 && stats.deleted < 1);
  }

  /**
   A visible change goes unpublished exactly when the tables have the same names, every old
   machine compares equal to its successor, and one of them only because of a blank tag.
   */
  lemma UnpublishedChangeIff(prev: Table, next: Table)
    ensures WireTable(prev) != WireTable(next) && !Counted(prev, next) <==>
      AllCompareEqual(prev, next) && exists k :: k in prev && k in next && Confuses(prev[k], next[k])
  {
    CountedExactly(prev, next);
    if AllCompareEqual(prev, next) {
      ConfusedExactly(prev, next);
    }
  }

  ghost predicate AllCompareEqual(prev: Table, next: Table) {
    prev.Keys == next.Keys && forall k :: k in prev && k in next ==> Compare(prev[k], next[k])
  }

  lemma ConfusedAt(prev: Table, next: Table, k: string)
    requires AllCompareEqual(prev, next) && k in prev
    ensures Wire(prev[k]) == Wire(next[k]) <==> !Confuses(prev[k], next[k])
  {
    CompareExactly(prev[k], next[k]);
  }

  lemma ConfusedExactly(prev: Table, next: Table)
    requires AllCompareEqual(prev, next)
    ensures WireTable(prev) != WireTable(next) <==> exists k :: k in prev && k in next && Confuses(prev[k], next[k])
  {
    forall k | k in prev
      ensures Wire(prev[k]) == Wire(next[k]) <==> !Confuses(prev[k], next[k])
    {
      ConfusedAt(prev, next, k);
    }
    SameWireTables(prev, next);
  }

  lemma SameWireTables(prev: Table, next: Table)
    requires prev.Keys == next.Keys
    ensures WireTable(prev) == WireTable(next) <==> forall k :: k in prev ==> Wire(prev[k]) == Wire(next[k])
  {
    assert forall k :: k in prev ==> WireTable(prev)[k] == Wire(prev[k]) && WireTable(next)[k] == Wire(next[k]);
  }

  lemma CountedExactly(prev: Table, next: Table)
    ensures !Counted(prev, next) <==> AllCompareEqual(prev, next)
  {
    if !Counted(prev, next) {
      forall k
        ensures k in prev <==> k in next
        ensures k in prev && k in next ==> Compare(prev[k], next[k])
      {
        assert k !in Added(prev, next) && k !in Deleted(prev, next) && k !in ChangedForCounter(prev, next);
      }
    }
  }

  lemma NeverCountedAgainstItself(t: Table)
    ensures !Counted(t, t)
  {
    forall k | k in t
      ensures Compare(t[k], t[k])
    {
      CompareExactly(t[k], t[k]);
    }
    CountedExactly(t, t);
  }
}
