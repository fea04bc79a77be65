/**
 What a load cycle of the MDB daemon delivers, machine by machine and field by field, said of
 what the generators delivered, the filter, the pause table and the variables.
 */
module MdbLoaded {
  import opened Basics
  import opened Machines
  import opened MdbDelta
  import opened MdbMeaning
  import opened PauseTables
  import opened MdbLoad

  // ---------------------------------------------------------------- What is supplied, and in which order

  /** Machine n of the list passes the filter and has a hostname or an address. */
  ghost predicate Qualifies(f: HostFilter, l: seq<Machine>, n: int) {
    && 0 <= n < |l|
    && l[n].hostname !in f.exclude
    && (f.only == {} || l[n].hostname == "" || l[n].hostname in f.only)
    && (f.hostnameRE.Some? ==> f.hostnameRE.value(l[n].hostname))
    && (l[n].hostname != "" || l[n].ipAddress != "")
  }

  /** The machine with its address for a missing hostname, marked with the generator's driver. */
  ghost predicate IsMarked(m: Machine, driverName: string, m': Machine) {
    m' == m.(hostname := if m.hostname == "" then m.ipAddress else m.hostname, dataSourceType := driverName)
  }

  ghost predicate Ascending(at: seq<nat>) {
    forall i, j :: 0 <= i < j < |at| ==> at[i] < at[j]
  }

  /** out are machines of l that qualify, each marked; `at` says where they come from. */
  ghost predicate ComeFrom(f: HostFilter, l: seq<Machine>, driverName: string, out: seq<Machine>, at: seq<nat>) {
    |at| == |out| &&
    forall i :: 0 <= i < |at| ==> Qualifies(f, l, at[i]) && IsMarked(l[at[i]], driverName, out[i])
  }

  ghost predicate CoversAll(f: HostFilter, l: seq<Machine>, at: seq<nat>) {
    forall n: nat :: Qualifies(f, l, n) ==> n in at
  }

  /** out are the machines of l that qualify, all of them and in order. */
  ghost predicate IsChosen(f: HostFilter, l: seq<Machine>, driverName: string, out: seq<Machine>, at: seq<nat>) {
    ComeFrom(f, l, driverName, out, at) && Ascending(at) && CoversAll(f, l, at)
  }

  lemma {:induction false} ChosenInOrder(f: HostFilter, l: seq<Machine>, driverName: string) returns (at: seq<nat>)
    ensures IsChosen(f, l, driverName, NamedAll(Selected(f, l), driverName), at)
  {
    if l == [] {
      at := [];
    } else {
      var n := |l| - 1;
      var before := ChosenInOrder(f, l[..n], driverName);
      at := ChosenOneMore(f, l, driverName, n, NamedAll(Selected(f, l[..n]), driverName), before);
      NamedOneMore(f, l, driverName, n);
    }
  }

  lemma QualifiesInFront(f: HostFilter, l: seq<Machine>, n: nat)
    requires |l| == n + 1
    ensures forall j :: Qualifies(f, l[..n], j) <==> Qualifies(f, l, j) && j != n
    ensures forall j :: Qualifies(f, l[..n], j) ==> l[..n][j] == l[j]
  {
    assert forall j :: 0 <= j < n ==> l[..n][j] == l[j];
  }

  lemma ChosenOneMore(f: HostFilter, l: seq<Machine>, driverName: string, n: nat, out: seq<Machine>, before: seq<nat>)
    returns (at: seq<nat>)
    requires |l| == n + 1 && IsChosen(f, l[..n], driverName, out, before)
    ensures IsChosen(f, l, driverName, out + (if Qualifies(f, l, n) then [Named(l[n], driverName)] else []), at)
  {
    QualifiesInFront(f, l, n);
    assert forall i :: 0 <= i < |before| ==> Qualifies(f, l[..n], before[i]);
    if !Qualifies(f, l, n) {
      at := before;
      assert out + [] == out;
    } else {
      at := before + [n];
      assert Ascending(at);
      assert at[|before|] == n;
      assert forall j :: j in before ==> j in at;
    }
  }

  lemma NamedOneMore(f: HostFilter, l: seq<Machine>, driverName: string, n: nat)
    requires |l| == n + 1
    ensures NamedAll(Selected(f, l), driverName) ==
      NamedAll(Selected(f, l[..n]), driverName) + (if Qualifies(f, l, n) then [Named(l[n], driverName)] else [])
  {
    var before, m := Selected(f, l[..n]), l[n];
    if Selects(f, m.hostname) {
      var all := before + [m];
      assert Selected(f, l) == all;
      assert all[..|all| - 1] == before && all[|all| - 1] == m;
    } else {
      assert Selected(f, l) == before;
    }
  }

  /** Generator j delivers a machine n that qualifies. */
  ghost predicate Delivers(gens: seq<Generator>, f: HostFilter, j: int, n: int) {
    0 <= j < |gens| && gens[j].machines.Some? && Qualifies(f, gens[j].machines.value, n)
  }

  ghost predicate FromDelivered(gens: seq<Generator>, f: HostFilter, l: seq<Machine>, from: seq<(nat, nat)>) {
    |from| == |l| &&
    forall i :: 0 <= i < |from| ==>
      && Delivers(gens, f, from[i].0, from[i].1)
      && IsMarked(gens[from[i].0].machines.value[from[i].1], gens[from[i].0].driverName, l[i])
  }

  ghost predicate Ordered(from: seq<(nat, nat)>) {
    forall i, j :: 0 <= i < j < |from| ==>
      from[i].0 < from[j].0 || (from[i].0 == from[j].0 && from[i].1 < from[j].1)
  }

  ghost predicate AllDelivered(gens: seq<Generator>, f: HostFilter, from: seq<(nat, nat)>) {
    forall j: nat, n: nat :: Delivers(gens, f, j, n) ==> (j, n) in from
  }

  /** l are the machines the generators deliver that qualify, each marked, all of them and in order. */
  ghost predicate IsSupply(gens: seq<Generator>, f: HostFilter, l: seq<Machine>, from: seq<(nat, nat)>) {
    FromDelivered(gens, f, l, from) && Ordered(from) && AllDelivered(gens, f, from)
  }

  lemma {:induction false} SupplyInOrder(gens: seq<Generator>, f: HostFilter) returns (from: seq<(nat, nat)>)
    ensures IsSupply(gens, f, Supply(gens, f), from)
  {
    if gens == [] {
      from := [];
    } else {
      var n, g := |gens| - 1, gens[|gens| - 1];
      var before := SupplyInOrder(gens[..n], f);
      var at, chosen := [], [];
      if g.machines.Some? {
        at := ChosenInOrder(f, g.machines.value, g.driverName);
        chosen := NamedAll(Selected(f, g.machines.value), g.driverName);
      }
      from := before + FromGenerator(n, at);
      SupplyComesFrom(gens, f, n, Supply(gens[..n], f), before, chosen, at);
      SupplyIsOrdered(n, before, at);
      SupplyIsComplete(gens, f, n, before, at);
    }
  }

  function FromGenerator(n: nat, at: seq<nat>): (from: seq<(nat, nat)>)
    ensures |from| == |at| && forall i :: 0 <= i < |at| ==> from[i] == (n, at[i])
  {
    seq(|at|, i requires 0 <= i < |at| => (n, at[i]))
  }

  lemma SupplyComesFrom(
    gens: seq<Generator>, f: HostFilter, n: nat,
    l: seq<Machine>, before: seq<(nat, nat)>, chosen: seq<Machine>, at: seq<nat>)
    requires |gens| == n + 1 && FromDelivered(gens[..n], f, l, before)
    requires if gens[n].machines.Some? then ComeFrom(f, gens[n].machines.value, gens[n].driverName, chosen, at)
             else chosen == [] && at == []
    ensures FromDelivered(gens, f, l + chosen, before + FromGenerator(n, at))
    ensures forall i :: 0 <= i < |before| ==> before[i].0 < n
  {
    var from := before + FromGenerator(n, at);
    forall i | 0 <= i < |before|
      ensures before[i].0 < n && Delivers(gens, f, before[i].0, before[i].1)
    {
      assert Delivers(gens[..n], f, before[i].0, before[i].1);
    }
    forall i | |before| <= i < |from|
      ensures from[i] == (n, at[i - |before|]) && Delivers(gens, f, n, at[i - |before|])
    {
    }
  }

  lemma SupplyIsOrdered(n: nat, before: seq<(nat, nat)>, at: seq<nat>)
    requires Ordered(before) && Ascending(at) && forall i :: 0 <= i < |before| ==> before[i].0 < n
    ensures Ordered(before + FromGenerator(n, at))
  {
    var from := before + FromGenerator(n, at);
    forall i, j | 0 <= i < j < |from|
      ensures from[i].0 < from[j].0 || (from[i].0 == from[j].0 && from[i].1 < from[j].1)
    {
      if |before| <= i {
        assert from[i] == (n, at[i - |before|]) && from[j] == (n, at[j - |before|]);
      }
    }
  }

  lemma SupplyIsComplete(gens: seq<Generator>, f: HostFilter, n: nat, before: seq<(nat, nat)>, at: seq<nat>)
    requires |gens| == n + 1 && AllDelivered(gens[..n], f, before)
    requires gens[n].machines.Some? ==> CoversAll(f, gens[n].machines.value, at)
    ensures AllDelivered(gens, f, before + FromGenerator(n, at))
  {
    forall j: nat, k: nat | Delivers(gens, f, j, k)
      ensures (j, k) in before + FromGenerator(n, at)
    {
      if j < n {
        assert Delivers(gens[..n], f, j, k);
        assert (j, k) in before;
      } else {
        var i :| 0 <= i < |at| && at[i] == k;
        assert FromGenerator(n, at)[i] == (j, k);
      }
    }
  }

  // ---------------------------------------------------------------- Merging, field by field

  /** Element i of the supply is of name k. */
  predicate OfName(l: seq<Machine>, k: string, i: int) {
    0 <= i < |l| && l[i].hostname == k
  }

  /** The last value that is not blank among those supplied for name k, or else blank. */
  ghost predicate LastText(l: seq<Machine>, k: string, get: Machine -> string, v: string) {
    if v == "" then forall j :: OfName(l, k, j) ==> get(l[j]) == ""
    else exists i :: OfName(l, k, i) && get(l[i]) == v && forall j :: i < j && OfName(l, k, j) ==> get(l[j]) == ""
  }

  /** The last value that is there among those supplied for name k, if any is. */
  ghost predicate LastGiven<T(!new)>(l: seq<Machine>, k: string, get: Machine -> Option<T>, v: Option<T>) {
    if v.None? then forall j :: OfName(l, k, j) ==> get(l[j]).None?
    else exists i :: OfName(l, k, i) && get(l[i]) == v && forall j :: i < j && OfName(l, k, j) ==> get(l[j]).None?
  }

  /** The value all suppliers of name k share, or else blank. */
  ghost predicate SharedText(l: seq<Machine>, k: string, get: Machine -> string, v: string) {
    if v != "" then forall j :: OfName(l, k, j) ==> get(l[j]) == v
    else (forall j :: OfName(l, k, j) ==> get(l[j]) == "") ||
         (exists i, j :: OfName(l, k, i) && OfName(l, k, j) && get(l[i]) != get(l[j]))
  }

  lemma OfNameOneMore(l: seq<Machine>, k: string, n: nat)
    requires |l| == n + 1
    ensures forall j :: OfName(l[..n], k, j) <==> OfName(l, k, j) && j != n
    ensures forall j :: OfName(l[..n], k, j) ==> l[..n][j] == l[j]
    ensures MergedFor(l[..n], k).None? ==> forall j :: OfName(l, k, j) ==> j == n
  {
    MergedKeepsName(l[..n], k);
    assert forall j :: 0 <= j < n ==> l[..n][j] == l[j];
  }

  lemma {:induction false} MergedText(l: seq<Machine>, k: string, get: Machine -> string)
    requires MergedFor(l, k).Some?
    requires forall d: Machine, s: Machine :: d.hostname == s.hostname ==>
      get(UpdateFrom(d, s)) == if get(s) != "" then get(s) else get(d)
    ensures LastText(l, k, get, get(MergedFor(l, k).value))
  {
    var n := |l| - 1;
    OfNameOneMore(l, k, n);
    MergedKeepsName(l[..n], k);
    if MergedFor(l[..n], k).None? {
      assert OfName(l, k, n);
    } else {
      MergedText(l[..n], k, get);
      var before := get(MergedFor(l[..n], k).value);
      if l[n].hostname == k && get(l[n]) != "" {
        assert OfName(l, k, n) && get(MergedFor(l, k).value) == get(l[n]);
      } else if before != "" {
        var i :| OfName(l[..n], k, i) && get(l[..n][i]) == before
          && forall j :: i < j && OfName(l[..n], k, j) ==> get(l[..n][j]) == "";
        assert OfName(l, k, i) && get(l[i]) == before;
      }
    }
  }

  lemma {:induction false} MergedGiven<T(!new)>(l: seq<Machine>, k: string, get: Machine -> Option<T>)
    requires MergedFor(l, k).Some?
    requires forall d: Machine, s: Machine :: d.hostname == s.hostname ==>
      get(UpdateFrom(d, s)) == if get(s).Some? then get(s) else get(d)
    ensures LastGiven(l, k, get, get(MergedFor(l, k).value))
  {
    var n := |l| - 1;
    OfNameOneMore(l, k, n);
    MergedKeepsName(l[..n], k);
    if MergedFor(l[..n], k).None? {
      assert OfName(l, k, n);
    } else {
      MergedGiven(l[..n], k, get);
      var before := get(MergedFor(l[..n], k).value);
      if l[n].hostname == k && get(l[n]).Some? {
        assert OfName(l, k, n) && get(MergedFor(l, k).value) == get(l[n]);
      } else if before.Some? {
        var i :| OfName(l[..n], k, i) && get(l[..n][i]) == before
          && forall j :: i < j && OfName(l[..n], k, j) ==> get(l[..n][j]).None?;
        assert OfName(l, k, i) && get(l[i]) == before;
      }
    }
  }

  lemma {:induction false} MergedShared(l: seq<Machine>, k: string, get: Machine -> string)
    requires MergedFor(l, k).Some?
    requires forall d: Machine, s: Machine :: d.hostname == s.hostname ==>
      get(UpdateFrom(d, s)) == if get(d) != get(s) then "" else get(d)
    ensures SharedText(l, k, get, get(MergedFor(l, k).value))
  {
    var n := |l| - 1;
    OfNameOneMore(l, k, n);
    MergedKeepsName(l[..n], k);
    if MergedFor(l[..n], k).None? {
      assert OfName(l, k, n);
    } else {
      MergedShared(l[..n], k, get);
      var before := get(MergedFor(l[..n], k).value);
      if l[n].hostname == k && get(l[n]) != before {
        var i :| 0 <= i < n && l[..n][i].hostname == k;
        assert OfName(l[..n], k, i) && OfName(l, k, i) && OfName(l, k, n);
        if before == "" {
          SharedBlank(l, k, get, n);
        }
      } else if before == "" {
        SharedBlank(l, k, get, n);
      }
    }
  }

  lemma SharedBlank(l: seq<Machine>, k: string, get: Machine -> string, n: nat)
    requires |l| == n + 1 && SharedText(l[..n], k, get, "")
    requires exists i :: OfName(l[..n], k, i)
    ensures SharedText(l, k, get, "")
  {
    OfNameOneMore(l, k, n);
    var i0 :| OfName(l[..n], k, i0);
    if i, j :| OfName(l[..n], k, i) && OfName(l[..n], k, j) && get(l[..n][i]) != get(l[..n][j]) {
      assert OfName(l, k, i) && OfName(l, k, j) && get(l[i]) != get(l[j]);
    } else if OfName(l, k, n) && get(l[n]) != "" {
      assert OfName(l, k, i0) && get(l[i0]) != get(l[n]);
    }
  }

  /** There is metadata if any was supplied for name k, and it compares equal to the last supplied. */
  ghost predicate AwsOfLast(l: seq<Machine>, k: string, aws: Option<AwsMetadata>) {
    if aws.None? then forall j :: OfName(l, k, j) ==> l[j].awsMetadata.None?
    else exists i :: OfName(l, k, i) && l[i].awsMetadata.Some? && CompareAws(aws.value, l[i].awsMetadata.value) &&
                     forall j :: i < j && OfName(l, k, j) ==> l[j].awsMetadata.None?
  }

  lemma {:induction false} MergedAws(l: seq<Machine>, k: string)
    requires MergedFor(l, k).Some?
    ensures AwsOfLast(l, k, MergedFor(l, k).value.awsMetadata)
  {
    var n := |l| - 1;
    OfNameOneMore(l, k, n);
    MergedKeepsName(l[..n], k);
    if MergedFor(l[..n], k).None? {
      assert OfName(l, k, n);
    } else {
      MergedAws(l[..n], k);
      var before := MergedFor(l[..n], k).value.awsMetadata;
      if l[n].hostname == k && l[n].awsMetadata.Some? {
        assert OfName(l, k, n);
      } else if before.Some? {
        var i :| OfName(l[..n], k, i) && l[..n][i].awsMetadata.Some?
          && CompareAws(before.value, l[..n][i].awsMetadata.value)
          && forall j :: i < j && OfName(l[..n], k, j) ==> l[..n][j].awsMetadata.None?;
        assert OfName(l, k, i);
      }
    }
  }

  // ---------------------------------------------------------------- Variables

  /** The text is a dollar sign and the name of a variable. */
  ghost predicate IsReference(value: string, variables: map<string, string>, name: string) {
    name != "" && value == ['$'] + name && name in variables
  }

  /** v is what value stands for: the variable it refers to, or else itself. */
  ghost predicate StandsFor(value: string, variables: map<string, string>, v: string) {
    if exists name :: IsReference(value, variables, name)
    then exists name :: IsReference(value, variables, name) && v == variables[name]
    else v == value
  }

  lemma ValueStandsFor(value: string, variables: map<string, string>)
    ensures StandsFor(value, variables, ProcessValue(value, variables))
  {
    if |value| >= 2 && value[0] == '$' && value[1..] in variables {
      assert IsReference(value, variables, value[1..]);
    }
    forall name | IsReference(value, variables, name)
      ensures |value| >= 2 && value[0] == '$' && value[1..] == name
    {
      assert value[1..] == name;
    }
  }

  /** The variables of the last generator that offers any; none if none does. */
  ghost predicate IsInForce(gens: seq<Generator>, variables: map<string, string>) {
    || (variables == map[] && forall i :: 0 <= i < |gens| ==> !gens[i].variables.Offered?)
    || (exists i :: 0 <= i < |gens| && gens[i].variables == Offered(variables)
          && forall j :: i < j < |gens| ==> !gens[j].variables.Offered?)
  }

  lemma {:induction false} LastVariablesAreInForce(gens: seq<Generator>)
    ensures IsInForce(gens, LastVariables(gens))
  {
    if gens != [] {
      var n := |gens| - 1;
      var front := gens[..n];
      LastVariablesAreInForce(front);
      assert forall j :: 0 <= j < n ==> front[j] == gens[j];
      if gens[n].variables.Offered? {
        assert gens[n].variables == Offered(LastVariables(gens));
      }
    }
  }

  // ---------------------------------------------------------------- The loaded machine

  ghost predicate TagsStandFor(tags: Tags, variables: map<string, string>, out: Tags) {
    out.Keys == tags.Keys && forall t :: t in tags ==> StandsFor(tags[t], variables, out[t])
  }

  /** What load processing leaves alone is the last that was supplied, or what all suppliers share. */
  ghost predicate IsMerged(l: seq<Machine>, k: string, m: Machine) {
    && LastText(l, k, (x: Machine) => x.ipAddress, m.ipAddress)
    && LastText(l, k, (x: Machine) => x.location, m.location)
    && LastText(l, k, (x: Machine) => x.ownerGroup, m.ownerGroup)
    && LastGiven(l, k, (x: Machine) => x.ownerGroups, m.ownerGroups)
    && LastGiven(l, k, (x: Machine) => x.ownerUsers, m.ownerUsers)
    && AwsOfLast(l, k, m.awsMetadata)
    && SharedText(l, k, (x: Machine) => x.dataSourceType, m.dataSourceType)
    && SharedText(l, k, (x: Machine) => x.dataSourceIdentifier, m.dataSourceIdentifier)
  }

  /** Images and tags are the last that were supplied, with the variables put in. */
  ghost predicate IsExpanded(l: seq<Machine>, k: string, variables: map<string, string>, m: Machine) {
    && (exists v :: LastText(l, k, (x: Machine) => x.requiredImage, v) && StandsFor(v, variables, m.requiredImage))
    && (exists v :: LastText(l, k, (x: Machine) => x.plannedImage, v) && StandsFor(v, variables, m.plannedImage))
    && (exists v :: LastGiven(l, k, (x: Machine) => x.tags, v) && TagsStandFor(TagsOf(v), variables, TagsOf(m.tags)))
  }

  /** Updates are disabled by the supplier that decides or by a pause that is not over. */
  ghost predicate IsDisabledRightly(l: seq<Machine>, k: string, pauses: Pauses, now: int, m: Machine) {
    forall i :: Decides(l, k, i) ==>
      (m.disableUpdates <==> l[i].disableUpdates || (k in pauses && pauses[k].until > now))
  }

  /** Machine m is what name k must be. */
  ghost predicate IsLoaded(
    l: seq<Machine>, pauses: Pauses, now: int, variables: map<string, string>, k: string, m: Machine)
  {
    && m.hostname == k
    && IsDisabledRightly(l, k, pauses, now, m)
    && IsExpanded(l, k, variables, m)
    && IsMerged(l, k, m)
  }

  lemma MergedFields(l: seq<Machine>, k: string)
    requires MergedFor(l, k).Some?
    ensures IsMerged(l, k, MergedFor(l, k).value)
  {
    MergedText(l, k, (x: Machine) => x.ipAddress);
    MergedText(l, k, (x: Machine) => x.location);
    MergedText(l, k, (x: Machine) => x.ownerGroup);
    MergedGiven(l, k, (x: Machine) => x.ownerGroups);
    MergedGiven(l, k, (x: Machine) => x.ownerUsers);
    MergedAws(l, k);
    MergedShared(l, k, (x: Machine) => x.dataSourceType);
    MergedShared(l, k, (x: Machine) => x.dataSourceIdentifier);
  }

  lemma ExpandedTags(tags: Option<Tags>, m: Machine, variables: map<string, string>)
    requires m.tags == tags
    ensures TagsStandFor(TagsOf(tags), variables, TagsOf(Expand(m, variables).tags))
  {
    forall t | t in TagsOf(tags)
      ensures t in TagsOf(Expand(m, variables).tags)
      ensures StandsFor(TagsOf(tags)[t], variables, TagsOf(Expand(m, variables).tags)[t])
    {
      ValueStandsFor(TagsOf(tags)[t], variables);
    }
    assert TagsOf(Expand(m, variables).tags).Keys == TagsOf(tags).Keys;
  }

  lemma ExpandedFields(l: seq<Machine>, k: string, variables: map<string, string>, m: Machine)
    requires MergedFor(l, k).Some? && m == MergedFor(l, k).value.(disableUpdates := m.disableUpdates)
    ensures IsExpanded(l, k, variables, Expand(m, variables))
  {
    MergedText(l, k, (x: Machine) => x.requiredImage);
    MergedText(l, k, (x: Machine) => x.plannedImage);
    MergedGiven(l, k, (x: Machine) => x.tags);
    ValueStandsFor(m.requiredImage, variables);
    ValueStandsFor(m.plannedImage, variables);
    ExpandedTags(m.tags, m, variables);
  }

  lemma DisabledRightly(l: seq<Machine>, pauses: Pauses, now: int, variables: map<string, string>, k: string)
    requires MergedFor(l, k).Some? && Processed(MergedFor(l, k).value, pauses, now, variables).Some?
    ensures IsDisabledRightly(l, k, pauses, now, Processed(MergedFor(l, k).value, pauses, now, variables).value)
  {
    MergedKeepsName(l, k);
    var i := MergedDisables(l, k);
    forall j | Decides(l, k, j)
      ensures j == i
    {
      DeciderIsUnique(l, k, i, j);
    }
  }

  lemma ExpectedIsLoaded(gens: seq<Generator>, f: HostFilter, pauses: Pauses, now: int, k: string)
    requires Expected(gens, f, pauses, now, k).Some?
    ensures IsLoaded(Supply(gens, f), pauses, now, LastVariables(gens), k, Expected(gens, f, pauses, now, k).value)
  {
    var l, variables := Supply(gens, f), LastVariables(gens);
    var merged, m := MergedFor(l, k).value, Expected(gens, f, pauses, now, k).value;
    MergedKeepsName(l, k);
    MergedFields(l, k);
    ExpandedFields(l, k, variables, merged.(disableUpdates := m.disableUpdates));
    DisabledRightly(l, pauses, now, variables, k);
  }

  lemma MergedByName(gens: seq<Generator>, f: HostFilter, t: Table)
    requires t == Merge(map[], Supply(gens, f))
    ensures forall k :: At(t, k) == MergedFor(Supply(gens, f), k)
    ensures forall k :: k in t ==> k != "" && t[k].hostname == k
  {
    forall k
      ensures At(t, k) == MergedFor(Supply(gens, f), k)
      ensures k in t ==> k != "" && t[k].hostname == k
    {
      MergeByName(Supply(gens, f), k);
      MergedKeepsName(Supply(gens, f), k);
      SupplyHasNames(gens, f);
    }
  }

  lemma ProcessedIsExpected(gens: seq<Generator>, f: HostFilter, pauses: Pauses, now: int, t: Table, mdb: Mdb)
    requires forall k :: At(t, k) == MergedFor(Supply(gens, f), k)
    requires PartlyProcessed(t, {}, pauses, now, LastVariables(gens), mdb)
    ensures forall k :: At(mdb.table, k) == Expected(gens, f, pauses, now, k)
  {
    forall k
      ensures At(mdb.table, k) == Expected(gens, f, pauses, now, k)
    {
      assert At(t, k) == MergedFor(Supply(gens, f), k);
    }
  }

  /** Name k is supplied, and the pause table does not take it out. */
  ghost predicate Stays(l: seq<Machine>, pauses: Pauses, k: string) {
    exists i :: Decides(l, k, i) && !(k in pauses && pauses[k].remove && !l[i].disableUpdates)
  }

  lemma ExpectedStays(gens: seq<Generator>, f: HostFilter, pauses: Pauses, now: int, t: Table)
    requires forall k :: At(t, k) == Expected(gens, f, pauses, now, k)
    ensures forall k :: k in t <==> Stays(Supply(gens, f), pauses, k)
    ensures forall k :: k in t ==> IsLoaded(Supply(gens, f), pauses, now, LastVariables(gens), k, t[k])
  {
    forall k
      ensures k in t <==> Stays(Supply(gens, f), pauses, k)
    {
      assert At(t, k) == Expected(gens, f, pauses, now, k);
      LoadedIff(gens, f, pauses, now, k);
    }
    forall k | k in t
      ensures IsLoaded(Supply(gens, f), pauses, now, LastVariables(gens), k, t[k])
    {
      assert At(t, k) == Expected(gens, f, pauses, now, k);
      ExpectedIsLoaded(gens, f, pauses, now, k);
    }
  }

  /**
   loadFromAll: fails exactly if a generator does; otherwise hostnames are unique and not
   empty, list and table agree, a name is there exactly if it was supplied and the pause table
   does not remove it, and its machine is what the suppliers, the pause table and the variables
   demand.
   */
  method LoadFromAll(gens: seq<Generator>, f: HostFilter, pauses: Pauses, now: int)
    returns (r: Option<Mdb>, ghost supply: seq<Machine>, ghost from: seq<(nat, nat)>, variables: map<string, string>)
    ensures r.None? <==> exists i :: 0 <= i < |gens| && (gens[i].machines.None? || gens[i].variables.Unavailable?)
    ensures r.Some? ==> IsSupply(gens, f, supply, from) && IsInForce(gens, variables)
    ensures r.Some? ==> WellFormed(r.value)
    ensures r.Some? ==> forall k :: At(r.value.table, k) == Expected(gens, f, pauses, now, k)
    ensures r.Some? ==> forall k :: k in r.value.table <==> Stays(supply, pauses, k)
    ensures r.Some? ==> forall k :: k in r.value.table ==>
      IsLoaded(supply, pauses, now, variables, k, r.value.table[k])
  {
    var ok, t;
    supply := Supply(gens, f);
    from := SupplyInOrder(gens, f);
    ok, t, variables := MergeGenerators(gens, f);
    if !ok {
      r := None;
      return;
    }
    LastVariablesAreInForce(gens);
    MergedByName(gens, f, t);
    var mdb := ProcessAll(t, pauses, now, variables);
    ProcessedIsExpected(gens, f, pauses, now, t, mdb);
    ExpectedStays(gens, f, pauses, now, mdb.table);
    r := Some(mdb);
  }
}
