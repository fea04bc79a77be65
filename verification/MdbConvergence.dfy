/**
 When subscribers converge, for any sequence of published tables: in every run all those that
 registered since a given table come to hold the last one, exactly if since then no name
 changed without being touched by an update and stayed untouched to the end.
 */
module MdbConvergence {
  import opened Basics
  import opened Machines
  import opened MdbDelta
  import opened MdbMeaning
  import opened MdbTracking
  import opened MdbReplication

  ghost predicate IsReachable(s: State) {
    exists states, labels :: Run(states, labels) && states[|labels|] == s
  }

  /** Nothing is under way for a subscriber that was not dropped. */
  ghost predicate IsQuiet(s: State, id: int) {
    s.publisher.Idle? && id in s.subs && s.subs[id].phase.Live? && s.subs[id].queue == []
  }

  lemma StepIsReachable(s: State, l: Label, s': State)
    requires IsReachable(s) && Step(s, l, s')
    ensures IsReachable(s')
  {
    var states, labels :| Run(states, labels) && states[|labels|] == s;
    var longer, more := states + [s'], labels + [l];
    forall i | 0 <= i < |more|
      ensures Step(longer[i], more[i], longer[i + 1])
    {
      if i < |labels| {
        assert longer[i] == states[i] && more[i] == labels[i] && longer[i + 1] == states[i + 1];
      }
    }
    assert Run(longer, more) && longer[|more|] == s';
  }

  lemma StartIsReachable()
    ensures IsReachable(START)
  {
    var labels: seq<Label> := [];
    assert Run([START], labels);
  }

  lemma ReachableKeepsQueue(s: State, id: int)
    requires IsReachable(s) && id in s.subs && !s.subs[id].phase.Gone?
    ensures |s.subs[id].queue| <= CAPACITY
  {
    var states, labels :| Run(states, labels) && states[|labels|] == s;
    RunsKeepInv(states, labels, |labels|);
    assert SubscriberOk(s.subs[id], s, Settled(s, id));
  }

  lemma ReachableKeepsLog(s: State)
    requires IsReachable(s)
    ensures LogOk(s)
  {
    var states, labels :| Run(states, labels) && states[|labels|] == s;
    RunsKeepInv(states, labels, |labels|);
  }

  lemma NamesOf(names: set<string>) returns (l: seq<string>)
    ensures forall i, j :: 0 <= i < j < |l| ==> l[i] != l[j]
    ensures forall k :: k in l <==> k in names
  {
    l := [];
    var todo := names;
    while todo != {}
      invariant todo <= names
      invariant forall i, j :: 0 <= i < j < |l| ==> l[i] != l[j]
      invariant forall k :: k in l <==> k in names - todo
    {
      var name :| name in todo;
      assert name !in l && forall i :: 0 <= i < |l| ==> l[i] in l;
      l := l + [name];
      todo := todo - {name};
    }
  }

  lemma UpdateExists(prev: Table, next: Mdb) returns (u: MdbUpdate)
    ensures IsUpdate(prev, next, u)
  {
    var toDelete := NamesOf(Deleted(prev, next.table));
    u := MdbUpdate(AddedMachines(prev, next.machines), ChangedMachines(prev, next.machines), toDelete);
  }

  lemma OnlySubscribersListen(s: State)
    ensures Listeners(s) <= s.subs.Keys
  {
  }

  lemma PublishAlone(s: State, next: Mdb) returns (s': State)
    requires IsReachable(s) && s.publisher.Idle? && s.subs == map[] && WellFormed(next)
    ensures IsReachable(s') && s'.publisher.Idle? && s'.subs == map[]
    ensures s'.history == s.history + [next.table]
  {
    var u := UpdateExists(TableIn(s.current), next);
    var swapped := AfterSwap(s, next, u);
    StepIsReachable(s, Swap(next, u), swapped);
    if IsEmptyUpdate(u) {
      s' := swapped.(publisher := Idle);
      StepIsReachable(swapped, ListChannels, s');
    } else {
      var sending := swapped.(publisher := Sending(u, {}));
      OnlySubscribersListen(swapped);
      assert Listeners(swapped) == {};
      StepIsReachable(swapped, ListChannels, sending);
      s' := sending.(publisher := Idle);
      StepIsReachable(sending, MdbReplication.Done, s');
    }
  }

  /** The tables in the order they are published, behind the empty one at the start. */
  function History(mdbs: seq<Mdb>): seq<Table> {
    if mdbs == [] then [map[]] else History(mdbs[..|mdbs| - 1]) + [mdbs[|mdbs| - 1].table]
  }

  lemma HistoryExtends(mdbs: seq<Mdb>, next: Mdb)
    ensures History(mdbs + [next]) == History(mdbs) + [next.table]
  {
    assert (mdbs + [next])[..|mdbs|] == mdbs;
  }

  lemma {:induction false} HistoryLength(mdbs: seq<Mdb>)
    ensures |History(mdbs)| == |mdbs| + 1
  {
    if mdbs != [] {
      HistoryLength(mdbs[..|mdbs| - 1]);
    }
  }

  /** Any sequence of tables can be published with nobody listening. */
  lemma {:induction false} PublishAll(mdbs: seq<Mdb>) returns (s: State)
    requires forall i :: 0 <= i < |mdbs| ==> WellFormed(mdbs[i])
    ensures IsReachable(s) && s.publisher.Idle? && s.subs == map[] && s.history == History(mdbs)
  {
    if mdbs == [] {
      s := START;
      StartIsReachable();
    } else {
      var before := PublishAll(mdbs[..|mdbs| - 1]);
      s := PublishAlone(before, mdbs[|mdbs| - 1]);
    }
  }

  /** A subscriber that joins a quiet server starts with the current table. */
  lemma Join(s: State, id: int, last: nat) returns (s': State)
    requires IsReachable(s) && s.publisher.Idle? && s.subs == map[] && |s.history| == last + 1
    ensures IsReachable(s') && IsQuiet(s', id) && s'.subs.Keys == {id} && s'.history == s.history
    ensures s'.subs[id].joined == last && s'.subs[id].client == WireTable(s.history[last])
  {
    ReachableKeepsLog(s);
    SnapshotIsTable(s);
    var sub := Subscriber(Registered, [], map[], Settled(s, id), last, 0, [], None);
    var registered := s.(subs := map[id := sub]);
    StepIsReachable(s, Register(id), registered);
    s' := registered.(subs := map[id := sub.(phase := Live, snap := last, client := Snapshot(s.current))]);
    StepIsReachable(registered, Read(id), s');
  }

  function AfterSwap(s: State, next: Mdb, u: MdbUpdate): State {
    s.(current := Some(next), publisher := Swapped(u), history := s.history + [next.table],
       log := if IsEmptyUpdate(u) then s.log else s.log + [u],
       stamps := if IsEmptyUpdate(u) then s.stamps else s.stamps + [|s.history|])
  }

  /** The only subscriber of a quiet server follows one publication, as far as it is told. */
  lemma Follow(s: State, id: int, next: Mdb, last: nat) returns (s': State)
    requires IsReachable(s) && IsQuiet(s, id) && s.subs.Keys == {id} && WellFormed(next) && |s.history| == last + 1
    ensures IsReachable(s') && IsQuiet(s', id) && s'.subs.Keys == {id}
    ensures s'.history == s.history + [next.table] && s'.subs[id].joined == s.subs[id].joined
    ensures forall k :: Untouched(s.history[last], next.table, k) ==> At(s'.subs[id].client, k) == At(s.subs[id].client, k)
  {
    ReachableKeepsLog(s);
    var u := UpdateExists(TableIn(s.current), next);
    UpdateMeaning(TableIn(s.current), next, u);
    var c := s.subs[id].client;
    assert IsPatch(c, TableIn(s.current), next.table, ClientApply(c, OnWire(u)));
    var swapped := AfterSwap(s, next, u);
    StepIsReachable(s, Swap(next, u), swapped);
    if IsEmptyUpdate(u) {
      s' := swapped.(publisher := Idle);
      StepIsReachable(swapped, ListChannels, s');
    } else {
      s' := Deliver(swapped, id, u);
      forall k | Untouched(s.history[last], next.table, k)
        ensures At(s'.subs[id].client, k) == At(c, k)
      {
        assert PatchesAt(c, TableIn(s.current), next.table, s'.subs[id].client, k);
      }
    }
  }

  lemma Deliver(s: State, id: int, u: MdbUpdate) returns (s': State)
    requires IsReachable(s) && s.publisher == Swapped(u) && !IsEmptyUpdate(u) && s.subs.Keys == {id}
    requires s.subs[id].phase.Live? && s.subs[id].queue == []
    ensures IsReachable(s') && IsQuiet(s', id) && s'.subs.Keys == {id}
    ensures s'.history == s.history && s'.subs[id].joined == s.subs[id].joined
    ensures s'.subs[id].client == ClientApply(s.subs[id].client, OnWire(u))
  {
    var sub := s.subs[id];
    var sending := s.(publisher := Sending(u, {id}));
    assert Listeners(s) == {id};
    StepIsReachable(s, ListChannels, sending);
    var sent := sending.(publisher := Sending(u, {}), subs := sending.subs[id := sub.(queue := [u])]);
    assert Enqueue(sub, u, |s.log| - 1) == sub.(queue := [u]) && {id} - {id} == {};
    StepIsReachable(sending, Send(id), sent);
    var idle := sent.(publisher := Idle);
    StepIsReachable(sent, MdbReplication.Done, idle);
    s' := idle.(subs := idle.subs[id := Forwarded(idle.subs[id])]);
    StepIsReachable(idle, Forward(id), s');
  }

  /** A subscriber that joined at table i still holds what k was then, if nothing touched k since. */
  lemma {:induction false} FollowUntouched(mdbs: seq<Mdb>, i: nat, id: int, k: string) returns (s: State)
    requires i <= |mdbs| && forall j :: 0 <= j < |mdbs| ==> WellFormed(mdbs[j])
    requires |History(mdbs)| == |mdbs| + 1 && Quiet(History(mdbs), i, |mdbs|, k)
    ensures IsReachable(s) && IsQuiet(s, id) && s.subs.Keys == {id} && s.history == History(mdbs)
    ensures s.subs[id].joined == i && At(s.subs[id].client, k) == At(WireTable(History(mdbs)[i]), k)
    decreases |mdbs|
  {
    if i == |mdbs| {
      var alone := PublishAll(mdbs);
      s := Join(alone, id, i);
    } else {
      var last := |mdbs| - 1;
      var front, h := mdbs[..last], History(mdbs);
      HistoryLength(front);
      assert History(front) <= h;
      QuietInLonger(History(front), h, i, last, k);
      assert Quiet(h, i, last, k) && UntouchedAt(h, last, k);
      var before := FollowUntouched(front, i, id, k);
      assert h[last] == History(front)[last] && h[i] == History(front)[i] && h[last + 1] == mdbs[last].table;
      s := Follow(before, id, mdbs[last], last);
    }
  }

  /** In every run that published this history, every quiet subscriber that registered since table `from` holds the last one. */
  ghost predicate Converges(history: seq<Table>, from: nat)
    requires history != []
  {
    forall s, id :: IsReachable(s) && s.history == history && IsQuiet(s, id) && s.subs[id].joined >= from ==>
      s.subs[id].client == WireTable(history[|history| - 1])
  }

  lemma NothingHiddenConverges(history: seq<Table>, from: nat)
    requires history != [] && HidesNothing(history, from)
    ensures Converges(history, from)
  {
    forall s, id | IsReachable(s) && s.history == history && IsQuiet(s, id) && s.subs[id].joined >= from
      ensures s.subs[id].client == WireTable(history[|history| - 1])
    {
      var states, labels :| Run(states, labels) && states[|labels|] == s;
      HidesNothingLater(history, from, s.subs[id].joined);
      SubscribersConverge(states, labels, |labels|, id);
      ReachableKeepsLog(s);
    }
  }

  lemma HiddenIsMissed(mdbs: seq<Mdb>, from: nat, i: nat, k: string)
    requires (forall j :: 0 <= j < |mdbs| ==> WellFormed(mdbs[j])) && |History(mdbs)| == |mdbs| + 1
    requires from <= i <= |mdbs| && Quiet(History(mdbs), i, |mdbs|, k)
    requires At(WireTable(History(mdbs)[i]), k) != At(WireTable(History(mdbs)[|mdbs|]), k)
    ensures !Converges(History(mdbs), from)
  {
    var s := FollowUntouched(mdbs, i, 0, k);
    assert s.subs[0].client != WireTable(History(mdbs)[|mdbs|]);
  }

  /**
   For every sequence of tables: all subscribers since table `from` converge in every run
   exactly if no name stayed untouched to the end while its visible value came to differ.
   */
  lemma ConvergenceIff(mdbs: seq<Mdb>, from: nat)
    requires forall i :: 0 <= i < |mdbs| ==> WellFormed(mdbs[i])
    ensures |History(mdbs)| == |mdbs| + 1
    ensures Converges(History(mdbs), from) <==> HidesNothing(History(mdbs), from)
  {
    HistoryLength(mdbs);
    var h := History(mdbs);
    if HidesNothing(h, from) {
      NothingHiddenConverges(h, from);
    } else {
      var k, i :| from <= i <= |mdbs| && Quiet(h, i, |mdbs|, k) && At(WireTable(h[i]), k) != At(WireTable(h[|mdbs|]), k);
      HiddenIsMissed(mdbs, from, i, k);
    }
  }

  function Single(m: Machine): Mdb {
    Mdb([m], map[m.hostname := m])
  }

  lemma SingleIsWellFormed(m: Machine)
    requires m.hostname != ""
    ensures WellFormed(Single(m))
  {
    TableOfExtend([], m);
    assert [] + [m] == [m];
  }

  /** It happens: a tag with a value that gives way to a blank one under another name is never taken back from a client. */
  lemma BlankTagIsMissed()
    ensures var blank, full := Tagged("h", map["a" := ""]), Tagged("h", map["b" := "x"]);
      |History([Single(full), Single(blank)])| == 3 && !Converges(History([Single(full), Single(blank)]), 0)
  {
    var blank, full := Tagged("h", map["a" := ""]), Tagged("h", map["b" := "x"]);
    var mdbs := [Single(full), Single(blank)];
    SingleIsWellFormed(full);
    SingleIsWellFormed(blank);
    HistoryLength(mdbs);
    assert mdbs[..1] == [Single(full)];
    var h := History(mdbs);
    assert h[1] == map["h" := full] && h[2] == map["h" := blank];
    BlankTagsMakeThemDisagree();
    assert "h" !in ChangedForUpdate(h[1], h[2]);
    assert UntouchedAt(h, 1, "h");
    assert TagsOf(blank.tags) != TagsOf(full.tags);
    HiddenIsMissed(mdbs, 0, 1, "h");
  }
}
