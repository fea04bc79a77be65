/**
 Runs of the whole Disruption Manager: client operations, recalculations and completing
 waiters under the mutex, the notifications they send after releasing it, readers of the
 export, and the write loop that saves it. Steps of different goroutines interleave in
 any order.
 */
module DisruptionSystem {
  import opened Basics
  import opened Disruption
  import opened DisruptionExport

  /** The write loop: never started, waiting for a token, or holding one and not yet looking. */
  datatype Writer = Absent | Idle | Triggered

  datatype System = System(
    groups: Groups,
    cache: Option<GroupList>,     // the exportable list, None if invalid
    owing: nat,                   // operations that have unlocked but not yet notified
    token: bool,                  // the one-slot write notifier
    writer: Writer,
    file: GroupList)              // what the writer saw last, and saved

  datatype Label =
    | Operate(event: Event, reply: Option<DisruptionState>, invalidated: bool)
    | Notify
    | Receive
    | Save(list: GroupList)
    | Look(list: GroupList)

  /** What getGroupList returns: the cached list, or a fresh one. */
  ghost predicate Lists(s: System, list: GroupList) {
    if s.cache.Some? then list == s.cache.value else Exports(list, s.groups)
  }

  ghost predicate Step(s: System, l: Label, s': System) {
    match l
    case Operate(e, reply, invalidated) =>
      && Next(s.groups, e, s'.groups, reply, invalidated)
      && s' == s.(groups := s'.groups,
                  cache := if invalidated then None else s.cache,
                  owing := if invalidated then s.owing + 1 else s.owing)
    case Notify =>
      s.owing > 0 && s' == s.(owing := s.owing - 1, token := true)
    case Receive =>
      s.writer.Idle? && s.token && s' == s.(token := false, writer := Triggered)
    case Save(list) =>
      && s.writer.Triggered? && Lists(s, list)
      && s' == s.(cache := Some(list), file := list, writer := Idle)
    case Look(list) =>
      Lists(s, list) && s' == s.(cache := Some(list))
  }

  ghost predicate Run(states: seq<System>, labels: seq<Label>) {
    && |states| == |labels| + 1
    && forall i :: 0 <= i < |labels| ==> Step(states[i], labels[i], states[i + 1])
  }

  /** No machine's tags ever ask for more than k. */
  ghost predicate LabelsAskAtMost(labels: seq<Label>, k: nat) {
    forall i :: 0 <= i < |labels| && labels[i].Operate? ==> AsksAtMost(labels[i].event, k)
  }

  ghost predicate CacheAgrees(s: System) {
    s.cache.Some? ==> Exports(s.cache.value, s.groups)
  }

  /** Whoever runs a write loop and has not seen the newest groups is about to be woken. */
  ghost predicate WakeUpPending(s: System) {
    !s.writer.Absent? && !Exports(s.file, s.groups) ==> s.token || s.owing > 0 || s.writer.Triggered?
  }

  /** A start from which everything below holds. */
  ghost predicate Good(s: System, k: nat) {
    && Exclusive(s.groups)
    && WithinCapacity(s.groups, k)
    && CacheAgrees(s)
    && WakeUpPending(s)
  }

  lemma StepKeepsCacheRight(s: System, l: Label, s': System)
    requires CacheAgrees(s) && Step(s, l, s')
    ensures CacheAgrees(s')
  {
    if l.Operate? && !l.invalidated && s.cache.Some? {
      UninvalidatedEventKeepsExport(s.groups, l.event, s'.groups, l.reply, s.cache.value);
    }
  }

  lemma StepKeepsWakeUp(s: System, l: Label, s': System)
    requires CacheAgrees(s) && WakeUpPending(s) && Step(s, l, s')
    ensures WakeUpPending(s')
  {
    if l.Operate? && !l.invalidated && Exports(s.file, s.groups) {
      UninvalidatedEventKeepsExport(s.groups, l.event, s'.groups, l.reply, s.file);
    }
  }

  // ---------------------------------------------------------------- In every state of every run

  /** No host is both permitted and requested. */
  lemma {:induction false} RunsStayExclusive(states: seq<System>, labels: seq<Label>, i: nat)
    requires Run(states, labels) && Exclusive(states[0].groups) && i < |states|
    ensures Exclusive(states[i].groups)
  {
    if i > 0 {
      RunsStayExclusive(states, labels, i - 1);
      var s, l, s' := states[i - 1], labels[i - 1], states[i];
      assert Step(s, l, s');
      if l.Operate? {
        EventKeepsExclusive(s.groups, l.event, s'.groups, l.reply, l.invalidated);
      }
    }
  }

  /** No group exceeds the largest limit anybody asked for, if none did at the start. */
  lemma {:induction false} RunsStayWithinCapacity(states: seq<System>, labels: seq<Label>, k: nat, i: nat)
    requires 1 <= k && Run(states, labels) && LabelsAskAtMost(labels, k)
    requires WithinCapacity(states[0].groups, k) && i < |states|
    ensures WithinCapacity(states[i].groups, k)
  {
    if i > 0 {
      RunsStayWithinCapacity(states, labels, k, i - 1);
      var s, l, s' := states[i - 1], labels[i - 1], states[i];
      assert Step(s, l, s');
      if l.Operate? {
        EventKeepsCapacity(s.groups, l.event, s'.groups, l.reply, l.invalidated, k);
      }
    }
  }

  /** A cached export is the right one. */
  lemma {:induction false} RunsKeepCacheRight(states: seq<System>, labels: seq<Label>, i: nat)
    requires Run(states, labels) && CacheAgrees(states[0]) && i < |states|
    ensures CacheAgrees(states[i])
  {
    if i > 0 {
      RunsKeepCacheRight(states, labels, i - 1);
      StepKeepsCacheRight(states[i - 1], labels[i - 1], states[i]);
    }
  }

  /** No change is overlooked by the write loop: if it has not seen the groups, it will be woken. */
  lemma {:induction false} NoWakeUpIsLost(states: seq<System>, labels: seq<Label>, i: nat)
    requires Run(states, labels) && CacheAgrees(states[0]) && WakeUpPending(states[0]) && i < |states|
    ensures WakeUpPending(states[i])
  {
    if i > 0 {
      NoWakeUpIsLost(states, labels, i - 1);
      RunsKeepCacheRight(states, labels, i - 1);
      StepKeepsWakeUp(states[i - 1], labels[i - 1], states[i]);
    }
  }

  /** When a run comes to rest, the file holds exactly the current groups. */
  lemma RestingRunIsSaved(states: seq<System>, labels: seq<Label>, i: nat)
    requires Run(states, labels) && CacheAgrees(states[0]) && WakeUpPending(states[0])
    requires i < |states| && states[i].writer.Idle? && !states[i].token && states[i].owing == 0
    ensures Exports(states[i].file, states[i].groups)
  {
    NoWakeUpIsLost(states, labels, i);
  }

  /** What a reader is shown, cached or not, is the one right export of the groups. */
  lemma ReadersSeeTheTruth(states: seq<System>, labels: seq<Label>, i: nat)
    requires Run(states, labels) && CacheAgrees(states[0])
    requires i < |labels| && (labels[i].Look? || labels[i].Save?)
    ensures Exports(labels[i].list, states[i].groups)
    ensures forall l :: Exports(l, states[i].groups) ==> l == labels[i].list
  {
    RunsKeepCacheRight(states, labels, i);
    assert Step(states[i], labels[i], states[i + 1]);
    forall l | Exports(l, states[i].groups)
      ensures l == labels[i].list
    {
      ExportIsUnique(l, labels[i].list, states[i].groups);
    }
  }

  /** Every reply to a client says where the client's host then stands. */
  lemma RepliesInRunsAreTruthful(states: seq<System>, labels: seq<Label>, i: nat)
    requires Run(states, labels) && Exclusive(states[0].groups)
    requires i < |labels| && labels[i].Operate?
    requires labels[i].event.Request? || labels[i].event.Check? || labels[i].event.Cancel?
    ensures var m, gs, reply := labels[i].event.machine, states[i + 1].groups, labels[i].reply;
      var id := GroupIdentifier(m);
      && reply.Some? && id in gs
      && (reply.value == Permitted <==> m.hostname in gs[id].permitted)
      && (reply.value == Requested <==> m.hostname in gs[id].requested)
      && (reply.value == Denied <==> m.hostname !in gs[id].permitted && m.hostname !in gs[id].requested)
  {
    RunsStayExclusive(states, labels, i);
    assert Step(states[i], labels[i], states[i + 1]);
    RepliesAreTruthful(states[i].groups, labels[i].event, states[i + 1].groups, labels[i].reply,
      labels[i].invalidated);
  }

  // ---------------------------------------------------------------- Wrong starts

  predicate Invalidates(l: Label) {
    l.Operate? && l.invalidated
  }

  /** After an operation that invalidates, cache and wake-ups are right however the run started. */
  lemma {:induction false} InvalidationRepairs(states: seq<System>, labels: seq<Label>, i: nat, j: nat)
    requires Run(states, labels) && j < i < |states| && Invalidates(labels[j])
    ensures CacheAgrees(states[i]) && WakeUpPending(states[i])
  {
    assert Step(states[i - 1], labels[i - 1], states[i]);
    if i > j + 1 {
      InvalidationRepairs(states, labels, i - 1, j);
      StepKeepsCacheRight(states[i - 1], labels[i - 1], states[i]);
      StepKeepsWakeUp(states[i - 1], labels[i - 1], states[i]);
    }
  }

  /** Until then a wrong cache stays, and stays wrong. */
  lemma {:induction false} WrongCacheStays(states: seq<System>, labels: seq<Label>, i: nat, list: GroupList)
    requires Run(states, labels) && i < |states| && forall j :: 0 <= j < i ==> !Invalidates(labels[j])
    requires states[0].cache == Some(list) && !Exports(list, states[0].groups)
    ensures states[i].cache == Some(list) && !Exports(list, states[i].groups)
  {
    if i > 0 {
      WrongCacheStays(states, labels, i - 1, list);
      var s, l, s' := states[i - 1], labels[i - 1], states[i];
      assert Step(s, l, s') && !Invalidates(labels[i - 1]);
      if l.Operate? && Exports(list, s'.groups) {
        UninvalidatedEventRepairsNothing(s.groups, l.event, s'.groups, l.reply, list);
      }
    }
  }

  /** Nothing wakes the writer up. */
  predicate AtRest(s: System) {
    s.writer.Idle? && !s.token && s.owing == 0
  }

  /** And until then a wrong file stays, and nothing wakes the writer up. */
  lemma {:induction false} WrongFileStays(states: seq<System>, labels: seq<Label>, i: nat)
    requires Run(states, labels) && i < |states| && forall j :: 0 <= j < i ==> !Invalidates(labels[j])
    requires AtRest(states[0]) && !Exports(states[0].file, states[0].groups)
    ensures AtRest(states[i]) && states[i].file == states[0].file && !Exports(states[i].file, states[i].groups)
  {
    if i > 0 {
      WrongFileStays(states, labels, i - 1);
      var s, l, s' := states[i - 1], labels[i - 1], states[i];
      assert Step(s, l, s') && !Invalidates(labels[i - 1]);
      if l.Operate? && Exports(s.file, s'.groups) {
        UninvalidatedEventRepairsNothing(s.groups, l.event, s'.groups, l.reply, s.file);
      }
    }
  }

  // ---------------------------------------------------------------- Reaching a state

  ghost predicate Reaches(start: System, s: System) {
    exists states, labels :: Run(states, labels) && states[0] == start && states[|labels|] == s
  }

  lemma ReachesItself(start: System)
    ensures Reaches(start, start)
  {
    var labels: seq<Label> := [];
    assert Run([start], labels);
  }

  lemma StepReaches(start: System, s: System, l: Label, s': System)
    requires Reaches(start, s) && Step(s, l, s')
    ensures Reaches(start, s')
  {
    var states, labels :| Run(states, labels) && states[0] == start && states[|labels|] == s;
    var longer, more := states + [s'], labels + [l];
    forall i | 0 <= i < |more|
      ensures Step(longer[i], more[i], longer[i + 1])
    {
      if i < |labels| {
        assert longer[i] == states[i] && more[i] == labels[i] && longer[i + 1] == states[i + 1];
      }
    }
    assert Run(longer, more) && longer[0] == start && longer[|more|] == s';
  }

  /** What runs keep, for any state reached. */
  lemma ReachedIsGood(start: System, s: System)
    requires Reaches(start, s)
    ensures Exclusive(start.groups) ==> Exclusive(s.groups)
    ensures CacheAgrees(start) ==> CacheAgrees(s)
    ensures CacheAgrees(start) && WakeUpPending(start) ==> WakeUpPending(s)
  {
    var states, labels :| Run(states, labels) && states[0] == start && states[|labels|] == s;
    if Exclusive(start.groups) {
      RunsStayExclusive(states, labels, |labels|);
    }
    if CacheAgrees(start) {
      RunsKeepCacheRight(states, labels, |labels|);
      if WakeUpPending(start) {
        NoWakeUpIsLost(states, labels, |labels|);
      }
    }
  }

  // ---------------------------------------------------------------- Starts

  /** A manager that found no state file: good, but without a write loop. */
  function Fresh(file: GroupList): System {
    System(map[], Some(GroupList([], 0, 0, 0)), 0, false, Absent, file)
  }

  lemma FreshIsGood(file: GroupList, k: nat)
    ensures Good(Fresh(file), k)
  {
  }

  /** Without a write loop nothing is ever saved, whatever happens. */
  lemma {:induction false} NothingSavedWithoutWriter(states: seq<System>, labels: seq<Label>, i: nat)
    requires Run(states, labels) && states[0].writer.Absent? && i < |states|
    ensures states[i].writer.Absent? && states[i].file == states[0].file
  {
    if i > 0 {
      NothingSavedWithoutWriter(states, labels, i - 1);
      assert Step(states[i - 1], labels[i - 1], states[i]);
    }
  }
}
