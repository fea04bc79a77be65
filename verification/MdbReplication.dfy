/**
 The MDB server's update protocol: one publisher, any number of subscribers on bounded
 channels, every interleaving. A subscriber registers its channel first and reads the
 current table afterwards, so the snapshot it starts from may be newer than some of the
 updates it then applies.
 */
module MdbReplication {
  import opened Basics
  import opened MdbDelta
  import opened MdbMeaning
  import opened MdbTracking

  /** The capacity of a subscriber's channel. */
  const CAPACITY := 10

  const MARKER := MdbUpdate([], [], [])

  datatype Phase = Registered | Live | Gone

  datatype Subscriber = Subscriber(
    phase: Phase,
    queue: seq<MdbUpdate>,        // what is in its channel
    client: Table,                // what its client holds
    start: nat,                   // where in the log its updates start
    joined: nat,                  // which table was current when it registered
    snap: nat,                    // which table it read
    forwarded: seq<MdbUpdate>,    // what was sent on to the client
    marker: Option<int>)          // where in the log the first overflow marker stands

  /** Between publications, after swapping the table in, or handing the update out. */
  datatype Publisher = Idle | Swapped(update: MdbUpdate) | Sending(update: MdbUpdate, todo: set<int>)

  datatype State = State(
    current: Option<Mdb>,
    history: seq<Table>,          // every table so far, the first one empty
    log: seq<MdbUpdate>,          // every update that was not empty
    stamps: seq<nat>,             // which table each of them led to
    publisher: Publisher,
    subs: map<int, Subscriber>)

  datatype Label =
    | Swap(mdb: Mdb, update: MdbUpdate)
    | ListChannels
    | Send(id: int)
    | Done
    | Register(id: int)
    | Read(id: int)
    | Forward(id: int)
    | Close(id: int)

  const START := State(None, [map[]], [], [], Idle, map[])

  /** How much of the log has been, or need not be, handed to a subscriber. */
  function Settled(s: State, id: int): nat {
    if s.log == [] then 0 else
    |s.log| - (if (s.publisher.Swapped? && !IsEmptyUpdate(s.publisher.update)) ||
                  (s.publisher.Sending? && id in s.publisher.todo) then 1 else 0)
  }

  /** sendUpdate: with room for less than two, an overflow marker goes in place of the update. */
  function Enqueue(sub: Subscriber, u: MdbUpdate, at: int): Subscriber {
    if CAPACITY - |sub.queue| < 2
    then sub.(queue := sub.queue + [MARKER], marker := if sub.marker.Some? then sub.marker else Some(at))
    else sub.(queue := sub.queue + [u])
  }

  /** The channel is full: a send to it blocks. */
  predicate Blocks(sub: Subscriber) {
    !sub.phase.Gone? && |sub.queue| >= CAPACITY
  }

  /** What the client holds after the first message, the whole current table if there is one. */
  function Snapshot(current: Option<Mdb>): Table {
    match current
    case None => map[]
    case Some(mdb) => ClientApply(map[], OnWire(MdbUpdate(mdb.machines, [], [])))
  }

  function Forwarded(sub: Subscriber): Subscriber
    requires sub.queue != []
  {
    var u := sub.queue[0];
    if IsEmptyUpdate(u) then sub.(phase := Gone, queue := sub.queue[1..])
    else sub.(queue := sub.queue[1..], client := ClientApply(sub.client, OnWire(u)),
              forwarded := sub.forwarded + [u])
  }

  function Listeners(s: State): set<int> {
    set id | id in s.subs && !s.subs[id].phase.Gone?
  }

  ghost predicate Step(s: State, l: Label, s': State) {
    match l
    case Swap(mdb, u) =>
      && s.publisher.Idle? && WellFormed(mdb) && IsUpdate(TableIn(s.current), mdb, u)
      && s' == s.(current := Some(mdb), publisher := Swapped(u),
                  history := s.history + [mdb.table],
                  log := if IsEmptyUpdate(u) then s.log else s.log + [u],
                  stamps := if IsEmptyUpdate(u) then s.stamps else s.stamps + [|s.history|])
    case ListChannels =>
      && s.publisher.Swapped?
      && s' == s.(publisher := if IsEmptyUpdate(s.publisher.update) then Idle
                               else Sending(s.publisher.update, Listeners(s)))
    case Send(id) =>
      && s.publisher.Sending? && id in s.publisher.todo && id in s.subs && !Blocks(s.subs[id])
      && s' == s.(publisher := s.publisher.(todo := s.publisher.todo - {id}),
                  subs := if s.subs[id].phase.Gone? then s.subs
                          else s.subs[id := Enqueue(s.subs[id], s.publisher.update, |s.log| - 1)])
    case Done =>
      s.publisher.Sending? && s.publisher.todo == {} && s' == s.(publisher := Idle)
    case Register(id) =>
      && id !in s.subs && s.history != []
      && s' == s.(subs := s.subs[id := Subscriber(Registered, [], map[], Settled(s, id), |s.history| - 1, 0, [], None)])
    case Read(id) =>
      && id in s.subs && s.subs[id].phase.Registered? && s.history != []
      && s' == s.(subs := s.subs[id := s.subs[id].(phase := Live, snap := |s.history| - 1, client := Snapshot(s.current))])
    case Forward(id) =>
      && id in s.subs && s.subs[id].phase.Live? && s.subs[id].queue != []
      && s' == s.(subs := s.subs[id := Forwarded(s.subs[id])])
    case Close(id) =>
      && id in s.subs && s' == s.(subs := s.subs[id := s.subs[id].(phase := Gone)])
  }

  ghost predicate Run(states: seq<State>, labels: seq<Label>) {
    && |states| == |labels| + 1
    && states[0] == START
    && forall i :: 0 <= i < |labels| ==> Step(states[i], labels[i], states[i + 1])
  }

  // ---------------------------------------------------------------- The invariant

  /** Where in the log the client is. */
  function Pos(sub: Subscriber): nat {
    sub.start + |sub.forwarded|
  }

  /** The channel holds the log from where the subscriber is, up to the first marker if any. */
  ghost predicate QueueOk(sub: Subscriber, log: seq<MdbUpdate>, settled: int) {
    var pos := Pos(sub);
    && 0 <= settled <= |log|
    && |sub.queue| <= CAPACITY
    && match sub.marker
       case None => pos <= settled && sub.queue == log[pos..settled] && |sub.queue| < CAPACITY
       case Some(b) =>
         && pos <= b <= settled && b - pos < |sub.queue|
         && sub.queue[..b - pos] == log[pos..b] && IsEmptyUpdate(sub.queue[b - pos])
  }

  /** What reached the client is a run of the log without gaps. */
  ghost predicate Contiguous(sub: Subscriber, log: seq<MdbUpdate>) {
    && Pos(sub) <= |log|
    && sub.forwarded == log[sub.start..Pos(sub)]
  }

  /** The table up to which a client knows the updates, once it has those of the log before pos. */
  function TableBefore(stamps: seq<nat>, tables: nat, pos: nat): int {
    if pos < |stamps| then stamps[pos] - 1 else tables - 1
  }

  /** What the client holds fits the history as far as it was told. */
  ghost predicate ClientOk(sub: Subscriber, history: seq<Table>, at: int) {
    && sub.joined <= sub.snap < |history|
    && 0 <= at < |history|
    && Tracks(sub.client, history, sub.joined, sub.snap, at)
  }

  /** No update a subscriber gets leads to a table older than the one it found. */
  ghost predicate JoinedOk(sub: Subscriber, history: seq<Table>, stamps: seq<nat>) {
    && sub.joined < |history|
    && (sub.start < |stamps| ==> sub.joined <= stamps[sub.start])
  }

  ghost predicate SubscriberOk(sub: Subscriber, s: State, settled: int) {
    && Contiguous(sub, s.log)
    && JoinedOk(sub, s.history, s.stamps)
    && (!sub.phase.Gone? ==> QueueOk(sub, s.log, settled))
    && (sub.phase.Registered? ==> sub.forwarded == [])
    && (sub.phase.Live? ==> ClientOk(sub, s.history, TableBefore(s.stamps, |s.history|, Pos(sub))))
  }

  /** Update i of the log means the step to the table it is stamped with. */
  ghost predicate MeansStep(log: seq<MdbUpdate>, stamps: seq<nat>, history: seq<Table>, i: nat)
    requires i < |log| && i < |stamps|
  {
    && 1 <= stamps[i] < |history|
    && Means(log[i], history[stamps[i] - 1], history[stamps[i]])
  }

  /** The log has the publications that touched something, in order. */
  ghost predicate StampsOk(log: seq<MdbUpdate>, stamps: seq<nat>, history: seq<Table>) {
    && |stamps| == |log|
    && (forall i :: 0 <= i < |log| ==> !IsEmptyUpdate(log[i]) && MeansStep(log, stamps, history, i))
    && (forall i, j :: 0 <= i < j < |stamps| ==> stamps[i] < stamps[j])
    && (forall m :: 0 <= m < |history| - 1 && m + 1 !in stamps ==> Silent(history, m))
  }

  ghost predicate LogOk(s: State) {
    && |s.history| >= 1 && s.history[|s.history| - 1] == TableIn(s.current)
    && (s.current.Some? ==> WellFormed(s.current.value))
    && StampsOk(s.log, s.stamps, s.history)
  }

  ghost predicate PublisherOk(s: State) {
    && (s.publisher.Swapped? && !IsEmptyUpdate(s.publisher.update) ==> IsNewest(s, s.publisher.update))
    && (s.publisher.Sending? ==> IsNewest(s, s.publisher.update))
  }

  /** The last publication is update u of the log. */
  ghost predicate IsNewest(s: State, u: MdbUpdate) {
    && |s.log| > 0 && s.log[|s.log| - 1] == u
    && |s.stamps| == |s.log| && s.stamps[|s.stamps| - 1] == |s.history| - 1
  }

  ghost predicate Inv(s: State) {
    && LogOk(s)
    && PublisherOk(s)
    && forall id :: id in s.subs ==> SubscriberOk(s.subs[id], s, Settled(s, id))
  }

  lemma StartIsGood()
    ensures Inv(START)
  {
    assert WireTable(map[]) == map[];
  }

  lemma MeansStepInLonger(
    log: seq<MdbUpdate>, log': seq<MdbUpdate>, stamps: seq<nat>, stamps': seq<nat>,
    history: seq<Table>, history': seq<Table>, i: nat)
    requires i < |log| && i < |stamps| && log <= log' && stamps <= stamps' && history <= history'
    requires MeansStep(log, stamps, history, i)
    ensures MeansStep(log', stamps', history', i)
  {
    assert log'[i] == log[i] && stamps'[i] == stamps[i];
    assert history'[stamps[i] - 1] == history[stamps[i] - 1] && history'[stamps[i]] == history[stamps[i]];
  }

  lemma SilentInLonger(history: seq<Table>, history': seq<Table>, m: nat)
    requires m + 1 < |history| && history <= history' && Silent(history, m)
    ensures Silent(history', m)
  {
    assert history'[m] == history[m] && history'[m + 1] == history[m + 1];
    forall k
      ensures UntouchedAt(history', m, k)
    {
      assert UntouchedAt(history, m, k);
    }
  }

  lemma SwapKeepsMeanings(s: State, l: Label, s': State)
    requires LogOk(s) && l.Swap? && Step(s, l, s')
    ensures |s'.stamps| == |s'.log|
    ensures forall i :: 0 <= i < |s'.log| ==> !IsEmptyUpdate(s'.log[i]) && MeansStep(s'.log, s'.stamps, s'.history, i)
  {
    UpdateMeaning(TableIn(s.current), l.mdb, l.update);
    forall i | 0 <= i < |s'.log|
      ensures !IsEmptyUpdate(s'.log[i]) && MeansStep(s'.log, s'.stamps, s'.history, i)
    {
      if i < |s.log| {
        assert s'.log[i] == s.log[i];
        MeansStepInLonger(s.log, s'.log, s.stamps, s'.stamps, s.history, s'.history, i);
      }
    }
  }

  lemma SwapStamps(s: State, l: Label, s': State)
    requires l.Swap? && Step(s, l, s')
    ensures s'.history == s.history + [l.mdb.table]
    ensures !IsEmptyUpdate(l.update) ==> |s.history| in s'.stamps
    ensures forall x :: x in s.stamps ==> x in s'.stamps
  {
    if !IsEmptyUpdate(l.update) {
      assert s'.stamps[|s.stamps|] == |s.history|;
    }
  }

  lemma EmptySwapIsSilent(history: seq<Table>, current: Option<Mdb>, mdb: Mdb, u: MdbUpdate, m: nat)
    requires |history| == m + 1 && history[m] == TableIn(current)
    requires WellFormed(mdb) && IsUpdate(TableIn(current), mdb, u) && IsEmptyUpdate(u)
    ensures Silent(history + [mdb.table], m)
  {
    EmptyUpdateMeaning(TableIn(current), mdb, u);
    forall k
      ensures UntouchedAt(history + [mdb.table], m, k)
    {
      assert Untouched(TableIn(current), mdb.table, k);
    }
  }

  lemma UnstampedIsSilent(s: State, m: nat)
    requires LogOk(s) && m + 1 < |s.history| && m + 1 !in s.stamps
    ensures Silent(s.history, m)
  {
  }

  lemma SwapKeepsSilence(s: State, l: Label, s': State, m: nat)
    requires LogOk(s) && l.Swap? && Step(s, l, s') && m + 1 < |s'.history| && m + 1 !in s'.stamps
    ensures Silent(s'.history, m)
  {
    SwapStamps(s, l, s');
    if m + 1 < |s.history| {
      UnstampedIsSilent(s, m);
      SilentInLonger(s.history, s'.history, m);
    } else {
      EmptySwapIsSilent(s.history, s.current, l.mdb, l.update, m);
    }
  }

  lemma StampsArePast(s: State)
    requires LogOk(s)
    ensures forall x :: x in s.stamps ==> 1 <= x < |s.history|
  {
    forall x | x in s.stamps
      ensures 1 <= x < |s.history|
    {
      var i :| 0 <= i < |s.stamps| && s.stamps[i] == x;
      assert MeansStep(s.log, s.stamps, s.history, i);
    }
  }

  lemma SwapKeepsLog(s: State, l: Label, s': State)
    requires LogOk(s) && l.Swap? && Step(s, l, s')
    ensures LogOk(s')
  {
    SwapKeepsMeanings(s, l, s');
    forall m | 0 <= m < |s'.history| - 1 && m + 1 !in s'.stamps
      ensures Silent(s'.history, m)
    {
      SwapKeepsSilence(s, l, s', m);
    }
    StampsArePast(s);
    assert forall i :: 0 <= i < |s.stamps| ==> s.stamps[i] in s.stamps;
  }

  lemma LongerLogKeepsContiguous(sub: Subscriber, log: seq<MdbUpdate>, log': seq<MdbUpdate>)
    requires Contiguous(sub, log) && log <= log'
    ensures Contiguous(sub, log')
  {
    var pos := Pos(sub);
    assert log'[sub.start..pos] == log[sub.start..pos];
  }

  lemma LongerLogKeepsQueue(sub: Subscriber, log: seq<MdbUpdate>, log': seq<MdbUpdate>, settled: int)
    requires QueueOk(sub, log, settled) && log <= log'
    ensures QueueOk(sub, log', settled)
  {
    var pos := Pos(sub);
    match sub.marker
    case None => assert log'[pos..settled] == log[pos..settled];
    case Some(b) => assert log'[pos..b] == log[pos..b];
  }

  /** A client is not disturbed when the history grows; a publication that touches nothing passes it by. */
  lemma SwapKeepsClient(sub: Subscriber, s: State, l: Label, s': State, pos: nat)
    requires LogOk(s) && l.Swap? && Step(s, l, s') && LogOk(s') && pos <= |s.log|
    requires ClientOk(sub, s.history, TableBefore(s.stamps, |s.history|, pos))
    ensures ClientOk(sub, s'.history, TableBefore(s'.stamps, |s'.history|, pos))
  {
    var at, at' := TableBefore(s.stamps, |s.history|, pos), TableBefore(s'.stamps, |s'.history|, pos);
    TracksInLonger(sub.client, s.history, s'.history, sub.joined, sub.snap, at);
    if at' != at {
      assert IsEmptyUpdate(l.update) && at' == at + 1 && s'.stamps == s.stamps;
      StampsArePast(s);
      assert Silent(s'.history, at);
      SkipSilence(sub.client, s'.history, sub.joined, sub.snap, at, at');
    }
  }

  /** A subscriber is not disturbed when the history, and perhaps the log, grows. */
  lemma SubscriberSurvivesSwap(sub: Subscriber, s: State, l: Label, s': State)
    requires LogOk(s) && LogOk(s') && l.Swap? && Step(s, l, s')
    requires SubscriberOk(sub, s, |s.log|)
    ensures SubscriberOk(sub, s', |s.log|)
  {
    LongerLogKeepsContiguous(sub, s.log, s'.log);
    if !sub.phase.Gone? {
      LongerLogKeepsQueue(sub, s.log, s'.log, |s.log|);
    }
    if sub.phase.Live? {
      SwapKeepsClient(sub, s, l, s', Pos(sub));
    }
    assert JoinedOk(sub, s'.history, s'.stamps);
  }

  lemma TakeOneMore<T>(s: seq<T>, i: nat, n: nat)
    requires i <= n < |s|
    ensures s[i..n + 1] == s[i..n] + [s[n]]
  {
  }

  /** The channel after one more send: the update fits behind the others, or the first marker does. */
  lemma SendKeepsQueue(sub: Subscriber, log: seq<MdbUpdate>, n: nat)
    requires |log| == n + 1 && QueueOk(sub, log, n) && |sub.queue| < CAPACITY
    ensures QueueOk(Enqueue(sub, log[n], n), log, |log|)
  {
    var pos := Pos(sub);
    var sub' := Enqueue(sub, log[n], n);
    match sub.marker
    case None =>
      TakeOneMore(log, pos, n);
      assert sub'.queue[..n - pos] == sub.queue;
    case Some(b) =>
      assert sub'.queue[..b - pos] == sub.queue[..b - pos];
  }

  lemma SnapshotIsTable(s: State)
    requires LogOk(s)
    ensures Snapshot(s.current) == WireTable(TableIn(s.current))
  {
    if s.current.Some? {
      var l := s.current.value.machines;
      PutAllMerges(map[], WireAll(l));
      TableOfWire(l);
      EmptyPlus(TableOf(WireAll(l)));
    } else {
      assert WireTable(map[]) == map[];
    }
  }

  lemma EmptyPlus(t: Table)
    ensures map[] + t == t
  {
  }

  lemma ForwardKeepsQueue(sub: Subscriber, log: seq<MdbUpdate>, settled: int)
    requires QueueOk(sub, log, settled) && sub.queue != [] && sub.marker != Some(Pos(sub))
    requires !IsEmptyUpdate(sub.queue[0])
    ensures QueueOk(Forwarded(sub), log, settled)
  {
    HeadIsNext(sub, log, settled);
  }

  lemma ForwardKeepsSubscriber(sub: Subscriber, s: State, settled: int)
    requires LogOk(s) && SubscriberOk(sub, s, settled) && sub.phase.Live? && sub.queue != []
    ensures SubscriberOk(Forwarded(sub), s, settled)
  {
    var pos := Pos(sub);
    if sub.marker != Some(pos) {
      HeadIsNext(sub, s.log, settled);
      ForwardKeepsQueue(sub, s.log, settled);
      ForwardKeepsContiguous(sub, s.log);
      ForwardKeepsClient(sub, s, pos);
    }
  }

  lemma ForwardKeepsContiguous(sub: Subscriber, log: seq<MdbUpdate>)
    requires Contiguous(sub, log) && Pos(sub) < |log|
    requires sub.queue != [] && sub.queue[0] == log[Pos(sub)] && !IsEmptyUpdate(sub.queue[0])
    ensures Contiguous(Forwarded(sub), log)
  {
    var pos := Pos(sub);
    TakeOneMore(log, sub.start, pos);
  }

  lemma SilentBetween(s: State, pos: nat, m: nat)
    requires LogOk(s) && pos < |s.log| && s.stamps[pos] <= m
    requires m < TableBefore(s.stamps, |s.history|, pos + 1)
    ensures m + 1 < |s.history| && Silent(s.history, m)
  {
    var next := pos + 1;
    StampsArePast(s);
    assert next < |s.stamps| ==> s.stamps[next] in s.stamps;
    forall x | x in s.stamps
      ensures x <= m || x > TableBefore(s.stamps, |s.history|, next)
    {
      var i :| 0 <= i < |s.stamps| && s.stamps[i] == x;
      assert i < pos ==> s.stamps[i] < s.stamps[pos];
      assert i > next ==> s.stamps[next] < s.stamps[i];
    }
  }

  /** Applying update pos of the log brings the client to the table it is stamped with. */
  lemma ForwardTracks(sub: Subscriber, s: State, pos: nat, n: nat, client': Table)
    requires LogOk(s) && pos == Pos(sub) < |s.log| && JoinedOk(sub, s.history, s.stamps)
    requires n == s.stamps[pos] && client' == ClientApply(sub.client, OnWire(s.log[pos]))
    requires ClientOk(sub, s.history, n - 1)
    ensures !IsEmptyUpdate(s.log[pos]) && n < |s.history|
    ensures Tracks(client', s.history, sub.joined, sub.snap, n)
  {
    assert MeansStep(s.log, s.stamps, s.history, pos);
    assert sub.start == pos || s.stamps[sub.start] < s.stamps[pos];
    var at := n - 1;
    assert IsPatch(sub.client, s.history[at], s.history[n], client');
    TrackOneMore(sub.client, client', s.history, sub.joined, sub.snap, at, n);
  }

  lemma ForwardKeepsClient(sub: Subscriber, s: State, pos: nat)
    requires LogOk(s) && pos == Pos(sub) < |s.log| && JoinedOk(sub, s.history, s.stamps)
    requires ClientOk(sub, s.history, TableBefore(s.stamps, |s.history|, pos))
    requires sub.queue != [] && sub.queue[0] == s.log[pos]
    ensures ClientOk(Forwarded(sub), s.history, TableBefore(s.stamps, |s.history|, Pos(Forwarded(sub))))
  {
    var n, later := s.stamps[pos], TableBefore(s.stamps, |s.history|, pos + 1);
    var client' := ClientApply(sub.client, OnWire(s.log[pos]));
    ForwardTracks(sub, s, pos, n, client');
    assert Pos(Forwarded(sub)) == pos + 1;
    StampsGrow(s, pos);
    forall m | n <= m < later
      ensures Silent(s.history, m)
    {
      SilentBetween(s, pos, m);
    }
    SkipSilence(client', s.history, sub.joined, sub.snap, n, later);
  }

  lemma StampsGrow(s: State, pos: nat)
    requires LogOk(s) && pos < |s.log|
    ensures s.stamps[pos] <= TableBefore(s.stamps, |s.history|, pos + 1) < |s.history|
  {
    assert MeansStep(s.log, s.stamps, s.history, pos);
    if pos + 1 < |s.stamps| {
      assert MeansStep(s.log, s.stamps, s.history, pos + 1);
    }
  }

  /** Unless the marker is next, the head of the channel is the next update of the log. */
  lemma HeadIsNext(sub: Subscriber, log: seq<MdbUpdate>, settled: int)
    requires QueueOk(sub, log, settled) && sub.queue != [] && sub.marker != Some(Pos(sub))
    ensures var pos := Pos(sub);
      && pos < |log| && sub.queue[0] == log[pos]
      && match sub.marker
         case None => pos < settled && sub.queue[1..] == log[pos + 1..settled]
         case Some(b) => pos < b && sub.queue[1..][..b - pos - 1] == log[pos + 1..b]
                         && sub.queue[1..][b - pos - 1] == sub.queue[b - pos]
  {
    var pos := Pos(sub);
    match sub.marker
    case None =>
      assert sub.queue[0] == log[pos..settled][0];
      assert sub.queue[1..] == log[pos..settled][1..] == log[pos + 1..settled];
    case Some(b) =>
      assert sub.queue[0] == sub.queue[..b - pos][0] == log[pos..b][0];
      assert sub.queue[1..][..b - pos - 1] == sub.queue[..b - pos][1..] == log[pos..b][1..] == log[pos + 1..b];
  }

  lemma SubscriberUndisturbed(sub: Subscriber, s: State, s': State, settled: int)
    requires SubscriberOk(sub, s, settled)
    requires s'.log == s.log && s'.stamps == s.stamps && s'.history == s.history
    ensures SubscriberOk(sub, s', settled)
  {
  }

  lemma NewcomerIsOk(s: State, id: int, joined: nat)
    requires LogOk(s) && PublisherOk(s) && |s.history| == joined + 1
    ensures SubscriberOk(Subscriber(Registered, [], map[], Settled(s, id), joined, 0, [], None), s, Settled(s, id))
  {
    var start := Settled(s, id);
    assert s.log[start..start] == [];
  }

  lemma ReaderIsOk(sub: Subscriber, s: State, settled: int, snap: nat)
    requires LogOk(s) && SubscriberOk(sub, s, settled) && sub.phase.Registered? && |s.history| == snap + 1
    ensures SubscriberOk(sub.(phase := Live, snap := snap, client := Snapshot(s.current)), s, settled)
  {
    SnapshotIsTable(s);
    var pos := Pos(sub);
    var at := TableBefore(s.stamps, |s.history|, pos);
    if pos < |s.stamps| {
      assert MeansStep(s.log, s.stamps, s.history, pos);
    }
    SnapshotTracks(s.history, sub.joined, snap, at);
  }

  /** Other subscribers, and everybody at the publisher's own steps, keep their share of the log. */
  lemma SettledStays(s: State, l: Label, s': State, id: int)
    requires Step(s, l, s') && id in s.subs && !s.subs[id].phase.Gone?
    requires l.Send? ==> l.id != id
    ensures Settled(s', id) == if l.Swap? then |s.log| else Settled(s, id)
    ensures l.Swap? ==> Settled(s, id) == |s.log|
  {
  }

  lemma StepKeepsSubscribers(s: State, l: Label, s': State, id: int)
    requires Inv(s) && Step(s, l, s') && LogOk(s') && id in s'.subs
    ensures SubscriberOk(s'.subs[id], s', Settled(s', id))
  {
    if l.Register? && l.id == id {
      NewcomerIsOk(s, id, s'.subs[id].joined);
      SubscriberUndisturbed(s'.subs[id], s, s', Settled(s, id));
      return;
    }
    var sub, settled := s.subs[id], Settled(s, id);
    assert SubscriberOk(sub, s, settled);
    if s'.subs[id].phase.Gone? {
      GoneIsOk(s, l, s', id);
    } else if l.Swap? {
      SwapKeepsSubscriber(s, l, s', id);
    } else if l.Send? && l.id == id {
      SendKeepsSubscriber(s, s', id, settled);
    } else {
      OwnStepKeepsSubscriber(s, l, s', id);
    }
  }

  lemma SwapKeepsSubscriber(s: State, l: Label, s': State, id: int)
    requires LogOk(s) && LogOk(s') && l.Swap? && Step(s, l, s') && id in s.subs && !s.subs[id].phase.Gone?
    requires SubscriberOk(s.subs[id], s, Settled(s, id))
    ensures SubscriberOk(s'.subs[id], s', Settled(s', id))
  {
    SettledStays(s, l, s', id);
    SubscriberSurvivesSwap(s.subs[id], s, l, s');
  }

  lemma OnlyQueueChanged(sub: Subscriber, sub': Subscriber, s: State, settled: int, settled': int)
    requires SubscriberOk(sub, s, settled) && QueueOk(sub', s.log, settled')
    requires sub' == sub.(queue := sub'.queue, marker := sub'.marker)
    ensures SubscriberOk(sub', s, settled')
  {
  }

  lemma SendKeepsSubscriber(s: State, s': State, id: int, n: nat)
    requires LogOk(s) && PublisherOk(s) && Step(s, Send(id), s') && !s.subs[id].phase.Gone?
    requires |s.log| == n + 1 && SubscriberOk(s.subs[id], s, n)
    ensures SubscriberOk(s'.subs[id], s', Settled(s', id))
  {
    var sub, sub' := s.subs[id], s'.subs[id];
    assert Settled(s', id) == |s.log|;
    assert sub' == Enqueue(sub, s.log[n], n);
    SendKeepsQueue(sub, s.log, n);
    OnlyQueueChanged(sub, sub', s, n, |s.log|);
    SubscriberUndisturbed(sub', s, s', |s.log|);
  }

  lemma OwnStepKeepsSubscriber(s: State, l: Label, s': State, id: int)
    requires LogOk(s) && Step(s, l, s') && id in s.subs && id in s'.subs && !s'.subs[id].phase.Gone?
    requires !l.Swap? && !(l.Send? && l.id == id) && SubscriberOk(s.subs[id], s, Settled(s, id))
    ensures SubscriberOk(s'.subs[id], s', Settled(s', id))
  {
    var sub, settled := s.subs[id], Settled(s, id);
    SettledStays(s, l, s', id);
    if l.Read? && l.id == id {
      ReaderIsOk(sub, s, settled, s'.subs[id].snap);
    } else if l.Forward? && l.id == id {
      ForwardKeepsSubscriber(sub, s, settled);
    }
    SubscriberUndisturbed(s'.subs[id], s, s', settled);
  }

  lemma GoneIsOk(s: State, l: Label, s': State, id: int)
    requires Step(s, l, s') && id in s.subs && id in s'.subs && s'.subs[id].phase.Gone?
    requires Contiguous(s.subs[id], s.log) && JoinedOk(s.subs[id], s.history, s.stamps) && |s.stamps| == |s.log|
    ensures SubscriberOk(s'.subs[id], s', Settled(s', id))
  {
    var sub, sub' := s.subs[id], s'.subs[id];
    assert sub'.start == sub.start && sub'.forwarded == sub.forwarded && sub'.joined == sub.joined;
    LongerLogKeepsContiguous(sub, s.log, s'.log);
  }

  lemma StepKeepsLog(s: State, l: Label, s': State)
    requires LogOk(s) && Step(s, l, s')
    ensures LogOk(s')
  {
    if l.Swap? {
      SwapKeepsLog(s, l, s');
    }
  }

  lemma StepKeepsPublisher(s: State, l: Label, s': State)
    requires LogOk(s) && PublisherOk(s) && Step(s, l, s')
    ensures PublisherOk(s')
  {
  }

  lemma StepKeepsInv(s: State, l: Label, s': State)
    requires Inv(s) && Step(s, l, s')
    ensures Inv(s')
  {
    StepKeepsLog(s, l, s');
    StepKeepsPublisher(s, l, s');
    forall id | id in s'.subs {
      StepKeepsSubscribers(s, l, s', id);
    }
  }

  lemma {:induction false} RunsKeepInv(states: seq<State>, labels: seq<Label>, i: nat)
    requires Run(states, labels) && i < |states|
    ensures Inv(states[i])
  {
    if i == 0 {
      StartIsGood();
    } else {
      RunsKeepInv(states, labels, i - 1);
      StepKeepsInv(states[i - 1], labels[i - 1], states[i]);
    }
  }

  // ---------------------------------------------------------------- The theorems

  /**
   In any state of any run, a subscriber that was not dropped and has nothing in its channel
   while no publication is under way holds, for every name, what some table since it
   registered had there, and no publication after that one touched the name.
   */
  lemma QuietClientsAreOnTrack(states: seq<State>, labels: seq<Label>, i: nat, id: int)
    requires Run(states, labels) && i < |states|
    requires id in states[i].subs && states[i].publisher.Idle?
    requires states[i].subs[id].phase.Live? && states[i].subs[id].queue == []
    ensures |states[i].history| >= 1 && states[i].history[|states[i].history| - 1] == TableIn(states[i].current)
    ensures states[i].subs[id].snap < |states[i].history|
    ensures Tracks(states[i].subs[id].client, states[i].history, states[i].subs[id].joined,
                   states[i].subs[id].snap, |states[i].history| - 1)
  {
    RunsKeepInv(states, labels, i);
    var s := states[i];
    var sub := s.subs[id];
    assert SubscriberOk(sub, s, Settled(s, id));
    var pos := Pos(sub);
    assert sub.marker.None? && |s.log[pos..|s.log|]| == 0;
    assert pos == |s.stamps|;
  }

  /**
   Convergence: such a subscriber holds exactly the current table, however old the updates
   were that it applied to its snapshot, unless a change was hidden since it registered.
   */
  lemma SubscribersConverge(states: seq<State>, labels: seq<Label>, i: nat, id: int)
    requires Run(states, labels) && i < |states|
    requires id in states[i].subs && states[i].publisher.Idle?
    requires states[i].subs[id].phase.Live? && states[i].subs[id].queue == []
    requires states[i].history != [] && HidesNothing(states[i].history, states[i].subs[id].joined)
    ensures states[i].subs[id].client == WireTable(TableIn(states[i].current))
  {
    QuietClientsAreOnTrack(states, labels, i, id);
    var sub, last := states[i].subs[id], |states[i].history| - 1;
    OnTrackIsRight(sub.client, states[i].history, sub.joined, sub.snap, last);
  }

  /** No gaps: what a client was sent is a contiguous run of the published updates. */
  lemma ForwardedWithoutGaps(states: seq<State>, labels: seq<Label>, i: nat, id: int)
    requires Run(states, labels) && i < |states| && id in states[i].subs
    ensures var sub, log := states[i].subs[id], states[i].log;
      && Pos(sub) <= |log|
      && sub.forwarded == log[sub.start..Pos(sub)]
      && (forall j :: 0 <= j < |sub.forwarded| ==> !IsEmptyUpdate(sub.forwarded[j]))
  {
    RunsKeepInv(states, labels, i);
    assert SubscriberOk(states[i].subs[id], states[i], Settled(states[i], id));
  }

  /**
   A send can block, on a channel of ten, only behind an overflow marker that is already in
   the channel; until then there is always room, and a channel without a marker never holds
   more than nine.
   */
  lemma BlocksOnlyBehindAMarker(states: seq<State>, labels: seq<Label>, i: nat, id: int)
    requires Run(states, labels) && i < |states| && id in states[i].subs
    requires !states[i].subs[id].phase.Gone?
    ensures var q := states[i].subs[id].queue;
      && ((forall j :: 0 <= j < |q| ==> !IsEmptyUpdate(q[j])) ==> |q| <= 9)
      && |q| <= 10
      && (|q| == 10 ==> exists j :: 0 <= j < |q| && IsEmptyUpdate(q[j]))
  {
    RunsKeepInv(states, labels, i);
    var s := states[i];
    var sub := s.subs[id];
    assert SubscriberOk(sub, s, Settled(s, id));
    if sub.marker.Some? {
      assert IsEmptyUpdate(sub.queue[sub.marker.value - (Pos(sub))]);
    }
  }

  /** A subscriber is dropped for overflow only at a marker, never because of a real update. */
  lemma DroppedOnlyAtAMarker(states: seq<State>, labels: seq<Label>, i: nat)
    requires Run(states, labels) && i < |labels| && labels[i].Forward?
    ensures var id := labels[i].id;
      && id in states[i].subs && id in states[i + 1].subs
      && var sub := states[i].subs[id];
         states[i + 1].subs[id].phase.Gone? <==> sub.marker == Some(Pos(sub))
  {
    RunsKeepInv(states, labels, i);
    var s, id := states[i], labels[i].id;
    assert Step(s, labels[i], states[i + 1]);
    var sub := s.subs[id];
    assert SubscriberOk(sub, s, Settled(s, id));
    if sub.marker != Some(Pos(sub)) {
      HeadIsNext(sub, s.log, Settled(s, id));
    }
  }
}
