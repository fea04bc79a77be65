/**
 What the Disruption Manager's operations do to its groups, stated on values, and the
 properties every operation keeps. The manager itself is in DisruptionManager.dfy, its
 runs are in DisruptionSystem.dfy.
 */
module Disruption {
  import opened Basics
  import opened Text

  const GROUP_IDENTIFIER_TAG := "DisruptionManagerGroupIdentifier"
  const GROUP_MAXIMUM_TAG := "DisruptionManagerGroupMaximumDisrupting"

  /** The MDB data an operation looks at. `imageDir` is path.Dir of the required image. */
  datatype Machine = Machine(hostname: string, tags: map<string, string>, imageDir: string)

  /** The exported part of the data of a waiter. */
  datatype WaitInfo = WaitInfo(readyTimeout: int, readyUrl: string)

  datatype WaitData = WaitData(finished: bool, info: WaitInfo)

  datatype Group = Group(
    maxPermitted: nat,
    permitted: map<string, int>,      // hostname to time of last request
    requested: map<string, int>,      // hostname to time of last request
    waiting: map<string, WaitData>)

  type Groups = map<string, Group>

  const NEW_GROUP := Group(1, map[], map[], map[])

  datatype DisruptionState = Denied | Permitted | Requested

  datatype Event =
    | Request(machine: Machine, now: int)
    | Check(machine: Machine)
    | Cancel(machine: Machine, wait: Option<WaitData>)
    | Finish(id: string, hostname: string)   // a ready-waiter completes
    | Recalculate(expireBefore: int)

  function GroupIdentifier(m: Machine): string {
    if GROUP_IDENTIFIER_TAG in m.tags then m.tags[GROUP_IDENTIFIER_TAG] else m.imageDir
  }

  /** The limit a machine's tags ask for; anything unusable counts as one. */
  function Maximum(tags: map<string, string>): nat {
    match ParseUint(Lookup(tags, GROUP_MAXIMUM_TAG))
    case None => 1
    case Some(n) => if n < 1 then 1 else n
  }

  predicate HasRoom(g: Group, maximum: nat) {
    |g.permitted| + |g.waiting| < maximum
  }

  /** Looking a group up creates it when it is missing. */
  function WithGroup(gs: Groups, id: string): Groups {
    if id in gs then gs else gs[id := NEW_GROUP]
  }

  function AfterRequest(g: Group, h: string, maximum: nat, now: int): Group {
    if h in g.permitted then g.(permitted := g.permitted[h := now])
    else if HasRoom(g, maximum) then
      Group(maximum, g.permitted[h := now], g.requested - {h}, g.waiting)
    else Group(maximum, g.permitted, g.requested[h := now], g.waiting)
  }

  function AfterCheck(g: Group, h: string, maximum: nat): Group {
    if h in g.permitted || h !in g.requested then g
    else if !HasRoom(g, maximum) then g.(maxPermitted := maximum)
    else Group(maximum, g.permitted[h := g.requested[h]], g.requested - {h}, g.waiting)
  }

  /** A permitted host that cancels leaves a waiter behind or hands its slot to some requester. */
  ghost predicate AfterCancel(g: Group, h: string, wait: Option<WaitData>, g': Group) {
    if h !in g.permitted then g' == g.(requested := g.requested - {h})
    else if wait.Some? then
      g' == g.(permitted := g.permitted - {h}, requested := g.requested - {h},
               waiting := g.waiting[h := wait.value])
    else if g.requested == map[] then g' == g.(permitted := g.permitted - {h})
    else exists r :: HandsOver(g, h, r, g')
  }

  predicate HandsOver(g: Group, h: string, r: string, g': Group) {
    && r in g.requested
    && g' == g.(permitted := g.permitted[r := g.requested[r]] - {h}, requested := g.requested - {r} - {h})
  }

  /** The entries whose last request is recent enough. */
  function Live(m: map<string, int>, expireBefore: int): map<string, int> {
    map h | h in m && m[h] >= expireBefore :: m[h]
  }

  function Unfinished(waiting: map<string, WaitData>): map<string, WaitData> {
    map h | h in waiting && !waiting[h].finished :: waiting[h]
  }

  /**
   The outcome of a recalculation, for any iteration order: finished waiters and expired
   entries go, and one live requester gets the slot if nobody holds or blocks it.
   */
  ghost predicate AfterRecalculate(g: Group, expireBefore: int, g': Group) {
    var held := Live(g.permitted, expireBefore);
    var asked := Live(g.requested, expireBefore);
    && g'.waiting == Unfinished(g.waiting)
    && g'.maxPermitted == (if asked == map[] then g.maxPermitted else 1)
    && (if held == map[] && g'.waiting == map[] && asked != map[]
        then exists r :: Promotes(asked, r, g'.permitted, g'.requested)
        else g'.permitted == held && g'.requested == asked)
  }

  /** Of those who asked, r and nobody else got in. */
  predicate Promotes(asked: map<string, int>, r: string, permitted: map<string, int>, requested: map<string, int>) {
    r in asked && permitted == map[r := asked[r]] && requested == asked - {r}
  }

  function Infos(waiting: map<string, WaitData>): map<string, WaitInfo> {
    map h | h in waiting :: waiting[h].info
  }

  /** The maps a client or the state file can see. */
  ghost predicate SameExport(g: Group, g': Group) {
    && g.permitted == g'.permitted
    && g.requested == g'.requested
    && Infos(g.waiting) == Infos(g'.waiting)
  }

  function RequestReply(g: Group, h: string, maximum: nat): DisruptionState {
    if h in g.permitted || HasRoom(g, maximum) then Permitted else Requested
  }

  function CheckReply(g: Group, h: string, maximum: nat): DisruptionState {
    if h in g.permitted then Permitted
    else if h !in g.requested then Denied
    else if HasRoom(g, maximum) then Permitted else Requested
  }

  /** A check changes the export when it moves a requester into a free slot. */
  predicate CheckPromotes(g: Group, h: string, maximum: nat) {
    h !in g.permitted && h in g.requested && HasRoom(g, maximum)
  }

  /** All groups except those in `todo` are recalculated; the flag says whether it showed. */
  ghost predicate PartlyRecalculated(
    gs: Groups, expireBefore: int, todo: set<string>, gs': Groups, invalidated: bool)
  {
    && gs'.Keys == gs.Keys && todo <= gs.Keys
    && (forall id :: id in todo ==> gs'[id] == gs[id])
    && (forall id :: id in gs && id !in todo ==> AfterRecalculate(gs[id], expireBefore, gs'[id]))
    && (invalidated <==> exists id :: id in gs && !SameExport(gs[id], gs'[id]))
  }

  function AfterFinish(gs: Groups, id: string, h: string): Groups {
    if id in gs && h in gs[id].waiting
    then gs[id := gs[id].(waiting := gs[id].waiting[h := gs[id].waiting[h].(finished := true)])]
    else gs
  }

  /** One operation: its effect on all groups, its reply, and whether it invalidates the export. */
  ghost predicate Next(gs: Groups, e: Event, gs': Groups, reply: Option<DisruptionState>, invalidated: bool) {
    match e
    case Request(m, now) =>
      var id, max := GroupIdentifier(m), Maximum(m.tags);
      var g := WithGroup(gs, id)[id];
      && gs' == gs[id := AfterRequest(g, m.hostname, max, now)]
      && reply == Some(RequestReply(g, m.hostname, max))
      && invalidated
    case Check(m) =>
      var id, max := GroupIdentifier(m), Maximum(m.tags);
      var g := WithGroup(gs, id)[id];
      && gs' == gs[id := AfterCheck(g, m.hostname, max)]
      && reply == Some(CheckReply(g, m.hostname, max))
      && invalidated == CheckPromotes(g, m.hostname, max)
    case Cancel(m, wait) =>
      var id := GroupIdentifier(m);
      var g := WithGroup(gs, id)[id];
      && id in gs' && gs' == gs[id := gs'[id]]
      && AfterCancel(g, m.hostname, wait, gs'[id])
      && reply == Some(Denied)
      && invalidated == (m.hostname in g.permitted || m.hostname in g.requested)
    case Finish(id, h) =>
      gs' == AfterFinish(gs, id, h) && reply == None && !invalidated
    case Recalculate(expireBefore) =>
      PartlyRecalculated(gs, expireBefore, {}, gs', invalidated) && reply == None
  }

  /** Creating the group first does not matter to an operation that then replaces it. */
  lemma CreatedGroupIsReplaced(gs: Groups, id: string, g: Group)
    ensures WithGroup(gs, id)[id := g] == gs[id := g]
  {
  }

  lemma RecalculateNone(gs: Groups, expireBefore: int)
    ensures PartlyRecalculated(gs, expireBefore, gs.Keys, gs, false)
  {
  }

  lemma RecalculatedAll(gs: Groups, expireBefore: int, gs': Groups, invalidated: bool)
    requires PartlyRecalculated(gs, expireBefore, {}, gs', invalidated)
    ensures Next(gs, Recalculate(expireBefore), gs', None, invalidated)
  {
  }

  lemma RecalculateOneMore(
    gs: Groups, expireBefore: int, todo: set<string>, gs': Groups, invalidated: bool, id: string, g: Group)
    requires PartlyRecalculated(gs, expireBefore, todo, gs', invalidated)
    requires id in todo && AfterRecalculate(gs[id], expireBefore, g)
    ensures PartlyRecalculated(gs, expireBefore, todo - {id}, gs'[id := g],
      invalidated || !SameExport(gs[id], g))
  {
    var gs'' := gs'[id := g];
    assert gs''[id] == g;
    assert forall x :: x in gs && x != id ==> gs''[x] == gs'[x];
    assert SameExport(gs[id], gs'[id]);
    if invalidated {
      var x :| x in gs && !SameExport(gs[x], gs'[x]);
      assert gs''[x] == gs'[x];
    }
  }

  // ---------------------------------------------------------------- What every event keeps

  /** No host is both permitted and requested. */
  predicate Apart(g: Group) {
    g.permitted.Keys !! g.requested.Keys
  }

  ghost predicate Exclusive(gs: Groups) {
    forall id :: id in gs ==> Apart(gs[id])
  }

  /** No group disrupts, or waits for, more than k hosts. */
  ghost predicate WithinCapacity(gs: Groups, k: nat) {
    forall id :: id in gs ==> |gs[id].permitted| + |gs[id].waiting| <= k
  }

  /** The tags an event brings along ask for at most k. */
  predicate AsksAtMost(e: Event, k: nat) {
    (e.Request? || e.Check? || e.Cancel?) ==> Maximum(e.machine.tags) <= k
  }

  lemma CancelKeepsApart(g: Group, h: string, wait: Option<WaitData>, g': Group)
    requires Apart(g) && AfterCancel(g, h, wait, g')
    ensures Apart(g')
  {
  }

  lemma RecalculateKeepsApart(g: Group, expireBefore: int, g': Group)
    requires Apart(g) && AfterRecalculate(g, expireBefore, g')
    ensures Apart(g')
  {
  }

  lemma EventKeepsExclusive(
    gs: Groups, e: Event, gs': Groups, reply: Option<DisruptionState>, invalidated: bool)
    requires Exclusive(gs) && Next(gs, e, gs', reply, invalidated)
    ensures Exclusive(gs')
  {
    match e
    case Request(_, _) =>
    case Check(_) =>
    case Cancel(m, wait) =>
      var id := GroupIdentifier(m);
      CancelKeepsApart(WithGroup(gs, id)[id], m.hostname, wait, gs'[id]);
    case Finish(_, _) =>
    case Recalculate(expireBefore) =>
      forall id | id in gs
        ensures Apart(gs'[id])
      {
        RecalculateKeepsApart(gs[id], expireBefore, gs'[id]);
      }
  }

  lemma SubmapIsSmaller<V>(m: map<string, V>, m': map<string, V>)
    requires m.Keys <= m'.Keys
    ensures |m| <= |m'|
  {
    SubsetIsSmaller(m.Keys, m'.Keys);
  }

  lemma UpdateGrowsByOne<V>(m: map<string, V>, h: string, v: V)
    ensures |m[h := v]| == |m| + (if h in m then 0 else 1)
  {
    assert m[h := v].Keys == m.Keys + {h};
  }

  lemma RemoveShrinksByOne<V>(m: map<string, V>, h: string)
    ensures |m - {h}| == |m| - (if h in m then 1 else 0)
  {
    if h in m {
      assert m.Keys == (m - {h}).Keys + {h};
    } else {
      assert m - {h} == m;
    }
  }

  lemma CancelKeepsCapacity(g: Group, h: string, wait: Option<WaitData>, g': Group)
    requires AfterCancel(g, h, wait, g')
    ensures |g'.permitted| + |g'.waiting| <= |g.permitted| + |g.waiting|
  {
    RemoveShrinksByOne(g.permitted, h);
    if h in g.permitted {
      if wait.Some? {
        UpdateGrowsByOne(g.waiting, h, wait.value);
      } else if g.requested != map[] {
        var r :| HandsOver(g, h, r, g');
        UpdateGrowsByOne(g.permitted, r, g.requested[r]);
        RemoveShrinksByOne(g.permitted[r := g.requested[r]], h);
      }
    }
  }

  lemma RecalculateKeepsCapacity(g: Group, expireBefore: int, g': Group)
    requires AfterRecalculate(g, expireBefore, g')
    ensures |g'.permitted| + |g'.waiting| <= 1
         || |g'.permitted| + |g'.waiting| <= |g.permitted| + |g.waiting|
  {
    SubmapIsSmaller(Live(g.permitted, expireBefore), g.permitted);
    SubmapIsSmaller(Unfinished(g.waiting), g.waiting);
  }

  /** The capacity bound survives every event, also the slot hand-over that checks no limit. */
  lemma EventKeepsCapacity(
    gs: Groups, e: Event, gs': Groups, reply: Option<DisruptionState>, invalidated: bool, k: nat)
    requires 1 <= k && WithinCapacity(gs, k) && AsksAtMost(e, k)
    requires Next(gs, e, gs', reply, invalidated)
    ensures WithinCapacity(gs', k)
  {
    forall id | id in gs'
      ensures |gs'[id].permitted| + |gs'[id].waiting| <= k
    {
      var g, g' := WithGroup(gs, id)[id], gs'[id];
      assert |g.permitted| + |g.waiting| <= k;
      match e
      case Request(m, now) =>
        UpdateGrowsByOne(g.permitted, m.hostname, now);
      case Check(m) =>
        if m.hostname in g.requested {
          UpdateGrowsByOne(g.permitted, m.hostname, g.requested[m.hostname]);
        }
      case Cancel(m, wait) =>
        if id == GroupIdentifier(m) {
          CancelKeepsCapacity(g, m.hostname, wait, g');
        }
      case Finish(_, h) =>
        if h in g.waiting {
          UpdateGrowsByOne(g.waiting, h, g.waiting[h].(finished := true));
        }
      case Recalculate(expireBefore) =>
        RecalculateKeepsCapacity(g, expireBefore, g');
    }
  }

  /** The reply says where the host is afterwards. */
  lemma RepliesAreTruthful(
    gs: Groups, e: Event, gs': Groups, reply: Option<DisruptionState>, invalidated: bool)
    requires Exclusive(gs) && Next(gs, e, gs', reply, invalidated)
    requires e.Request? || e.Check? || e.Cancel?
    ensures var id, h := GroupIdentifier(e.machine), e.machine.hostname;
      && id in gs' && reply.Some?
      && (reply.value == Permitted <==> h in gs'[id].permitted)
      && (reply.value == Requested <==> h in gs'[id].requested)
      && (reply.value == Denied <==> h !in gs'[id].permitted && h !in gs'[id].requested)
  {
    if e.Cancel? {
      var id := GroupIdentifier(e.machine);
      assert AfterCancel(WithGroup(gs, id)[id], e.machine.hostname, e.wait, gs'[id]);
    }
  }

  /** A client's operation leaves every other group alone. */
  lemma OtherGroupsUnchanged(
    gs: Groups, e: Event, gs': Groups, reply: Option<DisruptionState>, invalidated: bool, id: string)
    requires Next(gs, e, gs', reply, invalidated)
    requires e.Request? || e.Check? || e.Cancel?
    requires id != GroupIdentifier(e.machine)
    ensures id in gs <==> id in gs'
    ensures id in gs ==> gs'[id] == gs[id]
  {
    if e.Cancel? {
      var own := GroupIdentifier(e.machine);
      assert gs' == gs[own := gs'[own]];
    }
  }

  /** The time of a host's last request, wherever the host stands. */
  function LastRequest(g: Group, h: string): Option<int> {
    if h in g.permitted then Some(g.permitted[h])
    else if h in g.requested then Some(g.requested[h]) else None
  }

  lemma CancelRefreshesNothing(g: Group, own: string, wait: Option<WaitData>, g': Group, h: string)
    requires Apart(g) && AfterCancel(g, own, wait, g')
    ensures LastRequest(g', h).Some? ==> LastRequest(g', h) == LastRequest(g, h)
  {
  }

  lemma RecalculationRefreshesNothing(g: Group, expireBefore: int, g': Group, h: string)
    requires Apart(g) && AfterRecalculate(g, expireBefore, g')
    ensures LastRequest(g', h).Some? ==> LastRequest(g', h) == LastRequest(g, h)
  {
    var held, asked := Live(g.permitted, expireBefore), Live(g.requested, expireBefore);
    if held == map[] && g'.waiting == map[] && asked != map[] {
      var r :| Promotes(asked, r, g'.permitted, g'.requested);
      assert h in asked ==> h in g.requested && h !in g.permitted;
    }
  }

  lemma RequestRefreshesOwn(g: Group, own: string, maximum: nat, now: int, h: string)
    requires Apart(g) && LastRequest(AfterRequest(g, own, maximum, now), h).Some?
    ensures LastRequest(AfterRequest(g, own, maximum, now), h) == if h == own then Some(now) else LastRequest(g, h)
  {
  }

  lemma CheckRefreshesNothing(g: Group, own: string, maximum: nat, h: string)
    requires Apart(g)
    ensures LastRequest(AfterCheck(g, own, maximum), h) == LastRequest(g, h)
  {
  }

  lemma FinishRefreshesNothing(gs: Groups, id: string, own: string, id': string, h: string)
    requires id' in gs
    ensures LastRequest(AfterFinish(gs, id, own)[id'], h) == LastRequest(gs[id'], h)
  {
  }

  /** Only a request of the host itself enters it or renews its time. */
  lemma OnlyRequestsRefresh(
    gs: Groups, e: Event, gs': Groups, reply: Option<DisruptionState>, invalidated: bool, id: string, h: string)
    requires Exclusive(gs) && Next(gs, e, gs', reply, invalidated)
    requires id in gs' && LastRequest(gs'[id], h).Some?
    ensures var t := LastRequest(gs'[id], h).value;
      || (e.Request? && GroupIdentifier(e.machine) == id && e.machine.hostname == h && e.now == t)
      || (id in gs && LastRequest(gs[id], h) == Some(t))
  {
    var g := WithGroup(gs, id)[id];
    assert Apart(g) && (id in gs || LastRequest(g, h) == None);
    if (e.Request? || e.Check? || e.Cancel?) && GroupIdentifier(e.machine) != id {
      OtherGroupsUnchanged(gs, e, gs', reply, invalidated, id);
    } else {
      match e
      case Request(m, now) => RequestRefreshesOwn(g, m.hostname, Maximum(m.tags), now, h);
      case Check(m) => CheckRefreshesNothing(g, m.hostname, Maximum(m.tags), h);
      case Cancel(m, wait) => CancelRefreshesNothing(g, m.hostname, wait, gs'[id], h);
      case Finish(other, own) => FinishRefreshesNothing(gs, other, own, id, h);
      case Recalculate(expireBefore) => RecalculationRefreshesNothing(g, expireBefore, gs'[id], h);
    }
  }

  // ---------------------------------------------------------------- Recalculation

  /** Nobody holds a slot, nobody blocks it, and somebody wants it. */
  ghost predicate Idle(g: Group, expireBefore: int) {
    && Live(g.permitted, expireBefore) == map[]
    && Unfinished(g.waiting) == map[]
    && Live(g.requested, expireBefore) != map[]
  }

  lemma NonemptyCounts<V>(m: map<string, V>)
    requires m != map[]
    ensures |m| >= 1
  {
    var h :| h in m;
    RemoveShrinksByOne(m, h);
  }

  lemma SplitOff(m: map<string, int>, r: string)
    requires r in m
    ensures map[r := m[r]] + (m - {r}) == m
    ensures |map[r := m[r]]| == 1
  {
    assert map[r := m[r]].Keys == {r};
  }

  lemma OutcomeOfRecalculation(g: Group, expireBefore: int, g': Group) returns (promoted: Option<string>)
    requires AfterRecalculate(g, expireBefore, g')
    ensures promoted.Some? <==> Idle(g, expireBefore)
    ensures var held, asked := Live(g.permitted, expireBefore), Live(g.requested, expireBefore);
      && g'.waiting == Unfinished(g.waiting)
      && match promoted
         case None => g'.permitted == held && g'.requested == asked
         case Some(r) => Promotes(asked, r, g'.permitted, g'.requested)
  {
    var asked := Live(g.requested, expireBefore);
    if Idle(g, expireBefore) {
      var r :| Promotes(asked, r, g'.permitted, g'.requested);
      promoted := Some(r);
    } else {
      promoted := None;
    }
  }

  lemma NobodyIsLost(g: Group, expireBefore: int, g': Group)
    requires AfterRecalculate(g, expireBefore, g')
    ensures g'.permitted + g'.requested == Live(g.permitted, expireBefore) + Live(g.requested, expireBefore)
  {
    var promoted := OutcomeOfRecalculation(g, expireBefore, g');
    if promoted.Some? {
      var held, asked := Live(g.permitted, expireBefore), Live(g.requested, expireBefore);
      SplitOff(asked, promoted.value);
      assert held + asked == asked;
    }
  }

  lemma NothingStaysExpired(g: Group, expireBefore: int, g': Group)
    requires AfterRecalculate(g, expireBefore, g')
    ensures forall h :: h in g'.permitted ==> g'.permitted[h] >= expireBefore
    ensures forall h :: h in g'.requested ==> g'.requested[h] >= expireBefore
    ensures forall h :: h in g'.waiting ==> !g'.waiting[h].finished
  {
    var promoted := OutcomeOfRecalculation(g, expireBefore, g');
  }

  /** A recalculation loses no live host, changes no time and leaves nothing expired or finished. */
  lemma RecalculationConserves(g: Group, expireBefore: int, g': Group)
    requires Apart(g) && AfterRecalculate(g, expireBefore, g')
    ensures Apart(g')
    ensures g'.permitted + g'.requested == Live(g.permitted, expireBefore) + Live(g.requested, expireBefore)
    ensures forall h :: h in g'.permitted ==> g'.permitted[h] >= expireBefore
    ensures forall h :: h in g'.requested ==> g'.requested[h] >= expireBefore
    ensures forall h :: h in g'.waiting ==> !g'.waiting[h].finished
  {
    RecalculateKeepsApart(g, expireBefore, g');
    NobodyIsLost(g, expireBefore, g');
    NothingStaysExpired(g, expireBefore, g');
  }

  /**
   A recalculation promotes exactly one host exactly when the group stood idle, and never
   leaves requesters in a group without holders and waiters.
   */
  lemma RecalculationMakesProgress(g: Group, expireBefore: int, g': Group)
    requires AfterRecalculate(g, expireBefore, g')
    ensures |g'.permitted| == |Live(g.permitted, expireBefore)| + (if Idle(g, expireBefore) then 1 else 0)
    ensures |g'.requested| == |Live(g.requested, expireBefore)| - (if Idle(g, expireBefore) then 1 else 0)
    ensures g'.requested != map[] ==> |g'.permitted| + |g'.waiting| >= 1
  {
    var promoted := OutcomeOfRecalculation(g, expireBefore, g');
    match promoted
    case Some(r) =>
      SplitOff(Live(g.requested, expireBefore), r);
      RemoveShrinksByOne(Live(g.requested, expireBefore), r);
    case None =>
      if g'.permitted != map[] {
        NonemptyCounts(g'.permitted);
      } else if g'.waiting != map[] {
        NonemptyCounts(g'.waiting);
      }
  }

  /** Two recalculations of one group differ at most in which requester they promoted. */
  lemma RecalculationIsOrderIndependent(g: Group, expireBefore: int, g1: Group, g2: Group)
    requires Apart(g)
    requires AfterRecalculate(g, expireBefore, g1) && AfterRecalculate(g, expireBefore, g2)
    ensures g1.waiting == g2.waiting && g1.maxPermitted == g2.maxPermitted
    ensures |g1.permitted| == |g2.permitted| && |g1.requested| == |g2.requested|
    ensures g1.permitted + g1.requested == g2.permitted + g2.requested
    ensures Live(g.permitted, expireBefore) != map[] || Unfinished(g.waiting) != map[] ==> g1 == g2
  {
    RecalculationConserves(g, expireBefore, g1);
    RecalculationConserves(g, expireBefore, g2);
    RecalculationMakesProgress(g, expireBefore, g1);
    RecalculationMakesProgress(g, expireBefore, g2);
  }

  lemma LiveStays(m: map<string, int>, expireBefore: int)
    requires forall h :: h in m ==> m[h] >= expireBefore
    ensures Live(m, expireBefore) == m
  {
  }

  lemma UnfinishedStays(waiting: map<string, WaitData>)
    requires forall h :: h in waiting ==> !waiting[h].finished
    ensures Unfinished(waiting) == waiting
  {
  }

  lemma RecalculatedIsSettled(g: Group, expireBefore: int, g': Group)
    requires Apart(g)
    requires AfterRecalculate(g, expireBefore, g')
    ensures Live(g'.permitted, expireBefore) == g'.permitted
    ensures Live(g'.requested, expireBefore) == g'.requested
    ensures Unfinished(g'.waiting) == g'.waiting
    ensures !(g'.permitted == map[] && g'.waiting == map[] && g'.requested != map[])
  {
    RecalculationConserves(g, expireBefore, g');
    RecalculationMakesProgress(g, expireBefore, g');
    LiveStays(g'.permitted, expireBefore);
    LiveStays(g'.requested, expireBefore);
    UnfinishedStays(g'.waiting);
  }

  /** Recalculating again at the same moment does nothing visible. */
  lemma RecalculationSettles(g: Group, expireBefore: int, g': Group, g'': Group)
    requires Apart(g)
    requires AfterRecalculate(g, expireBefore, g') && AfterRecalculate(g', expireBefore, g'')
    ensures SameExport(g', g'')
  {
    RecalculatedIsSettled(g, expireBefore, g');
  }
}
