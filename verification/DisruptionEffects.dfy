/**
 What each event of the Disruption Manager does, said of sizes, places and times rather than of
 the functions that compute it: when a slot is granted, who gets it, and who is left alone.
 */
module DisruptionEffects {
  import opened Basics
  import opened Text
  import opened Disruption

  /** The machine belongs to group id: that of its tag, or else the directory of its image. */
  ghost predicate Belongs(m: Machine, id: string) {
    if "DisruptionManagerGroupIdentifier" in m.tags then id == m.tags["DisruptionManagerGroupIdentifier"]
    else id == m.imageDir
  }

  /** A decimal number that fits into 64 bits and is not zero. */
  ghost predicate IsLimit(s: string) {
    s != "" && AllDigits(s) && 1 <= DigitsValue(s) < TWO_TO_THE_64
  }

  /** The tags allow n hosts at a time: what they say, if that is a limit, and else one. */
  ghost predicate Allow(tags: map<string, string>, n: nat) {
    if "DisruptionManagerGroupMaximumDisrupting" in tags && IsLimit(tags["DisruptionManagerGroupMaximumDisrupting"])
    then n == DigitsValue(tags["DisruptionManagerGroupMaximumDisrupting"])
    else n == 1
  }

  lemma DecimalAllows(tags: map<string, string>, n: nat)
    requires "DisruptionManagerGroupMaximumDisrupting" in tags && 1 <= n < TWO_TO_THE_64
    requires tags["DisruptionManagerGroupMaximumDisrupting"] == Decimal(n)
    ensures Allow(tags, n)
  {
    DecimalIsDigits(n);
  }

  /** The group as it is, or a new one. */
  function GroupIn(gs: Groups, id: string): Group {
    if id in gs then gs[id] else Group(1, map[], map[], map[])
  }

  ghost predicate SameEntry<V>(a: map<string, V>, b: map<string, V>, x: string) {
    (x in a <==> x in b) && (x in a && x in b ==> a[x] == b[x])
  }

  /** Host x keeps its place and its time. */
  ghost predicate Stays(g: Group, g': Group, x: string) {
    SameEntry(g.permitted, g'.permitted, x) && SameEntry(g.requested, g'.requested, x)
  }

  ghost predicate OthersStay(g: Group, g': Group, h: string) {
    g'.waiting == g.waiting && forall x :: x != h ==> Stays(g, g', x)
  }

  lemma EventNamesGroup(m: Machine, id: string, n: nat)
    requires Belongs(m, id) && Allow(m.tags, n)
    ensures GroupIdentifier(m) == id && Maximum(m.tags) == n
  {
  }

  // ---------------------------------------------------------------- Clients

  lemma OneEntryChanged<V>(m: map<string, V>, m': map<string, V>, h: string)
    requires m' == m - {h} || (h in m' && m' == m[h := m'[h]])
    ensures forall x :: x != h ==> SameEntry(m, m', x)
  {
  }

  lemma RequestKeepsOthers(g: Group, h: string, n: nat, now: int)
    ensures OthersStay(g, AfterRequest(g, h, n, now), h)
  {
    OneEntryChanged(g.permitted, g.permitted[h := now], h);
    OneEntryChanged(g.requested, g.requested[h := now], h);
    OneEntryChanged(g.requested, g.requested - {h}, h);
  }

  lemma RequestEffect(g: Group, h: string, n: nat, now: int, g': Group, reply: DisruptionState)
    requires g' == AfterRequest(g, h, n, now) && reply == RequestReply(g, h, n)
    ensures reply == Permitted <==> h in g.permitted || |g.permitted| + |g.waiting| < n
    ensures if reply == Permitted then h in g'.permitted && g'.permitted[h] == now
            else reply == Requested && h !in g'.permitted && h in g'.requested && g'.requested[h] == now
  {
  }

  /** A request is granted exactly if the host holds a slot or there are fewer holders and waiters than the limit. */
  lemma RequestIsGrantedIff(
    gs: Groups, m: Machine, now: int, gs': Groups, reply: Option<DisruptionState>, invalidated: bool, id: string, n: nat)
    requires Next(gs, Request(m, now), gs', reply, invalidated) && Belongs(m, id) && Allow(m.tags, n)
    ensures var g, h := GroupIn(gs, id), m.hostname;
      && id in gs' && OthersStay(g, gs'[id], h)
      && (reply == Some(Permitted) <==> h in g.permitted || |g.permitted| + |g.waiting| < n)
      && (if reply == Some(Permitted) then h in gs'[id].permitted && gs'[id].permitted[h] == now
          else reply == Some(Requested) && h !in gs'[id].permitted && h in gs'[id].requested && gs'[id].requested[h] == now)
  {
    EventNamesGroup(m, id, n);
    RequestKeepsOthers(GroupIn(gs, id), m.hostname, n, now);
    RequestEffect(GroupIn(gs, id), m.hostname, n, now, gs'[id], reply.value);
  }

  lemma CheckEffect(g: Group, h: string, n: nat, g': Group, reply: DisruptionState)
    requires g' == AfterCheck(g, h, n) && reply == CheckReply(g, h, n)
    ensures OthersStay(g, g', h)
    ensures reply == Permitted <==> h in g.permitted || (h in g.requested && |g.permitted| + |g.waiting| < n)
    ensures reply == Denied <==> h !in g.permitted && h !in g.requested
    ensures if reply == Permitted && h !in g.permitted
            then h in g'.permitted && g'.permitted[h] == g.requested[h] && h !in g'.requested
            else Stays(g, g', h)
  {
  }

  /** A check grants exactly to a holder, or to a requester while there are fewer holders and waiters than the limit. */
  lemma CheckIsGrantedIff(
    gs: Groups, m: Machine, gs': Groups, reply: Option<DisruptionState>, invalidated: bool, id: string, n: nat)
    requires Next(gs, Check(m), gs', reply, invalidated) && Belongs(m, id) && Allow(m.tags, n)
    ensures var g, h := GroupIn(gs, id), m.hostname;
      && id in gs' && OthersStay(g, gs'[id], h)
      && (reply == Some(Permitted) <==>
            h in g.permitted || (h in g.requested && |g.permitted| + |g.waiting| < n))
      && (reply == Some(Denied) <==> h !in g.permitted && h !in g.requested)
      && (if reply == Some(Permitted) && h !in g.permitted
          then h in gs'[id].permitted && gs'[id].permitted[h] == g.requested[h] && h !in gs'[id].requested
          else Stays(g, gs'[id], h))
  {
    EventNamesGroup(m, id, n);
    CheckEffect(GroupIn(gs, id), m.hostname, n, gs'[id], reply.value);
  }

  /** The slot went from h to r, with the time of r's request, and nobody else moved. */
  ghost predicate HandedOver(g: Group, g': Group, h: string, r: string) {
    && r != h && r in g.requested && r !in g'.requested
    && r in g'.permitted && g'.permitted[r] == g.requested[r]
    && forall x :: x != h && x != r ==> Stays(g, g', x)
  }

  lemma CancelEffect(g: Group, h: string, wait: Option<WaitData>, g': Group)
    requires Apart(g) && AfterCancel(g, h, wait, g')
    ensures h !in g'.permitted && h !in g'.requested
    ensures h in g.permitted && wait.Some? ==>
      g'.waiting == g.waiting[h := wait.value] && forall x :: x != h ==> Stays(g, g', x)
    ensures h in g.permitted && wait.None? && g.requested != map[] ==>
      g'.waiting == g.waiting && exists r :: HandedOver(g, g', h, r)
    ensures h !in g.permitted || (wait.None? && g.requested == map[]) ==> OthersStay(g, g', h)
  {
    if h in g.permitted && wait.None? && g.requested != map[] {
      var r :| HandsOver(g, h, r, g');
      assert HandedOver(g, g', h, r);
    }
  }

  lemma HandOverKeepsSizes(g: Group, g': Group, h: string, r: string)
    requires Apart(g) && h in g.permitted && h !in g'.permitted && h !in g'.requested && HandedOver(g, g', h, r)
    ensures |g'.permitted| == |g.permitted| && |g'.requested| == |g.requested| - 1
  {
    forall x
      ensures x in g'.permitted.Keys <==> x == r || (x in g.permitted.Keys && x != h)
      ensures x in g.requested.Keys <==> x == r || x in g'.requested.Keys
    {
      if x != h && x != r {
        assert Stays(g, g', x);
      }
    }
    SwapElement(g.permitted.Keys, g'.permitted.Keys, h, r);
    AddElement(g'.requested.Keys, r);
    assert g'.requested.Keys + {r} == g.requested.Keys;
  }

  /**
   A holder that cancels leaves exactly its wait data behind, or else hands its slot to one
   requester if there is any; apart from those two nobody moves.
   */
  lemma CancelHandsOver(
    gs: Groups, m: Machine, wait: Option<WaitData>, gs': Groups, reply: Option<DisruptionState>, invalidated: bool, id: string)
    requires Exclusive(gs) && Next(gs, Cancel(m, wait), gs', reply, invalidated) && Belongs(m, id)
    ensures id in gs' && reply == Some(Denied)
    ensures var g, g', h := GroupIn(gs, id), gs'[id], m.hostname;
      && h !in g'.permitted && h !in g'.requested
      && (h in g.permitted && wait.Some? ==>
            g'.waiting == g.waiting[h := wait.value] && forall x :: x != h ==> Stays(g, g', x))
      && (h in g.permitted && wait.None? && g.requested != map[] ==>
            && g'.waiting == g.waiting && (exists r :: HandedOver(g, g', h, r))
            && |g'.permitted| == |g.permitted| && |g'.requested| == |g.requested| - 1)
      && (h !in g.permitted || (wait.None? && g.requested == map[]) ==> OthersStay(g, g', h))
  {
    var g, g', h := GroupIn(gs, id), gs'[id], m.hostname;
    CancelEffect(g, h, wait, g');
    if h in g.permitted && wait.None? && g.requested != map[] {
      var r :| HandedOver(g, g', h, r);
      HandOverKeepsSizes(g, g', h, r);
    }
  }

  // ---------------------------------------------------------------- Waiters and recalculations

  /** A waiter that completes is marked, and nothing else in any group changes. */
  lemma FinishMarksExactly(
    gs: Groups, id: string, h: string, gs': Groups, reply: Option<DisruptionState>, invalidated: bool, id': string)
    requires Next(gs, Finish(id, h), gs', reply, invalidated)
    ensures id' in gs <==> id' in gs'
    ensures id' in gs ==>
      && gs'[id'].permitted == gs[id'].permitted && gs'[id'].requested == gs[id'].requested
      && gs'[id'].waiting.Keys == gs[id'].waiting.Keys
      && forall x :: x in gs[id'].waiting ==>
           && gs'[id'].waiting[x].info == gs[id'].waiting[x].info
           && (gs'[id'].waiting[x].finished <==> gs[id'].waiting[x].finished || (id' == id && x == h))
  {
  }

  /** x is in the map with a time that has not expired. */
  ghost predicate LiveIn(m: map<string, int>, expireBefore: int, x: string) {
    x in m && m[x] >= expireBefore
  }

  /** Somebody holds a slot or waits. */
  ghost predicate Taken(g: Group, expireBefore: int) {
    (exists x :: LiveIn(g.permitted, expireBefore, x)) || (exists x :: x in g.waiting && !g.waiting[x].finished)
  }

  lemma TakenIff(g: Group, expireBefore: int)
    ensures Taken(g, expireBefore) <==> Live(g.permitted, expireBefore) != map[] || Unfinished(g.waiting) != map[]
  {
    assert forall x :: LiveIn(g.permitted, expireBefore, x) <==> x in Live(g.permitted, expireBefore);
    assert forall x :: x in g.waiting && !g.waiting[x].finished <==> x in Unfinished(g.waiting);
    if Live(g.permitted, expireBefore) != map[] {
      var x :| x in Live(g.permitted, expireBefore);
      assert LiveIn(g.permitted, expireBefore, x);
    }
    if Unfinished(g.waiting) != map[] {
      var x :| x in Unfinished(g.waiting);
      assert x in g.waiting && !g.waiting[x].finished;
    }
  }

  /** Of the live requesters, r and nobody else is promoted. */
  ghost predicate OnlyPromoted(g: Group, expireBefore: int, g': Group, r: string) {
    && LiveIn(g.requested, expireBefore, r)
    && forall x :: x in g'.permitted <==> x == r
  }

  /**
   A recalculation, host by host: exactly the unfinished waiters and the live hosts stay, with
   their data and times; nobody changes sides while somebody holds or waits; otherwise exactly
   one live requester is promoted, if there is one.
   */
  lemma RecalculatedExactly(
    gs: Groups, expireBefore: int, gs': Groups, reply: Option<DisruptionState>, invalidated: bool, id: string)
    requires Exclusive(gs) && Next(gs, Recalculate(expireBefore), gs', reply, invalidated)
    ensures id in gs <==> id in gs'
    ensures id in gs ==> RecalculatedGroup(gs[id], expireBefore, gs'[id])
  {
    if id in gs {
      var g, g' := gs[id], gs'[id];
      assert Apart(g) && AfterRecalculate(g, expireBefore, g');
      TakenIff(g, expireBefore);
      WaitersExactly(g, expireBefore, g');
      HostsExactly(g, expireBefore, g');
      SidesExactly(g, expireBefore, g');
    }
  }

  ghost predicate RecalculatedGroup(g: Group, expireBefore: int, g': Group) {
    && (forall x :: x in g'.waiting <==> x in g.waiting && !g.waiting[x].finished)
    && (forall x :: x in g'.waiting ==> g'.waiting[x] == g.waiting[x])
    && (forall x :: x in g'.permitted || x in g'.requested <==>
          LiveIn(g.permitted, expireBefore, x) || LiveIn(g.requested, expireBefore, x))
    && (forall x :: x in g'.permitted || x in g'.requested ==> LastRequest(g', x) == LastRequest(g, x))
    && (Taken(g, expireBefore) ==> forall x :: x in g'.permitted <==> LiveIn(g.permitted, expireBefore, x))
    && (!Taken(g, expireBefore) && (exists x :: LiveIn(g.requested, expireBefore, x)) ==>
          exists r :: OnlyPromoted(g, expireBefore, g', r))
  }

  lemma WaitersExactly(g: Group, expireBefore: int, g': Group)
    requires AfterRecalculate(g, expireBefore, g')
    ensures forall x :: x in g'.waiting <==> x in g.waiting && !g.waiting[x].finished
    ensures forall x :: x in g'.waiting ==> g'.waiting[x] == g.waiting[x]
  {
  }

  lemma HostsExactly(g: Group, expireBefore: int, g': Group)
    requires Apart(g) && AfterRecalculate(g, expireBefore, g')
    ensures forall x :: x in g'.permitted || x in g'.requested <==>
      LiveIn(g.permitted, expireBefore, x) || LiveIn(g.requested, expireBefore, x)
    ensures forall x :: x in g'.permitted || x in g'.requested ==> LastRequest(g', x) == LastRequest(g, x)
  {
    NobodyIsLost(g, expireBefore, g');
    var all := Live(g.permitted, expireBefore) + Live(g.requested, expireBefore);
    assert (g'.permitted + g'.requested).Keys == all.Keys;
    forall x | x in g'.permitted || x in g'.requested
      ensures LastRequest(g', x) == LastRequest(g, x)
    {
      RecalculationRefreshesNothing(g, expireBefore, g', x);
    }
    assert forall x :: x in g'.permitted || x in g'.requested <==> x in g'.permitted + g'.requested;
    assert forall x :: x in all <==> LiveIn(g.permitted, expireBefore, x) || LiveIn(g.requested, expireBefore, x);
  }

  lemma SidesExactly(g: Group, expireBefore: int, g': Group)
    requires AfterRecalculate(g, expireBefore, g')
    requires Taken(g, expireBefore) <==> Live(g.permitted, expireBefore) != map[] || Unfinished(g.waiting) != map[]
    ensures Taken(g, expireBefore) ==> forall x :: x in g'.permitted <==> LiveIn(g.permitted, expireBefore, x)
    ensures !Taken(g, expireBefore) && (exists x :: LiveIn(g.requested, expireBefore, x)) ==>
      exists r :: OnlyPromoted(g, expireBefore, g', r)
  {
    var promoted := OutcomeOfRecalculation(g, expireBefore, g');
    if !Taken(g, expireBefore) && (exists x :: LiveIn(g.requested, expireBefore, x)) {
      var x :| LiveIn(g.requested, expireBefore, x);
      assert x in Live(g.requested, expireBefore);
      assert OnlyPromoted(g, expireBefore, g', promoted.value);
    }
  }

  // ---------------------------------------------------------------- Invalidation

  /** Apart from requests, an event invalidates the export exactly if some visible map of some group changed. */
  lemma InvalidatesIff(
    gs: Groups, e: Event, gs': Groups, reply: Option<DisruptionState>, invalidated: bool)
    requires Exclusive(gs) && Next(gs, e, gs', reply, invalidated) && !e.Request?
    ensures invalidated <==> exists id :: id in gs && id in gs' && !SameExport(gs[id], gs'[id])
  {
    match e
    case Check(m) =>
      CheckIsVisibleIff(gs, m, gs', reply, invalidated);
    case Cancel(m, wait) =>
      CancelIsVisibleIff(gs, m, wait, gs', reply, invalidated);
    case Finish(id, h) =>
      forall x | x in gs
        ensures x in gs' && SameExport(gs[x], gs'[x])
      {
        FinishMarksExactly(gs, id, h, gs', reply, invalidated, x);
      }
    case Recalculate(_) =>
  }

  lemma CheckIsVisibleIff(gs: Groups, m: Machine, gs': Groups, reply: Option<DisruptionState>, invalidated: bool)
    requires Next(gs, Check(m), gs', reply, invalidated)
    ensures invalidated <==> exists id :: id in gs && id in gs' && !SameExport(gs[id], gs'[id])
  {
    var own := GroupIdentifier(m);
    if invalidated {
      assert own in gs && m.hostname !in gs[own].permitted && m.hostname in gs'[own].permitted;
      assert !SameExport(gs[own], gs'[own]);
    } else {
      assert forall id :: id in gs && id != own ==> gs'[id] == gs[id];
    }
  }

  lemma CancelIsVisibleIff(
    gs: Groups, m: Machine, wait: Option<WaitData>, gs': Groups, reply: Option<DisruptionState>, invalidated: bool)
    requires Exclusive(gs) && Next(gs, Cancel(m, wait), gs', reply, invalidated)
    ensures invalidated <==> exists id :: id in gs && id in gs' && !SameExport(gs[id], gs'[id])
  {
    var own, h := GroupIdentifier(m), m.hostname;
    var g := GroupIn(gs, own);
    CancelEffect(g, h, wait, gs'[own]);
    if invalidated {
      assert own in gs && !SameExport(gs[own], gs'[own]);
    } else {
      assert g.requested - {h} == g.requested;
      assert forall id :: id in gs && id != own ==> gs'[id] == gs[id];
    }
  }
}
