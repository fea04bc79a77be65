/** The MDB daemon's table of machines whose updates are paused. */
module PauseTables {
  import opened Basics
  import opened Machines

  /** One second, in Go's unit of time. */
  const SECOND := 1_000_000_000
  const MINUTE := 60 * SECOND

  datatype PauseData = PauseData(reason: string, remove: bool, since: int, until: int, username: string)

  type Pauses = map<string, PauseData>

  datatype PauseRequest = PauseRequest(hostname: string, reason: string, remove: bool, until: int)

  /** What the server knows about a caller. */
  datatype AuthInfo = AuthInfo(username: string, haveMethodAccess: bool, groups: set<string>)

  datatype Limits = Limits(perUser: nat, duration: int)

  datatype Outcome =
    | Granted
    | NoAuthentication | TooShort | TooLong | NoMdbData | NotInMdb | NotOwner
    | TooMany | PausedByAnother | NotPaused

  function EntriesOf(t: Pauses, user: string): set<string> {
    set h | h in t && t[h].username == user
  }

  /** The decision under the lock: a user beyond the limit is refused, then another's entry is respected. */
  function Decide(t: Pauses, host: string, user: string, limit: nat): Outcome {
    if |EntriesOf(t, user)| > limit then TooMany
    else if host in t && t[host].username != user then PausedByAnother
    else Granted
  }

  function AfterPause(t: Pauses, r: PauseRequest, user: string, limit: nat, now: int): Pauses {
    if Decide(t, r.hostname, user, limit).Granted?
    then t[r.hostname := PauseData(r.reason, r.remove, now, r.until, user)]
    else t
  }

  function ResumeOutcome(t: Pauses, host: string, user: string): Outcome {
    if host !in t then NotPaused else if t[host].username != user then PausedByAnother else Granted
  }

  function AfterResume(t: Pauses, host: string, user: string): Pauses {
    if ResumeOutcome(t, host, user).Granted? then t - {host} else t
  }

  function Unexpired(t: Pauses, now: int): Pauses {
    map h | h in t && t[h].until > now :: t[h]
  }

  /** An entry that was there from the start, or ends within the duration of its beginning. */
  ghost predicate Bounded(t: Pauses, h: string, given: Pauses, duration: int) {
    h in t ==> t[h].until <= t[h].since + duration || (h in given && given[h] == t[h])
  }

  class PauseTable {
    const limits: Limits
    var machines: Pauses
    ghost const given: Pauses     // what was loaded at the start

    constructor (machines: Pauses, limits: Limits)
      ensures Valid() && this.machines == machines == given && this.limits == limits
    {
      this.machines, this.given, this.limits := machines, machines, limits;
    }

    /** All entries made since the start are short enough, and nobody made more than the limit and one. */
    ghost predicate Valid()
      reads this
    {
      && (forall h :: Bounded(machines, h, given, limits.duration))
      && (forall user :: |EntriesOf(machines, user)| <= |EntriesOf(given, user)| ||
                         |EntriesOf(machines, user)| <= limits.perUser + 1)
    }

    method CountFor(user: string) returns (n: nat)
      ensures n == |set h | h in machines && machines[h].username == user|
    {
      n := 0;
      var todo := machines.Keys;
      ghost var counted: set<string> := {};
      while todo != {}
        invariant todo <= machines.Keys && n == |counted|
        invariant forall h :: h in counted <==> h in machines && h !in todo && machines[h].username == user
      {
        var h :| h in todo;
        if machines[h].username == user {
          n, counted := n + 1, counted + {h};
        }
        todo := todo - {h};
      }
      assert counted == set h | h in machines && machines[h].username == user;
    }

    /** The decision under the lock. */
    method PauseUpdatesTakeLock(r: PauseRequest, user: string, now: int) returns (outcome: Outcome)
      requires Valid() && r.until <= now + limits.duration
      modifies this`machines
      ensures Valid()
      ensures outcome == TooMany <==> |set h | h in old(machines) && old(machines)[h].username == user| > limits.perUser
      ensures outcome == PausedByAnother <==>
        && |set h | h in old(machines) && old(machines)[h].username == user| <= limits.perUser
        && r.hostname in old(machines) && old(machines)[r.hostname].username != user
      ensures outcome in {TooMany, PausedByAnother, Granted}
      ensures machines == if outcome == Granted
        then old(machines)[r.hostname := PauseData(r.reason, r.remove, now, r.until, user)] else old(machines)
      ensures outcome == Decide(old(machines), r.hostname, user, limits.perUser)
    {
      var userCount := CountFor(user);
      if userCount > limits.perUser {
        return TooMany;
      }
      if r.hostname in machines && user != machines[r.hostname].username {
        return PausedByAnother;
      }
      machines := machines[r.hostname := PauseData(r.reason, r.remove, now, r.until, user)];
      outcome := Granted;
      PauseKeepsValid(old(machines), r, user, limits, now, given);
    }

    /** A pause request, screened at one moment and entered at a later one: the first test that fails decides. */
    method PauseUpdates(
      r: PauseRequest, auth: Option<AuthInfo>, mdb: Option<map<string, Machine>>, screened: int, entered: int)
      returns (outcome: Outcome)
      requires Valid() && screened <= entered
      modifies this`machines
      ensures Valid()
      ensures outcome == NoAuthentication <==> auth.None?
      ensures outcome == TooShort <==> auth.Some? && r.until - screened <= 59 * SECOND
      ensures outcome == TooLong <==>
        auth.Some? && r.until - screened > 59 * SECOND && r.until - screened > limits.duration
      ensures outcome == NoMdbData <==>
        auth.Some? && 59 * SECOND < r.until - screened <= limits.duration && mdb.None?
      ensures outcome == NotInMdb <==>
        auth.Some? && 59 * SECOND < r.until - screened <= limits.duration && mdb.Some? && r.hostname !in mdb.value
      ensures outcome == NotOwner <==>
        && auth.Some? && 59 * SECOND < r.until - screened <= limits.duration && mdb.Some? && r.hostname in mdb.value
        && !auth.value.haveMethodAccess && auth.value.username !in Items(mdb.value[r.hostname].ownerUsers)
        && forall g :: g in Items(mdb.value[r.hostname].ownerGroups) ==> g !in auth.value.groups
      ensures outcome == TooMany ==>
        |set h | h in old(machines) && old(machines)[h].username == auth.value.username| > limits.perUser
      ensures outcome == PausedByAnother ==>
        && |set h | h in old(machines) && old(machines)[h].username == auth.value.username| <= limits.perUser
        && r.hostname in old(machines) && old(machines)[r.hostname].username != auth.value.username
      ensures outcome == Granted ==>
        auth.Some? && 59 * SECOND < r.until - screened <= limits.duration && mdb.Some? && r.hostname in mdb.value
      ensures outcome == Granted ==>
        && Possible(Pause(r, auth.value.username, screened, entered), limits)
        && |set h | h in old(machines) && old(machines)[h].username == auth.value.username| <= limits.perUser
        && (r.hostname in old(machines) ==> old(machines)[r.hostname].username == auth.value.username)
      ensures outcome != NotPaused
      ensures machines == if outcome == Granted
        then old(machines)[r.hostname := PauseData(r.reason, r.remove, entered, r.until, auth.value.username)]
        else old(machines)
      ensures outcome == Granted ==>
        machines == After(old(machines), Pause(r, auth.value.username, screened, entered), limits)
    {
      if auth.None? {
        return NoAuthentication;
      }
      var duration := r.until - screened;
      if duration <= MINUTE - SECOND {
        return TooShort;
      }
      if duration > limits.duration {
        return TooLong;
      }
      if mdb.None? {
        return NoMdbData;
      }
      if r.hostname !in mdb.value {
        return NotInMdb;
      }
      var haveAccess := HaveAccess(auth.value, mdb.value[r.hostname]);
      if !haveAccess {
        return NotOwner;
      }
      outcome := PauseUpdatesTakeLock(r, auth.value.username, entered);
    }

    static method HaveAccess(auth: AuthInfo, m: Machine) returns (ok: bool)
      ensures !ok <==> !auth.haveMethodAccess && auth.username !in Items(m.ownerUsers)
                       && forall g :: g in Items(m.ownerGroups) ==> g !in auth.groups
    {
      if auth.haveMethodAccess || auth.username in Items(m.ownerUsers) {
        return true;
      }
      var groups := Items(m.ownerGroups);
      for i := 0 to |groups|
        invariant forall j :: 0 <= j < i ==> groups[j] !in auth.groups
      {
        if groups[i] in auth.groups {
          assert groups[i] in groups;
          return true;
        }
      }
      return false;
    }

    method ResumeUpdatesTakeLock(host: string, user: string) returns (outcome: Outcome)
      requires Valid()
      modifies this`machines
      ensures Valid()
      ensures outcome == NotPaused <==> host !in old(machines)
      ensures outcome == PausedByAnother <==> host in old(machines) && old(machines)[host].username != user
      ensures outcome in {NotPaused, PausedByAnother, Granted}
      ensures machines == if outcome == Granted then old(machines) - {host} else old(machines)
      ensures machines == After(old(machines), Resume(host, user), limits)
    {
      if host !in machines {
        return NotPaused;
      } else if user != machines[host].username {
        return PausedByAnother;
      }
      FewerKeepsValid(machines, machines - {host}, limits, given);
      machines := machines - {host};
      return Granted;
    }

    /** Removes what has expired and names it. */
    method GarbageCollect(now: int) returns (removed: seq<string>)
      requires Valid()
      modifies this`machines
      ensures Valid()
      ensures forall h :: h in machines <==> h in old(machines) && old(machines)[h].until > now
      ensures forall h :: h in machines ==> machines[h] == old(machines)[h]
      ensures forall h :: h in removed <==> h in old(machines) && h !in machines
      ensures |removed| == |old(machines)| - |machines|
      ensures machines == After(old(machines), Collect(now), limits)
    {
      removed := [];
      var todo := machines.Keys;
      while todo != {}
        invariant todo <= machines.Keys <= old(machines).Keys
        invariant forall h :: h in machines ==> machines[h] == old(machines)[h]
        invariant forall h :: h in old(machines) && h !in todo ==> (h in machines <==> old(machines)[h].until > now)
        invariant forall h :: h in removed <==> h in old(machines) && h !in machines
        invariant |removed| == |old(machines)| - |machines|
      {
        var h :| h in todo;
        if now - machines[h].until >= 0 {
          AddElement(machines.Keys - {h}, h);
          assert machines.Keys - {h} + {h} == machines.Keys && (machines - {h}).Keys == machines.Keys - {h};
          machines := machines - {h};
          removed := removed + [h];
        }
        todo := todo - {h};
      }
      FewerKeepsValid(old(machines), machines, limits, given);
    }
  }

  lemma FewerKeepsValid(t: Pauses, t': Pauses, limits: Limits, given: Pauses)
    requires forall h :: h in t' ==> h in t && t'[h] == t[h]
    requires forall h :: Bounded(t, h, given, limits.duration)
    requires forall user :: |EntriesOf(t, user)| <= |EntriesOf(given, user)| || |EntriesOf(t, user)| <= limits.perUser + 1
    ensures forall h :: Bounded(t', h, given, limits.duration)
    ensures forall user :: |EntriesOf(t', user)| <= |EntriesOf(given, user)| || |EntriesOf(t', user)| <= limits.perUser + 1
  {
    forall h
      ensures Bounded(t', h, given, limits.duration)
    {
      assert Bounded(t, h, given, limits.duration);
    }
    forall user
      ensures |EntriesOf(t', user)| <= |EntriesOf(given, user)| || |EntriesOf(t', user)| <= limits.perUser + 1
    {
      SubsetIsSmaller(EntriesOf(t', user), EntriesOf(t, user));
    }
  }

  lemma PauseKeepsValid(t: Pauses, r: PauseRequest, user: string, limits: Limits, now: int, given: Pauses)
    requires Decide(t, r.hostname, user, limits.perUser).Granted? && r.until <= now + limits.duration
    requires forall h :: Bounded(t, h, given, limits.duration)
    requires forall u :: |EntriesOf(t, u)| <= |EntriesOf(given, u)| || |EntriesOf(t, u)| <= limits.perUser + 1
    ensures var t' := t[r.hostname := PauseData(r.reason, r.remove, now, r.until, user)];
      && (forall h :: Bounded(t', h, given, limits.duration))
      && (forall u :: |EntriesOf(t', u)| <= |EntriesOf(given, u)| || |EntriesOf(t', u)| <= limits.perUser + 1)
  {
    var t' := t[r.hostname := PauseData(r.reason, r.remove, now, r.until, user)];
    forall h
      ensures Bounded(t', h, given, limits.duration)
    {
      assert Bounded(t, h, given, limits.duration);
    }
    forall u
      ensures |EntriesOf(t', u)| <= |EntriesOf(given, u)| || |EntriesOf(t', u)| <= limits.perUser + 1
    {
      EventKeepsCount(t, Pause(r, user, now, now), limits, u);
    }
  }

  // ---------------------------------------------------------------- Runs

  datatype Event =
    | Pause(request: PauseRequest, user: string, screened: int, entered: int)
    | Resume(hostname: string, username: string)
    | Collect(now: int)

  /** A pause reaches the table only after its duration was accepted, a moment earlier. */
  predicate Possible(e: Event, limits: Limits) {
    e.Pause? ==>
      && MINUTE - SECOND < e.request.until - e.screened <= limits.duration
      && e.screened <= e.entered
  }

  function After(t: Pauses, e: Event, limits: Limits): Pauses {
    match e
    case Pause(r, user, _, entered) => AfterPause(t, r, user, limits.perUser, entered)
    case Resume(h, user) => AfterResume(t, h, user)
    case Collect(now) => Unexpired(t, now)
  }

  function Run(t: Pauses, events: seq<Event>, limits: Limits): Pauses {
    if events == [] then t else
    After(Run(t, events[..|events| - 1], limits), events[|events| - 1], limits)
  }

  /** The event is the owner's own, or a collection after the entry's time. */
  predicate MayTouch(e: Event, h: string, entry: PauseData) {
    match e
    case Pause(r, user, _, _) => r.hostname == h && user == entry.username
    case Resume(host, user) => host == h && user == entry.username
    case Collect(now) => now >= entry.until
  }

  lemma EntryIsRespected(t: Pauses, e: Event, limits: Limits, h: string)
    requires h in t && (h !in After(t, e, limits) || After(t, e, limits)[h] != t[h])
    ensures MayTouch(e, h, t[h])
  {
  }

  /** In every run an entry is replaced or removed only by the user who made it, or after it expired. */
  lemma {:induction false} EntriesAreRespected(t: Pauses, events: seq<Event>, limits: Limits, h: string)
    requires h in t && (h !in Run(t, events, limits) || Run(t, events, limits)[h] != t[h])
    ensures exists i :: 0 <= i < |events| && MayTouch(events[i], h, t[h])
  {
    if events != [] {
      var n := |events| - 1;
      var before := Run(t, events[..n], limits);
      if h in before && before[h] == t[h] {
        EntryIsRespected(before, events[n], limits, h);
        assert MayTouch(events[n], h, t[h]);
      } else {
        EntriesAreRespected(t, events[..n], limits, h);
        var i :| 0 <= i < n && MayTouch(events[..n][i], h, t[h]);
        assert MayTouch(events[i], h, t[h]);
      }
    }
  }

  lemma EventKeepsCount(t: Pauses, e: Event, limits: Limits, user: string)
    ensures |EntriesOf(After(t, e, limits), user)| <= |EntriesOf(t, user)|
         || |EntriesOf(After(t, e, limits), user)| <= limits.perUser + 1
  {
    var before, after := EntriesOf(t, user), EntriesOf(After(t, e, limits), user);
    if e.Pause? && e.user == user {
      AddElement(before, e.request.hostname);
      SubsetIsSmaller(after, before + {e.request.hostname});
    } else {
      SubsetIsSmaller(after, before);
    }
  }

  /** Over every run no user has more entries than at the start or than the limit plus one. */
  lemma {:induction false} CountOverRuns(t: Pauses, events: seq<Event>, limits: Limits, user: string)
    ensures |EntriesOf(Run(t, events, limits), user)| <= |EntriesOf(t, user)|
         || |EntriesOf(Run(t, events, limits), user)| <= limits.perUser + 1
  {
    if events != [] {
      var n := |events| - 1;
      CountOverRuns(t, events[..n], limits, user);
      EventKeepsCount(Run(t, events[..n], limits), events[n], limits, user);
    }
  }

  /**
   The configured limit itself is not kept: a granted pause leaves the user within it
   exactly if the user was below it, or at it and renewed an entry of their own.
   */
  lemma LimitIsKeptIff(t: Pauses, r: PauseRequest, user: string, limit: nat, now: int)
    requires Decide(t, r.hostname, user, limit).Granted?
    ensures |EntriesOf(AfterPause(t, r, user, limit, now), user)| <= limit <==>
      |EntriesOf(t, user)| < limit || r.hostname in t
  {
    var after := EntriesOf(AfterPause(t, r, user, limit, now), user);
    AddElement(EntriesOf(t, user), r.hostname);
    assert after == EntriesOf(t, user) + {r.hostname};
  }

  /** Already with a limit of zero a user may pause one machine, and then not even renew it. */
  lemma LimitOfZeroAdmitsOne(r: PauseRequest, user: string, now: int)
    ensures var t := AfterPause(map[], r, user, 0, now);
      |EntriesOf(t, user)| == 1 && Decide(t, r.hostname, user, 0) == TooMany
  {
    var t := AfterPause(map[], r, user, 0, now);
    assert EntriesOf(map[], user) == {};
    assert EntriesOf(t, user) == {r.hostname};
  }

  /** Every entry made during a run ends within the maximum duration of its beginning. */
  lemma {:induction false} DurationsOverRuns(t: Pauses, events: seq<Event>, limits: Limits, h: string)
    requires forall i :: 0 <= i < |events| ==> Possible(events[i], limits)
    requires h in Run(t, events, limits)
    ensures var entry := Run(t, events, limits)[h];
      entry.until <= entry.since + limits.duration || (h in t && t[h] == entry)
  {
    if events != [] {
      var n := |events| - 1;
      assert Possible(events[n], limits);
      if h in Run(t, events[..n], limits) {
        DurationsOverRuns(t, events[..n], limits, h);
      }
    }
  }
}
