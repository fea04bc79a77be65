/**
 How the table of a client relates to the history of published tables while it applies
 updates, also updates older than the snapshot it started from, and also where machines
 were confused and a change therefore never was in an update.
 */
module MdbTracking {
  import opened MdbDelta
  import opened MdbMeaning

  /** The m-th publication left name k alone. */
  ghost predicate UntouchedAt(history: seq<Table>, m: nat, k: string)
    requires m + 1 < |history|
  {
    Untouched(history[m], history[m + 1], k)
  }

  /** No publication from table i up to table j touched name k. */
  ghost predicate Quiet(history: seq<Table>, i: nat, j: nat, k: string)
    requires j < |history|
  {
    forall m :: i <= m < j ==> UntouchedAt(history, m, k)
  }

  /** The m-th publication touched nothing: its update was empty. */
  ghost predicate Silent(history: seq<Table>, m: nat)
    requires m + 1 < |history|
  {
    forall k :: UntouchedAt(history, m, k)
  }

  lemma {:induction false} QuietKeepsName(history: seq<Table>, i: nat, j: nat, k: string)
    requires i <= j < |history| && Quiet(history, i, j, k)
    ensures k in history[i] <==> k in history[j]
    decreases j - i
  {
    if i < j {
      assert UntouchedAt(history, j - 1, k);
      QuietKeepsName(history, i, j - 1, k);
    }
  }

  /** The client holds what name k was in some table, not older than the one at `joined`, and k was not touched since. */
  ghost predicate Stems(client: Table, history: seq<Table>, joined: nat, t: nat, k: string)
    requires t < |history|
  {
    exists i :: joined <= i <= t && At(client, k) == At(WireTable(history[i]), k) && Quiet(history, i, t, k)
  }

  /**
   What a client that started from table `snap` and has applied the updates up to table `at`
   knows about name k. Behind the snapshot it may be wrong about a name that a later update
   will touch, and it misses no name that both tables share.
   */
  ghost predicate RightAt(client: Table, history: seq<Table>, joined: nat, snap: nat, at: nat, k: string)
    requires snap < |history| && at < |history|
  {
    if at >= snap then Stems(client, history, joined, at, k)
    else
      && (Quiet(history, at, snap, k) ==> Stems(client, history, joined, snap, k))
      && (k in history[at] && k in history[snap] ==> k in client)
  }

  ghost predicate Tracks(client: Table, history: seq<Table>, joined: nat, snap: nat, at: nat)
    requires snap < |history| && at < |history|
  {
    forall k :: RightAt(client, history, joined, snap, at, k)
  }

  /** An update that a client without machines ignores is never the last one on a name: behind the snapshot. */
  lemma NoLastTouchIgnoredBehind(
    client: Table, history: seq<Table>, joined: nat, snap: nat, at: nat, n: nat, k: string)
    requires n == at + 1 <= snap < |history| && RightAt(client, history, joined, snap, at, k)
    requires client == map[] && k in history[at] && k in history[n]
    ensures !Quiet(history, n, snap, k)
  {
    if Quiet(history, n, snap, k) {
      QuietKeepsName(history, n, snap, k);
    }
  }

  /** And from the snapshot on no update is ignored. */
  lemma NothingIgnoredAhead(client: Table, history: seq<Table>, joined: nat, at: nat, k: string)
    requires at < |history| && Stems(client, history, joined, at, k) && client == map[]
    ensures k !in history[at]
  {
    var i :| joined <= i <= at && At(client, k) == At(WireTable(history[i]), k) && Quiet(history, i, at, k);
    QuietKeepsName(history, i, at, k);
  }

  lemma StemsFromHere(client: Table, history: seq<Table>, joined: nat, t: nat, k: string)
    requires joined <= t < |history| && At(client, k) == At(WireTable(history[t]), k)
    ensures Stems(client, history, joined, t, k)
  {
    assert Quiet(history, t, t, k);
  }

  lemma StemsOneMore(client: Table, client': Table, history: seq<Table>, joined: nat, at: nat, n: nat, k: string)
    requires n == at + 1 < |history| && Stems(client, history, joined, at, k)
    requires UntouchedAt(history, at, k) && At(client', k) == At(client, k)
    ensures Stems(client', history, joined, n, k)
  {
    var i :| joined <= i <= at && At(client, k) == At(WireTable(history[i]), k) && Quiet(history, i, at, k);
    assert Quiet(history, i, n, k);
  }

  lemma TrackAhead(client: Table, client': Table, history: seq<Table>, joined: nat, at: nat, n: nat, k: string)
    requires n == at + 1 < |history| && Stems(client, history, joined, at, k)
    requires joined <= n || UntouchedAt(history, at, k)
    requires PatchesAt(client, history[at], history[n], client', k)
    ensures Stems(client', history, joined, n, k)
  {
    if UntouchedAt(history, at, k) {
      StemsOneMore(client, client', history, joined, at, n, k);
    } else {
      if client == map[] {
        NothingIgnoredAhead(client, history, joined, at, k);
      }
      StemsFromHere(client', history, joined, n, k);
    }
  }

  lemma TrackBehind(
    client: Table, client': Table, history: seq<Table>, joined: nat, snap: nat, at: nat, n: nat, k: string)
    requires n == at + 1 <= snap < |history| && RightAt(client, history, joined, snap, at, k)
    requires joined <= n || UntouchedAt(history, at, k)
    requires PatchesAt(client, history[at], history[n], client', k)
    ensures Quiet(history, n, snap, k) ==> Stems(client', history, joined, snap, k)
    ensures k in history[n] && k in history[snap] ==> k in client'
  {
    if Quiet(history, n, snap, k) {
      if UntouchedAt(history, at, k) {
        assert Quiet(history, at, snap, k);
        SameStem(client, client', history, joined, snap, k);
      } else {
        if client == map[] && k in history[at] && k in history[n] {
          NoLastTouchIgnoredBehind(client, history, joined, snap, at, n, k);
        }
        assert joined <= n <= snap && At(client', k) == At(WireTable(history[n]), k);
      }
    }
  }

  lemma SameStem(client: Table, client': Table, history: seq<Table>, joined: nat, t: nat, k: string)
    requires t < |history| && Stems(client, history, joined, t, k) && At(client', k) == At(client, k)
    ensures Stems(client', history, joined, t, k)
  {
  }

  /** Applying one more update, old or new, keeps the client on track for every name. */
  lemma TrackOneMore(client: Table, client': Table, history: seq<Table>, joined: nat, snap: nat, at: nat, n: nat)
    requires snap < |history| && n == at + 1 < |history| && Tracks(client, history, joined, snap, at)
    requires joined <= n || Silent(history, at)
    requires IsPatch(client, history[at], history[n], client')
    ensures Tracks(client', history, joined, snap, n)
  {
    forall k
      ensures RightAt(client', history, joined, snap, n, k)
    {
      assert RightAt(client, history, joined, snap, at, k) && PatchesAt(client, history[at], history[n], client', k);
      assert joined <= n || UntouchedAt(history, at, k);
      if at >= snap {
        TrackAhead(client, client', history, joined, at, n, k);
      } else {
        TrackBehind(client, client', history, joined, snap, at, n, k);
        if n == snap {
          assert Quiet(history, n, snap, k);
        }
      }
    }
  }

  /** Publications that touch nothing pass a client by. */
  lemma {:induction false} SkipSilence(client: Table, history: seq<Table>, joined: nat, snap: nat, at: nat, n: nat)
    requires snap < |history| && at <= n < |history| && Tracks(client, history, joined, snap, at)
    requires forall m :: at <= m < n ==> Silent(history, m)
    ensures Tracks(client, history, joined, snap, n)
    decreases n - at
  {
    if at < n {
      var next := at + 1;
      assert Silent(history, at);
      forall k
        ensures PatchesAt(client, history[at], history[next], client, k)
      {
        assert UntouchedAt(history, at, k);
      }
      TrackOneMore(client, client, history, joined, snap, at, next);
      SkipSilence(client, history, joined, snap, next, n);
    }
  }

  /** A snapshot tracks the table it was taken from, whatever updates are still to come. */
  lemma SnapshotTracks(history: seq<Table>, joined: nat, snap: nat, at: nat)
    requires joined <= snap < |history| && at <= snap
    ensures Tracks(WireTable(history[snap]), history, joined, snap, at)
  {
    forall k
      ensures RightAt(WireTable(history[snap]), history, joined, snap, at, k)
    {
      StemsFromHere(WireTable(history[snap]), history, joined, snap, k);
    }
  }

  lemma QuietInLonger(history: seq<Table>, history': seq<Table>, i: nat, j: nat, k: string)
    requires j < |history| && history <= history'
    ensures Quiet(history', i, j, k) <==> Quiet(history, i, j, k)
  {
    forall m | i <= m < j
      ensures UntouchedAt(history', m, k) <==> UntouchedAt(history, m, k)
    {
      assert history'[m] == history[m] && history'[m + 1] == history[m + 1];
    }
    if Quiet(history', i, j, k) {
      forall m | i <= m < j
        ensures UntouchedAt(history, m, k)
      {
        assert UntouchedAt(history', m, k);
      }
    }
  }

  lemma StemsInLonger(client: Table, history: seq<Table>, history': seq<Table>, joined: nat, t: nat, k: string)
    requires t < |history| && history <= history' && Stems(client, history, joined, t, k)
    ensures Stems(client, history', joined, t, k)
  {
    var i :| joined <= i <= t && At(client, k) == At(WireTable(history[i]), k) && Quiet(history, i, t, k);
    assert history'[i] == history[i];
    QuietInLonger(history, history', i, t, k);
  }

  /** What comes later does not change where a client stands. */
  lemma TracksInLonger(client: Table, history: seq<Table>, history': seq<Table>, joined: nat, snap: nat, at: nat)
    requires snap < |history| && at < |history| && history <= history' && Tracks(client, history, joined, snap, at)
    ensures Tracks(client, history', joined, snap, at)
  {
    forall k
      ensures RightAt(client, history', joined, snap, at, k)
    {
      assert RightAt(client, history, joined, snap, at, k);
      QuietInLonger(history, history', at, snap, k);
      var t := if at >= snap then at else snap;
      if Stems(client, history, joined, t, k) {
        StemsInLonger(client, history, history', joined, t, k);
      }
    }
  }

  // ---------------------------------------------------------------- Hidden changes

  /** Since table `from`, no name was left untouched while its visible value came to differ. */
  ghost predicate HidesNothing(history: seq<Table>, from: nat)
    requires history != []
  {
    var last := |history| - 1;
    forall k, i :: from <= i <= last && Quiet(history, i, last, k) ==>
      At(WireTable(history[i]), k) == At(WireTable(history[last]), k)
  }

  lemma HidesNothingLater(history: seq<Table>, from: nat, from': nat)
    requires history != [] && from <= from' && HidesNothing(history, from)
    ensures HidesNothing(history, from')
  {
  }

  /** A client on track with the last table holds it, if nothing was hidden since it joined. */
  lemma OnTrackIsRight(client: Table, history: seq<Table>, joined: nat, snap: nat, last: nat)
    requires |history| == last + 1 && snap <= last && Tracks(client, history, joined, snap, last)
    requires HidesNothing(history, joined)
    ensures client == WireTable(history[last])
  {
    forall k
      ensures At(client, k) == At(WireTable(history[last]), k)
    {
      assert RightAt(client, history, joined, snap, last, k);
      var i :| joined <= i <= last && At(client, k) == At(WireTable(history[i]), k) && Quiet(history, i, last, k);
    }
    SameAt(client, WireTable(history[last]));
  }

  lemma {:induction false} ExactQuietKeeps(history: seq<Table>, i: nat, j: nat, k: string)
    requires i <= j < |history| && Quiet(history, i, j, k)
    requires forall m :: i <= m < j ==> ExactStep(history[m], history[m + 1])
    ensures At(WireTable(history[i]), k) == At(WireTable(history[j]), k)
    decreases j - i
  {
    if i < j {
      assert UntouchedAt(history, j - 1, k) && ExactStep(history[j - 1], history[j]);
      UntouchedExactly(history[j - 1], history[j], k);
      ExactQuietKeeps(history, i, j - 1, k);
    }
  }

  /** Where machines are never confused with their predecessors, nothing is hidden. */
  lemma ExactHidesNothing(history: seq<Table>, from: nat)
    requires history != [] && forall m :: from <= m < |history| - 1 ==> ExactStep(history[m], history[m + 1])
    ensures HidesNothing(history, from)
  {
    var last := |history| - 1;
    forall k, i | from <= i <= last && Quiet(history, i, last, k)
      ensures At(WireTable(history[i]), k) == At(WireTable(history[last]), k)
    {
      ExactQuietKeeps(history, i, last, k);
    }
  }
}
