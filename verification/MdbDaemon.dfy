/** The MDB daemon's loop: it publishes, through its server, a table that differs from the last one. */
module MdbDaemons {
  import opened Basics
  import opened Machines
  import opened MdbDelta
  import opened MdbMeaning
  import opened MdbTracking
  import opened MdbConvergence
  import opened MdbLoad
  import opened MdbServers

  class Daemon {
    const server: MdbServer
    var prevMdb: Option<Mdb>
    ghost var published: seq<Mdb>         // everything pushed so far
    ghost var lastLoaded: Option<Mdb>     // what the last successful load cycle delivered

    constructor ()
      ensures Valid() && published == [] && fresh(server)
    {
      server := new MdbServer();
      prevMdb, published, lastLoaded := None, [], None;
    }

    /** The daemon remembers what it published last, which is what the server serves. */
    ghost predicate Valid()
      reads this, server
    {
      && server.Valid() && server.state.publisher.Idle?
      && prevMdb == server.currentMdb
      && prevMdb == (if published == [] then None else Some(published[|published| - 1]))
      && server.state.history == History(published)
      && (forall i :: 0 <= i < |published| ==> WellFormed(published[i]))
      && !Counted(TableIn(prevMdb), TableIn(lastLoaded))
    }

    method Publish(next: Mdb) returns (u: MdbUpdate)
      requires Valid() && WellFormed(next)
      modifies this, server
      ensures Valid() && published == old(published) + [next] && lastLoaded == Some(next)
      ensures IsUpdate(TableIn(old(prevMdb)), next, u)
    {
      u := server.PushUpdateToAll(prevMdb, next);
      prevMdb, published, lastLoaded := Some(next), published + [next], Some(next);
      HistoryExtends(old(published), next);
      NeverCountedAgainstItself(next.table);
    }

    /** One turn of the daemon's loop on what the load cycle delivered. */
    method Cycle(loaded: Option<Mdb>) returns (pushed: Option<MdbUpdate>)
      requires Valid() && (loaded.Some? ==> WellFormed(loaded.value))
      modifies this, server
      ensures Valid()
      ensures pushed.None? ==> published == old(published)
      ensures pushed.Some? ==> loaded.Some? && published == old(published) + [loaded.value]
      ensures pushed.Some? ==> IsUpdate(TableIn(old(prevMdb)), loaded.value, pushed.value)
      ensures loaded.Some? ==> (pushed.Some? <==> Counted(TableIn(old(prevMdb)), loaded.value.table))
      ensures lastLoaded == if loaded.Some? then loaded else old(lastLoaded)
    {
      if loaded.None? {
        return None;
      }
      var different := Differs(prevMdb, loaded.value);
      if different {
        var u := Publish(loaded.value);
        pushed := Some(u);
      } else {
        lastLoaded := loaded;
        pushed := None;
      }
    }

    /** Between turns a quiet client holds the table published last, unless a change was hidden from it. */
    lemma ClientsHoldThePublished(id: int)
      requires Valid() && IsQuiet(server.state, id)
      ensures HidesNothing(History(published), server.state.subs[id].joined) ==>
        server.state.subs[id].client == WireTable(TableIn(prevMdb))
    {
      server.ClientsConverge(id);
    }

    /**
     Between turns, whatever was loaded and published before: a quiet client from which no
     published change was hidden holds the table loaded last, exactly if no published machine is
     taken for the one loaded under its name although they differ.
     */
    lemma ClientsHoldTheLoaded(id: int)
      requires Valid() && IsQuiet(server.state, id)
      requires HidesNothing(History(published), server.state.subs[id].joined)
      ensures server.state.subs[id].client == WireTable(TableIn(lastLoaded)) <==>
        forall k :: k in TableIn(prevMdb) && k in TableIn(lastLoaded) ==>
          !Confuses(TableIn(prevMdb)[k], TableIn(lastLoaded)[k])
    {
      ClientsHoldThePublished(id);
      CountedExactly(TableIn(prevMdb), TableIn(lastLoaded));
      UnpublishedChangeIff(TableIn(prevMdb), TableIn(lastLoaded));
    }
  }
}
