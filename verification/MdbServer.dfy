/**
 The MDB server: its table, its subscribers' channels, and its operations, each proved to
 be one step of the protocol in MdbReplication.dfy. Publisher and subscribers run
 concurrently; a method stands for what happens between two points where another goroutine
 may come in, and a send that would block is one that does not happen yet.
 */
module MdbServers {
  import opened Basics
  import opened Machines
  import opened MdbDelta
  import opened MdbMeaning
  import opened MdbTracking
  import opened MdbReplication
  import opened MdbConvergence

  class MdbServer {
    var currentMdb: Option<Mdb>
    var updateChannels: map<int, seq<MdbUpdate>>   // by connection, what is in the channel
    var starting: set<int>                         // connections that have not read the table yet
    ghost var state: State

    constructor ()
      ensures Valid() && state == START && currentMdb == None
    {
      currentMdb, updateChannels, starting, state := None, map[], {}, START;
      new;
      StartIsReachable();
    }

    ghost predicate Valid()
      reads this
    {
      && IsReachable(state)
      && state.current == currentMdb
      && (forall id :: id in updateChannels <==> id in state.subs && !state.subs[id].phase.Gone?)
      && (forall id :: id in updateChannels ==> updateChannels[id] == state.subs[id].queue)
      && (forall id :: id in starting <==> id in state.subs && state.subs[id].phase.Registered?)
    }

    // -------------------------------------------------------------- The publisher

    /** The table is swapped in before anybody is told; the update depends on the two tables only. */
    method SetCurrent(prev: Option<Mdb>, next: Mdb) returns (u: MdbUpdate)
      requires Valid() && state.publisher.Idle? && prev == currentMdb && WellFormed(next)
      modifies this`currentMdb, this`state
      ensures Valid() && Step(old(state), Swap(next, u), state)
    {
      ReachableKeepsLog(state);
      currentMdb := Some(next);
      u := MakeUpdate(prev, next);
      state := AfterSwap(state, next, u);
      StepIsReachable(old(state), Swap(next, u), state);
    }

    /** The channels to send to: none for an empty update, else all that are registered now. */
    method GetUpdateChannels(u: MdbUpdate) returns (channels: set<int>)
      requires Valid() && state.publisher == Swapped(u)
      modifies this`state
      ensures Valid() && Step(old(state), ListChannels, state)
      ensures state.publisher == if IsEmptyUpdate(u) then Idle else Sending(u, channels)
      ensures channels == if u == MdbUpdate([], [], []) then {} else updateChannels.Keys
    {
      if IsEmptyUpdate(u) {
        channels := {};
        state := state.(publisher := Idle);
      } else {
        channels := updateChannels.Keys;
        assert forall id :: id in channels <==> id in Listeners(state);
        assert channels == Listeners(state);
        state := state.(publisher := Sending(u, channels));
      }
      StepIsReachable(old(state), ListChannels, state);
    }

    /** Sending to a channel that was closed meanwhile does nothing. */
    method SendUpdate(id: int, u: MdbUpdate)
      requires Valid() && state.publisher.Sending? && state.publisher.update == u
      requires id in state.publisher.todo && id in state.subs && !Blocks(state.subs[id])
      modifies this`updateChannels, this`state
      ensures Valid() && Step(old(state), Send(id), state)
      ensures id in old(updateChannels) ==> updateChannels == old(updateChannels)[id := old(updateChannels)[id] +
        [if |old(updateChannels)[id]| <= 8 then u else MdbUpdate([], [], [])]]
      ensures id !in old(updateChannels) ==> updateChannels == old(updateChannels)
    {
      ghost var sub := state.subs[id];
      state := state.(publisher := state.publisher.(todo := state.publisher.todo - {id}));
      if id in updateChannels {
        var channel := updateChannels[id];
        if CAPACITY - |channel| < 2 {
          updateChannels := updateChannels[id := channel + [MARKER]];
        } else {
          updateChannels := updateChannels[id := channel + [u]];
        }
        state := state.(subs := state.subs[id := Enqueue(sub, u, |state.log| - 1)]);
      }
      StepIsReachable(old(state), Send(id), state);
    }

    /** A blocked send waits until the subscriber, if it keeps taking, has taken something out of its channel. */
    method AwaitRoom(id: int)
      requires Valid() && id in state.subs
      modifies this`updateChannels, this`starting, this`state
      ensures Valid() && id in state.subs && !Blocks(state.subs[id])
      ensures state == old(state).(subs := state.subs) && state.subs.Keys == old(state).subs.Keys
    {
      if id in updateChannels && |updateChannels[id]| >= CAPACITY {
        ReachableKeepsQueue(state, id);
        if id in starting {
          var _ := ReadCurrent(id);
        }
        var _ := ForwardNext(id);
      }
    }

    /** A whole publication, its sends in any order and waiting where a channel is full. */
    method PushUpdateToAll(prev: Option<Mdb>, next: Mdb) returns (u: MdbUpdate)
      requires Valid() && state.publisher.Idle? && prev == currentMdb && WellFormed(next)
      modifies this
      ensures Valid() && state.publisher.Idle? && currentMdb == Some(next)
      ensures state.history == old(state).history + [next.table]
      ensures IsUpdate(TableIn(prev), next, u)
    {
      u := SetCurrent(prev, next);
      var channels := GetUpdateChannels(u);
      if IsEmptyUpdate(u) {
        return;
      }
      var todo := channels;
      while todo != {}
        invariant Valid() && state.publisher == Sending(u, todo) && todo <= state.subs.Keys
        invariant currentMdb == Some(next) && state.history == old(state).history + [next.table]
      {
        ghost var some := SomeElement(todo);
        var id :| id in todo;
        AwaitRoom(id);
        SendUpdate(id, u);
        todo := todo - {id};
      }
      ghost var sent := state;
      state := state.(publisher := Idle);
      StepIsReachable(sent, MdbReplication.Done, state);
    }

    // -------------------------------------------------------------- A subscriber

    static method FirstMessage(current: Option<Mdb>) returns (first: Option<MdbUpdate>)
      ensures first == if current.None? then None else Some(MdbUpdate(current.value.machines, [], []))
    {
      if current.None? {
        return None;
      }
      var machines := current.value.machines;
      var toAdd: seq<Machine> := [];
      for i := 0 to |machines|
        invariant toAdd == machines[..i]
      {
        toAdd := toAdd + [machines[i]];
      }
      assert machines[..|machines|] == machines;
      return Some(MdbUpdate(toAdd, [], []));
    }

    method Register(id: int)
      requires Valid() && id !in state.subs
      modifies this`updateChannels, this`starting, this`state
      ensures Valid() && Step(old(state), MdbReplication.Register(id), state)
      ensures updateChannels == old(updateChannels)[id := []] && starting == old(starting) + {id}
    {
      ReachableKeepsLog(state);
      updateChannels := updateChannels[id := []];
      starting := starting + {id};
      state := state.(subs := state.subs[id :=
        Subscriber(Registered, [], map[], Settled(state, id), |state.history| - 1, 0, [], None)]);
      StepIsReachable(old(state), MdbReplication.Register(id), state);
    }

    /** The first message: all of the current table, read after the channel was registered. */
    method ReadCurrent(id: int) returns (first: Option<MdbUpdate>)
      requires Valid() && id in starting
      modifies this`starting, this`state
      ensures Valid() && Step(old(state), Read(id), state) && starting == old(starting) - {id}
      ensures first == if currentMdb.None? then None else Some(MdbUpdate(currentMdb.value.machines, [], []))
      ensures state.subs[id].client == if first.None? then map[] else ClientApply(map[], OnWire(first.value))
    {
      ReachableKeepsLog(state);
      first := FirstMessage(currentMdb);
      starting := starting - {id};
      state := state.(subs := state.subs[id := state.subs[id].(
        phase := Live, snap := |state.history| - 1, client := Snapshot(state.current))]);
      StepIsReachable(old(state), Read(id), state);
    }

    /** The next update goes on to the client, unless it is the marker: then the client is dropped. */
    method ForwardNext(id: int) returns (sent: Option<MdbUpdate>)
      requires Valid() && id in updateChannels && id !in starting && updateChannels[id] != []
      modifies this`updateChannels, this`state
      ensures Valid() && Step(old(state), Forward(id), state)
      ensures var head := old(updateChannels)[id][0];
        if head == MdbUpdate([], [], []) then sent == None && updateChannels == old(updateChannels) - {id}
        else sent == Some(head) && updateChannels == old(updateChannels)[id := old(updateChannels)[id][1..]]
      ensures sent.None? <==> state.subs[id].phase.Gone?
      ensures sent.Some? ==> state.subs[id].client == ClientApply(old(state).subs[id].client, OnWire(sent.value))
    {
      var update := updateChannels[id][0];
      ghost var sub := state.subs[id];
      if IsEmptyUpdate(update) {
        updateChannels := updateChannels - {id};
        sent := None;
      } else {
        updateChannels := updateChannels[id := updateChannels[id][1..]];
        sent := Some(update);
      }
      state := state.(subs := state.subs[id := Forwarded(sub)]);
      StepIsReachable(old(state), Forward(id), state);
    }

    method Disconnect(id: int)
      requires Valid() && id in state.subs
      modifies this`updateChannels, this`starting, this`state
      ensures Valid() && Step(old(state), Close(id), state)
      ensures updateChannels == old(updateChannels) - {id} && starting == old(starting) - {id}
    {
      updateChannels := updateChannels - {id};
      starting := starting - {id};
      state := state.(subs := state.subs[id := state.subs[id].(phase := Gone)]);
      StepIsReachable(old(state), Close(id), state);
    }

    /** Whatever was called in which order, a quiet client holds the server's table unless a change was hidden from it. */
    lemma ClientsConverge(id: int)
      requires Valid() && IsQuiet(state, id)
      ensures state.history != [] && state.history[|state.history| - 1] == TableIn(currentMdb)
      ensures HidesNothing(state.history, state.subs[id].joined) ==>
        state.subs[id].client == WireTable(TableIn(currentMdb))
    {
      ReachableKeepsLog(state);
      if HidesNothing(state.history, state.subs[id].joined) {
        NothingHiddenConverges(state.history, state.subs[id].joined);
      }
    }
  }
}
