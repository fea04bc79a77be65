/**
 The Disruption Manager at work: the manager object, its write loop and the file it saves to.
 Every method is a sequence of steps of DisruptionSystem.dfy, so what holds for all runs holds
 for the object.
 */
module DisruptionServices {
  import opened Basics
  import opened Disruption
  import opened DisruptionExport
  import opened DisruptionManagers
  import opened DisruptionSystem
  import opened DisruptionLoad
  import opened DisruptionRestart

  class Service {
    const dm: DisruptionManager
    var writer: Writer
    var file: GroupList
    ghost const start: System
    ghost var state: System

    /** No state file was found: there is no write loop. */
    constructor Fresh(maxDuration: int, unwritten: GroupList)
      ensures Valid() && fresh(dm) && fresh(dm.owned) && start == DisruptionSystem.Fresh(unwritten) == state
    {
      var manager := new DisruptionManager(maxDuration);
      dm := manager;
      writer, file := Absent, unwritten;
      start := System(manager.View(), manager.exportable, 0, manager.writeNotifier, Absent, unwritten);
      state := System(manager.View(), manager.exportable, 0, manager.writeNotifier, Absent, unwritten);
      new;
      ReachesItself(start);
      EmptyExportIsUnique(dm.exportable.value);
    }

    /** A state file was read, whatever it says. */
    constructor Restored(list: GroupList, maxDuration: int, now: int)
      ensures Valid() && fresh(dm) && fresh(dm.owned) && start == RestartedSystem(list, now) == state
    {
      var manager := Restore(list.groups, maxDuration, now);
      dm := manager;
      writer, file := Idle, list;
      start := RestartedSystem(list, now);
      state := RestartedSystem(list, now);
      new;
      ReachesItself(start);
    }

    /** Between calls nobody owes a notification. */
    ghost predicate Valid()
      reads this, dm, dm.owned
    {
      && dm.Valid()
      && state == System(dm.View(), dm.exportable, 0, dm.writeNotifier, writer, file)
      && Reaches(start, state)
    }

    /** An operation and, if it invalidates, its notification. */
    ghost method Operated(e: Event, reply: Option<DisruptionState>, invalidated: bool, gs: Groups)
      requires Reaches(start, state) && state.owing == 0 && Next(state.groups, e, gs, reply, invalidated)
      modifies this`state
      ensures Reaches(start, state)
      ensures state == old(state).(groups := gs, cache := if invalidated then None else old(state).cache,
        token := old(state).token || invalidated)
    {
      var before := state;
      state := state.(groups := gs, cache := if invalidated then None else state.cache,
        owing := if invalidated then 1 else 0);
      StepReaches(start, before, Operate(e, reply, invalidated), state);
      if invalidated {
        var owing := state;
        state := state.(owing := 0, token := true);
        StepReaches(start, owing, Notify, state);
      }
    }

    method Request(m: Machine, now: int) returns (reply: DisruptionState)
      requires Valid()
      modifies this`state, dm, dm.owned
      ensures Valid() && fresh(dm.owned - old(dm.owned))
      ensures Next(old(dm.View()), Event.Request(m, now), dm.View(), Some(reply), true)
    {
      reply := dm.Request(m, now);
      Operated(Event.Request(m, now), Some(reply), true, dm.View());
    }

    method Check(m: Machine) returns (reply: DisruptionState, invalidated: bool)
      requires Valid()
      modifies this`state, dm, dm.owned
      ensures Valid() && fresh(dm.owned - old(dm.owned))
      ensures Next(old(dm.View()), Event.Check(m), dm.View(), Some(reply), invalidated)
    {
      reply, invalidated := dm.Check(m);
      Operated(Event.Check(m), Some(reply), invalidated, dm.View());
    }

    method Cancel(m: Machine, waitData: Option<WaitData>) returns (reply: DisruptionState, invalidated: bool)
      requires Valid()
      modifies this`state, dm, dm.owned
      ensures Valid() && fresh(dm.owned - old(dm.owned))
      ensures Next(old(dm.View()), Event.Cancel(m, waitData), dm.View(), Some(reply), invalidated)
    {
      reply, invalidated := dm.Cancel(m, waitData);
      Operated(Event.Cancel(m, waitData), Some(reply), invalidated, dm.View());
    }

    method RecalculateOnce(now: int) returns (invalidated: bool, expireBefore: int)
      requires Valid()
      modifies this`state, dm, dm.owned
      ensures Valid() && dm.owned == old(dm.owned)
      ensures expireBefore == now - dm.maxDuration
      ensures Next(old(dm.View()), Event.Recalculate(expireBefore), dm.View(), None, invalidated)
    {
      invalidated, expireBefore := dm.RecalculateOnce(now);
      Operated(Event.Recalculate(expireBefore), None, invalidated, dm.View());
    }

    method Finish(id: string, h: string)
      requires Valid()
      modifies this`state, dm.owned
      ensures Valid() && Next(old(dm.View()), Event.Finish(id, h), dm.View(), None, false)
    {
      dm.Finish(id, h);
      Operated(Event.Finish(id, h), None, false, dm.View());
    }

    /** Anybody who wants to see the list. */
    method GetGroupList() returns (l: GroupList)
      requires Valid()
      modifies this`state, dm`exportable
      ensures Valid() && (old(CacheAgrees(state)) ==> Exports(l, dm.View()))
    {
      l := dm.GetGroupList();
      ghost var before := state;
      state := state.(cache := Some(l));
      StepReaches(start, before, Look(l), state);
    }

    /** The write loop takes the token out of the notifier. */
    method Receive()
      requires Valid() && writer.Idle? && dm.writeNotifier
      modifies this`writer, this`state, dm`writeNotifier
      ensures Valid() && writer.Triggered? && !dm.writeNotifier
    {
      dm.writeNotifier, writer := false, Triggered;
      ghost var before := state;
      state := state.(token := false, writer := Triggered);
      StepReaches(start, before, DisruptionSystem.Receive, state);
    }

    /** And saves the list of that moment. */
    method WriteOnce()
      requires Valid() && writer.Triggered?
      modifies this`writer, this`file, this`state, dm`exportable
      ensures Valid() && writer.Idle? && (old(CacheAgrees(state)) ==> Exports(file, dm.View()))
    {
      var l := dm.GetGroupList();
      file, writer := l, Idle;
      ghost var before := state;
      state := state.(cache := Some(l), file := l, writer := Idle);
      StepReaches(start, before, Save(l), state);
    }

    /** Turns of the write loop until the notifier is empty. */
    method WriteLoop()
      requires Valid() && !writer.Absent?
      modifies this`writer, this`file, this`state, dm`exportable, dm`writeNotifier
      ensures Valid() && writer.Idle? && !dm.writeNotifier
    {
      if writer.Triggered? {
        WriteOnce();
      }
      if dm.writeNotifier {
        Receive();
        WriteOnce();
      }
    }

    /**
     Whatever was called in which order since a start at which cache and file were right: a
     cached list is the export of the groups, a change the file lacks has left a token or a
     triggered writer, and an idle writer without token has saved the groups.
     */
    lemma NoChangeIsOverlooked()
      requires Valid() && CacheAgrees(start) && WakeUpPending(start)
      ensures dm.exportable.Some? ==> Exports(dm.exportable.value, dm.View())
      ensures !writer.Absent? && !Exports(file, dm.View()) ==> dm.writeNotifier || writer.Triggered?
      ensures writer.Idle? && !dm.writeNotifier ==> Exports(file, dm.View())
    {
      ReachedIsGood(start, state);
    }

    /** Read from whatever file, the groups are what its entries say. */
    lemma RestoredAsTheFileSays(list: GroupList, now: int)
      requires Valid() && state == RestartedSystem(list, now)
      ensures GroupsAre(list.groups, now, dm.View())
    {
      FileLoads(list.groups, now);
    }

    /** And in any case no host is both permitted and requested. */
    lemma StaysExclusive()
      requires Valid() && Exclusive(start.groups)
      ensures Exclusive(dm.View())
    {
      ReachedIsGood(start, state);
    }
  }

  lemma EmptyExportIsUnique(l: GroupList)
    requires Exports(l, map[])
    ensures l == GroupList([], 0, 0, 0)
  {
    ExportIsUnique(l, GroupList([], 0, 0, 0), map[]);
  }
}
