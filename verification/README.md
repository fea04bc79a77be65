# Dominator: verified models

Dominator manages the images that run on fleets of machines. This project models the parts
of it whose correctness depends on many steps together, and proves what they keep, undo
and guarantee over every run.

- **The Disruption Manager** (`Disruption*.dfy`). Groups of machines may be disrupted only a
  few at a time. `Disruption.dfy` states every operation on values, `DisruptionEffects.dfy`
  what that means for every host, in sizes and times, `DisruptionManager.dfy`
  has the manager and its groups as objects whose methods are proved to be those
  operations, `DisruptionExport.dfy` the sorted list that is shown and saved,
  `DisruptionSystem.dfy` all runs of clients, recalculations, waiters, readers and the write
  loop, `DisruptionLoad.dfy` the loader on any state file, `DisruptionRestart.dfy` the restart
  from a file the manager saved, `DisruptionService.dfy` the manager object with its write
  loop, tied to those runs.
- **The machine database (MDB) daemon** (`Machines.dfy`, `Mdb*.dfy`, `PauseTable.dfy`,
  `FleetMirror.dfy`). Generators deliver machines, a load cycle merges them into a table
  (`MdbLoad.dfy`; what it delivers, field by field, is in `MdbLoaded.dfy`), the server publishes differences to subscribers over bounded channels. `MdbReplication.dfy` is
  the protocol as a state machine over all interleavings, `MdbServer.dfy` and `MdbDaemon.dfy`
  the objects whose methods are its steps, `MdbMeaning.dfy` says what an update does to any
  client, `MdbTracking.dfy` how a client relates to all tables published so far, and
  `MdbConvergence.dfy` when clients converge.
- **Placement of VMs** (`Placement.dfy`), **image archives** (`ImageArchive.dfy`), **turning a
  tree into an object cache** (`TreeWalk.dfy`, and `TreeFiles.dfy` for what becomes of the files) and **naming new image versions**
  (`VersionNames.dfy`).
- `Basics.dfy`, `Text.dfy`, `StableSort.dfy` and `Listing.dfy` hold what the others share:
  cardinalities, string order and decimal numbers, stable sorting, sorted listings of maps.

Time is an integer that operations receive. Go's map iteration is an arbitrary choice.
A critical section under a mutex is one atomic step, and steps of different goroutines
interleave in every order.

## What turned out not to hold

Where the code does not do what its comments, flags or names say, the model follows the
code, a lemma gives an input, and another says exactly when the property holds.

- Two machines can compare equal though they are not: a tag with an empty value counts as a
  tag that is missing on the other side (`Machines.CompareExactly`). Then the counter that
  decides about publishing and the published update can disagree
  (`MdbDelta.BlankTagsMakeThemDisagree`, `MdbDelta.CounterAndUpdateAgreeIff`), a change can
  go unpublished (`MdbLoad.UnpublishedChangeIff`), and a client can miss one for good
  (`MdbConvergence.BlankTagIsMissed`, `MdbConvergence.ConvergenceIff`).
- The maximum number of paused machines per user is exceeded by one
  (`PauseTables.LimitOfZeroAdmitsOne`, `PauseTables.LimitIsKeptIff`).
- A hostname on the exclude list comes back if it is the address of a machine without
  hostname (`MdbLoad.ExcludedNameCanReturn`, `MdbLoad.FilteredNamesReturnIff`). A pause with
  removal does not remove a machine whose updates are disabled already
  (`MdbLoad.PauseWithRemovalCanFail`, `MdbLoad.LoadedIff`).
- The first list a restarted Disruption Manager shows may contain waiters that timed out
  (`DisruptionRestart.TimedOutWaiterIsStillShown`,
  `DisruptionRestart.RestartedExportAgreesIff`). Its totals count groups that a later entry
  of the file replaces, and requesters that are named twice
  (`DisruptionLoad.RepeatedGroupIsCountedTwice`,
  `DisruptionLoad.RepeatedRequesterIsCountedTwice`, `DisruptionLoad.RequestedTotalIsExactIff`
  and its two companions).
- The capacity filter adds in 64 bits (`Placement.WrappingFoolsTheFilter`,
  `Placement.AcceptedFitsIff`). The log line calls the sorted order "emptiest to fullest"; it
  is the opposite (`Placement.EndsAreExtremes`).
- Converting a tree looks at inode numbers without their device and can lose data
  (`TreeFiles.SharedInodeNumberLosesData`, `TreeFiles.DataIsKeptIff`).
- A saved image that is cut behind its archive or behind an object restores without an error
  (`ImageArchive.LostObjectIsNotNoticed`, `ImageArchive.TruncationIsNoticedIff`).
- The version after 2^64-1 is 0 (`VersionNames.LastVersionTakesAnOldName`,
  `VersionNames.NewNameIsTakenIff`), and the image a new version is made from is not found
  if its number has leading zeros (`VersionNames.LeadingZerosLoseTheOldName`,
  `VersionNames.OldNameIsListedIff`).

Two more remarks, which need no input. The documentation of the Disruption Manager takes the
required image for the default group identifier; the code takes the directory of the image
name. A Disruption Manager that finds no state file when it starts never saves anything
(`DisruptionSystem.NothingSavedWithoutWriter`).

## Model

| member | source | states |
|---|---|---|
| DisruptionManagers.GroupInfo.constructor | cmd/disruption-manager/manager.go:456-463 | A new group permits one host and has nobody in it. |
| DisruptionManagers.GroupInfo.CanPermit | cmd/disruption-manager/manager.go:446-454 | True exactly if holders and waiters together are fewer than the limit of the tags, where a missing, unparsable or zero limit is one; only the remembered limit changes. |
| DisruptionManagers.GroupInfo.DropFinished | cmd/disruption-manager/manager.go:352-357 | Exactly the finished waiters go, and the flag says whether any did, for every iteration order. |
| DisruptionManagers.GroupInfo.DropExpired | cmd/disruption-manager/manager.go:358-366 | Exactly the permitted hosts whose last request is too old go, and the flag says whether any did. |
| DisruptionManagers.GroupInfo.VisitRequested | cmd/disruption-manager/manager.go:367-381 | For every iteration order: old requests go, and one live requester is promoted if nobody holds or blocks the slot, else none. |
| DisruptionManagers.GroupInfo.Recalculate | cmd/disruption-manager/manager.go:350-382 | The three passes together have the outcome of a recalculation, and report a change exactly if something visible changed: expiry and promotion never cancel out. |
| DisruptionManagers.GroupInfo.Stats | cmd/disruption-manager/manager.go:289-315 | The statistics list the three maps exactly, sorted by hostname. |
| DisruptionManagers.GroupInfo.Request | cmd/disruption-manager/manager.go:390-413 | The group afterwards and the reply are those of a request event. |
| DisruptionManagers.GroupInfo.Check | cmd/disruption-manager/manager.go:239-257 | The group afterwards and the reply are those of a check event; it invalidates exactly if it promotes. |
| DisruptionManagers.GroupInfo.Cancel | cmd/disruption-manager/manager.go:194-229 | A permitted host leaves a waiter behind, or hands its slot to some requester, or just leaves; invalidates exactly if the host was known. |
| DisruptionManagers.PermittedChanges | cmd/disruption-manager/manager.go:358-381 | An expired holder and a promoted requester are never mistaken for no change. |
| DisruptionManagers.DisruptionManager.constructor | cmd/disruption-manager/manager.go:129-143 | A fresh manager has no groups, no pending notification and a cached list that is right. |
| DisruptionManagers.DisruptionManager.GetGroup | cmd/disruption-manager/manager.go:260-274 | Gives the object of the machine's group, creating an empty one if needed and touching no other group. |
| DisruptionManagers.DisruptionManager.UnlockAndInvalidate | cmd/disruption-manager/manager.go:416-425 | Invalidation drops the cached list and leaves a token in the one-slot notifier, whether one was there or not. |
| DisruptionManagers.DisruptionManager.Cancel | cmd/disruption-manager/manager.go:186-230 | The whole manager makes one cancel event; the cache and the notifier follow its flag. |
| DisruptionManagers.DisruptionManager.Check | cmd/disruption-manager/manager.go:232-258 | The whole manager makes one check event; the cache and the notifier follow its flag. |
| DisruptionManagers.DisruptionManager.Request | cmd/disruption-manager/manager.go:386-414 | The whole manager makes one request event, which always invalidates and notifies. |
| DisruptionManagers.DisruptionManager.Finish | cmd/disruption-manager/manager.go:507-541 | A completing waiter is marked finished and nothing else changes, neither cache nor notifier. |
| DisruptionManagers.DisruptionManager.RecalculateGroups | cmd/disruption-manager/manager.go:348-382 | Visiting the groups in any order recalculates each of them once and reports a change exactly if some group's visible part changed. |
| DisruptionManagers.DisruptionManager.RecalculateOnce | cmd/disruption-manager/manager.go:342-384 | The whole manager makes one recalculation event with the expiry derived from the clock; cache and notifier follow its flag. |
| DisruptionManagers.DisruptionManager.CollectStats | cmd/disruption-manager/manager.go:282-317 | In any iteration order, every group with hosts is described exactly once, and the totals are the sums. |
| DisruptionManagers.DisruptionManager.GetGroupList | cmd/disruption-manager/manager.go:276-321 | Returns the cached list, or else the right export of the groups, and caches it. |
| Disruption.EventKeepsExclusive | cmd/disruption-manager/manager.go:186-414 | No event lets a host be both permitted and requested. |
| Disruption.CancelKeepsCapacity | cmd/disruption-manager/manager.go:196-228 | Cancelling, also by handing the slot over without asking canPermit, never raises the number of holders and waiters. |
| Disruption.RecalculateKeepsCapacity | cmd/disruption-manager/manager.go:352-381 | A recalculation leaves at most one, or no more than before. |
| Disruption.EventKeepsCapacity | cmd/disruption-manager/manager.go:186-454 | If no limit ever asked for exceeds k, no event takes a group beyond k holders and waiters. |
| Disruption.RepliesAreTruthful | cmd/disruption-manager/manager.go:186-258 | The reply is Permitted, Requested or Denied exactly according to where the host is afterwards. |
| Disruption.OtherGroupsUnchanged | cmd/disruption-manager/manager.go:260-274 | A client's operation changes no group but its own and creates no other. |
| Disruption.OnlyRequestsRefresh | cmd/disruption-manager/manager.go:386-414 | A host enters, or its time changes, only by a request of that host; promotion and hand-over keep the time. |
| Disruption.RecalculationConserves | cmd/disruption-manager/manager.go:342-384 | Live hosts are conserved with their times, nothing expired or finished remains, and hosts stay on one side. |
| Disruption.RecalculationMakesProgress | cmd/disruption-manager/manager.go:367-381 | Exactly one host is promoted exactly if the group stood idle with live requesters, and requesters never remain in a group without holders and waiters. |
| Disruption.RecalculationIsOrderIndependent | cmd/disruption-manager/manager.go:350-382 | Two recalculations under different iteration orders differ at most in whom they promoted, and not at all if somebody holds or blocks. |
| Disruption.RecalculationSettles | cmd/disruption-manager/manager.go:342-384 | Recalculating again at the same moment changes nothing visible. |
| DisruptionEffects.DecimalAllows | cmd/disruption-manager/manager.go:446-454 | A limit tag that is a decimal number from 1 to 2^64-1 allows that many. |
| DisruptionEffects.RequestIsGrantedIff | cmd/disruption-manager/manager.go:386-454 | A request is granted exactly if the host holds a slot or holders and waiters of the machine's group number fewer than the limit its tag says, else one; the host is then entered with the time of the request on the side the reply names, and nobody else moves. |
| DisruptionEffects.CheckIsGrantedIff | cmd/disruption-manager/manager.go:232-258 | A check grants exactly to a holder, or to a requester while holders and waiters number fewer than the limit; a requester is moved with its time, and nobody else moves. |
| DisruptionEffects.CancelHandsOver | cmd/disruption-manager/manager.go:186-230 | A cancelling holder with wait data is in waiting with exactly that data and nobody is promoted; without, and with requesters, one of them is promoted with its time, so that the number of holders stays and that of requesters falls by one; in all other cases nobody moves. |
| DisruptionEffects.FinishMarksExactly | cmd/disruption-manager/manager.go:507-541 | A completing waiter is marked and keeps its data, and nothing else in any group changes. |
| DisruptionEffects.RecalculatedExactly | cmd/disruption-manager/manager.go:342-384 | Host by host: who is left, with which time and on which side, which waiters remain, and that exactly one live requester is promoted exactly if nobody live holds or waits. |
| DisruptionEffects.InvalidatesIff | cmd/disruption-manager/manager.go:232-425 | Apart from requests an event invalidates the cached list exactly if some visible map of some group changed. |
| DisruptionExport.ExportIsUnique | cmd/disruption-manager/manager.go:276-321 | The export is a function of the groups: iteration order never shows. |
| DisruptionExport.UninvalidatedEventIsInvisible | cmd/disruption-manager/manager.go:416-425 | An event that does not invalidate changes no visible map and creates only empty groups. |
| DisruptionExport.UninvalidatedEventKeepsExport | cmd/disruption-manager/manager.go:260-321 | What leaves the cached list in place leaves it right. |
| DisruptionSystem.RunsStayExclusive | cmd/disruption-manager/manager.go:186-414 | In every state of every run no host is both permitted and requested. |
| DisruptionSystem.RunsStayWithinCapacity | cmd/disruption-manager/manager.go:186-454 | In every state of every run no group exceeds the largest limit asked for, if none did at the start. |
| DisruptionSystem.RunsKeepCacheRight | cmd/disruption-manager/manager.go:276-321 | In every state of every run a cached list is the export of the current groups. |
| DisruptionSystem.NoWakeUpIsLost | cmd/disruption-manager/manager.go:416-444 | In every state of every run, if the saved list differs from the groups, a token, an operation about to notify, or a triggered writer is there. |
| DisruptionSystem.RestingRunIsSaved | cmd/disruption-manager/manager.go:427-444 | When everything has come to rest the file holds exactly the current groups. |
| DisruptionSystem.ReadersSeeTheTruth | cmd/disruption-manager/manager.go:276-281 | Whoever asks for the list in a run, the writer included, gets the only right export of that moment. |
| DisruptionSystem.RepliesInRunsAreTruthful | cmd/disruption-manager/manager.go:186-258 | In every run every reply says where the host then stands. |
| DisruptionSystem.FreshIsGood | cmd/disruption-manager/manager.go:129-149 | A start without state file satisfies every invariant. |
| DisruptionSystem.NothingSavedWithoutWriter | cmd/disruption-manager/manager.go:144-181 | A manager that found no state file never saves anything in any run. |
| DisruptionLoad.LoadIntoGroup | cmd/disruption-manager/manager.go:154-177 | Loads one group of any file: the first of repeated holders, the last of repeated requesters who do not hold, the first waiter that is ahead; the counts are the loader's. |
| DisruptionLoad.LoadWaiters | cmd/disruption-manager/manager.go:166-177 | Takes over, per host, the first waiter whose timeout is set and ahead, and counts them. |
| DisruptionLoad.Restore | cmd/disruption-manager/manager.go:144-183 | Builds the manager of any file: groups as loaded, the file itself as the first list, with the loader's totals. |
| DisruptionLoad.LoadPermittedAt | cmd/disruption-manager/manager.go:154-159 | A host is loaded as a holder exactly if an entry names it, with the time of the first. |
| DisruptionLoad.LoadRequestedAt | cmd/disruption-manager/manager.go:160-165 | A host is loaded as a requester exactly if an entry names it and it does not hold, with the time of the last. |
| DisruptionLoad.LoadWaitingAt | cmd/disruption-manager/manager.go:166-177 | A host is loaded as a waiter exactly if an entry names it whose timeout is set and not over, with the data of the first such. |
| DisruptionLoad.FileLoads | cmd/disruption-manager/manager.go:151-178 | For any file: the groups are those it names, each as the last entry of that name has it, host by host. |
| DisruptionLoad.LoadedGroupsAreExclusive | cmd/disruption-manager/manager.go:160-165 | Whatever the file says, no loaded host is both permitted and requested. |
| DisruptionLoad.PermittedTotalIsExactIff | cmd/disruption-manager/manager.go:151-178 | For any file the total of permitted hosts is never too small for the groups loaded, and right exactly if every entry that a later one with the same identifier replaces has no permitted hosts. |
| DisruptionLoad.RequestedTotalIsExactIff | cmd/disruption-manager/manager.go:151-178 | The same for requesters: right exactly if replaced entries have no requester besides their holders, and no other entry names a requester twice. |
| DisruptionLoad.WaitingTotalIsExactIff | cmd/disruption-manager/manager.go:151-178 | The same for waiters: right exactly if the time of every waiter in a replaced entry is over. |
| DisruptionLoad.RepeatedGroupIsCountedTwice | cmd/disruption-manager/manager.go:151-153 | A concrete file that names no requester twice, whose total is two and whose only group has one requester. |
| DisruptionLoad.RepeatedRequesterIsCountedTwice | cmd/disruption-manager/manager.go:160-165 | A concrete group whose only requester is counted twice. |
| DisruptionRestart.RestartRoundTrip | cmd/disruption-manager/manager.go:129-184 | Saving and restarting gives back the permitted and requested hosts with their times and totals, exactly the waiters still ahead with their total, and forgets empty groups. |
| DisruptionRestart.RestartKeepsHosts | cmd/disruption-manager/manager.go:129-184 | The same host by host: holders and requesters with their times, and exactly the waiters whose timeout is set and lies ahead, unfinished. |
| DisruptionRestart.RestartedExportAgreesIff | cmd/disruption-manager/manager.go:166-177 | The first list after a restart is right exactly if no saved waiter has timed out. |
| DisruptionRestart.RestartIsWithinCapacity | cmd/disruption-manager/manager.go:151-178 | A restart from any saved list is exclusive and exceeds no capacity the saved groups kept. |
| DisruptionRestart.RestartIsGood | cmd/disruption-manager/manager.go:129-184 | If no saved waiter has timed out, the restarted system satisfies every invariant of runs. |
| DisruptionRestart.RestartedCacheIsRightIff | cmd/disruption-manager/manager.go:129-184 | In every state of every run from a restart, also with waiters timed out, the cached list is right exactly if none had timed out or an operation has invalidated since. |
| DisruptionRestart.RestartedFileIsRightIff | cmd/disruption-manager/manager.go:144-184 | In every state of every run from a restart no change is overlooked by the writer, and the file is right when all is at rest, exactly if no waiter had timed out or an operation has invalidated since. |
| DisruptionRestart.TimedOutWaiterIsStillShown | cmd/disruption-manager/manager.go:166-177 | A concrete saved list that is wrong after a restart. |
| DisruptionSystem.InvalidationRepairs | cmd/disruption-manager/manager.go:416-444 | After an operation that invalidates, cache and wake-ups are right however wrong the run started. |
| DisruptionServices.Service.Restored | cmd/disruption-manager/manager.go:144-183 | The object of a manager that read a state file, whatever it says, with its write loop running. |
| DisruptionServices.Service.Request | cmd/disruption-manager/manager.go:386-425 | A request with its notification is steps of the system. |
| DisruptionServices.Service.Check | cmd/disruption-manager/manager.go:232-258 | A check with its notification, if any, is steps of the system. |
| DisruptionServices.Service.Cancel | cmd/disruption-manager/manager.go:186-230 | A cancellation with its notification, if any, is steps of the system. |
| DisruptionServices.Service.RecalculateOnce | cmd/disruption-manager/manager.go:342-384 | A recalculation with the expiry derived from the clock, and its notification if any, is steps of the system. |
| DisruptionServices.Service.Finish | cmd/disruption-manager/manager.go:507-541 | A completing waiter is a step of the system, without notification. |
| DisruptionServices.Service.GetGroupList | cmd/disruption-manager/manager.go:276-321 | Whoever looks gets the right list if the cache was right. |
| DisruptionServices.Service.Receive | cmd/disruption-manager/manager.go:427-428 | The write loop takes the token and is about to look. |
| DisruptionServices.Service.WriteOnce | cmd/disruption-manager/manager.go:435-444 | The writer saves the list of that moment, the right export if the cache was right. |
| DisruptionServices.Service.WriteLoop | cmd/disruption-manager/manager.go:427-433 | Turns of the loop until the notifier is empty. |
| DisruptionServices.Service.NoChangeIsOverlooked | cmd/disruption-manager/manager.go:416-444 | On the object, after any calls in any order since a right start: the cached list is right, a change the file lacks has left a token or a triggered writer, and an idle writer without token has saved the groups. |
| DisruptionServices.Service.RestoredAsTheFileSays | cmd/disruption-manager/manager.go:144-183 | On the object just restored from any file the groups are what its entries say. |
| DisruptionServices.Service.StaysExclusive | cmd/disruption-manager/manager.go:186-414 | On the object no host is ever both permitted and requested. |
| Listing.List | cmd/disruption-manager/manager.go:117-127 | Collecting a map in any order and sorting gives its sorted listing. |
| Listing.SortedListingIsUnique | cmd/disruption-manager/manager.go:117-127 | A map has only one sorted listing. |
| Text.BeforeIff | cmd/disruption-manager/manager.go:117-127 | Strings are ordered by the first character in which they differ, a prefix first. |
| Machines.CompareTagsExactly | lib/mdb/compare.go:87-97 | Tag comparison is equality, or the right side lacks blank tags of the left. |
| Machines.HidingTakesABlankTag | lib/mdb/compare.go:87-97 | Wrongly equal tags involve a blank tag on the left and another tag on the right. |
| Machines.CompareTagsIsSymmetricIff | lib/mdb/compare.go:87-97 | A comparison of tags that succeeds fails the other way round exactly if the left side lacks a tag that has a value on the right. |
| Machines.CompareIsOneSidedIff | lib/mdb/compare.go:7-97 | Two machines compare equal one way and not the other exactly if they agree but for tags, the tags differ only by blank ones of the left, and the left lacks a value of the right. |
| Machines.OneSidedTakesABlankTag | lib/mdb/compare.go:87-97 | A one-sided comparison takes a blank tag on the side that lacks the value. |
| Machines.CompareExactly | lib/mdb/compare.go:7-73 | Comparison of machines is equality of what is sent, except for machines confused through blank tags. |
| Machines.NoBlankTagsNoConfusion | lib/mdb/compare.go:7-54 | A machine without blank tags is never confused with another. |
| Machines.NothingElseIsLost | lib/mdb/compare.go:7-97 | What is sent of a machine has all its fields; only missing and empty lists or maps are taken for the same. |
| MdbDelta.NewMdbIsDifferent | cmd/mdbd/daemon.go:305-323 | The three counts are the numbers of added, changed and deleted names; the unsigned subtraction never underflows. |
| MdbDelta.CountsBalance | cmd/mdbd/daemon.go:305-323 | New size plus deleted is old size plus added. |
| MdbDelta.SelectChanges | cmd/mdbd/server.go:184-194 | The loop lists the new names and the changed machines, in the order of the table. |
| MdbDelta.LeftOver | cmd/mdbd/server.go:195-200 | What is left of the working map is each deleted name, once. |
| MdbDelta.MakeUpdate | cmd/mdbd/server.go:176-200 | The whole computation yields the update between the two tables. |
| MdbDelta.UpdateSizes | cmd/mdbd/server.go:180-200 | The three lists are as long as the sets of added, changed and deleted names. |
| MdbDelta.DisagreementExactly | cmd/mdbd/server.go:186 | A machine is in the update but not counted exactly if the old one lacks a tag value of the new one and otherwise differs by blank tags at most; counted but not in the update exactly the other way round. |
| MdbDelta.CounterAndUpdateAgreeIff | cmd/mdbd/daemon.go:314 | Counter and update see the same changes exactly if no machine differs from its namesake by such one-sided tags. |
| MdbDelta.NoBlankTagsAgree | cmd/mdbd/daemon.go:314 | For tables without blank tags they always agree. |
| MdbDelta.CountsAreLengths | cmd/mdbd/daemon.go:305-323 | Then the counts are the lengths of the lists, and all zero exactly for an empty update. |
| MdbDelta.BlankTagsMakeThemDisagree | cmd/mdbd/server.go:186 | A concrete pair of tables on which counter and update disagree, in both directions. |
| MdbDelta.ProcessUpdate | lib/mdb/mdbd/watchd.go:148-172 | The client puts adds and updates and removes deletes; while it has no machines it takes the adds only. |
| MdbMeaning.ApplyAt | lib/mdb/mdbd/watchd.go:148-172 | What an update between two tables does to any client's table, name by name. |
| MdbMeaning.NoBlankTagsIsExact | lib/mdb/compare.go:87-97 | Tables without blank tags are always told apart. |
| MdbMeaning.ClientFollowsIff | cmd/mdbd/server.go:184-200 | A client with the old table gets the new one exactly if no machine is confused with its predecessor. |
| MdbMeaning.UpdateMeaning | cmd/mdbd/server.go:180-200 | An update sets the names it touches to their new value and leaves all others, on whatever table a client holds, except that a client without machines ignores changes and deletions. |
| MdbMeaning.EmptyUpdateMeaning | cmd/mdbd/server.go:201-204 | The update is empty exactly if no name is added, deleted or found different. |
| MdbTracking.TrackOneMore | lib/mdb/mdbd/watchd.go:148-172 | Applying one more update, older or newer than the snapshot, keeps a client on track for every name: what it holds was there in some table since it registered, and no update it knows of touched it after. |
| MdbTracking.NoLastTouchIgnoredBehind | lib/mdb/mdbd/watchd.go:150-153 | A client that has no machines and therefore ignores a change will get a later update on that name. |
| MdbTracking.ExactHidesNothing | lib/mdb/compare.go:7-97 | Where no machine is confused with its predecessor, nothing is hidden from anybody. |
| MdbReplication.RunsKeepInv | cmd/mdbd/server.go:85-250 | The invariant on log, publisher, channels and clients holds in every state of every interleaving. |
| MdbReplication.QuietClientsAreOnTrack | cmd/mdbd/server.go:85-138 | In every run, whatever was published, a subscriber that was not dropped, with an empty channel and no publication under way, holds for every name the value of some table since it registered, untouched by every later publication. |
| MdbReplication.SubscribersConverge | cmd/mdbd/server.go:85-138 | Such a subscriber holds exactly the current table, even if its snapshot was newer than updates it applied, if nothing was hidden since it registered; what happened before does not matter. |
| MdbReplication.ForwardedWithoutGaps | cmd/mdbd/server.go:112-125 | What a subscriber was sent is a contiguous run of the published updates, none of them empty. |
| MdbReplication.BlocksOnlyBehindAMarker | cmd/mdbd/server.go:240-250 | A channel holds at most ten, and without marker at most nine, so the first marker always fits; a send can block only behind a marker. |
| MdbReplication.DroppedOnlyAtAMarker | cmd/mdbd/server.go:115-119 | A subscriber is dropped exactly when the overflow marker is next; a real update is never taken for it. |
| MdbConvergence.HiddenIsMissed | cmd/mdbd/server.go:184-188 | If a name changed since some table without being touched to the end, there is a run in which a subscriber that joined at that table comes to rest with a wrong one. |
| MdbConvergence.ConvergenceIff | cmd/mdbd/server.go:85-208 | For every sequence of tables: all subscribers that registered since a given table converge in every run exactly if since then no name stayed untouched to the end while its visible value came to differ. |
| MdbConvergence.BlankTagIsMissed | cmd/mdbd/server.go:184-188 | Two concrete tables after which a subscriber is left with the first. |
| MdbServers.MdbServer.SetCurrent | cmd/mdbd/server.go:170-200 | Swapping the table in, with the update to send, is the publisher's first protocol step. |
| MdbServers.MdbServer.GetUpdateChannels | cmd/mdbd/server.go:201-218 | The update goes to the channels registered at that moment, an empty one to none. |
| MdbServers.MdbServer.SendUpdate | cmd/mdbd/server.go:240-250 | One send is one protocol step: the update goes into a channel that holds up to eight, and the marker into a fuller one; a closed channel is passed over. |
| MdbServers.MdbServer.AwaitRoom | cmd/mdbd/server.go:246-249 | A blocked send goes on once the subscriber has taken something out of its channel, provided the subscriber keeps taking. |
| MdbServers.MdbServer.PushUpdateToAll | cmd/mdbd/server.go:170-208 | Provided the subscribers keep taking, a whole publication, in any order of channels and waiting where one is full, adds exactly the new table to the history and ends with the server idle. |
| MdbServers.MdbServer.Register | cmd/mdbd/server.go:86-89 | A new channel is registered before the table is read. |
| MdbServers.MdbServer.ReadCurrent | cmd/mdbd/server.go:96-110 | The first message makes a client hold the current table, if there is one. |
| MdbServers.MdbServer.ForwardNext | cmd/mdbd/server.go:114-125 | The next update is sent on, or the subscriber dropped at the marker. |
| MdbServers.MdbServer.Disconnect | cmd/mdbd/server.go:90-95 | A closing connection gives up its channel and disturbs nobody. |
| MdbServers.MdbServer.ClientsConverge | cmd/mdbd/server.go:85-208 | On the server object, after any calls in any order: a quiet client holds the server's table unless a change was hidden from it. |
| MdbLoad.SelectHosts | cmd/mdbd/daemon.go:273-303 | Exactly the machines whose hostname passes exclude list, include list and expression remain, in order. |
| MdbLoad.MergeByName | cmd/mdbd/daemon.go:194-199 | Merging into one table treats every name by itself: the first supplied, updated from the others in order. |
| MdbLoad.ProcessMachine | cmd/mdbd/daemon.go:235-271 | A machine is dropped or has its updates disabled as the pause table says, and its variables expanded. |
| MdbLoad.MergeGenerator | cmd/mdbd/daemon.go:183-200 | One generator's machines are merged under their names, nameless ones under their address, those with neither ignored. |
| MdbLoad.MergeGenerators | cmd/mdbd/daemon.go:170-212 | Fails exactly if some generator does; else merges all supply in order and keeps the last variables offered. |
| MdbLoad.ProcessAll | cmd/mdbd/daemon.go:213-223 | List and table agree, and hold, in any order, exactly what the pause table lets through. |
| MdbLoaded.LoadFromAll | cmd/mdbd/daemon.go:166-232 | A load cycle fails exactly if a generator does. Else names are unique and not empty, and list and table agree; a name is there exactly if it is supplied and no pause removes it; its updates are disabled exactly by the supplier that decides or by a pause that is not over; images and tags are the last supplied with variables put in, all else the last supplied or what all suppliers share. |
| MdbLoaded.SupplyInOrder | cmd/mdbd/daemon.go:175-200 | The supply is, in order and completely, the delivered machines that pass the filter and have a hostname or an address, each under that name and marked with its driver. |
| MdbLoaded.MergedText | lib/mdb/updateFrom.go:13-28 | A merged text such as the required image is the last supplied one that is not blank. |
| MdbLoaded.MergedGiven | lib/mdb/updateFrom.go:29-37 | Merged owners and tags are the last supplied ones that are there. |
| MdbLoaded.MergedShared | lib/mdb/updateFrom.go:7-12 | Data source and its type are what all suppliers share, and blank exactly if that is blank or they differ. |
| MdbLoaded.MergedAws | lib/mdb/updateFrom.go:38-44 | There is AWS metadata exactly if any was supplied, and it compares equal to the last. |
| MdbLoaded.ValueStandsFor | cmd/mdbd/daemon.go:258-271 | An expanded value is that of the variable named behind a dollar sign, if there is one of that name, and else unchanged. |
| MdbLoaded.LastVariablesAreInForce | cmd/mdbd/daemon.go:201-212 | The variables used are those of the last generator that offers any. |
| MdbLoad.MergedDisables | lib/mdb/updateFrom.go:19-22 | Whether a merged machine has its updates disabled is said by the last of its suppliers with a required image, else by the first. |
| MdbLoad.LoadedIff | cmd/mdbd/daemon.go:217-256 | A name is in the table exactly if it was supplied and has no pause with removal, or that supplier has its updates disabled. |
| MdbLoad.PauseWithRemovalCanFail | cmd/mdbd/daemon.go:237-241 | A concrete machine paused with removal that stays. |
| MdbLoad.SuppliedIff | cmd/mdbd/daemon.go:175-200 | A name is supplied exactly if it is not blank and some generator delivers a machine whose hostname passes the filter and that goes by this name. |
| MdbLoad.FilteredNamesReturnIff | cmd/mdbd/daemon.go:181-186 | A name the filter turns down is supplied nevertheless exactly if it is the address of a machine without hostname and the filter lets the blank name pass. |
| MdbLoad.ExcludedNameCanReturn | cmd/mdbd/daemon.go:284-286 | A concrete excluded name that is supplied. |
| MdbLoad.UnpublishedChangeIff | cmd/mdbd/daemon.go:112-122 | A visible change goes unpublished exactly if all old machines compare equal to their successors and one only through a blank tag. |
| MdbLoad.Differs | cmd/mdbd/daemon.go:112-122 | A table is published exactly if a name was added or deleted, or an old machine does not compare equal to its successor. |
| MdbDaemons.Daemon.Cycle | cmd/mdbd/daemon.go:97-149 | Each turn publishes through the server exactly when the counter finds a change, the update being from the table published last, which is the one the server serves. |
| MdbDaemons.Daemon.ClientsHoldThePublished | cmd/mdbd/daemon.go:123-148 | Between turns a quiet client holds the table published last unless a change was hidden from it. |
| MdbDaemons.Daemon.ClientsHoldTheLoaded | cmd/mdbd/daemon.go:100-148 | Between turns a quiet client from which no published change was hidden holds the table loaded last, exactly if no published machine is taken for the one loaded under its name although they differ. |
| PauseTables.PauseTable.CountFor | cmd/mdbd/pause.go:155-160 | Counts the user's entries, in any order. |
| PauseTables.PauseTable.PauseUpdatesTakeLock | cmd/mdbd/pause.go:151-180 | Refuses exactly a user with more entries than the limit, then exactly for another's entry, else enters the request as given; all entries made stay short enough and few enough. |
| PauseTables.PauseTable.PauseUpdates | cmd/mdbd/pause.go:97-149 | Each refusal exactly, in the order of the tests; a granted pause had a duration within the bounds, a machine in the table and a user with access to it, and is a possible event of the runs below; a refusal changes nothing. On the object every entry made ends within the maximum duration and no user exceeds the limit by more than one. |
| PauseTables.PauseTable.HaveAccess | cmd/mdbd/pause.go:119-136 | Access exactly for method access, an owner user, or a member of an owner group. |
| PauseTables.PauseTable.ResumeUpdatesTakeLock | cmd/mdbd/pause.go:203-215 | Only the user who paused a machine resumes it. |
| PauseTables.PauseTable.GarbageCollect | cmd/mdbd/pause.go:39-53 | Removes exactly the expired entries and names each of them once. |
| PauseTables.EntriesAreRespected | cmd/mdbd/pause.go:39-215 | In every run an entry is replaced or removed only by an event of its own user or after its time. |
| PauseTables.CountOverRuns | cmd/mdbd/pause.go:155-163 | In every run a user's entries never exceed the initial number or the limit plus one. |
| PauseTables.LimitIsKeptIff | cmd/mdbd/pause.go:161 | A granted pause keeps the limit exactly if the user was below it, or renewed an entry. |
| PauseTables.LimitOfZeroAdmitsOne | cmd/mdbd/pause.go:161 | With limit zero a user may pause one machine. |
| PauseTables.DurationsOverRuns | cmd/mdbd/pause.go:104-110 | Every entry made in a run ends within the maximum duration of its beginning. |
| FleetMirrors.FleetMirror.HandleUpdate | cmd/mdbd/loadFleetManager.go:153-169 | The object puts, deletes and then deletes leftovers as specified; VMs and their hypervisors always have the same keys. |
| FleetMirrors.FleetMirror.UpdateMachines | cmd/mdbd/loadFleetManager.go:175-184 | Changed machines are put, deleted ones removed, and of those to delete the ones not changed. |
| FleetMirrors.FleetMirror.UpdateVMs | cmd/mdbd/loadFleetManager.go:185-197 | The same for VMs and their hypervisors, in both maps. |
| FleetMirrors.FleetMirror.GetUpdates | cmd/mdbd/loadFleetManager.go:57-94 | One connection is the run of its messages, the first of them initial. |
| FleetMirrors.FleetMirror.Daemon | cmd/mdbd/loadFleetManager.go:47-55 | Any number of connections are the run of all their messages. |
| FleetMirrors.FleetMirror.Generate | cmd/mdbd/loadFleetManager.go:105-151 | One machine for every mirrored machine and every running VM, none twice; name, address, owners, tags, images and disabled updates are those mirrored, and a VM is located at its hypervisor. |
| FleetMirrors.InitialReplaces | cmd/mdbd/loadFleetManager.go:153-198 | Putting, deleting and deleting leftovers on an initial message leaves exactly changed minus deleted of that message, whatever was mirrored before. |
| FleetMirrors.HandledMachine | cmd/mdbd/loadFleetManager.go:153-184 | Name by name: a machine is mirrored as the last change of it, else as before unless the message is initial, and not at all if deleted. |
| FleetMirrors.HandledVm | cmd/mdbd/loadFleetManager.go:153-197 | Address by address the same for a VM, together with the hypervisor named for it. |
| FleetMirrors.ReconnectForgets | cmd/mdbd/loadFleetManager.go:47-94 | In every run over any number of reconnects the mirror depends only on the messages from any initial one on. |
| FleetMirrors.LastConnectionDecides | cmd/mdbd/loadFleetManager.go:47-94 | The mirror is what the messages of the last connection that got any make of nothing, each taken as a difference. |
| FleetMirrors.RunsStayConsistent | cmd/mdbd/loadFleetManager.go:171-198 | In every run machines stay filed under their own names and both VM tables under the same keys. |
| Placement.SumVolumes | cmd/vm-control/placement.go:72-75 | The sum of the volumes, modulo 2^64. |
| Placement.TotalSizeAdds | cmd/vm-control/placement.go:72-75 | Sizes of lists of volumes add up. |
| Placement.CheckHypervisorCapacity | cmd/vm-control/placement.go:60-96 | Accepts exactly if all five tests pass in 64-bit arithmetic. |
| Placement.SubnetsHaveRoomIff | cmd/vm-control/placement.go:79-96 | The subnets have room exactly if every subnet of the VM that the Hypervisor counts has a free address. |
| Placement.FindHypervisorsWithCapacity | cmd/vm-control/placement.go:113-123 | The accepted Hypervisors, all of them, each as often as listed and in the order of the list. |
| Placement.CandidatesAreAccepted | cmd/vm-control/placement.go:113-123 | A Hypervisor is a candidate exactly if it was offered and is accepted. |
| Placement.AcceptedFits | cmd/vm-control/placement.go:62-78 | An accepted Hypervisor has room for the VM if no sum wrapped. |
| Placement.AcceptedFitsIff | cmd/vm-control/placement.go:62-78 | While a thousand times the CPUs fits into 64 bits, an accepted Hypervisor has room exactly if no sum wrapped. |
| Placement.FilterIsExact | cmd/vm-control/placement.go:60-88 | While nothing wraps the filter accepts exactly the Hypervisors with room. |
| Placement.WrappingFoolsTheFilter | cmd/vm-control/placement.go:62 | A concrete full Hypervisor that is accepted. |
| Placement.FreeAmountsAreReal | cmd/vm-control/placement.go:125-138 | On a candidate the free amounts do not wrap and the VM fits into them. |
| Placement.SortHypervisors | cmd/vm-control/placement.go:284-297 | The slice is sorted in place by three stable sorts. |
| Placement.ThreeSortsAreOne | cmd/vm-control/placement.go:286-294 | The three sorts are one stable sort by free CPU, then memory, then storage. |
| Placement.EndsAreExtremes | cmd/vm-control/placement.go:237-242 | The first element is the first with least free capacity, the last the last with most. |
| Placement.SelectHypervisor | cmd/vm-control/placement.go:223-247 | Which candidate is chosen for each placement, and when none is. |
| Placement.ChosenHasRoom | cmd/vm-control/placement.go:179-183 | Filter and choice together: the chosen one has room, and none with room is more extreme. |
| StableSort.SortByIsStable | cmd/vm-control/placement.go:286-288 | The sort used meets the documented contract of a stable sort. |
| StableSort.StableSortsCompose | cmd/vm-control/placement.go:286-294 | Sorting by a minor key and then stably by a major key sorts lexicographically, stably. |
| StableSort.StableSortIsUnique | cmd/vm-control/placement.go:286-294 | A stable sort has only one result, so any implementation gives this one. |
| ImageArchive.ListObjects | cmd/imagetool/saveImage.go:68-76 | The seen-map loop computes the list without repetitions. |
| ImageArchive.DedupIsInFirstOrder | cmd/imagetool/saveImage.go:68-76 | Every referenced object is listed once, in the order of first occurrence. |
| ImageArchive.SaveImage | cmd/imagetool/saveImage.go:64-107 | The stream written is the archive followed by a frame for each listed object. |
| ImageArchive.RestoreImage | cmd/imagetool/restoreImage.go:34-80 | The decode loop consumes the stream frame by frame, adding data, and ends in success, a broken stream or a corrupted object. |
| ImageArchive.RoundTrip | cmd/imagetool/restoreImage.go:67-80 | Restoring a saved stream gives the archive and all data in order; it succeeds exactly if every object has its hash, else it stops at the first that has not. |
| ImageArchive.StopsAtFake | cmd/imagetool/restoreImage.go:75-79 | The objects before the first false one are restored, and nothing behind it. |
| ImageArchive.AcceptedIff | cmd/imagetool/restoreImage.go:67-80 | Any bytes at all are accepted exactly if they are headers, each followed by the data it announces, of objects that all have their hash; then exactly their data is added. |
| ImageArchive.TruncationIsNoticedIff | cmd/imagetool/restoreImage.go:35-80 | A stream of any objects cut short anywhere, also within the archive, is taken for complete exactly if the cut falls behind the archive or behind an object and all objects before it have their hash. |
| ImageArchive.LostObjectIsNotNoticed | cmd/imagetool/restoreImage.go:69-72 | A stream of one object, with a concrete codec, that can lose the object unnoticed. |
| ImageArchive.SampleCodecIsSelfDelimiting | cmd/imagetool/saveImage.go:64 | The demands on the codec can be met. |
| TreeWalk.WalkState.Walk | cmd/fs2objectcache/walk.go:38-77 | The recursive walk acts on the entries in the order of the specification, leaves out the cache at the top, and notes directories after their contents. |
| TreeWalk.WalkState.Claim | cmd/fs2objectcache/walk.go:81-87 | Under the lock the first claim of an inode number converts, every later one deletes. |
| TreeWalk.WalkIsBottomUp | cmd/fs2objectcache/walk.go:59-64 | Nothing comes before what lies below it, and no path comes twice. |
| TreeWalk.WorkSparesTheCache | cmd/fs2objectcache/walk.go:48-51 | The work covers exactly the tree without the object cache. |
| TreeWalk.RunsKeepInv | cmd/fs2objectcache/walk.go:19-89 | The invariant on claims, objects, directories and what is left holds in every interleaving of walk, file tasks and removals. |
| TreeWalk.RemovalNeverFails | cmd/fs2objectcache/walk.go:30-34 | In every run each directory is there and empty when it is to be removed. |
| TreeWalk.OnlyTheCacheRemains | cmd/fs2objectcache/walk.go:19-36 | At the end of every run, of the paths of the tree exactly those in the object cache are still there. |
| TreeWalk.DirsAreTheWalks | cmd/fs2objectcache/walk.go:61-64 | In every run the directories to remove are the ones the walk notes, in its order. |
| TreeFiles.WalkSuits | cmd/fs2objectcache/walk.go:38-77 | The actions of the walk are, for every node of the tree, the one that suits it at its path: a file is converted, a directory noted, anything else discarded. |
| TreeFiles.WorkIsExact | cmd/fs2objectcache/walk.go:38-77 | A task is started for a path exactly if a file is there, the path noted for removal exactly if a directory is, and discarded exactly if anything else is, all outside the cache and nowhere else. |
| TreeFiles.TreeIsNodes | cmd/fs2objectcache/walk.go:19-36 | The paths of the tree are those at which there is something. |
| TreeFiles.ConvertedExactlyOnce | cmd/fs2objectcache/walk.go:79-89 | In every run, of the files of the tree outside the cache with one inode number, exactly one is converted and all others are removed. |
| TreeFiles.DataIsKeptIff | cmd/fs2objectcache/walk.go:65-68 | The content of every file reaches the cache in every run exactly if each content is held by a file whose inode number no file with other content has. |
| TreeFiles.OnlyFilesAreKept | cmd/fs2objectcache/walk.go:79-89 | Nothing reaches the cache but contents of files of the tree. |
| TreeFiles.SharedInodeNumberLosesData | cmd/fs2objectcache/walk.go:82-84 | A concrete tree of two files and a run that loses one of them. |
| VersionNames.JoinOfSplit | cmd/imagetool/addReplaceImage.go:93-102 | Joining what was split gives the name back. |
| VersionNames.VersionedOfName | cmd/imagetool/addReplaceImage.go:93-110 | Printing a versioned name and reading it gives base and number back. |
| VersionNames.VersionedIff | cmd/imagetool/addReplaceImage.go:93-102 | A name is a version exactly if it is a base, the separator and digits of a 64-bit number. |
| VersionNames.HighestVersions | cmd/imagetool/addReplaceImage.go:91-107 | Every base that occurs gets its highest number, and nothing else does. |
| VersionNames.NewNames | cmd/imagetool/addReplaceImage.go:88-118 | One new name per base, in any order, all different; it reads back as that base with the highest number plus one, and behind 2^64-1 as zero. |
| VersionNames.NewNameIsTakenIff | cmd/imagetool/addReplaceImage.go:110 | A new name is in the list exactly if the number wrapped to zero and version zero is listed. |
| VersionNames.LastVersionTakesAnOldName | cmd/imagetool/addReplaceImage.go:110 | The list of versions 2^64-1 and 0 of a name, whose new name is taken. |
| VersionNames.NewNamesDiffer | cmd/imagetool/addReplaceImage.go:108-112 | Different bases get different names. |
| VersionNames.PassesNeverCollide | cmd/imagetool/addReplaceImage.go:79-85 | The passes for the two separators never ask for the same name. |
| VersionNames.OldNameIsListedIff | cmd/imagetool/addReplaceImage.go:109 | The old name is in the list exactly if some entry of that base and number has no leading zeros. |
| VersionNames.LeadingZerosLoseTheOldName | cmd/imagetool/addReplaceImage.go:109 | A concrete list whose old name does not exist. |

## Left out

- HTTP and RPC plumbing, status pages, logging, flags and main functions.
- Access checks by host, TLS and authentication: user name and access decision are inputs.
- The polling and sleeping inside `wait` and the template expansion in `makeWaitData`: a waiter finishes at some point, and wait data is given or not.
- A waiter that was replaced by a newer one of the same host: when it finishes nothing happens, so it is no event.
- Writing the state files: a save succeeds at once, and a failing write is not modelled.
- JSON, gob, regular expressions and sha512: identity, a self-delimiting codec that may depend on the number of headers before, a predicate, and a function from data to hash.
- `path.Dir`, `filepath.Join` and address formatting: their results are inputs.
- The difference between a missing and an empty list or map in what a client receives, which depends on the encoding: client tables are compared up to it.
- The order of the machine list by version-aware string comparison: the results hold for any order of the list.
- Closing a dropped subscriber's channel and removing it from the table are one step; in the program a send may fall between them, which is caught and ignored.
- I/O errors during the walk, and the internals of `convertToObject`: a converted file's content is in the cache and its path gone.
- The check of name and expiry before a restore, and the final registration of the image.
- The placement command and the random number: the answer and the index are inputs; `selectAnyHypervisor` is not modelled.
- Widths of Go's `int` and `uint` counters of hosts and machines, which count things in memory.
- Statistics and metrics of the load cycle.
- The other commands (image rollout and push, installer, network configuration, publishing, most of vm-control, hyper-control and domtool) are sequences of remote calls, and partition arithmetic, the installer's object cache and the Hypervisor mirror would only add easier members.
- Go's own sorting algorithm: the model sorts by insertion, and a stable sort has only one result.
- MdbServers.MdbServer.AwaitRoom: assumes that the goroutine of a subscriber is free to take from its channel; one that is stuck in a write to its connection keeps the publisher waiting for good.
- MdbServers.MdbServer.PushUpdateToAll: ends only under the same assumption.
