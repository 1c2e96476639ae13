# AnyBot in Dafny

AnyBot is a Go framework for chat bots. This project models its small, intricate algorithms and proves what they are
for. Check it with `dafny verify dfyconfig.toml`.

| part of AnyBot | modules | main results |
|---|---|---|
| Requests over a replaceable websocket (OneBot 11) | `SocketProtocol`, `SocketPeers`, `SocketHistory` | no call is lost on a dead connection; every schedule of the drivers releases it; each outcome has its one cause in the run, and each frame for a pending echo arrives |
| Editing and completing YAML plugin configuration | `YamlTree`, `YamlLaws`, `YamlMerge`, `EntryLaws`, `YamlNode`, `YamlEdit`, `PluginEntry` | lens laws, undo, merging and resetting laws, on values and on nodes edited in place; what batches and syncs make of a whole entry and exactly when they succeed and report |
| CQ codes | `CqEscape`, `SortedStrings`, `CqCode`, `CqReading`, `CqLaws`, `CqStability` | how raw text is cut into texts and codes; print-then-parse for all chains the format carries; exactly which inputs parse-print-parse leaves alone |
| Keyed locks | `KeyedLocks`, `LockHistory` | mutual exclusion per key although lock objects are deleted and recreated |
| Waiting for the action channel | `AdapterState`, `AdapterHistory` | no lost wakeup; the last report decides the answer |
| Worker queue, alone and with the keyed locks | `WorkerQueue`, `QueueHistory`, `SerialRun`, `SerialHistory` | every emitted event is handled exactly once; one handler per key; draining neither sticks nor goes on for ever |
| Rate limiter | `RateLimit` | a tight bound on every sliding interval |
| Stores with time-to-live | `Stores`, `StoreLaws`, `StoreExpiry` | what a time-to-live means over any calls; both refine a history of writes; the file store is durable; exactly when a late delete loses a write |
| Routing and dispatch | `Router`, `Rules`, `Dispatch` | routes in priority order; a route runs if and only if nothing before it stopped the event, with the context threaded through rules and handlers |
| Command lines | `SplitArgv` | a line splits into what its words mean, however they are spelled; splitting inverts quoting |

## How the models are built

Concurrent code is a labelled transition system with one action per critical section or channel operation, any number
of threads, and a run as any list of actions each enabled where it is taken. An inductive invariant is proved over all
runs, and the theorems are read off it. The `History` modules tell the same systems from the actions of a run alone,
without the state's own records of what happened. The fields behind the mutexes are also a class whose methods update
them in place; each method's `ensures` is the function on those fields that the transition system takes as one step.

Sequential code that updates fields in place is a class or a method with the source's loops, proved equal to a function
on values; the laws are proved about that function. YAML nodes are heap objects with an owned footprint and the tree
they show: `YamlEdit` and `PluginEntry` edit them step by step as `app/host/config_update.go` does, and every method
shows what the function of the same step in `YamlTree` makes of the old tree.

## What the proofs found

- Rate limit. The sharp bound on one window's length is `2 * limit - 1` calls, one less than twice the limit, and
  `RateLimit.BoundIsTight` builds a trace that attains it for every limit.
- Setting and then removing a path restores the tree exactly when no mapping or null on the way was there but empty
  (`YamlLaws.RemoveUndoesSet`): the code replaces such a node by a fresh mapping and then prunes it.
- Mapping edits act on the first of several equal keys only. A removed path is gone exactly when no later entry with a
  repeated key takes its place (`YamlLaws.RemovedIsGoneIff`); with unique keys none can, and
  `YamlLaws.DuplicateKeySurvivesRemoval` is an input where one does.
- A null leaf in the defaults is reported as a change on every merge exactly when nothing in the target blocks it and
  the target has nothing or null there (`YamlMerge.SecondMergeReportsIff`). An empty configuration is reported as filled
  every time, even by an empty default. `YamlMerge.SecondSyncReports` decides from the entry and the defaults when a
  second sync reports a change; its tree is always the one the first sync left.
- CQ codes. `CqStability.ParsingIsStableIff` decides, for every input, whether parse-print-parse is the identity: each
  typed code must come back as it is. Two kinds do not. A code whose parts are all malformed has an empty map the first
  time and nil the second, as `[CQ:face,x]` (`CqStability.BarrenCodeIsUnstable`). A code of type `text` that is, or
  becomes, a text segment must not follow text, hold another parameter, or be empty: `[CQ:text,text=hi]` alone is
  stable (`CqStability.LoneTextCode`), after text it is not (`CqStability.TextCodeBreaksStability`).
- A batch of assignments opens a missing configuration even when it is empty, and reports no change
  (`EntryLaws.QuietAssignChangesNothingIff`). A batch can also take its own change back and report it nevertheless
  (`EntryLaws.ReportedChangesCanCancelOut`): the report is about each path at its turn.
- An escaped space at the very end of a command line is trimmed before it is scanned, and what is left is a backslash
  (`SplitArgv.EscapedSpaceAtTheEnd`).
- The memory store's Get gives up its lock before it deletes an expired item. That loses a write exactly when the calls
  in between leave a value for the key (`StoreLaws.LateDeleteLosesIff`, `StoreLaws.LateDeleteLosesWrite`).

## Model

| member | source | states |
|---|---|---|
| `SocketProtocol.StepKeepsInv` | adapters/onebot11/socket.go:41-178 | every critical section and channel operation of callers and drivers keeps the invariant: registered calls are accounted for, stale pending calls are owed a failure, channels are sent to and closed at most once |
| `SocketProtocol.InstallKeepsInv` | adapters/onebot11/reverse_ws.go:85-88 | installing a connection, which strands calls pending on the old one, keeps the invariant because a replacement owes a failPending |
| `SocketProtocol.ReadFailKeepsInv` | adapters/onebot11/ws_client.go:97-105 | a read that fails keeps the invariant while the connection is still installed and its driver has not cleared it |
| `SocketProtocol.ClearKeepsInv` | adapters/onebot11/ws_client.go:85-95 | so does clearing the connection in both transports: the client clears and then owes a failPending, the server only if the connection is still current |
| `SocketProtocol.NoLostCall` | adapters/onebot11/socket.go:41-83 | in every reachable state a waiting call has its result buffered, or a driver still has to send to it, or it is pending and either owed a failPending or on the current connection, whose driver reads it or is about to clear it |
| `SocketProtocol.QuietMeansNobodyHangs` | adapters/onebot11/socket.go:127-148 | once no driver has clearing, failing or delivering left, every waiting call without a result is pending on the current connection, whose read has not failed |
| `SocketProtocol.StaleCallIsReleased` | adapters/onebot11/socket.go:156-178 | from any reachable state some three driver steps or fewer put a result before a call whose connection is gone |
| `SocketProtocol.DriverStepCountsDown` | adapters/onebot11/socket.go:138-178 | every step that drivers take by themselves lowers a measure, whatever the schedule |
| `SocketProtocol.EveryScheduleReleases` | adapters/onebot11/socket.go:127-178 | from any reachable state every schedule of driver steps ends within that bound, and where no more is possible no call waits on a connection that is gone |
| `SocketProtocol.DeliveredAtMostOnce` | adapters/onebot11/socket.go:45-82 | at most one send and one close per channel, no panic, no zero value received, a returned response has the caller's echo, echoes are distinct, and a returned call is no longer pending |
| `SocketProtocol.DeliveryNeverBlocks` | adapters/onebot11/socket.go:163-177 | a driver that owes or delivers can always take its next step: no send meets a full or closed channel |
| `SocketProtocol.PendingKeysAreLive` | adapters/onebot11/socket.go:48-50 | every pending echo was drawn by the call it belongs to, which is still inside callRaw |
| `SocketHistory.CurrentIs` | adapters/onebot11/socket.go:115-148 | over all runs the installed connection is the last one installed and not cleared since, where only its own end clears a connection, or in the client loop any end |
| `SocketHistory.CallExplained` | adapters/onebot11/socket.go:41-83 | over all runs and from the actions alone: a call waits, receives or gives up waiting only if its own write succeeded; it fails with a write error only if its own write failed, and with not-connected only if no connection was current when it looked; it uses the connection that was current then |
| `SocketHistory.ReturnsForItsReason` | adapters/onebot11/socket.go:51-83 | the same for what callRaw returned, error by error |
| `SocketHistory.ReceivedFromTheRun` | adapters/onebot11/socket.go:76-78 | a received response is the body of a frame of the run with the call's own echo; a received error means that a connection replaced another, or that one ended while it was current |
| `SocketHistory.TodoStays` | adapters/onebot11/socket.go:163-177 | what a driver owes a call it keeps, with the same result, until it sends it |
| `SocketHistory.FrameArrives` | adapters/onebot11/socket.go:89-113 | a frame for a pending echo, then any steps, then its send: the call's channel holds exactly that body |
| `SocketHistory.FailureArrives` | adapters/onebot11/socket.go:169-178 | each call pending when a driver fails all of them gets exactly the driver's reason once it is sent |
| `SocketHistory.ReceiveTakesWhatIsThere` | adapters/onebot11/socket.go:76-78 | what is in a waiting call's channel is what it returns |
| `SocketPeers.Channel.SendAndClose` | adapters/onebot11/socket.go:164-165 | one send and one close on an open, empty channel |
| `SocketPeers.SocketPeer.DrawEcho` | adapters/onebot11/socket.go:45-45 | a new echo number on each call |
| `SocketPeers.SocketPeer.AddPending` | adapters/onebot11/socket.go:48-50 | registers an echo and keeps channels distinct, open and empty |
| `SocketPeers.SocketPeer.CurrentConn` | adapters/onebot11/socket.go:115-119 | reads the installed connection |
| `SocketPeers.SocketPeer.SetConn` | adapters/onebot11/socket.go:121-125 | changes the connection and nothing else |
| `SocketPeers.SocketPeer.ReplaceConn` | adapters/onebot11/socket.go:127-136 | installs the connection; everything pending gets the replacement error if and only if another connection was installed |
| `SocketPeers.SocketPeer.DisconnectConn` | adapters/onebot11/socket.go:138-148 | acts exactly when the connection is still installed, and then fails everything pending |
| `SocketPeers.SocketPeer.RemovePending` | adapters/onebot11/socket.go:150-154 | forgets one echo and touches no channel |
| `SocketPeers.SocketPeer.CompletePending` | adapters/onebot11/socket.go:156-167 | one result on the channel of that echo if it is pending, every other channel left open and empty |
| `SocketPeers.SocketPeer.FailPending` | adapters/onebot11/socket.go:169-178 | empties the map and gives each channel that was in it the error once, closed |
| `SocketPeers.SocketPeer.HandleFrame` | adapters/onebot11/socket.go:89-113 | a frame with echo and status or retcode completes that echo; any other goes to the sink |
| `YamlEdit.CloneNode` | app/host/config_update.go:837-849 | shows the same tree and consists of fresh nodes only |
| `YamlEdit.MappingValue` | app/host/config_update.go:627-637 | the value node of the first matching key, nil when there is none or the node is no mapping |
| `YamlEdit.RemoveMappingKey` | app/host/config_update.go:650-661 | removes the first matching entry in place and reports whether there was one |
| `YamlEdit.SameNode` | app/host/config_update.go:851-858 | true exactly when both nodes show the same tree |
| `YamlEdit.SetKey` | app/host/config_update.go:576-588 | the last step of setting a path, with a copy of the value |
| `YamlEdit.OpenChild` | app/host/config_update.go:590-597 | a missing or empty child becomes an empty mapping; any other is left as it is |
| `YamlEdit.SetMappingPath` | app/host/config_update.go:570-600 | in place what `YamlTree.SetPath` says; on error the tree is exactly as before; adds fresh nodes only, so it shares none with the value |
| `YamlEdit.PruneEmptied` | app/host/config_update.go:621-623 | an entry goes when its value is left without content |
| `YamlEdit.RemoveMappingPath` | app/host/config_update.go:602-625 | in place what `YamlTree.RemovePath` says; on error nothing changes |
| `YamlEdit.MergeMappingDefaults` | app/host/config_update.go:774-797 | in place what `YamlTree.Merge` says; the target gains fresh nodes only, so defaults are unmodified and share no node with it |
| `YamlEdit.MergeDefault` | app/host/config_update.go:777-794 | one default: copied when absent, merged mapping into mapping, written over a null |
| `PluginEntry.EnsurePluginEntryMapping` | app/host/config_update.go:468-480 | null becomes an empty mapping, anything else that is not a mapping is an error |
| `PluginEntry.FillMissingPluginEnabled` | app/host/config_update.go:799-813 | a missing `enabled` is put first, a null one becomes true, any other stays |
| `PluginEntry.FillPluginConfigDefaults` | app/host/config_update.go:755-772 | in place what `YamlTree.FillConfig` says, defaults untouched |
| `PluginEntry.SyncPluginConfigNode` | app/host/config_update.go:386-403 | in place what `YamlTree.Sync` says; on error nothing changes |
| `PluginEntry.ApplyAssignments` | app/host/config_update.go:530-541 | the assignments in order; an error keeps those before it |
| `PluginEntry.SetPluginConfigAssignments` | app/host/config_update.go:515-543 | in place what `YamlTree.AssignPaths` says, including what an error leaves behind |
| `PluginEntry.ApplyRemovals` | app/host/config_update.go:556-566 | the removals in order, counting those that removed something |
| `PluginEntry.RemovePluginConfigPaths` | app/host/config_update.go:545-568 | in place what `YamlTree.ResetPaths` says, including what an error leaves behind |
| `EntryLaws.AssignedPathResolves` | app/host/config_update.go:515-543 | after a successful batch each assigned path that no later one crosses resolves, below `config`, to its value |
| `EntryLaws.AssignKeepsOthers` | app/host/config_update.go:519-541 | every configuration path that no assigned path crosses resolves as it did before, even when the batch fails |
| `EntryLaws.AssignKeepsKeys` | app/host/config_update.go:515-543 | every key of the entry other than `config` is unchanged |
| `EntryLaws.AssignKeepsOrder` | app/host/config_update.go:519-527 | the keys of the entry keep their places |
| `EntryLaws.AssignSucceedsIff` | app/host/config_update.go:515-543 | a batch succeeds if and only if the entry is null or a mapping, its configuration is missing, empty or a mapping, and each assignment has a path that nothing blocks at its turn |
| `EntryLaws.AssignReportsIff` | app/host/config_update.go:531-542 | a change is reported if and only if some path, at its turn, resolved to something else than its value |
| `EntryLaws.QuietAssignChangesNothingIff` | app/host/config_update.go:519-542 | a batch that reports nothing left the entry as it was, if and only if it was not empty or the configuration was already a mapping that opening leaves alone |
| `EntryLaws.ReportedChangesCanCancelOut` | app/host/config_update.go:531-542 | a batch that ends where it began and reports a change |
| `EntryLaws.ResetPathIsGone` | app/host/config_update.go:545-568 | after a successful batch of removals no path of it resolves below `config` |
| `EntryLaws.ResetKeepsOthers` | app/host/config_update.go:545-568 | every configuration path that no removed path crosses resolves as it did before, even when the batch fails |
| `EntryLaws.ResetKeepsKeys` | app/host/config_update.go:545-568 | every key of the entry other than `config` is unchanged |
| `EntryLaws.ResetSucceedsIff` | app/host/config_update.go:545-568 | the batch succeeds if and only if the entry is null or a mapping and either there is no configuration to remove from, or it is a mapping and each removal has a path that nothing blocks at its turn |
| `EntryLaws.ResetCounts` | app/host/config_update.go:556-567 | the count is the number of removals that, at their turn, found something at their path |
| `EntryLaws.QuietResetChangesNothing` | app/host/config_update.go:545-568 | a batch that counts nothing changed nothing, but for a null entry becoming an empty mapping |
| `EntryLaws.FillEnabledExactly` | app/host/config_update.go:799-813 | `enabled` becomes the true scalar where it was missing or null and stays as it was otherwise; a missing one is put before everything else; no other key changes; it fails exactly on an entry that is neither null nor a mapping |
| `EntryLaws.SyncKeepsKeys` | app/host/config_update.go:386-403 | a sync gives `enabled` that value and changes no key but `enabled` and `config` |
| `EntryLaws.SyncKeepsUserValues` | app/host/config_update.go:386-403 | what the user configured, neither null nor a mapping, resolves identically after a sync |
| `EntryLaws.SyncFillsIn` | app/host/config_update.go:755-797 | a default that nothing blocks, and where the entry has nothing or null, is there after a sync exactly as it is |
| `EntryLaws.SyncReportsIff` | app/host/config_update.go:386-403 | a sync reports a change if and only if `enabled` was missing or null, or the configuration missing or empty, or some default was filled into it |
| `YamlLaws.SetThenResolve` | app/host/config_update.go:570-600 | after a successful set the path resolves to the value |
| `YamlLaws.FindIsFirst` | app/host/config_update.go:627-637 | a lookup finds the first entry with the key, and finds one whenever there is one |
| `YamlLaws.SetKeepsOthers` | app/host/config_update.go:570-600 | a set changes no path that is neither above nor below its own |
| `YamlLaws.SetOpensWay` | app/host/config_update.go:588-599 | after a successful set every node on the way is a mapping: the one that was there with its tag and value, or a fresh one where there was none or an empty one |
| `YamlLaws.SetSucceedsIff` | app/host/config_update.go:571-599 | a set succeeds if and only if the root is a mapping and no node on the way is anything but a mapping or empty |
| `YamlLaws.SetChangedIff` | app/host/config_update.go:583-588 | a change is reported if and only if the path resolved to something else, which is if and only if the tree changed |
| `YamlLaws.SetTwice` | app/host/config_update.go:570-600 | setting twice is setting once, to the second value |
| `YamlLaws.SetAgainIsQuiet` | app/host/config_update.go:583-585 | setting the same value again reports nothing and changes nothing |
| `YamlLaws.SetAllKeepsOthers` | app/host/config_update.go:530-541 | a batch leaves alone every path that none of its own crosses |
| `YamlLaws.SetAllResolves` | app/host/config_update.go:530-541 | after a batch each path that no later one crosses resolves to its value |
| `YamlLaws.RemoveUndoesSet` | app/host/config_update.go:602-625 | setting an absent path and removing it gives the same tree back, entry order included, if and only if no node on the way was there but empty |
| `YamlLaws.HollowIsNotRestored` | app/host/config_update.go:590-597 | such as a null, which setting below it and removing again drops |
| `YamlLaws.RemovedIff` | app/host/config_update.go:608-619 | a removal is reported if and only if the path resolved; otherwise the tree is unchanged |
| `YamlLaws.RemoveSucceedsIff` | app/host/config_update.go:602-620 | a removal succeeds if and only if the root is a mapping and no node on the way blocks |
| `YamlLaws.RemovedIsGoneIff` | app/host/config_update.go:602-661 | a removed path no longer resolves if and only if no later entry with a repeated key holds it where the removal drops one |
| `YamlLaws.RemovedIsGone` | app/host/config_update.go:650-661 | so with unique keys it never does |
| `YamlLaws.RemoveKeepsOthers` | app/host/config_update.go:617-624 | a removal, pruning included, changes no path that is neither above nor below its own |
| `YamlLaws.RemoveOnlyRemoves` | app/host/config_update.go:617-624 | whatever resolves after a removal resolved before, to the same node or from mapping to mapping |
| `YamlLaws.DuplicateKeySurvivesRemoval` | app/host/config_update.go:627-661 | an input where a repeated key makes the second value visible |
| `YamlMerge.GetAfterMerge` | app/host/config_update.go:774-797 | key by key, what a merged mapping holds: the target's value, the default's, or their merge |
| `YamlMerge.MergeKeepsUserValues` | app/host/config_update.go:781-794 | each node of the target that is neither null nor a mapping resolves identically after the merge, whatever keys the defaults repeat |
| `YamlMerge.MergeCoversDefaults` | app/host/config_update.go:780-794 | each default path that no user value blocks resolves, and to exactly the default where the target had nothing or null |
| `YamlMerge.MergeFillsIn` | app/host/config_update.go:780-794 | a default that nothing blocks, and where the target has nothing or null, is there after the merge exactly as it is |
| `YamlMerge.MergeReportsIff` | app/host/config_update.go:774-797 | a merge reports a change if and only if there is such a path |
| `YamlMerge.MergeAddsOnlyDefaults` | app/host/config_update.go:774-797 | what resolves after a merge came from the target or from the defaults |
| `YamlMerge.MergeKeepsOrder` | app/host/config_update.go:781-783 | the target's keys keep their places; new entries go to the end |
| `YamlMerge.QuietMergeChangesNothing` | app/host/config_update.go:774-797 | a merge that reports no change changed nothing |
| `YamlMerge.MergeIsIdempotent` | app/host/config_update.go:774-797 | merging the same defaults again gives the same tree |
| `YamlMerge.SecondMergeReportsIff` | app/host/config_update.go:791-794 | on the two inputs: a second merge reports a change if and only if the target lets a null default through and has nothing or null there |
| `YamlMerge.SecondMergeReports` | app/host/config_update.go:791-794 | on the merged tree: if and only if a null default is still null in it |
| `YamlMerge.NoNullDefaultIsQuiet` | app/host/config_update.go:791-794 | without a null in the defaults the second merge is quiet |
| `YamlMerge.NullDefaultIsNeverQuiet` | app/host/config_update.go:791-794 | a null leaf in the defaults that nothing blocks is reported every time |
| `YamlMerge.RemoveAllClears` | app/host/config_update.go:556-566 | after a batch of removals no path of it resolves, and the way to each is open for defaults |
| `YamlMerge.ResetThenFillRestoresDefaults` | app/host/config_update.go:755-797 | resetting a batch of paths and then filling defaults makes each that the defaults have resolve to exactly the default |
| `YamlMerge.QuietSyncChangesNothing` | app/host/config_update.go:386-403 | a sync that reports no change left the entry as it was |
| `YamlMerge.SyncSucceedsIff` | app/host/config_update.go:468-480 | a sync fails exactly on an entry that is neither null nor a mapping |
| `YamlMerge.SecondSyncReports` | app/host/config_update.go:386-403 | syncing twice gives the tree of syncing once, and from the entry and the defaults exactly when the second reports a change |
| `YamlMerge.SecondSyncIsQuiet` | app/host/config_update.go:755-813 | with a nonempty default mapping without null leaves the second sync reports nothing |
| `YamlMerge.EmptyDefaultAlwaysFills` | app/host/config_update.go:760-767 | an empty configuration is reported as filled by an empty default, again and again |
| `CqEscape.EscapeHead` | adapters/onebot11/message.go:228-234 | each character is written as itself, or as its own escape code where the place escapes it |
| `CqEscape.EscapeAppend` | adapters/onebot11/message.go:228-234 | escaping distributes over concatenation |
| `CqEscape.EscapedIsClean` | adapters/onebot11/message.go:228-234 | escaped text has no brackets and escaped parameters no comma; only the empty string escapes to nothing |
| `CqEscape.UnescapeUndoesEscape` | adapters/onebot11/message.go:236-242 | unescaping an escaped text followed by anything gives the text followed by that thing unescaped |
| `CqEscape.RoundTrip` | adapters/onebot11/message.go:228-242 | unescaping inverts escaping |
| `SortedStrings.Sort` | adapters/onebot11/message.go:174-178 | the keys in ascending order, each once |
| `SortedStrings.AscendingIsUnique` | adapters/onebot11/message.go:178-178 | there is one such listing, so rendering does not depend on map iteration |
| `SortedStrings.LessIff` | adapters/onebot11/message.go:178-178 | the order of strings is by the first character at which they differ, or by being a prefix |
| `CqCode.ParseCQ` | adapters/onebot11/message.go:130-159 | the index-driven loop computes the recursive parse, on every input |
| `CqCode.ParseCQSegment` | adapters/onebot11/message.go:205-226 | one code: type, parameters, qq read as id on at, malformed parts skipped |
| `CqCode.IndexIsLeftmost` | adapters/onebot11/message.go:136-136 | wherever the marker occurs, one is found at that position or before it, so the marker found is the leftmost and none is found only if it occurs nowhere |
| `CqReading.PlainTextUnescapes` | adapters/onebot11/message.go:236-242 | text without escape codes unescapes to itself, stray ampersands and brackets included |
| `CqReading.FirstCodeUnescapes` | adapters/onebot11/message.go:236-242 | the first escape code of a text becomes its character and unescaping goes on behind it |
| `CqReading.SplitJoins` | adapters/onebot11/message.go:206-206 | a code body is cut at every comma and nowhere else |
| `CqReading.RawParam` | adapters/onebot11/message.go:210-223 | a parameter as it stands in the text: its value unescaped, under its key, which is id for qq on at |
| `CqReading.TextCodeRest` | adapters/onebot11/message.go:134-158 | raw text without a marker, then a code, then the rest parses to that text unescaped, the code's segment and the parse of the rest |
| `CqReading.TextAlone` | adapters/onebot11/message.go:136-140 | text without any marker parses to one text, unescaped |
| `CqReading.UnclosedCode` | adapters/onebot11/message.go:145-149 | a marker with no closing bracket behind it is text from the marker to the end |
| `CqCode.ToWireChain` | adapters/onebot11/message.go:109-127 | each segment in wire form, with id written as qq on at |
| `CqCode.RenderParams` | adapters/onebot11/message.go:173-185 | parameters in ascending key order |
| `CqReading.CodeText` | adapters/onebot11/message.go:168-187 | a code is written with its type, then its keys in ascending order, each with its value escaped |
| `CqReading.MentionText` | adapters/onebot11/message.go:109-127 | the id of a mention is written as qq |
| `CqCode.CQString` | adapters/onebot11/message.go:162-189 | the loop computes the rendering of the chain |
| `CqLaws.CodeRoundTrip` | adapters/onebot11/message.go:205-226 | a rendered code is read back as the same code with its values as strings |
| `CqLaws.AppendTextTwice` | adapters/onebot11/message.go:191-203 | appending two texts is appending their concatenation |
| `CqLaws.PrintThenParse` | adapters/onebot11/message.go:130-242 | any chain whose types and keys hold no separator comes back as its replay: texts run together and codes reread one by one |
| `CqLaws.PlainChainsComeBack` | adapters/onebot11/message.go:130-242 | a chain of string texts and string-valued codes comes back with empty texts dropped and adjacent texts merged |
| `CqLaws.ParsedIsCarried` | adapters/onebot11/message.go:130-226 | whatever any input parses to, the text format can carry again |
| `CqLaws.ParsePrintParse` | adapters/onebot11/message.go:130-226 | for every input, printing a parse and parsing it gives the replay of that parse |
| `CqStability.ParsingIsStableIff` | adapters/onebot11/message.go:130-226 | for every input, and read off the input: parse-print-parse is the identity if and only if each typed code comes back as it is |
| `CqStability.StableIffAllReturn` | adapters/onebot11/message.go:130-226 | the same on the parsed chain: no empty text, no text after text, and each code its own rereading |
| `CqStability.ParsingIsStable` | adapters/onebot11/message.go:205-226 | without text codes the second parse only turns empty maps into nil, and changes nothing if and only if no code of the input has parts that are all malformed |
| `CqStability.BarrenCodeIsUnstable` | adapters/onebot11/message.go:214-219 | a code with one malformed part comes back with nil for its empty map |
| `CqStability.LoneTextCode` | adapters/onebot11/message.go:195-200 | a text code on its own is stable if and only if its text is not empty |
| `CqStability.TextCodeBreaksStability` | adapters/onebot11/message.go:195-200 | a text code after text parses to two segments the first time and one the second |
| `CqStability.TextAfterBareTextCode` | adapters/onebot11/message.go:195-200 | text after a bare text code is appended to a printed nil |
| `KeyedLocks.MutualExclusionPerKey` | core/scheduler.go:19-40 | in every run at most one thread is inside the critical section of a key |
| `KeyedLocks.TableIsExact` | core/scheduler.go:20-27 | all threads busy with a key use the object in the map, whose count is their number; no key is kept without one |
| `KeyedLocks.AllLeftMeansEmpty` | core/scheduler.go:33-38 | when all have left the map is empty and nothing is locked |
| `KeyedLocks.UnlockAndLeaveAreSafe` | core/scheduler.go:30-38 | a thread unlocks only what it holds and can always give its reference back |
| `KeyedLocks.WaiterCanEnter` | core/scheduler.go:29-29 | a waiter can enter as soon as nobody is inside its key |
| `LockHistory.ExclusionByActions` | core/scheduler.go:19-40 | from the actions alone: two threads that have acquired one key and not given it back are the same thread |
| `LockHistory.KeysInUse` | core/scheduler.go:20-38 | the map holds exactly the keys that some thread waits for, is inside of, or leaves, by the actions |
| `KeyedLocks.LockTable.Retain` | core/scheduler.go:20-27 | finds or creates the key's object and counts one reference more |
| `KeyedLocks.LockTable.Release` | core/scheduler.go:33-38 | counts one less and deletes the key at zero |
| `AdapterState.NoLostWakeup` | core/state.go:74-95 | a blocked waiter's channel is closed, or an updater still has to close it, or it is registered with no update since a state neither ready nor stopped was read |
| `AdapterState.OvertakenWaiterIsWoken` | core/state.go:143-145 | a waiter overtaken by an update is woken by steps of that updater alone |
| `AdapterState.ClosedOnce` | core/state.go:139-145 | no channel is closed twice, and closing never gets stuck |
| `AdapterState.ReturnsOnlyWhatItRead` | core/state.go:81-88 | nil and ErrActionUnavailable are returned only after a stored state was read as ready or stopped |
| `AdapterHistory.CancelledIff` | core/state.go:89-94 | a waiter returns its context's error if and only if its context ended while it was blocked |
| `AdapterHistory.AnswersAreReported` | core/state.go:80-88 | nil is returned only if some update of the run said ready, and ErrActionUnavailable only if one said stopped |
| `AdapterHistory.LastReportDecides` | core/state.go:74-95 | the last update decides what a waiter that asks next is answered, and before any update it waits |
| `AdapterState.StateCell.WaitChange` | core/state.go:153-170 | a ready state gives a closed signal, any other registers an open one |
| `AdapterState.StateCell.Update` | core/state.go:127-151 | stores the normalised state and closes every registered signal |
| `WorkerQueue.QueueIsFifoAndBounded` | core/app.go:142-152 | the queue is the accepted events not yet taken, in order, and never above its buffer |
| `WorkerQueue.NeverDispatchedTwice` | core/app.go:148-150 | no event is dispatched twice, nor one that was not accepted |
| `WorkerQueue.EveryAcceptedEventIsDispatchedOnce` | core/app.go:167-178 | when Run returns every accepted event has been dispatched exactly once |
| `WorkerQueue.DrainingNeverSticks` | core/app.go:177-178 | while Run waits for its workers some step is enabled, dispatch taken as one step |
| `WorkerQueue.DrainStepCountsDown` | core/app.go:177-178 | each step of draining brings the end one step nearer |
| `WorkerQueue.DrainingEnds` | core/app.go:177-178 | draining is over after a number of steps known when it starts |
| `QueueHistory.PhaseIs` | core/app.go:157-178 | Run serves exactly when its hooks succeeded and the adapter has not returned, and has returned exactly when it took its last step |
| `QueueHistory.QueueIsTheRest` | core/app.go:142-172 | from the actions alone: the queue is what was emitted and not yet taken, in order, within the buffer |
| `QueueHistory.EmittedIsDispatchedOnce` | core/app.go:142-178 | when Run returns each emitted event was taken, in order, and finished exactly once |
| `SerialRun.OneHandlerPerKey` | core/app.go:192-195 | with workers and keyed locks together, over all runs two workers never handle events of one key at the same time |
| `SerialRun.SerialRunDispatchesOnce` | core/app.go:142-178 | when Run returns each accepted event was dispatched exactly once, the waiting for keys included |
| `SerialRun.SerialDrainingNeverSticks` | core/app.go:177-178 | while Run waits for its workers some step is enabled, although workers wait for each other's keys |
| `SerialRun.SerialDrainingEnds` | core/app.go:177-178 | and it does so for a bounded number of steps, taking and giving back keys included |
| `SerialHistory.HandledInsideKey` | core/app.go:192-195 | from the actions alone: an event with a key is handled by a worker that has acquired that key and not given it back, and no other worker has |
| `SerialHistory.EmittedIsHandledOnce` | core/app.go:142-195 | when Run returns each emitted event was handled exactly once, with the waiting for keys |
| `RateLimit.RateLimiter.Allow` | core/middleware.go:147-166 | the decision and the new buckets, on the time and key of the call |
| `RateLimit.PassesAreBounded` | core/middleware.go:154-165 | over any trace, fewer than twice the limit of a key's calls pass in any half-open interval of one window |
| `RateLimit.BoundIsTight` | core/middleware.go:156-162 | for every limit some trace attains that bound |
| `RateLimit.RejectionIsDeserved` | core/middleware.go:162-165 | a call is rejected only if at least limit calls of its key passed less than one window ago |
| `RateLimit.InactivePassesAll` | core/middleware.go:149-151 | over any trace a limiter that is switched off remembers nothing, and as many calls pass as come, in any interval |
| `RateLimit.TransparentIffInactive` | core/middleware.go:149-165 | a limiter passes every call of every ordered trace if and only if its limit or window is not positive |
| `Stores.RemoveExpired` | core/file_store.go:176-185 | exactly the expired items go, and a change is reported if and only if there was one |
| `Stores.MemoryStore.SweepExpired` | core/store.go:105-120 | throttled unless forced |
| `Stores.MemoryStore.Get` | core/store.go:41-58 | one step of the memory store: an expired item is deleted on read |
| `Stores.MemoryStore.Set` | core/store.go:61-77 | one step: the item with its expiry, then a throttled sweep |
| `Stores.MemoryStore.Delete` | core/store.go:80-90 | one step: the key is gone |
| `Stores.MemoryStore.Sweep` | core/store.go:93-103 | one step: a forced sweep |
| `Stores.FileStore.Open` | core/file_store.go:33-46 | opens exactly the files that load, in step with the file |
| `Stores.FileStore.Save` | core/file_store.go:163-174 | the document is replaced as a whole or left alone |
| `Stores.FileStore.Get` | core/file_store.go:57-77 | one step of the file store, rolled back when saving fails |
| `Stores.FileStore.Set` | core/file_store.go:80-99 | one step, rolled back when saving fails |
| `Stores.FileStore.Delete` | core/file_store.go:102-118 | one step, rolled back when saving fails |
| `Stores.FileStore.Sweep` | core/file_store.go:121-136 | one step, rolled back when saving fails |
| `StoreLaws.MemoryRefinesHistory` | core/store.go:41-120 | over any calls, one at a time, Get returns the last value set and not deleted since, unless expired; sweeps are invisible |
| `StoreLaws.LateDeleteLosesIff` | core/store.go:47-56 | a Get in two halves with calls in between: it loses a write if and only if those calls by themselves leave a value for the key |
| `StoreLaws.LateDeleteLosesWrite` | core/store.go:47-56 | the schedule that loses a fresh Set |
| `StoreLaws.FileRefinesHistory` | core/file_store.go:57-136 | the same of the file store, over its successful calls, whichever calls fail |
| `StoreExpiry.MemoryTtl` | core/store.go:41-77 | over any ordered calls: a read behind a write of its key, with no successful write or delete of the key between them, finds the value if and only if its ttl is not positive or has not run out |
| `StoreExpiry.FileTtl` | core/file_store.go:57-99 | the same of the file store, where what counts is which calls succeeded |
| `StoreExpiry.MemoryDeleted` | core/store.go:80-90 | behind a delete, until the key is written again, a read finds nothing |
| `StoreExpiry.FileDeleted` | core/file_store.go:102-118 | the same of the file store |
| `StoreExpiry.ForcedSweepSweeps` | core/store.go:105-120 | a sweep leaves exactly the items that have not expired, as they were, in both stores |
| `StoreExpiry.FileFailsIff` | core/file_store.go:57-136 | a call fails if and only if it is cancelled, or has to save and cannot |
| `StoreLaws.StoresAgree` | core/file_store.go:57-136 | started empty, both stores answer alike on the calls the file store completes |
| `StoreLaws.StepIsDurable` | core/file_store.go:163-174 | after every call memory equals a fresh load, and a failed call changes nothing |
| `StoreLaws.RunIsDurable` | core/file_store.go:138-174 | so it is after any run |
| `StoreLaws.RestartIsInvisible` | core/file_store.go:33-46 | closing and reopening the store between any two calls changes no later answer |
| `Router.Table.On` | core/route.go:88-102 | appends a route with the next order |
| `Router.Table.SetPriority` | core/route.go:178-189 | changes a priority and keeps the cache honest |
| `Router.Table.Snapshot` | core/route.go:134-157 | exactly the present routes, cached or not, in order of priority and, where it is equal, of registration |
| `Router.SortRoutes` | core/route.go:146-152 | sorted, and a permutation |
| `Router.SortedOrderIsUnique` | core/route.go:147-152 | priority descending then order ascending leaves one permutation only |
| `Router.SortedMeans` | core/route.go:147-152 | a list of registered routes is sorted if and only if priorities never rise along it and routes of one priority stand in the order of registration |
| `Rules.MatchRules` | core/route.go:210-223 | matches if and only if no rule fails, with all matches combined |
| `Rules.CombinedSnoc` | core/rules.go:285-300 | merging one match more is combining the longer list |
| `Rules.TwoMatches` | core/rules.go:285-300 | two matches together: scores added, reasons joined by a semicolon and a space, variables of the second over the first |
| `Rules.LastWriterWins` | core/rules.go:293-298 | a variable has the value of the last rule that set it |
| `Dispatch.Dispatch` | core/app.go:198-220 | the loop, which evaluates each route's rules in the state that the handlers before it left, does what the recursive definition says |
| `Dispatch.RunsIffNothingStoppedBefore` | core/app.go:209-219 | a route runs if and only if it is eligible in the state it meets and no earlier route stopped in the state that one met; passing never stops |
| `Dispatch.NextRouteRunsIff` | core/app.go:198-219 | behind a route that ran none runs unless it passed or neither returned a stop, nor called Stop, nor had an error whose handler did; then the next one runs if and only if it has a handler and its rules match in the state left |
| `Dispatch.PassedOver` | core/app.go:199-206 | a route passed over had no handler or a rule that failed, and leaves the state as it is |
| `Dispatch.DispatchEvent` | core/app.go:192-222 | against the table, after any registrations and priority changes and whatever handlers do to the context: exactly the eligible routes run that no route before them, by priority and registration, stops, and in that order |
| `SplitArgv.SplitArgv` | core/rules.go:310-355 | the loop computes the quote and escape machine |
| `SplitArgv.SplitReadsWords` | core/rules.go:323-354 | a line of words, each spelled with any mix of plain characters, escapes and quotes and separated by any nonempty runs of separators, splits into exactly what the words mean, whatever white space surrounds it |
| `SplitArgv.SplitPlainWords` | core/rules.go:343-348 | plain words come out as they are, whatever runs of spaces, tabs and line ends separate them |
| `SplitArgv.DanglingBackslashStays` | core/rules.go:350-352 | a backslash that dangles behind the last word stands for itself |
| `SplitArgv.EscapedSpaceAtTheEnd` | core/rules.go:323-352 | an escaped space at the very end is trimmed, and the backslash stays |
| `SplitArgv.SplitInvertsQuoting` | core/rules.go:310-355 | quoting any list of arguments, with either quote mark on each, and splitting the line gives exactly that list |

## Left out

- The websocket, HTTP and TLS I/O, JSON and YAML encoding, and file system calls: a write replaces a whole document or
  nothing, and a frame is an echo, the presence of status and retcode, and a body.
- In `callRaw`, the check for an empty action, and frames that do not decode. An echo is the number in its text; a frame
  with any other echo text is one with a number that was never drawn.
- 64-bit wrap-around of echo and route numbers, and overflow of times and durations.
- `callRaw`, `WaitActionReady`, `App.Run` and the connection loops as single methods: they block, so their critical
  sections are methods and the order of these is the transition system's. The reconnect delay is not modelled.
- Fairness: the liveness statements say that a step is enabled, or that given steps lead to the goal, not that a
  scheduler takes them.
- Connection and adapter state events, hooks, observers, tasks, panic recovery, and logging.
- The path of `App.Run` without workers, which calls dispatch directly. With workers, no order between events of one key
  is claimed: the locks give exclusion only.
- `WorkerQueue` takes it that the adapter emits nothing after its Start has returned, as closing the queue requires.
- `Stores.MemoryStore.Get`: one step, where the source reads and deletes under separate locks.
  `StoreLaws.LateDeleteLosesIff` says exactly what that costs for one such read; the history laws take calls one at a
  time, and several late deletes at once are not modelled.
- Clocks and call times that go back: the store and rate limit laws ask for times that do not decrease.
- `YamlEdit.SameNode`: compares trees, where the source compares encodings, which also show comments and styles.
- YAML anchors, aliases, comments, styles and line numbers, and building the default tree of a plugin from its type.
- The footprint of a YAML node may keep nodes that were unlinked from it, so it bounds what a tree owns from above.
- `YamlEdit.SetMappingPath`: the value must not lie inside the mapping it is assigned into, because the source decodes
  it separately. `PluginEntry.ApplyAssignments` and `PluginEntry.SetPluginConfigAssignments` ask the same of theirs.
- `CqCode.ToWireChain`: does not rewrite message chains inside `node` segments; a value that is no string is known by
  the text it prints as.
- `CqLaws.PrintThenParse`: asks that types and keys hold none of the separators, because the format does not escape
  them.
- Middleware chaining, route names, and what a single rule does: it is missing, fails or matches with a result that
  depends on the context's state, which it does not change.
- `Rules.MatchRules`: scores are real numbers, so floating point rounding is not modelled.
- Regular expressions, case folding, configuration locks, status tables, command line tools, and the typed OneBot
  actions.
