# Verified models of Commons and LogCommons

This project models the algorithmic parts of `Commons` and `LogCommons` in Dafny and proves what they promise.
`dafny verify dfyconfig.toml` checks all of it.

| files | what they model |
|---|---|
| `Names`, `FileReceiverProtocol`, `FileReceiverSession`, `FileReceiverMarks`, `FileReceiver`, `FileReceiverLimits` | the dispatch of log files from a directory of any size through a window of bounded size, as steps that interleave freely; one calling thread among everybody else; the class; and where its promises end |
| `ReceiverFacadeProtocol`, `ReceiverFacadeRuns`, `ReceiverFacadeKeys`, `FileReceiverFacade`, `LogFileNames` | many receivers behind one ordered list, with empty ones parked until a callback wakes them; and the names and keys the request log loader orders them by |
| `GranularSnapshots`, `GranularContainer` | containers rebuilt from their predecessors with timestamps and tombstones, so that shipping the newer entries is enough to catch up |
| `GasonText`, `GasonGrammar`, `WrittenJson`, `AcceptedJson`, `TextEnds`, `JsonFaults`, `GasonNodes`, `GasonStack`, `GasonParser`, `GasonResults`, `GasonValues`, `GasonZones` | the JSON parser that unescapes strings inside its buffer and links its nodes in circles: as a function of the text, against a grammar of exactly what it accepts with RFC 8259 as a part of it, and as the loop over the buffer |
| `BitStrings`, `Base32`, `Base32Alphabet`, `ExternalUserIds` | base 32 by RFC 4648 and lists of user ids packed into DNS labels |
| `Intervals`, `PathManip`, `LockMap`, `Algs`, `CollectorBundle` | interval sets, path normalization, locks by key with counted references, merges, and the gathering of collectors into spillovers |
| `Options` | a value that may be missing |

## How to read it

The concurrent parts are machines: a state, the events that are possible in it, and the next state. An event is what the
program does under one hold of a lock, so that events of different threads interleave in every possible way. A class with
the same fields then shows, method by method, that the program text makes those steps. What a loop computes is a function
or a relation over values; the method that holds the loop is proved against it, and lemmas say what that function means.

What the environment does is part of the machines, with these rules:

- File names match `[A-Z]*`, the pattern of the directory selector, and the order of the names in one directory is the order
  of their timestamps (LogCommons/FileReceiver.hpp:38-42). So the facade may order its receivers by any key that is monotone
  on the names of each log type; names of two log types are never compared. `LogFileNames.KeysAreMonotone` shows it of the
  names the logs are written under and of both strategies in the repository: without priorities it is the default one.
  A time is the number its twenty digits spell, which orders times as the calendar does.
- Only files of its own log type come into the directory of a receiver of the facade.
- A client removes its file from the directory before it lets the guard go, and a file given back is still there.
- A directory walk reports every entry that was there from its start to its end. A file renamed in during the walk may be
  reported or not. A directory that cannot be opened counts as empty, as the selector treats it
  (LogCommons/FileReceiver.cpp:507-510).
- A name does not arrive while `processed_files_` still holds it. An aborted scan does not clear that set, so a name used
  again before the next complete scan is forgotten: `FileReceiverLimits.ReusedNameIsForgotten` is such a run.
- Per receiver one thread at a time is inside `get_eldest`, as the facade and the thread pool have it. With two threads the
  promise fails: `FileReceiverLimits.TwoThreadsMissTheEldest` is such a run.

Where the parser is more lenient than RFC 8259 the grammar follows the parser: missing commas and colons, a comma behind the
last item, one behind an opening bracket that itself stands behind a value without a comma, a key without a value, numbers
such as `01` or `1.`, and control characters. A string that the end of the text cuts off is accepted too. Where the text ends
in white space before a value is complete the parser reads on behind the terminating NUL; the model stops there with a status
`Overrun` of its own. One char of the model is one byte.

## Model

| member | source | states |
|---|---|---|
| `Names.Order` | LogCommons/FileReceiver.hpp:212 | File names under the order of `std::string` are strictly and totally ordered |
| `FileReceiverProtocol.AddFileEffect` | LogCommons/FileReceiver.cpp:271-290 | One insertion into the window keeps the bound and changes nothing else; only out of a full window does a name fall, the last one, and it is at or above a non-empty mark that only moves down |
| `FileReceiverProtocol.AddFileRepairs` | LogCommons/FileReceiver.cpp:271-290 | Inserting the one file that was forgotten restores the invariant, with a non-empty window |
| `FileReceiverProtocol.TakeKeeps` | LogCommons/FileReceiver.cpp:251-269 | Handing out the first file keeps the invariant; the name was not in progress, so the assert holds |
| `FileReceiverProtocol.EntryHandledKeeps` | LogCommons/FileReceiver.cpp:448-466 | A scan entry keeps the invariant; a name in progress or processed is not brought back |
| `FileReceiverProtocol.ArriveKeeps` | LogCommons/FileReceiver.cpp:420-447 | A file renamed in during or outside a scan keeps the invariant |
| `FileReceiverProtocol.RevertKeeps` | LogCommons/FileReceiver.cpp:353-366 | Giving a file back keeps the invariant; the name was in progress, so the assert holds |
| `FileReceiverProtocol.DestroyKeeps` | LogCommons/FileReceiver.cpp:340-351 | Letting a guard go keeps the invariant; the name was in progress, so the assert holds |
| `FileReceiverProtocol.FetchFailKeeps` | LogCommons/FileReceiver.cpp:313-329 | An aborted scan puts a mark back that is at most the saved one, and the invariant no longer depends on the scan |
| `FileReceiverProtocol.FetchKeeps` | LogCommons/FileReceiver.cpp:292-338 | Starting a scan, reading entries and ending a complete scan keep the invariant |
| `FileReceiverProtocol.StepKeeps` | LogCommons/FileReceiver.cpp:251-466 | Every step of the machine keeps the invariant |
| `FileReceiverProtocol.RunKeeps` | LogCommons/FileReceiver.cpp:251-466 | In every state of every interleaved run each available file is in the window, or at or above the mark, or still ahead of the running scan; the window is bounded and disjoint from the files in progress |
| `FileReceiverProtocol.EldestOfDirectory` | LogCommons/FileReceiver.cpp:215-221 | Where the test of `get_eldest_` holds, the first file of the window is the eldest available file of the whole directory, and there is none exactly when no file is available |
| `FileReceiverProtocol.HandedOutOnce` | LogCommons/FileReceiver.hpp:231-241 | Over any run no name is handed out twice unless in between its guard reverted it or a file of that name was moved in and not refused as a duplicate |
| `FileReceiverSession.ForeignKeepsTop` | LogCommons/FileReceiver.cpp:223-228 | Entries, arrivals, reverts and finished files never put the mark below the window again once the scan has cleared it |
| `FileReceiverSession.DoKeeps` | LogCommons/FileReceiver.cpp:210-229 | Every move of the one calling thread and of everybody else keeps the session invariant |
| `FileReceiverSession.RunKeepsSession` | LogCommons/FileReceiver.cpp:210-229 | The session invariant holds in every state of every run |
| `FileReceiverSession.GetEldestIsEldest` | LogCommons/FileReceiver.cpp:210-229 | With serialized callers `get_eldest` always returns the eldest available file of the whole directory, none exactly when there is none; the new top is the eldest of what is left wherever the window begins with it, and otherwise the mark, a lower bound on what is left |
| `FileReceiverSession.TakenAscending` | LogCommons/FileReceiver.cpp:210-229 | In any run, as long as no file is reverted or moved in, consecutive calls return the files in ascending order |
| `FileReceiverSession.EveryFileIsHandedOut` | LogCommons/FileReceiver.cpp:210-229 | In any run, once `get_eldest` returns none every file that was available before has been given to a caller |
| `FileReceiverSession.NewTopBounds` | LogCommons/FileReceiver.cpp:264-266 | The reported new top is empty only when nothing is left and a lower bound on every available file; where the top is known it is itself the eldest available file, and otherwise it is the mark |
| `FileReceiverSession.TopIsTaken` | LogCommons/FileReceiver.cpp:210-229 | A new top that is reported while it is known is what the next call returns, unless a file is reverted or moved in before |
| `FileReceiverSession.CallerGoesOn` | LogCommons/FileReceiver.cpp:210-229 | In every state the calling thread can go on: it takes or scans as the test says, the walk ends or goes on, and what follows a scan is a take |
| `FileReceiverMarks.MarkIsLeast` | LogCommons/FileReceiver.cpp:271-338 | In every run the mark is the least of the names that fell out of the window since the last scan began that was completed or still runs, the start mark among them before there is one, and empty exactly when there is none |
| `FileReceiverMarks.ScansExactly` | LogCommons/FileReceiver.cpp:292-302 | So a call scans if and only if a name outside comes before everything in the window |
| `FileReceiverMarks.ProcessedExactly` | LogCommons/FileReceiver.cpp:340-351 | A name is in `processed_files_` if and only if its file was finished during a scan and no scan was completed since |
| `FileReceiver.FileReceiver.constructor` | LogCommons/FileReceiver.cpp:178-194 | The fields of a new receiver are the initial state of the protocol |
| `FileReceiver.FileReceiver.GetEldestI` | LogCommons/FileReceiver.cpp:251-269 | The fields move as the protocol takes the eldest file; result and new top are the protocol's |
| `FileReceiver.FileReceiver.AddFileI` | LogCommons/FileReceiver.cpp:271-290 | The fields move as the protocol adds a file; the returned top is the protocol's |
| `FileReceiver.FileReceiver.FetchBegin` | LogCommons/FileReceiver.cpp:298-311 | Under the lock: nothing if the top is known, else the scan begins and the old mark is returned |
| `FileReceiver.FileReceiver.FetchIntermediateDirHandler` | LogCommons/FileReceiver.cpp:448-466 | The handler is one step of the protocol |
| `FileReceiver.FileReceiver.FetchFail` | LogCommons/FileReceiver.cpp:317-329 | The exception path is one step of the protocol |
| `FileReceiver.FileReceiver.FetchEnd` | LogCommons/FileReceiver.cpp:333-337 | The end of a complete scan is one step of the protocol |
| `FileReceiver.FileReceiver.FileProcessed` | LogCommons/FileReceiver.cpp:340-351 | The destructor's call is one step of the protocol |
| `FileReceiver.FileReceiver.Revert` | LogCommons/FileReceiver.cpp:353-366 | Reverting is one step of the protocol, with the top that may be announced |
| `FileReceiver.FileReceiver.FetchFile` | LogCommons/FileReceiver.cpp:420-447 | A duplicate is refused and nothing changes; otherwise the file is in the directory and remembered |
| `FileReceiver.FileReceiver.Empty` | LogCommons/FileReceiver.cpp:241-246 | With no scan running, true means that no file is available; false with an empty mark means that one is |
| `FileReceiver.FileReceiver.DirSelectInternal` | LogCommons/FileReceiver.cpp:489-513 | The selector loop hands every entry to the handler, so that the scan may end, and is interrupted exactly where the interrupter does not let all entries through |
| `FileReceiver.FileReceiver.FetchIntermediateDir` | LogCommons/FileReceiver.cpp:292-338 | Nothing happens where the top is known; otherwise the scan ends with the top known and the processed names cleared, or is interrupted, exactly where the interrupter stops it, and leaves a valid receiver with no scan running, a mark, and the processed names as they were |
| `FileReceiver.FileReceiver.GetEldest` | LogCommons/FileReceiver.cpp:210-229 | Undisturbed, the eldest available file of the whole directory is returned and only it is no longer available; the call is interrupted only where a scan is needed and the interrupter stops it |
| `FileReceiverLimits.TwoThreadsMissTheEldest` | LogCommons/FileReceiver.cpp:223-228 | Why callers are serialized: for any three names a < b < c and any two or more threads a run in which the second is given c while b is available |
| `FileReceiverLimits.OneThreadExactly` | LogCommons/FileReceiver.cpp:210-229 | For a crew of n threads that call it, `get_eldest` gives the eldest available file in every run if and only if n is at most one |
| `FileReceiverLimits.ProcessedOutlivesTheScan` | LogCommons/FileReceiver.cpp:317-329 | An aborted scan leaves names in `processed_files_`: a run that ends so |
| `FileReceiverLimits.ReusedNameIsForgotten` | LogCommons/FileReceiver.cpp:448-466 | Why such a name must not be used again: a run from a new receiver in which it is, after which it is available and forgotten and a younger file is next |
| `ReceiverFacadeProtocol.SortByKeySorted` | LogCommons/FileReceiverFacade.hpp:181-187 | The list sort orders the holders by key |
| `ReceiverFacadeProtocol.SortedStays` | LogCommons/FileReceiverFacade.hpp:208-327 | Every move keeps a list in order, and a move that ends with the sort puts any list in order |
| `ReceiverFacadeProtocol.ListsPartition` | LogCommons/FileReceiverFacade.hpp:158-161 | A holder is in exactly one of the two lists |
| `ReceiverFacadeProtocol.OwedGrows` | LogCommons/FileReceiver.cpp:559-572 | A receiver owes a file it did not owe before only by a step that announces a top no younger than that file |
| `ReceiverFacadeProtocol.AnnouncedExactly` | LogCommons/FileReceiver.cpp:559-572 | A callback is made for a file moved in or put back if and only if no name in the window and no mark comes before it |
| `ReceiverFacadeProtocol.NamesStay` | LogCommons/FileReceiver.hpp:38-42 | Every move leaves each receiver with files, marks and saved marks that are names of its own log type |
| `ReceiverFacadeProtocol.TakeFileResult` | LogCommons/FileReceiverFacade.hpp:301-304 | Inside the holder's lock the receiver gives its eldest file and a correct new top |
| `ReceiverFacadeProtocol.FetchKeepsFacade` | LogCommons/FileReceiverFacade.hpp:301-304 | The scan inside `get_eldest` keeps the facade invariant |
| `ReceiverFacadeProtocol.TakeFileKeeps` | LogCommons/FileReceiverFacade.hpp:301-304 | Taking the file keeps the facade invariant |
| `ReceiverFacadeProtocol.ThrowKeeps` | LogCommons/FileReceiverFacade.hpp:301-304 | An exception out of the receiver keeps the facade invariant |
| `ReceiverFacadeProtocol.OutsideQuietKeeps` | LogCommons/FileReceiver.cpp:559-572 | A step of a receiver that announces nothing keeps the facade invariant |
| `ReceiverFacadeProtocol.OutsideLoudKeeps` | LogCommons/FileReceiver.cpp:559-572 | A step of a receiver that announces a new top keeps the facade invariant, with the callback pending |
| `ReceiverFacadeProtocol.PublishKeeps` | LogCommons/FileReceiverFacade.hpp:305-322 | Parking or re-keying a holder after a take keeps the facade invariant |
| `ReceiverFacadeProtocol.DeliverKeeps` | LogCommons/FileReceiverFacade.hpp:208-234 | A callback coming through keeps the facade invariant |
| `ReceiverFacadeProtocol.MoveKeeps` | LogCommons/FileReceiverFacade.hpp:208-327 | Every move of the facade machine keeps the facade invariant |
| `ReceiverFacadeRuns.RunKeepsFacade` | LogCommons/FileReceiverFacade.hpp:208-327 | The facade invariant holds in every state of every run over fresh receivers, whatever the log types and however their names compare with each other |
| `ReceiverFacadeRuns.ListsAlwaysFit` | LogCommons/FileReceiverFacade.hpp:208-327 | In every run active and parked holders partition the receivers, and the active list is sorted whenever the condition lock is free, from the start if the constructor was given it in order and otherwise from the first sort on |
| `ReceiverFacadeRuns.NoLostWakeup` | LogCommons/FileReceiverFacade.hpp:208-234 | In every run a parked holder whose receiver has an available file has a callback pending, under a key no younger than that file |
| `ReceiverFacadeRuns.WaitsForNothing` | LogCommons/FileReceiverFacade.hpp:286-291 | In every run, when all holders are parked and no callback is pending, no receiver has an available file |
| `ReceiverFacadeRuns.TakenInOrder` | LogCommons/FileReceiverFacade.hpp:281-326 | In every run a returned file is the eldest of its receiver; if the list was in order and the key of the file is the key it was picked under, no listed holder without a pending callback had a file with a lower key when it was picked |
| `ReceiverFacadeRuns.PublishedOnce` | LogCommons/FileReceiverFacade.hpp:305-322 | In every run what a thread takes it publishes once |
| `ReceiverFacadeRuns.NobodyIsStuck` | LogCommons/FileReceiverFacade.hpp:281-326 | In no run are threads stuck: each can move, waits for a listed holder, or waits for the lock of a holder whose owner can move |
| `ReceiverFacadeRuns.CallbacksComeThrough` | LogCommons/FileReceiverFacade.hpp:208-234 | In every run a pending callback can come through, or waits for the lock of a holder whose owner can move |
| `ReceiverFacadeKeys.KeyIsLeastHeard` | LogCommons/FileReceiverFacade.hpp:208-326 | In every run the key of a holder is the least key of the start mark or of the names its receiver said since: the new top of the last take, and the tops of the callbacks behind it |
| `ReceiverFacadeKeys.HeardWasSaid` | LogCommons/FileReceiverFacade.hpp:208-326 | Nothing counts for the key of a holder but what its own receiver announced or reported in that run |
| `ReceiverFacadeKeys.TakenUnderItsKey` | LogCommons/FileReceiverFacade.hpp:281-326 | In every run: where the name with the least key that counts is the eldest file of the holder at the take, that file is taken, under its own key, and no listed holder without a pending callback had a file with a lower key when it was picked |
| `ReceiverFacadeKeys.SortIsStable` | LogCommons/FileReceiverFacade.hpp:181-187 | The sort leaves holders with one key in the order they had |
| `ReceiverFacadeKeys.WokenGoesBehind` | LogCommons/FileReceiverFacade.hpp:208-234 | A holder that is woken goes behind the listed ones with its key |
| `LogFileNames.TimeOrder` | LogCommons/LogCommons.cpp:69-70 | On stamps the order of the strings is the order of the times they spell |
| `LogFileNames.StampIsFound` | LogCommons/LogCommons.cpp:508-520 | The parser finds the time that was written into a name, whatever stands behind it |
| `LogFileNames.KeysCompare` | RequestInfoSvcs/RequestInfoManager/RequestLogLoader.hpp:168-204 | Keys compare as the operator says: by greater priority, and by time among equal ones, whatever the names of the types |
| `LogFileNames.WrittenKeysCompare` | RequestInfoSvcs/RequestInfoManager/RequestLogLoader.hpp:168-204 | Among types of one priority written names compare by their times alone, whatever the bases and what stands behind the time |
| `LogFileNames.WrittenInOrder` | LogCommons/FileReceiver.hpp:38-42 | Among written names of one base the order of the strings is the order of the times |
| `LogFileNames.KeysAreMonotone` | RequestInfoSvcs/RequestInfoManager/RequestLogLoader.hpp:187-204 | What the facade asks of its strategy holds for written names of any log types with any priorities |
| `LogFileNames.StartsInOrder` | LogCommons/FileReceiverFacade.hpp:244-251 | The list of a new facade is in order if and only if no log type stands before one of greater priority |
| `LogFileNames.LoaderLosesNoWakeup` | RequestInfoSvcs/RequestInfoManager/RequestLogLoader.hpp:158-208 | In every run over written names, a parked holder whose receiver has an available file has a callback pending for a time no later |
| `FileReceiverFacade.FileReceiverFacade.FindHolderI` | LogCommons/FileReceiverFacade.hpp:254-270 | The first holder of the log type, or the end exactly when there is none |
| `FileReceiverFacade.FileReceiverFacade.Choose` | LogCommons/FileReceiverFacade.hpp:283-297 | The front of the list, whose key is the least one when the list is sorted |
| `FileReceiverFacade.FileReceiverFacade.Publish` | LogCommons/FileReceiverFacade.hpp:305-322 | The lists and keys move as the protocol publishes the result |
| `FileReceiverFacade.FileReceiverFacade.OnTopChanged` | LogCommons/FileReceiverFacade.hpp:208-234 | The lists and keys move as the protocol delivers a callback |
| `FileReceiverFacade.RemoveAt` | LogCommons/FileReceiverFacade.hpp:309-315 | Erasing at the found place removes the holder and nothing else |
| `GranularSnapshots.AppliedExactly` | Commons/GranularContainer.hpp:521-606 | After any activations and deactivations a key is decided by the last word on it, and its timestamp is the old one exactly when status and value are |
| `GranularSnapshots.RebuiltExactly` | Commons/GranularContainer.hpp:521-653 | One rebuild keeps active and inactive keys disjoint, covers every old key, and dates an entry `sysdate` exactly when its status or value changed |
| `GranularSnapshots.OverlayExact` | CampaignSvcs/CampaignServer/CampaignServerImpl.cpp:1276-1309 | Entries stamped after a replica's own, laid over it, give the later active map if and only if the later container still knows every active key of the replica |
| `GranularSnapshots.SentExactly` | CampaignSvcs/CampaignServer/CampaignServerImpl.cpp:1276-1309 | What is sent is exactly the entries and tombstones that the replica does not have as they are |
| `GranularSnapshots.CatchUpExact` | Commons/GranularContainer.hpp:521-698 | The same for any two containers of a chain with rising dates |
| `GranularSnapshots.CatchUp` | Commons/GranularContainer.hpp:521-698 | Catching up works when no cleaning in between reaches past what the replica has |
| `GranularSnapshots.FollowerKeepsUp` | Commons/GranularContainer.hpp:521-698 | A replica brought up at any number of stops in turn equals the container at every one of them |
| `GranularSnapshots.StampIsDate` | Commons/GranularContainer.hpp:521-653 | Every timestamp in a chain is the date of some rebuild before |
| `GranularSnapshots.CleanedTooFar` | Commons/GranularContainer.hpp:655-698 | Cleaning a tombstone the replica does not have loses the deletion: a concrete chain |
| `GranularContainer.NoCopyGranularContainer.Activate` | Commons/GranularContainer.hpp:521-574 | For any element: the maps, the result and the timestamp that is set. Where no other key shares the element the container, read through its pointers, becomes what one activation makes of it; keys that share it get the same timestamp |
| `GranularContainer.NoCopyGranularContainer.Deactivate` | Commons/GranularContainer.hpp:576-606 | The container becomes what one deactivation makes of it |
| `GranularContainer.NoCopyGranularContainer.DeactivateNonactive` | Commons/GranularContainer.hpp:608-653 | Unmentioned keys of the old container become tombstones with the right dates; the count is that of the newly dead ones |
| `GranularContainer.NoCopyGranularContainer.CleanDeactivated` | Commons/GranularContainer.hpp:655-698 | Exactly the tombstones not older than the limit stay, in whatever order the map is walked |
| `GranularContainer.NoCopyGranularContainer.MaxStamp` | Commons/GranularContainer.hpp:747-776 | The largest timestamp of the container, or zero |
| `GasonGrammar.NumberLexed` | Commons/Gason.cpp:52-88 | Every number the grammar has, those of section 6 of RFC 8259 among them, is before a delimiter one token with exactly its characters |
| `GasonGrammar.PiecesLexed` | Commons/Gason.cpp:253-306 | Every string of characters and escapes, those of section 7 of RFC 8259 among them, is decoded to its value and ends at its closing quote; the value of an escape is the code point the section names, that of `\uXXXX` the number its hex digits spell |
| `GasonGrammar.ScalarLexed` | Commons/Gason.cpp:237-329 | Every scalar is read as its value and ends where it ends |
| `GasonGrammar.RfcIsGood` | Commons/Gason.cpp:222-390 | Every JSON text of sections 2 to 7 of RFC 8259 is a text of the grammar |
| `WrittenJson.RunDoc` | Commons/Gason.cpp:222-390 | Whatever is open around it, parsing the text of a value completes that value, or one bracket too many is opened |
| `WrittenJson.RunRest` | Commons/Gason.cpp:330-388 | The members that are left in a bracket are all read, in order, and the bracket is closed |
| `AcceptedJson.PiecesRead` | Commons/Gason.cpp:253-306 | Whatever a literal is read from is characters and whole escapes with that value |
| `AcceptedJson.RestRead` | Commons/Gason.cpp:230-388 | Wherever a run that succeeds is inside a bracket, what it reads up to the end of the bracket is items of the grammar, and they are what it adds |
| `AcceptedJson.AfterRead` | Commons/Gason.cpp:348-383 | The same behind a key, with or without a colon and a value |
| `GasonResults.ParsingUndoesPrinting` | Commons/Gason.cpp:222-390 | For every text of the grammar, however it is laid out: its tree if at most 32 brackets are open at once, the stack overflow status otherwise |
| `GasonResults.JsonIsRead` | Commons/Gason.cpp:222-390 | Every JSON text of RFC 8259 with at most 32 brackets open at once, any escape in it, is parsed to its tree and its end; white space, delimiters and escapes are those of the RFC, written out and not taken from the tables of the parser |
| `GasonResults.AcceptedExactly` | Commons/Gason.cpp:222-390 | A text is accepted with a value and an end if and only if it starts with a text of the grammar of that value and length, or is a string that the end of the text cuts off |
| `GasonNodes.FindEndOfNumber` | Commons/DecimalUtils.hpp:60-101 | The end found later for a stored number is where the parser ended it |
| `GasonNodes.NumberEndAgrees` | Commons/DecimalUtils.hpp:60-101 | Where a number ends is decided by its characters and the one behind it |
| `GasonNodes.ReadsKept` | Commons/Gason.cpp:225-388 | What a closed value reads as does not change while later text is overwritten and later nodes are linked |
| `GasonStack.Grows` | Commons/Gason.cpp:194-207 | A node added to the circle of a bracket is its last member; all other brackets and closed values are as before |
| `GasonStack.CutChain` | Commons/Gason.cpp:209-219 | Cut open, the circle is a null-terminated chain of the members from any one on |
| `GasonStack.Cut` | Commons/Gason.cpp:209-219 | Closing a bracket gives a value that reads as the list of its members, in order |
| `GasonStack.Adds` | Commons/Gason.cpp:366-388 | The whole stack still reads as before, with one member more in the innermost bracket |
| `GasonStack.Shuts` | Commons/Gason.cpp:330-339 | The whole stack without its innermost bracket still reads as before |
| `GasonParser.SkipSpaces` | Commons/Gason.cpp:231 | The cursor stops at the first byte that is no white space |
| `GasonParser.ConsumeFloat` | Commons/Gason.cpp:52-88 | The cursor stops where the number ends |
| `GasonParser.MatchWord` | Commons/Gason.cpp:307-329 | Accepted exactly when the word and a delimiter stand there |
| `GasonParser.ReadHex` | Commons/Gason.cpp:271-278 | The value of four hex digits, or the place of the first byte that is none |
| `GasonParser.WriteUtf8` | Commons/Gason.cpp:279-296 | The bytes of the character stand from the write cursor on and nothing else changes |
| `GasonParser.Unescape` | Commons/Gason.cpp:259-301 | One escape is decoded; the write cursor does not pass the read cursor and unread text is untouched |
| `GasonParser.StringCharacter` | Commons/Gason.cpp:256-301 | One character or escape of a string is decoded in place; unread text is untouched |
| `GasonParser.ParseString` | Commons/Gason.cpp:253-306 | The string is decoded in place and terminated by NUL; nothing before it and nothing unread is changed |
| `GasonParser.ParseNumber` | Commons/Gason.cpp:237-252 | The number as the text has it, readable later through the buffer, or the bad number status and place |
| `GasonParser.ParseScalar` | Commons/Gason.cpp:233-329 | Any scalar: its value, readable through the buffer, or the status and place of the fault |
| `GasonParser.Structure` | Commons/Gason.cpp:340-355 | Opening brackets, colons and commas move the fixed stack of 32 as the grammar does, never out of its bounds |
| `GasonParser.Close` | Commons/Gason.cpp:330-339 | Closing brackets complete the list of the innermost bracket or give the status |
| `GasonParser.TakeValue` | Commons/Gason.cpp:230-339 | A complete value is found with the whole stack intact, or the status and place of the fault |
| `GasonParser.Attach` | Commons/Gason.cpp:366-388 | A complete value becomes the key or the next member of the innermost bracket, or is refused as an unquoted key |
| `GasonParser.NodePool.Append` | Commons/Gason.cpp:377-387 | A node goes to the tail of the circle and gets a block of its own that overlaps no other, on a boundary of 8 and large enough for what is written into it |
| `GasonParser.ValueRound` | Commons/Gason.cpp:230-388 | A round that completes a value ends with it as the result, puts it into the innermost bracket, or gives the status and place of the fault |
| `GasonParser.JsonParse` | Commons/Gason.cpp:222-390 | On every buffer: status and end, which is the start of the last token where the text ends too early, and, where it succeeds, a value that reads back through buffer and nodes as the tree of the original text; nodes of earlier parses are untouched, and all nodes lie in blocks of their own |
| `GasonResults.PrintedIsReadBack` | Commons/Gason.cpp:222-390 | What was printed from a value is read back from the buffer and the nodes as that value |
| `GasonResults.StringIsReadBack` | Commons/Gason.hpp:216-222 | A string is read back whole as a C string if and only if it has no NUL in it |
| `GasonResults.EscapeIsUtf8` | Commons/Gason.cpp:279-296 | The bytes stored for `\uXXXX` are the sequence of section 3 of RFC 3629 for that number, and decode to that code point exactly for all that are no surrogates |
| `GasonResults.SurrogatesStayApart` | Commons/Gason.cpp:271-296 | A surrogate pair is never stored as UTF-8 |
| `GasonResults.OpenStringIsAccepted` | Commons/Gason.cpp:254-305 | A string cut off by the end of the text is accepted. Its value is what was decoded and then the bytes of the text that decoding in place did not write over; it is what was decoded alone if and only if there is no escape |
| `GasonResults.OpenStringIsRefused` | Commons/Gason.cpp:254-305 | A string that is never closed is refused, as a bad string, exactly when it does not consist of characters and whole escapes |
| `JsonFaults.FaultIsFound` | Commons/Gason.cpp:330-355 | Behind any brackets opened and any members read: a closing bracket of the wrong kind, a colon without a key, a second comma, or a stray character is refused with its status where it stands |
| `JsonFaults.FirstFaultIsFound` | Commons/Gason.cpp:330-355 | The same before anything is open: a closing bracket is an underflow, a sign or a stray character is unexpected |
| `JsonFaults.OverflowIsFound` | Commons/Gason.cpp:340-346 | The 33rd open bracket is the stack overflow, where it stands |
| `JsonFaults.EndsTooEarly` | Commons/Gason.cpp:228-390 | A text that is over while brackets are open breaks off at its end |
| `JsonFaults.LastTokenEndsText` | Commons/Gason.cpp:228-232 | Where it breaks off, `*endptr` is left at a token that ends the text |
| `JsonFaults.KeyIsNoString` | Commons/Gason.cpp:366-372 | A key that is a scalar but no string is refused where it starts |
| `JsonFaults.TokenFaultIsFound` | Commons/Gason.cpp:233-329 | Behind anything: a word that is none of the three, a number that does not begin or end as one, a bad escape, a bad hex digit, or no delimiter behind a string gives its status and the place of the first wrong byte |
| `TextEnds.OverrunsExactly` | Commons/Gason.cpp:228-236 | A text is read past its terminator if and only if it ends in white space and, without that, ends too early and not inside a string literal by a scan over quotes and backslashes |
| `TextEnds.RunPadded` | Commons/Gason.cpp:228-390 | White space behind a text changes nothing about a run on it but how it ends |
| `TextEnds.StaysInside` | Commons/Gason.cpp:228-236 | From no state is a text whose last character is no white space read past its terminator |
| `TextEnds.BlankOverruns` | Commons/Gason.cpp:231-236 | A single blank is read past the terminator, one behind a number is not |
| `GasonValues.PackedComesBack` | Commons/Gason.hpp:83-110 | Every tag and every pointer below 2^47 come back from the packed word, which is told from a double but for the number at the null pointer |
| `GasonValues.NullIsTag15` | Commons/Gason.hpp:78-89 | The default value is the null tag without a pointer and no other packed value |
| `GasonZones.MaskOnWords` | Commons/Gason.cpp:148-151 | On 64-bit words the mask clears bit by bit |
| `GasonZones.MaskDivides` | Commons/Gason.cpp:148-151 | For a power of two the mask rounds down to a multiple |
| `GasonZones.AlignsExactly` | Commons/Gason.cpp:148-151 | What is returned is aligned for every address if and only if the alignment is a power of two |
| `GasonZones.JsonAllocator.Allocate` | Commons/Gason.cpp:153-179 | Every block lies in its zone behind the header and overlaps no other block, and is aligned where the alignment is a power of two; it comes from the head zone where it fits there, and a block with a zone of its own leaves the head in front |
| `BitStrings.DigitAt` | Commons/Base32.hpp:117-128 | A group of bits is what shifting and masking the whole number gives |
| `BitStrings.UndigitsOfDigits` | Commons/Base32.hpp:99-166 | Dividing a bit string into groups of one width loses nothing |
| `BitStrings.DigitsOfUndigits` | Commons/Base32.hpp:99-166 | Groups put into one bit string come back, whatever is left over behind them |
| `Base32.DecodedEncoded` | Commons/Base32.hpp:169-242 | Decoding undoes encoding for every byte string |
| `Base32.EncodedLength` | Commons/Base32.hpp:197-200 | One character for every five bits begun, for all five tail lengths |
| `Base32Alphabet.EncodedLetter` | Commons/Base32.hpp:54-128 | The j-th character of the encoding is that of `abcdefghijklmnopqrstuvwxyz234567` at the number of the bits from 5j on |
| `Base32Alphabet.TableIsAlphabet` | Commons/Base32.hpp:59-94 | The table gives each letter its place in that alphabet, zero for NUL and the eight bytes from 248 on, which it misses, and 127 otherwise |
| `Base32Alphabet.DecodedByte` | Commons/Base32.hpp:131-167 | The j-th byte decoded is the number of the eight bits of the letters from 8j on |
| `Base32Alphabet.DecodedLength` | Commons/Base32.hpp:203-242 | There are as many bytes as whole eights of bits |
| `Base32Alphabet.AcceptedBytes` | Commons/Base32.hpp:59-94 | Accepted are the 32 characters of the alphabet, NUL, and the eight bytes from 248 on that the table misses |
| `Base32.EncodeBlock` | Commons/Base32.hpp:99-129 | The shift-and-mask loops give the eight 5-bit groups of section 6 of RFC 4648 |
| `Base32.DecodeBlock` | Commons/Base32.hpp:131-167 | The loops give the five bytes of the eight groups, exactly when all eight are accepted |
| `Base32.Encode` | Commons/Base32.hpp:169-201 | The whole encoding is the bit-string definition, lower case and unpadded |
| `Base32.Decode` | Commons/Base32.hpp:203-242 | Succeeds exactly on accepted strings, with the bytes of the bit string; otherwise the result holds the bytes of the blocks before the first bad one |
| `ExternalUserIds.EscapedIsRead` | Commons/ExternalUserIdUtils.cpp:30-50 | An escaped id is read as that id, whatever follows |
| `ExternalUserIds.DividedUnion` | Commons/ExternalUserIdUtils.cpp:143-226 | The list comes back from its joined text if and only if no id is empty and none after the first starts with a comma |
| `ExternalUserIds.TextIsRead` | Commons/ExternalUserIdUtils.cpp:190-227 | What any text is read as: the fields between its separating commas, those dropped that are empty; a text with one comma more at its end runs over |
| `ExternalUserIds.TextHasFields` | Commons/ExternalUserIdUtils.cpp:190-227 | Every text has such fields, with or without one comma more |
| `ExternalUserIds.LabelIsRead` | Commons/ExternalUserIdUtils.cpp:87-117 | What is read of any text: up to a dot as it stands, and on behind the character that follows the dot |
| `ExternalUserIds.UndividedLabels` | Commons/ExternalUserIdUtils.cpp:51-117 | Undoing the division into labels gives the text |
| `ExternalUserIds.LabelSizes` | Commons/ExternalUserIdUtils.cpp:52-85 | Every label starts with an x, all but the last have 63 octets, and the last has 1 to 63, as section 2.3.4 of RFC 1035 requires |
| `ExternalUserIds.DecodingUndoesEncoding` | Commons/ExternalUserIdUtils.cpp:138-230 | All three layers: an encoded list decodes to itself if and only if no id is empty and none after the first starts with a comma |
| `ExternalUserIds.EncodedLabels` | Commons/ExternalUserIdUtils.cpp:138-169 | The same of every encoded list |
| `ExternalUserIds.EscapeChar` | Commons/ExternalUserIdUtils.cpp:30-50 | The loop doubles exactly the commas |
| `ExternalUserIds.DnsDiv` | Commons/ExternalUserIdUtils.cpp:52-85 | The loop cuts the text into the labels |
| `ExternalUserIds.DnsUndiv` | Commons/ExternalUserIdUtils.cpp:87-117 | The loop removes each dot and the character behind it |
| `ExternalUserIds.DnsEncode` | Commons/ExternalUserIdUtils.cpp:138-169 | The three layers of encoding |
| `ExternalUserIds.DivByComma` | Commons/ExternalUserIdUtils.cpp:190-227 | The loop divides at single commas, keeps doubled ones and drops empty ids; it leaves the string exactly where a single comma is last |
| `ExternalUserIds.DnsDecode` | Commons/ExternalUserIdUtils.cpp:171-230 | The three layers of decoding, with what base 32 decoding left behind even if it failed; the ids are appended to those given |
| `Intervals.IntervalSet.Contains` | Commons/Interval.hpp:125-132 | Exact membership on a separated set |
| `Intervals.IntervalSet.Normalize` | Commons/Interval.hpp:90-123 | For every set: separated intervals that hold exactly the old values within [min, max) |
| `Intervals.IntervalSet.CrossRange` | Commons/Interval.hpp:134-174 | Whatever the result holds, exactly the clipped intervals are added to it; it stays separated where all of it lies below min |
| `Intervals.IntervalSet.Cross` | Commons/Interval.hpp:176-189 | The result is separated and holds exactly the values of both sets |
| `Intervals.Crossed` | Commons/Interval.hpp:143-173 | Only the interval in front of min and the last one copied need cutting: the pieces are all the clipped intervals |
| `PathManip.KeptIsResolved` | Commons/PathManip.cpp:130-166 | The skip counter of the backward scan is how far the parts reach below their start, so that scan and stack resolver agree |
| `PathManip.AbsoluteIsResolved` | Commons/PathManip.cpp:117-192 | An absolute path is refused exactly when it leaves the root and otherwise becomes the path of the parts that are left |
| `PathManip.NormalizedIsStable` | Commons/PathManip.cpp:117-192 | Normalizing twice changes nothing |
| `PathManip.RelativeIsResolved` | Commons/PathManip.cpp:117-192 | A relative path becomes the relative path of its parts if and only if its first part stays or none does; otherwise it gains a slash |
| `PathManip.NormalizePath` | Commons/PathManip.cpp:117-192 | The loop over positions computes the scan; a refused path is returned as it was |
| `PathManip.LastSlash` | Commons/PathManip.cpp:134 | The last slash before a position, or none |
| `LockMap.CountsStay` | Commons/LockMap.hpp:77-87 | A guard and its holder move together: all three counts of every holder stay those of its guards |
| `LockMap.GetKeeps` | Commons/LockMap.hpp:104-126 | Finding or making a holder keeps the invariant, with at most one holder for a key |
| `LockMap.StepKeeps` | Commons/LockMap.hpp:104-126 | Every step of every thread keeps the invariant |
| `LockMap.RunKeeps` | Commons/LockMap.hpp:104-126 | In every interleaving the map holds exactly the holders with a positive count, one for each key |
| `LockMap.WritersAreAlone` | Commons/LockMap.hpp:246-254 | In every interleaving two guards for one key that have the lock are both readers |
| `LockMap.WaitsForConflict` | Commons/LockMap.hpp:77-87 | A guard has to wait if and only if another one that conflicts with it has the lock |
| `LockMap.GuardsAsAsked` | Commons/LockMap.hpp:246-264 | In every run a call gets a guard for its key, to write or to read as it asked, and it stays that |
| `LockMap.NobodyIsStuck` | Commons/LockMap.hpp:77-87 | In no run do all guards wait: one that is not gone can move on, or one that conflicts with it can |
| `LockMap.NothingIsLeft` | Commons/LockMap.hpp:256-264 | In every interleaving the map is empty once all guards are gone |
| `LockMap.StrictLockMap.Get` | Commons/LockMap.hpp:104-126 | The fields move as the machine gets a holder |
| `LockMap.StrictLockMap.RemoveRefNoDelete` | Commons/LockMap.hpp:222-234 | The fields move as the machine drops a reference; true exactly for the last one, whose key the erase in `close_i_` finds |
| `Algs.CustomMergeN` | Commons/Algs.hpp:423-464 | The output has every element as often as all ranges together, and is sorted if they are |
| `Algs.MergeUnique` | Commons/Algs.hpp:297-333 | Strictly sorted; a key is found exactly when one range has it, with the merged value when both have |
| `Algs.Cross` | Commons/Algs.hpp:374-406 | Strictly sorted; a key is found exactly when both ranges have it, with the joined value |
| `CollectorBundle.SizeCountsPairs` | LogCommons/CollectorBundle.hpp:52-69 | The folded size is the number of counters |
| `CollectorBundle.MergeAddsAt` | LogCommons/StatCollector.hpp:389-421 | Merging adds counter by counter, whether zero counters and empty rows are left out or not |
| `CollectorBundle.CountersStay` | LogCommons/StatCollector.hpp:389-421 | Which counters are there after a merge, for every choice of what is left out |
| `CollectorBundle.RowsStay` | LogCommons/StatCollector.hpp:389-421 | Which inner collectors are there after a merge, for every choice of what is left out |
| `CollectorBundle.ZerosLeave` | LogCommons/StatCollector.hpp:625-644 | With zeros left out the merged rows have exactly the counters whose sum is not zero |
| `CollectorBundle.FilledSums` | LogCommons/CollectorBundle.hpp:207-216 | A spillover holds the sums of what was merged into it |
| `CollectorBundle.FilledFiles` | LogCommons/LogSaverBaseImpl.hpp:50-55 | A spillover holds the guards of those files, in order |
| `CollectorBundle.MinFileIsLeast` | LogCommons/LogSaverBaseImpl.hpp:50-67 | The recorded file name is the least of the spillover, empty only without files |
| `CollectorBundle.EverythingIsShared` | LogCommons/CollectorBundle.hpp:136-227 | Over any run the inputs fall into consecutive parts, one for each spillover that went out and one for the data left; the counters left are as many as the size says and fewer than the limit |
| `CollectorBundle.NothingIsLost` | LogCommons/CollectorBundle.hpp:136-227 | Over any run dumped, taken and current data add up to all that was merged, and every file guard is in exactly one spillover |
| `CollectorBundle.TakenWhole` | LogCommons/CollectorBundle.hpp:136-145 | In every run, after `take_data` no counter is left; what went out is the spillover that was in place, if it had a counter |
| `CollectorBundle.GivenOutExactly` | LogCommons/CollectorBundle.hpp:195-227 | In every run a merge gives the spillover out, with the new input in it, if and only if it then has `max_size` counters or more |
| `CollectorBundle.CollectorBundle.Merge` | LogCommons/CollectorBundle.hpp:195-227 | The spillover in place takes the input; a full one is given out and replaced by a new one |
| `CollectorBundle.CollectorBundle.TakeData` | LogCommons/CollectorBundle.hpp:136-145 | A spillover with data is given out and replaced by a new one; one without stays |
| `CollectorBundle.SpilloverImpl.PushBackFile` | LogCommons/LogSaverBaseImpl.hpp:50-67 | The file list and the running minimum move as the spillover takes a file |

## Left out

- GasonParser.JsonParse: what the original does behind the terminating NUL is not modelled, nor is it that `*endptr` is not
  assigned for the empty text.
- GasonNodes.ReadsKept: pointers are indices, into the buffer and into a growing sequence of nodes; `GasonParser.NodePool`
  says in which block of the allocator each node lies.
- GasonParser.NodePool.Append: malloc is any function that hands out no byte twice; that it fails is not modelled.
- GasonZones.JsonAllocator.Allocate: an alignment of zero and sums that wrap around the address space are not modelled.
- FileReceiver.FileReceiver.GetEldest: one caller with nobody interfering; the interleaved statement is
  `FileReceiverSession.GetEldestIsEldest`.
- FileReceiver.FileReceiver.DirSelectInternal: nobody interferes between the entries; with everybody interfering the same
  steps are `FileReceiverProtocol.FetchKeeps`.
- FileReceiver.FileReceiver.FetchIntermediateDir: nobody interferes during the scan; with everybody interfering it is
  `FileReceiverSession.DoKeeps`.
- LogFileNames.StampIsFound: the format that is written now; the three older ones, and what the parser reads behind the time,
  are not modelled.
- FileReceiverFacade.FileReceiverFacade.Publish: holders are told apart by their log type and their keys are one map; time-outs,
  termination and the wait itself are not modelled.
- GranularContainer.NoCopyGranularContainer.Activate: the containers with an own type of inactive element and the
  reference-counted variants differ in types only and are not repeated.
- Intervals.IntervalSet.CrossRange: the std::set is a mathematical set with its least and greatest elements; iterators are not
  modelled.
- Algs.CustomMergeN: elements are compared by an integer key; exceptions of the comparison are not modelled.
- CollectorBundle.CollectorBundle.Merge: inner collectors are values, where the original shares them by pointer with the argument
  (LogCommons/StatCollector.hpp:287-288); what the argument holds afterwards, the flat collectors, whose size is that of one map,
  and a size beyond the range of int are not modelled.
- LockMap.RunKeeps: keys are integers, locks have no order of waiting, and the atomic counter is exact.
- ExternalUserIds.DnsDecode: stops where the original would step over the end of its string.
- `rename`, `unlink`, directory walking, logging, process control, CORBA and configuration are not modelled; the directory is a
  set of names with atomic renames.
- Commit files and their names (LogCommons/FileReceiver.cpp:368-418) only lead to an arrival.
- `str2float`, `JsonValue::toNumber` and decimals: floating point and DecimalType are not part of this model.
- `AccessActiveObject`, `CountActiveObject`, `BoundedCache`, `TextTemplateCache`, `SecToken`, `IPCrypter` and `CsvReader` are not
  modelled; they rest on libraries that are not part of this repository.
- The statistics and logger classes for single logs, the legacy loaders and `NoAllocLockMap` are not modelled.
