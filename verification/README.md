# Models of a Redis client and its surroundings

The repository is a C++ communication framework built around an embedded Redis
client in C. This project models its algorithmic core and proves properties of
it. The modules follow the program's files.

- `Bytes`, `Streams`: byte strings and decimal numbers; a general theory of
  parsing a stream that arrives in pieces.
- `Resp`, `Pushdown`, `Reader`, `ReaderRuns`: the RESP2 reply reader. `Resp` is
  a recursive-descent parser over whole streams, `Reader` the incremental
  machine with its nine-slot task stack and its tree of reply objects.
  `Pushdown` says what a half-read reply still needs, which is how the machine
  is proved to refine the parser. The standard is the Redis serialization
  protocol specification (RESP2), sections "Simple strings", "Simple errors",
  "Integers", "Bulk strings" and "Arrays". `WireForms` spells out the bytes: how
  each reply is written, read and refused, and that eight levels are the limit.
- `Command`, `Template`, `NextArgument`: three encoders of commands, the
  template scanner, and the scanner that walks over encoded arguments.
- `CallbackList`, `Subscription`, `SubscriptionTables`, `AsyncProtocol`,
  `AsyncSafety`, `AsyncPlain`, `AsyncMonitor`, `AsyncTeardown`, `AsyncEffects`,
  `PubSub`, `MonitorFeed`, `Async`: the asynchronous context. `AsyncProtocol` has every
  entry point as a step, with subscribe, unsubscribe and monitor commands and
  with callbacks that make any finite list of calls, depending on their reply
  and on how often one was called before. `AsyncSafety` proves what every run
  keeps, `AsyncPlain` which runs are free of subscribe and monitor commands and
  what happens in others, `AsyncMonitor` what monitoring changes, `AsyncTeardown`
  how a context ends. `AsyncEffects` says what single calls and events do,
  `PubSub` whom messages reach, `MonitorFeed` what a monitoring client hears.
  `Async` is the object with its flags, buffers, reader,
  linked lists and the two hash tables of `SubscriptionTables`, each method
  proved to be its step.
- `Dict`, `DictIterator`, `DictRuns`: the chained hash table, iteration under
  deletion, and its agreement with a map.
- `Sds`, `SdsFormat`, `SdsQuote`, `SdsWords`, `SdsSplit`: the string library's
  number printing, formatting, quoting and splitting; `SdsWords` says what a line
  of arguments means and which lines are refused.
- `TaskProtocol`, `TaskBase`: tasks that exchange messages through
  double-buffered queues and eventfd counters. A step is one critical section or
  one system call, so an interleaving is a sequence of steps.
- `Tpkt`: length-framed messages over a TCP session.

Conventions. A byte is a `char` and a buffer a `string`; where byte values
matter (quoting, frame headers) the models ask for values below 256. What the
operating system decides (how much a read or a write moves, whether a
connection is established) is an argument of the modelled operation. User
callbacks are a function from the number of earlier calls, the callback and its
reply to a list of calls. A run without subscribe and monitor commands is called
plain; that no such command was accepted is recorded along the run, and holds
whenever only regular commands are sent (`AsyncPlain.RegularRunsArePlain`).

Where code and documentation differ the model follows the code: the reader's
message about nesting speaks of a depth above 7, but eight levels of arrays are
read and the ninth is refused. The assertion about replies nobody waits for reads
as an impossibility, but a server can make it fail
(`AsyncPlain.SpontaneousReplyFails`, with the exact condition in
`AsyncSafety.FailsExactlyOnSurplusReply`). A connection in progress is meant to be
tried again later, but looking at it leaves an error that ends the context at the
next event (`AsyncTeardown.LookingTooEarlyIsFinal`). A monitoring client is meant to
hear everything, but a read event that completes no reply costs it one
(`MonitorFeed.EmptyReadLosesAReply`).

## Model

| member | source | states |
|---|---|---|
| Reader.SeekNewline | src/adapter/redis/hiredis/read.c:120-144 | finds the first CR LF of the given bytes exactly when there is one, and never looks at the byte behind the last |
| Reader.ReadLongLong | src/adapter/redis/hiredis/read.c:148-173 | the number on a line, -1 for a stray byte; the scan stops at the CR already found |
| Bytes.ReadNumberInvertsPrinting | src/adapter/redis/hiredis/read.c:148-173 | reading a printed decimal gives the number back, for every integer |
| Bytes.DecimalIsPositional | src/adapter/redis/hiredis/read.c:148-173 | printed digits are the decimal ones, the highest first, without a leading zero |
| Bytes.FindCrlf | src/adapter/redis/hiredis/read.c:120-144 | what is found is a CR LF and the first one; nothing found means there is none |
| Reader.RedisReader.SetError | src/adapter/redis/hiredis/read.c:46-70 | an error empties the buffer and the stack and stays |
| Reader.RedisReader.ReadLine | src/adapter/redis/hiredis/read.c:175-188 | takes a whole line and its line end, or nothing |
| Reader.RedisReader.MoveToNextTask | src/adapter/redis/hiredis/read.c:190-213 | pops exactly the arrays that the item completes, keeps the stack invariant, and leaves the next element to be read or the finished root |
| Reader.RedisReader.PopStack | src/adapter/redis/hiredis/read.c:205-206 | an array whose last element is in place becomes a complete node, and the stack below it stays in order |
| Reader.RedisReader.NextElement | src/adapter/redis/hiredis/read.c:207-211 | the slot turns to the next element, whose index stays below the parent's size |
| Reader.RedisReader.ProcessLineItem | src/adapter/redis/hiredis/read.c:215-247 | a status, error or integer step changes neither the reply being read nor any byte behind it, or waits for more bytes |
| Reader.RedisReader.ProcessBulkItem | src/adapter/redis/hiredis/read.c:249-300 | a bulk step consumes header, payload and line end together or nothing; a negative length is nil |
| Reader.RedisReader.ProcessMultiBulkItem | src/adapter/redis/hiredis/read.c:302-365 | an array step pushes a slot, or completes an empty or nil array; an error is raised exactly with eight arrays open, and it is the nesting error |
| Reader.RedisReader.PushSlot | src/adapter/redis/hiredis/read.c:341-355 | pushing turns to the next slot, at most the ninth, and keeps the stack invariant: each slot below the top is an array whose element is being read |
| Reader.RedisReader.ProcessItem | src/adapter/redis/hiredis/read.c:367-414 | one step of the machine does not change the outcome of the whole reply; a successful step consumes at least one byte; an unknown type byte is reported with its escaped form |
| Reader.RedisReader.CreateString | src/adapter/redis/hiredis/hiredis.c:102-132 | a text object holds the bytes and stands in its parent's array at the index of its slot |
| Reader.RedisReader.CreateArray | src/adapter/redis/hiredis/hiredis.c:134-157 | an array object with the announced number of places stands in its parent; without places it is complete |
| Reader.RedisReader.CreateInteger | src/adapter/redis/hiredis/hiredis.c:159-174 | an integer object stands in its parent |
| Reader.RedisReader.CreateNil | src/adapter/redis/hiredis/hiredis.c:176-189 | a nil object stands in its parent |
| Reader.RedisReader.Feed | src/adapter/redis/hiredis/read.c:445-475 | appends the bytes to those not yet handed out unless the reader is in error; replacing a large idle buffer cannot be noticed |
| Reader.RedisReader.Discard | src/adapter/redis/hiredis/read.c:508-514 | dropping a kilobyte of consumed bytes leaves the unread bytes as they are |
| Reader.RedisReader.GetReply | src/adapter/redis/hiredis/read.c:477-525 | the incremental machine gives the answer of the recursive-descent parser for all bytes since the last reply: a heap tree of the same shape, sharing no node, and exactly the bytes behind it; or nothing yet; or the same sticky error |
| Reader.CompleteTreesAreTrees | src/adapter/redis/hiredis/hiredis.c:102-189 | a complete reply object represents one reply value all the way down, and no node stands in two places |
| Reader.ReadTree | src/adapter/redis/hiredis/hiredis.c:63-100 | what a client reads out of the reply object is the reply |
| Reader.ObjectsSayWhatTheyAre | src/adapter/redis/hiredis/hiredis.c:102-189 | the type and the fields of a reply object are those of the reply |
| Pushdown.MoveOnKeepsAnswer | src/adapter/redis/hiredis/read.c:190-213 | popping completed arrays from the explicit stack is what the recursive parser does on return |
| Pushdown.CompleteItem | src/adapter/redis/hiredis/read.c:215-300 | an item that is complete in the bytes at hand can be placed at once, whatever arrives later |
| Pushdown.OpenArray | src/adapter/redis/hiredis/read.c:332-355 | reading the elements of an array is resuming in a fresh slot, whatever arrives later |
| Pushdown.StartIsParseItem | src/adapter/redis/hiredis/read.c:490-500 | an empty stack resumes as the parser of a whole reply |
| Resp.ParseItem | src/adapter/redis/hiredis/read.c:367-414 | the recursive-descent reading of the protocol; a reply takes at least one byte |
| Resp.ParseItemExtends | src/adapter/redis/hiredis/read.c:215-414 | more bytes never revise a decided reply or error, and are left over unread |
| Resp.RoundTripExactly | src/adapter/redis/hiredis/read.c:148-414 | a reply is read back from its encoding, with exactly the bytes behind it left, if and only if its texts hold no CR LF, its counts are right and at most eight arrays are inside each other |
| Resp.NinthLevelIsAnError | src/adapter/redis/hiredis/read.c:302-315 | every reply with good texts and counts and with nine arrays or more inside each other is refused with the nesting error, wherever the ninth is |
| Resp.CleanRepliesReturnOrAreRefused | src/adapter/redis/hiredis/read.c:302-315 | so each such reply either comes back exactly or is refused for its nesting |
| WireForms.WrittenForms | src/adapter/redis/hiredis/read.c:367-414 | the bytes of each kind of reply, spelled out |
| WireForms.ReadsLines | src/adapter/redis/hiredis/read.c:215-247 | a line behind a plus sign is a status, behind a minus sign an error |
| WireForms.ReadsIntegers | src/adapter/redis/hiredis/read.c:215-247 | a number behind a colon is that integer |
| WireForms.ReadsBulks | src/adapter/redis/hiredis/read.c:249-300 | a payload of the announced length is read whole, whatever it holds; a negative length is nil |
| WireForms.ReadsArrays | src/adapter/redis/hiredis/read.c:302-365 | as many elements as announced, one after the other; -1 is nil, other counts below one have none |
| WireForms.RefusesOtherBytes | src/adapter/redis/hiredis/read.c:367-414 | any other first byte is an error that names the byte |
| WireForms.WaitsForTheRest | src/adapter/redis/hiredis/read.c:215-414 | without a line end, or with fewer bytes than announced, the reader waits |
| WireForms.NumbersOnLines | src/adapter/redis/hiredis/read.c:148-173 | an optional sign and decimal digits up to the first CR; -1 for any other byte |
| WireForms.NineSlotsAreUsed | src/adapter/redis/hiredis/read.c:302-355 | eight arrays can be open at once; a ninth inside them is refused at its type byte |
| Streams.ChunkIndependence | src/adapter/redis/hiredis/read.c:445-525 | two runs of feeding and asking that were given the same bytes cannot be told apart once drained |
| Streams.RunThenDrain | src/adapter/redis/hiredis/read.c:445-525 | replies emitted plus replies still to be had depend on the concatenated bytes alone |
| ReaderRuns.ReaderChunkIndependence | src/adapter/redis/hiredis/read.c:445-525 | the same for the reply parser, sticky errors included |
| ReaderRuns.EncodedRepliesArrive | src/adapter/redis/hiredis/read.c:445-525 | the encodings of any list of replies, cut up and asked for in any way, deliver exactly that list |
| ReaderRuns.Call | src/adapter/redis/hiredis/read.c:445-525 | one call on a reader object is one step of a run |
| ReaderRuns.Drive | src/adapter/redis/hiredis/read.c:445-525 | any sequence of calls on a reader object is a run; reply trees handed out earlier are not touched again and share nothing with later ones |
| Command.CountDigits | src/adapter/redis/hiredis/hiredis.c:193-203 | counts exactly the digits that printing produces |
| Command.BulkLen | src/adapter/redis/hiredis/hiredis.c:206-208 | predicts the encoded length of an argument from its length |
| Command.TotalLength | src/adapter/redis/hiredis/hiredis.c:489-494 | predicts the length of the whole command |
| Command.Build | src/adapter/redis/hiredis/hiredis.c:398-414 | fills a buffer of exactly the predicted length and ends it with a NUL |
| Command.FormatCommandArgv | src/adapter/redis/hiredis/hiredis.c:530-566 | the wire form of the arguments, by length or up to their first NUL; the length assertion holds; without lengths a reader gets exactly the arguments back that hold no NUL |
| Command.FormatSdsCommandArgv | src/adapter/redis/hiredis/hiredis.c:477-519 | the same bytes, by appending to a growing string; the length assertion holds; without lengths a reader gets exactly the arguments back that hold no NUL |
| Command.RedisFormatCommand | include/adapter/redis/command.hpp:73-85 | the same bytes from the C++ encoder |
| Command.ReaderRecoversArguments | src/adapter/redis/hiredis/hiredis.c:530-566 | the reply parser takes every formatted command apart into an array of exactly its arguments |
| Command.CommandOnTheWire | src/adapter/redis/hiredis/hiredis.c:548-560 | the wire form, byte for byte |
| Command.CStringStopsAtNul | src/adapter/redis/hiredis/hiredis.c:489-494 | `strlen`: everything up to the first NUL, and everything if there is none |
| Command.TerminatedArguments | src/adapter/redis/hiredis/hiredis.c:541-556 | without lengths, arguments that hold no NUL are meant as they are |
| Command.CountedArguments | src/adapter/redis/hiredis/hiredis.c:541-556 | with lengths, each argument is as many bytes as announced, whatever they are |
| Template.Split | src/adapter/redis/hiredis/hiredis.c:226-380 | the scanner of a format produces the arguments of the one-pass specification and their exact length |
| Template.FormatCommand | src/adapter/redis/hiredis/hiredis.c:210-417 | emits the command of the format's words with the values filled in |
| Template.SubstitutionCommutesWithSplitting | src/adapter/redis/hiredis/hiredis.c:226-380 | substituting while scanning is splitting into words first and substituting afterwards, so boundaries never depend on values |
| Template.Expand | src/adapter/redis/hiredis/hiredis.c:226-380 | there are as many arguments as the format has words, whatever the values hold |
| Template.LiteralsStay | src/adapter/redis/hiredis/hiredis.c:226-380 | a word without directives is the same argument for all values |
| Template.DirectivesStandFor | src/adapter/redis/hiredis/hiredis.c:249-274 | `%b` stands for its value byte for byte, `%s` for its value up to a NUL, `%%` for a percent sign |
| Template.LiteralsStandForThemselves | src/adapter/redis/hiredis/hiredis.c:226-248 | every other byte stands for itself |
| Template.NoSpaceJoins | src/adapter/redis/hiredis/hiredis.c:226-380 | what stands together without a space is one argument |
| Template.SpaceSeparates | src/adapter/redis/hiredis/hiredis.c:226-248 | a space ends an argument, and the values go to the directives in their order |
| Template.ValueInsideWord | src/adapter/redis/hiredis/hiredis.c:226-380 | a value between two stretches of text arrives whole between them |
| Template.SetCommand | src/adapter/redis/hiredis/hiredis.c:210-417 | key and value of `SET %b %b` arrive whole, whatever bytes they hold |
| NextArgument.FindsEveryArgument | src/adapter/redis/hiredis/async.c:567-579 | on a formatted command the scanner skips the header, finds argument k at its place and stands at argument k + 1, and stops behind the last |
| NextArgument.ArgumentFound | src/adapter/redis/hiredis/async.c:567-579 | at an encoded argument the scanner finds its bytes, even if they hold dollar signs, line ends or NULs |
| NextArgument.Walk | src/adapter/redis/hiredis/async.c:567-579 | repeated calls visit exactly the arguments, in order, and then return NULL |
| CallbackList.CallbackList.Push | src/adapter/redis/hiredis/async.c:227-247 | appends to the sequence that the head and tail pointers stand for |
| CallbackList.CallbackList.Shift | src/adapter/redis/hiredis/async.c:249-263 | takes the first of the sequence, and fails on an empty list only |
| Subscription.Recognise | src/adapter/redis/hiredis/async.c:598-606 | from the bytes of a formatted command: its kind, exactly by the word its name is, whether it is about patterns, and where the second argument begins |
| Subscription.Register | src/adapter/redis/hiredis/async.c:609-621 | every argument from the second on is put into the hash table with the callback, and nothing else changes |
| SubscriptionTables.SubscriptionTables.Register | src/adapter/redis/hiredis/async.c:609-621 | registers in the table for patterns or in the one for channels, and leaves the other alone |
| SubscriptionTables.SubscriptionTables.Find | src/adapter/redis/hiredis/async.c:388-391 | the callback registered for a channel or pattern, or none |
| SubscriptionTables.SubscriptionTables.Remove | src/adapter/redis/hiredis/async.c:394-395 | takes one channel or pattern out of its table, and leaves the other table alone |
| Subscription.OrdinaryNamesAreRegular | src/adapter/redis/hiredis/async.c:601-634 | a name that is none of the three words, in any case and with or without a leading p, is an ordinary command |
| Subscription.KindExactly | src/adapter/redis/hiredis/async.c:598-634 | subscribe, unsubscribe or monitor if and only if the name is that word, in either case and with or without a leading p; subscribe only with arguments |
| AsyncProtocol.CallbackGrows | src/adapter/redis/hiredis/async.c:265-272 | whatever calls a callback makes, at whatever count of earlier calls, it can only issue commands and raise flags; on a closing context it changes nothing but the two closing flags |
| AsyncProtocol.DeliveryKeeps | src/adapter/redis/hiredis/async.c:440-480 | finding and running a callback for a reply leaves the reader alone and the context alive |
| AsyncEffects.RefusedExactly | src/adapter/redis/hiredis/async.c:589-628 | a command is refused exactly by a closing context, or if it unsubscribes without a subscription, and then nothing changes |
| AsyncEffects.CommandIsBuffered | src/adapter/redis/hiredis/async.c:643-643 | the bytes of an accepted command are put behind those that wait to be sent |
| AsyncEffects.SubscribeRegisters | src/adapter/redis/hiredis/async.c:609-621 | an accepted subscribe command raises the flag and maps each argument to the callback, in the table for patterns or the one for channels, and changes nothing else there |
| AsyncEffects.OthersWait | src/adapter/redis/hiredis/async.c:622-641 | every other accepted command leaves its callback on the right list, or nowhere |
| AsyncEffects.ScriptAppends | src/adapter/redis/hiredis/async.c:265-272 | the calls of a user's function happen in order, and a command among them is issued |
| AsyncEffects.CallsTakeEffect | src/adapter/redis/hiredis/async.c:265-272 | a callback is given the reply it is due, and what it asks for happens: commands are issued, free and disconnect raise their flags |
| AsyncEffects.WritesFromTheFront | src/adapter/redis/hiredis/hiredis.c:835-862 | a write sends what the socket takes, at most everything, off the front of the output buffer |
| AsyncEffects.ReadsNothing | src/adapter/redis/hiredis/async.c:417-436 | a read event that completes no reply ends a context that waits for its disconnect with everything sent and answered; otherwise nothing happens, except that a monitoring context puts an empty callback on the list |
| AsyncEffects.GoneForGood | src/adapter/redis/hiredis/async.c:275-317 | nothing happens after the end or a failed assertion |
| AsyncEffects.ConnectingTakesEffect | src/adapter/redis/hiredis/async.c:495-563 | what the first look at a connection does when it is refused, in progress or established |
| AsyncEffects.FailuresEndIt | src/adapter/redis/hiredis/async.c:412-563 | each kind of failure tears the context down with its own error |
| AsyncEffects.ClosingTakesEffect | src/adapter/redis/hiredis/async.c:319-363 | asking to disconnect closes the context, and ends it at once if nobody waits; freeing always ends it |
| AsyncEffects.DisconnectStatus | src/adapter/redis/hiredis/async.c:305-314 | the disconnect callback is told that all is well exactly if the context was freed or has no error, and nothing without a connection |
| AsyncSafety.RunIsOk | src/adapter/redis/hiredis/async.c:265-649 | every event, in every state, keeps the books: callbacks put on the list = taken off ++ waiting, issued bytes = sent ++ buffered, replies handed out are those of the bytes that arrived |
| AsyncSafety.CallbacksSettledInOrder | src/adapter/redis/hiredis/async.c:412-490 | in every run no context is torn down twice; in every run without subscribe and monitor commands the k-th accepted command's callback is settled once, with the k-th reply or, only at teardown, with none, and nobody is left unsettled |
| AsyncPlain.RegularRunsArePlain | src/adapter/redis/hiredis/async.c:601-634 | a run is without such commands if the application and its callbacks send regular commands only |
| AsyncSafety.CleanDisconnectDropsNothing | src/adapter/redis/hiredis/async.c:331-363 | in such a run, a context torn down without an error and without being freed has answered every command |
| AsyncSafety.NoReplyIsHeldBack | src/adapter/redis/hiredis/async.c:412-490 | as long as the context lives, every reply that has arrived was dealt with |
| AsyncSafety.FailsExactlyOnSurplusReply | src/adapter/redis/hiredis/async.c:438-466 | the assertion on replies nobody waits for is false of some runs: it fails only where the context is neither subscribed nor monitoring, and in a run without such commands, on a context not torn down, if and only if more replies arrived than commands were accepted |
| AsyncPlain.SpontaneousReplyFails | src/adapter/redis/hiredis/async.c:438-466 | a concrete run on which that assertion fails |
| AsyncPlain.MonitorCallsAgain | src/adapter/redis/hiredis/async.c:428-431 | a concrete run in which a monitor command's callback is called twice for one command: settling once does not extend to monitoring |
| AsyncMonitor.OnePushPerMonitoringRead | src/adapter/redis/hiredis/async.c:428-436 | in every run the reply list was given one callback for each accepted command that waits, and exactly one more for each read event that leaves the context alive and monitoring; so callbacks are settled once per command, in order, exactly as long as there was no such event |
| AsyncMonitor.MonitoringExpectsEverything | src/adapter/redis/hiredis/async.c:438-466 | once a monitor command was accepted, no run can make the assertion on replies nobody waits for fail |
| MonitorFeed.MonitorsHearEverything | src/adapter/redis/hiredis/async.c:417-480 | the callback of a monitor command is given every reply, in order, if each read event completes at least one |
| MonitorFeed.EmptyReadLosesAReply | src/adapter/redis/hiredis/async.c:417-436 | otherwise not: after a read event that completes none, the second reply is received and nobody is called |
| PubSub.WaitingComeFirst | src/adapter/redis/hiredis/async.c:438-440 | a waiting callback takes a reply before any subscriber |
| PubSub.MessageFindsItsCallback | src/adapter/redis/hiredis/async.c:365-391 | a message for a channel goes to that channel's callback, one for a pattern to that pattern's, and one for neither to the last callback used |
| PubSub.UnsubscribeMessageRemoves | src/adapter/redis/hiredis/async.c:392-403 | an unsubscribe message takes its name out of its own table only, and ends the subscription exactly at a count of zero |
| PubSub.OtherRepliesFindTheirs | src/adapter/redis/hiredis/async.c:370-410 | a reply that is no array belongs to the first command sent while subscribed; an array of another form fails the assertions |
| PubSub.MonitorsShareTheLast | src/adapter/redis/hiredis/async.c:464-472 | on a monitoring connection a reply nobody waits for goes to the last callback used |
| PubSub.SubscribersGetEveryMessage | src/adapter/redis/hiredis/async.c:365-490 | in every run in which only messages for registered channels and patterns arrive, however cut up and between whatever writes and ordinary commands, each is given once and in order to exactly the callback it is for |
| PubSub.SubscribedChannelsAreServed | src/adapter/redis/hiredis/async.c:365-649 | after a subscribe command every message for its channels goes to its callback |
| PubSub.PublishedMessagesArrive | src/adapter/redis/hiredis/async.c:365-649 | end to end: what is published on these channels reaches the callback, byte for byte, in order and nothing else |
| AsyncSafety.BytesAreSentInOrder | src/adapter/redis/hiredis/hiredis.c:835-862 | every byte of every accepted command is written once and in order, or waits in the output buffer |
| AsyncSafety.DrainSettlesAll | src/adapter/redis/hiredis/async.c:281-283 | the first drain settles the waiting callbacks in order without a reply, accepts no command and terminates |
| AsyncSafety.FreeIsOk | src/adapter/redis/hiredis/async.c:275-317 | the free body, entered with disconnecting or freeing set, runs on a context that has not been torn down before and leaves both lists empty |
| AsyncSafety.DisconnectIsOk | src/adapter/redis/hiredis/async.c:331-350 | an error-free disconnect finds an empty queue; with an error the context is closed before callbacks run |
| AsyncTeardown.TeardownCallsEachOnce | src/adapter/redis/hiredis/async.c:275-300 | the four drains call, without a reply, every waiting callback, every one of a command sent while subscribed, and those of all channels and all patterns: each exactly once, whatever the callbacks do |
| AsyncTeardown.StepFrees | src/adapter/redis/hiredis/async.c:275-363 | whichever event ends a context, it does so by the free function, run once on a closing context that it leaves with its tables unchanged |
| AsyncTeardown.TornDownRunsCallEachOnce | src/adapter/redis/hiredis/async.c:275-317 | so a run whose context was torn down ends with the calls, without a reply, of everybody who waited or was subscribed, each exactly once: as many as the lists and tables held |
| AsyncTeardown.ClosingAcceptsNothing | src/adapter/redis/hiredis/async.c:584-590 | once disconnect or free was asked for, no run accepts another command |
| AsyncTeardown.DisconnectIsDone | src/adapter/redis/hiredis/async.c:419-424 | a context asked to disconnect, with nothing left to send, is torn down by any read after which no callback is waiting |
| AsyncTeardown.ErrorsAreFinal | src/adapter/redis/hiredis/hiredis.c:798-806 | a context with an error never hands out another reply |
| AsyncTeardown.LookingTooEarlyIsFinal | src/adapter/redis/hiredis/async.c:495-512 | an event while the connection is still being made leaves such an error, so no reply is ever delivered |
| Async.AsyncContext.AsyncCommand | src/adapter/redis/hiredis/async.c:584-649 | recognises the command by its bytes and enlists the callback accordingly, or refuses and changes nothing |
| Async.AsyncContext.CallUser | src/adapter/redis/hiredis/async.c:265-272 | a user's function makes any calls; they re-enter the library and never tear the context down, and the recursion ends |
| Async.AsyncContext.RunCallback | src/adapter/redis/hiredis/async.c:265-272 | runs the user's function, which may depend on how often one was called before, with the in-callback flag set |
| Async.AsyncContext.DrainReplies | src/adapter/redis/hiredis/async.c:281-283 | the first drain loop over the linked list is the protocol's |
| Async.AsyncContext.DrainInvalid | src/adapter/redis/hiredis/async.c:286-287 | the second drain loop is the protocol's |
| Async.AsyncContext.SweepEntry | src/adapter/redis/hiredis/async.c:291-292 | calls the callback of one entry while the iterator is under way; whatever the callback does, the table stays as it is |
| Async.AsyncContext.SweepTable | src/adapter/redis/hiredis/async.c:290-299 | walks an actual hash table with its iterator from end to end, each key once, while callbacks run |
| Async.AsyncContext.FreeContext | src/adapter/redis/hiredis/async.c:275-317 | the four drains, over two linked lists and two hash tables, are the teardown of the protocol |
| Async.AsyncContext.AsyncFree | src/adapter/redis/hiredis/async.c:323-328 | tears down at once, or only notes it when called from a callback |
| Async.AsyncContext.DisconnectContext | src/adapter/redis/hiredis/async.c:331-350 | its assertion that no callback is left holds |
| Async.AsyncContext.AsyncDisconnect | src/adapter/redis/hiredis/async.c:358-363 | closes the context, and tears it down when nothing is outstanding |
| Async.AsyncContext.GetReply | src/adapter/redis/hiredis/hiredis.c:866-902 | the next reply of the incremental reader, read out of its tree; a reader error becomes the context's |
| Async.AsyncContext.GetSubscribeCallback | src/adapter/redis/hiredis/async.c:365-410 | the callback of a message's channel or pattern, taken off the table by an unsubscribe message; the assertions on the message's form fail as in the code |
| Async.AsyncContext.FindCallback | src/adapter/redis/hiredis/async.c:438-466 | the waiting callback, or an error reply that closes the context, or the failed assertion, or a subscriber's callback |
| Async.AsyncContext.NoReply | src/adapter/redis/hiredis/async.c:417-436 | the awaited disconnect, or the last callback pushed again while monitoring |
| Async.AsyncContext.ProcessCallbacks | src/adapter/redis/hiredis/async.c:412-490 | the reply loop is the protocol's, including the callback variable that outlives an iteration |
| Async.AsyncContext.CheckSocketError | src/adapter/redis/hiredis/net.c:235-251 | a socket that is not connected leaves an error, also while connecting is in progress |
| Async.AsyncContext.HandleConnect | src/adapter/redis/hiredis/async.c:495-512 | a refused connection tears down; one in progress is taken for no failure although its error stays |
| Async.AsyncContext.BufferRead | src/adapter/redis/hiredis/hiredis.c:798-824 | every failure leaves a non-zero error |
| Async.AsyncContext.BufferWrite | src/adapter/redis/hiredis/hiredis.c:835-862 | writes a prefix of the output buffer; every failure leaves a non-zero error |
| Async.AsyncContext.HandleRead | src/adapter/redis/hiredis/async.c:517-536 | one read event is one step |
| Async.AsyncContext.HandleWrite | src/adapter/redis/hiredis/async.c:538-563 | one write event is one step |
| Async.Drive | src/adapter/redis/hiredis/async.c:265-649 | an actual context with its reader, lists, buffers and hash tables, driven by any events with any callbacks, ends in the state of a run and has what runs guarantee; if it was torn down, one event did it, by freeing a closing context whose two tables the walk of that very event met from end to end |
| Dict.NextPower | src/adapter/redis/hiredis/dict.c:306-315 | the smallest power of two from four up that is large enough |
| Dict.Dict.Expand | src/adapter/redis/hiredis/dict.c:88-132 | refuses a size below the number of entries; otherwise every entry is in its new bucket, and the counter assertion holds |
| Dict.Dict.MoveAll | src/adapter/redis/hiredis/dict.c:107-127 | the rehash may stop when its counter reaches zero: by then every entry has moved |
| Dict.Dict.MoveChain | src/adapter/redis/hiredis/dict.c:111-126 | moving a chain entry by entry while its links are rewritten moves exactly the entries of that bucket |
| Dict.LinkedIsDistinct | src/adapter/redis/hiredis/dict.c:113-126 | a chain whose links end in NULL holds no entry twice |
| Dict.Dict.ExpandIfNeeded | src/adapter/redis/hiredis/dict.c:295-303 | never fails and leaves room for one more entry |
| Dict.Dict.KeyIndex | src/adapter/redis/hiredis/dict.c:320-337 | -1 exactly for a key that is there, otherwise its bucket |
| Dict.Dict.Add | src/adapter/redis/hiredis/dict.c:135-154 | adds the pair to the map, or changes nothing when the key is there |
| Dict.Dict.Replace | src/adapter/redis/hiredis/dict.c:160-179 | the map with the pair updated, and whether the key was new |
| Dict.Dict.Delete | src/adapter/redis/hiredis/dict.c:182-210 | the map without the key, all other links kept |
| Dict.Dict.Find | src/adapter/redis/hiredis/dict.c:243-256 | the entry that the map has for the key, or NULL |
| DictRuns.PerformAll | src/adapter/redis/hiredis/dict.c:88-256 | any sequence of operations on a new table leaves the contents, and gives the answers, of the same sequence on a map |
| DictRuns.OperationsOnMaps | src/adapter/redis/hiredis/dict.c:135-256 | what each operation does to a map, and answers |
| DictRuns.StepsOneMore | src/adapter/redis/hiredis/dict.c:135-256 | operations are performed one after the other |
| Dict.HashOfOneMore | src/adapter/redis/hiredis/dict.c:53-59 | each byte multiplies the hash by 33 and is added, on 32 bits, from 5381 on |
| Dict.MaskIsRemainder | src/adapter/redis/hiredis/dict.c:306-337 | masking with the size less one is the remainder, as sizes are powers of two |
| DictIterator.DictIterator.Next | src/adapter/redis/hiredis/dict.c:268-286 | returns the first of the entries still to come, and NULL when there is none |
| DictIterator.DictIterator.DeleteReturned | src/adapter/redis/hiredis/dict.c:182-286 | deleting the entry just returned leaves what is still to come |
| DictIterator.EveryEntryOnce | src/adapter/redis/hiredis/dict.c:258-286 | the buckets in order hold every entry exactly once, as many as the counter says |
| DictIterator.EveryKeyOnce | src/adapter/redis/hiredis/dict.c:258-286 | their keys in that order are exactly the keys of the map, each once |
| DictIterator.DictIterator.Advance | src/adapter/redis/hiredis/dict.c:268-286 | from one entry to the next, what was passed, the entry at hand and what is to come make up the whole table |
| DictIterator.Sweep | src/adapter/redis/hiredis/dict.c:258-286 | a whole iteration visits every entry of the table exactly once, with any of them deleted on the way |
| Sds.MakeRoomFor | src/adapter/redis/hiredis/sds.c:194-237 | there is room for the bytes asked for; enough room is left alone, and otherwise the string is made twice as long as needed, or a megabyte longer |
| Sds.Range | src/adapter/redis/hiredis/sds.c:712-738 | the bytes between two positions, both included, counted from either end and cut off beyond the ends; in front of the string, its first byte |
| SdsFormat.Ll2Str | src/adapter/redis/hiredis/sds.c:429-458 | prints the signed decimal, NUL-terminated, within 21 bytes |
| SdsFormat.Ull2Str | src/adapter/redis/hiredis/sds.c:461-487 | prints the unsigned decimal, NUL-terminated, within 21 bytes |
| SdsFormat.SwapEnds | src/adapter/redis/hiredis/sds.c:443-451 | reverses the digits in place and nothing else |
| SdsFormat.NumbersFit | src/adapter/redis/hiredis/sds.c:429-487 | 64-bit numbers have at most twenty digits, nineteen with a sign |
| SdsFormat.CatFmt | src/adapter/redis/hiredis/sds.c:579-665 | appends the text the directives stand for |
| SdsFormat.DirectivesMean | src/adapter/redis/hiredis/sds.c:579-665 | what each directive stands for; another letter behind a percent sign stands for itself |
| SdsFormat.FormatsInOrder | src/adapter/redis/hiredis/sds.c:579-665 | a format is worked off from left to right, each directive with the next argument |
| SdsQuote.CatRepr | src/adapter/redis/hiredis/sds.c:856-879 | appends the quoted form of any bytes |
| SdsQuote.TakeToken | src/adapter/redis/hiredis/sds.c:946-1021 | one token of a line, or a quoting error, as specified |
| SdsQuote.SplitArgs | src/adapter/redis/hiredis/sds.c:931-1039 | all arguments of a line, or a quoting error, as specified |
| SdsQuote.QuoteIsReadBack | src/adapter/redis/hiredis/sds.c:856-1039 | a quoted byte string in front of a space or the end is read back exactly |
| SdsQuote.SplitInvertsQuote | src/adapter/redis/hiredis/sds.c:856-1039 | splitting a line of quoted byte strings returns exactly those strings, NULs, quotes and hex-looking text included |
| SdsWords.LinesSplitIntoWords | src/adapter/redis/hiredis/sds.c:931-1039 | bare words, words in double and words in single quotes, and mixtures, are returned as what they mean |
| SdsWords.WordsComeFirst | src/adapter/redis/hiredis/sds.c:931-1039 | the words at the front of a line are its first arguments, whatever follows |
| SdsWords.UnclosedIsRefused | src/adapter/redis/hiredis/sds.c:948-998 | a line with an opening quote and no closing one is refused, wherever the quote comes |
| SdsWords.BadlyClosedIsRefused | src/adapter/redis/hiredis/sds.c:948-998 | a line in which something other than a blank follows a closing quote is refused |
| SdsWords.SingleQuotesExactly | src/adapter/redis/hiredis/sds.c:983-998 | single quotes give a text back if and only if it does not end in a backslash |
| SdsWords.EscapesMean | src/adapter/redis/hiredis/sds.c:960-983 | what the escapes between double quotes mean |
| SdsWords.HexEscapesMean | src/adapter/redis/hiredis/sds.c:949-959 | two hexadecimal digits of either case are one byte |
| SdsWords.WrittenEscapes | src/adapter/redis/hiredis/sds.c:856-879 | how each byte is written between double quotes |
| SdsSplit.SplitLen | src/adapter/redis/hiredis/sds.c:793-840 | cuts at the leftmost separators; the growing array always has room; NULL exactly for an empty separator |
| SdsSplit.SplittingJoins | src/adapter/redis/hiredis/sds.c:793-840 | joining the pieces with the separator gives the input back |
| SdsSplit.TokensHoldNoSeparator | src/adapter/redis/hiredis/sds.c:793-840 | no piece contains the separator |
| SdsSplit.SplittingIsUnique | src/adapter/redis/hiredis/sds.c:793-840 | there is only one such splitting |
| SdsSplit.EachCutIsLeftmost | src/adapter/redis/hiredis/sds.c:812-829 | the separator behind a token is the first one from its start on, overlaps included |
| SdsSplit.JoinMeans | src/adapter/redis/hiredis/sds.c:1078-1087 | the separator stands between every two pieces and nowhere else |
| SdsSplit.JoinSds | src/adapter/redis/hiredis/sds.c:1078-1087 | the pieces with the separator between them |
| TaskProtocol.EveryScheduleIsSafe | src/task_base/task_base.cpp:3-58 | in every interleaving messages are processed once and in order, a waiting message has a wakeup on its way, and task 0 was sent exactly the heartbeat answers due |
| TaskProtocol.StepKeeps | src/task_base/task_base.cpp:3-58 | each critical section and each system call keeps that invariant |
| TaskProtocol.QuietMeansProcessed | src/task_base/task_base.cpp:3-58 | a sleeping task that nobody is about to signal has processed everything |
| TaskProtocol.OneWakeupProcessesAll | src/task_base/task_base.cpp:19-58 | one wakeup processes everything queued, however many signals were merged |
| TaskProtocol.HeartbeatIsAnswered | src/task_base/task_base.cpp:28-56 | a heartbeat request is answered at task 0 under its own number and with the name of the task; everything else only leaves the queue |
| TaskProtocol.SendQueuesAndSignals | include/task_base/task_manager.hpp:58-114 | a send queues the message at the end and raises the counter by one, as far as it goes |
| TaskProtocol.WakeupTakesAll | src/task_base/task_base.cpp:3-27 | a wakeup takes the whole counter and then the whole queue |
| TaskBase.Worker.InQueue | include/task_base/task_base.hpp:62-67 | one push is one step of the protocol |
| TaskBase.TaskManager.AddTask | include/task_base/task_manager.hpp:140-148 | the task is found under its name, in place of an earlier one of that name |
| TaskBase.Launch | include/task_base/task_manager.hpp:140-185 | adding tasks and then task 0 gives the initial state of the protocol |
| TaskBase.TaskManager.Send2Task | include/task_base/task_manager.hpp:58-114 | queues, then signals; false without such a task, or when the counter is full |
| TaskBase.TaskManager.EvfdCallback | src/task_base/task_base.cpp:3-17 | a failed read does nothing; otherwise the task's queue is processed, as a schedule of the protocol |
| TaskBase.TaskManager.ProcessMsg | src/task_base/task_base.cpp:20-58 | swap and drain are a schedule of the protocol that leaves nothing behind |
| TaskBase.TaskManager.HandleFront | src/task_base/task_base.cpp:28-56 | one message: consumed, or answered to task 0 |
| TaskBase.Drive | src/task_base/task_base.cpp:3-58 | actual tasks under any sequence of messages and polls: none is lost, doubled or overtaken, and a message that waits has its task's counter raised |
| Tpkt.FrameRoundTripExactly | include/translib/tcpServerTPKT.h:59-84 | a frame is read back as the message sent if and only if message and header fit into 24 bits |
| Tpkt.HeaderOnTheWire | include/translib/tcpServerTPKT.h:109-118 | a version byte of one and the length of the frame in three bytes, the highest first |
| Tpkt.ParsedIsFramed | include/translib/tcpServerTPKT.h:64-84 | whatever is taken as a frame is the frame of what is delivered |
| Tpkt.AllDelivered | include/translib/tcpServerTPKT.h:37-93 | the frames of a list of messages are delivered as that list, with nothing left over |
| Tpkt.InputOnFrameBoundary | include/translib/tcpServerTPKT.h:37-93 | between calls the input starts on a frame boundary: delivered frames and remaining bytes are all that arrived |
| Tpkt.TcpServerTPKT.SendWithTPKT | include/translib/tcpServerTPKT.h:109-127 | sends header and payload, or nothing on a closed session |
| Tpkt.TcpServerTPKT.OnSessionRead | include/translib/tcpServerTPKT.h:37-93 | delivers every complete frame and keeps the rest |
| Tpkt.TcpServerTPKT.Receive | include/translib/tcpServerTPKT.h:37-93 | in whatever pieces the frames of a list of messages arrive, exactly those messages are delivered, in order |

## Left out

- Machine integers: lengths, counts, positions and numbers are unbounded. Wire lengths, counts and buffers are taken to be below 2^31 and integers below 2^63 in absolute value; `Command` and `SdsFormat` state the bounds their C types need.
- Array counts below -1: the model reads them as an array that echoes the count and has no elements; overflowing numbers on the wire are not modelled.
- Allocation failure: memory is always available, so the out-of-memory branches are absent.
- Releasing memory: a reply tree or list node that the C code frees is simply no longer referred to; `Async.AsyncContext` keeps a flag that says the context has been released.
- Reader without object functions (`fn` being NULL) and custom object functions: only the default tree builders are modelled; a reply's `element` array is a sequence field.
- Template.FormatCommand: does not model the printf directives of the default case, and takes formats made of literals, `%s`, `%b` and `%%` only, because the other directives are delegated to the C library.
- SdsFormat.CatFmt: does not model a `%` at the very end of a format, where the code reads the terminating NUL as a directive.
- SdsFormat.Ll2Str: leaves out the smallest 64-bit number, whose negation overflows in C.
- Dict.NextPower: does not model the branch for sizes of LONG_MAX and above.
- Hash table entries hold a callback record by value; reference counting of values and clearing of a whole table are not modelled.
- Async.AsyncContext.AsyncCommand: takes one formatted command with at least a name, as the encoders produce it; on other bytes the code's own assertions fail or it reads behind them.
- AsyncSafety.CallbacksSettledInOrder: promises replies in order for plain runs only; with a monitor command it is false (`AsyncPlain.MonitorCallsAgain`), from the first read event on that `AsyncMonitor.OnePushPerMonitoringRead` counts, and what subscribers are sent has no command to be in step with.
- Async.AsyncContext.GetSubscribeCallback: a message announced with a negative number of elements counts as one with too few.
- Calls into the library from the connect and disconnect callbacks are left out; those run without the in-callback flag. The disconnect callback appears only as the status it is given.
- Scheduling of read and write events with an event library is left out; events come from outside in any order.
- Blocking contexts: waiting for replies inside a call is left out.
- Tpkt.TcpServerTPKT.OnSessionRead: does not model the recovery after a wrong version byte or a length below the header's own, because there the header in use is stale; well-formed input is a precondition.
- Tpkt.TcpSession: the session is an input and an output buffer; connections, timers, logging and the client class are left out.
- TaskBase.TaskManager.Send2Task: both overloads are one method that takes the finished message; the task map does not change while tasks run.
- TaskBase.TaskManager.HandleFront: what a task does with an ordinary message is a virtual function and is not part of this model; the message counts as processed.
- TaskBase.Drive: polls one task at a time; that threads may interleave at any step is in `TaskProtocol.EveryScheduleIsSafe`.
- TaskProtocol.EveryScheduleIsSafe: heartbeat answers are taken to come from the tasks themselves; other producers may send every other kind of message.
- Heartbeat timers, restarting of lost tasks, reconnecting, service discovery and the message bus are left out.
