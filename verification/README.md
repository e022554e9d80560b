# Six cores of MyCpp, modelled and proved

The repository is a set of small programs. Six of them have a core worth proving, and each has its own modules here:

- `thread_pool.dfy`: the condition-variable thread pool of `rate.cxx`. `PoolModel` is a transition system whose events
  are the atomic pieces of the threads' runs: a critical section, one call on the condition variable, or one piece of a
  task. Notifying after the unlock, spurious wake-ups, any number of enqueuers and tasks that enqueue tasks are all in.
  `PoolObject` is the pool object; each of its methods is one event.
- `digits.dfy`, `kaprekar.dfy`, `kaprekar_endings.dfy`: digit sequences of any length, the Kaprekar loop over unbounded
  numbers, and how every run of it ends. `kaprekar_routine.dfy`, `kaprekar_wrap.dfy`: the routine of `kaprekar.cxx`
  statement by statement with arithmetic modulo 2^32, and why the wrap-around never shows.
- `wire.dfy`, `person.dfy`, `rpc.dfy`, `person_service.dfy`: the Thrift code of `thrift-tests`. `Wire` is the binary
  protocol for values (Apache Thrift binary protocol specification, sections "Struct", "List and Set" and "Map"),
  `Folding` and `Rpc` say what the two ends make of the bytes ("Message" section included), `PersonCodec` and
  `PersonService` are the readers, writers, stubs and the processor. `wire_layout.dfy` spells the encodings out in
  numbers.
- `linked_list.dfy`: the doubly linked list of `ListDemo.c`, on the heap, with its sentinel and its global tail pointer.
- `retry_queue.dfy`: the batched retry queue of `test.cxx`. An oracle that may look at everything sent before decides
  whether a send succeeds.
- `paced_launcher.dfy`: the paced launcher of `fast_client.cxx`. Time is real, the clock is monotone, a sleep lasts at
  least as long as requested; all other durations are arbitrary.

`arithmetic.dfy` holds 32-bit wrapping and rounded-up division, `sequences.dfy` reversal.

Loops that need not end (the Kaprekar loop, a queue that never drains) are written with a bound on the rounds they are
watched for, and the results are about all bounds. `exit(1)` and C++ exceptions are results. Where the source relies on
a standard algorithm (`std::sort`, `std::reverse`, `std::adjacent_find`, `std::remove_if`) or on the Thrift library, the
call is a function with its documented meaning.

Two things the code does not do, although its text suggests them:

- `fast_client.cxx:79` says that the sleep keeps the rate below the limit. One late launch puts `(L + 1) * rate` launches
  into L seconds (`PacedModel.BoundAttained`); that is the exact bound (`PacedModel.RunWindowBound`). The nominal rate
  holds in every second exactly when, at each place in a batch, the time from batch to batch makes up for what the
  launch at that place comes earlier in the next one, a condition on the clock's ticks alone (`PacedModel.NominalRate`);
  launches that keep their places satisfy it (`PacedModel.SteadyPace`). The same comment and the one at line 66 also
  speak of 1000 requests per second where the constant is 100.
- In `ListDemo.c`, deleting undoes inserting unless the value is -1, the sentinel's own data
  (`ListSpec.InsertThenDelete`).

## Model

| member | source | states |
|---|---|---|
| PoolModel.ReachableInv | rate.cxx:34-84 | Every state a pool of n workers can reach satisfies the FIFO, wake-up, shutdown, exactly-once and running-count invariants below |
| PoolModel.StepKeepsFifo | rate.cxx:53-83 | The dequeue history followed by the queue is the enqueue history, after every step |
| PoolModel.StepKeepsWakeups | rate.cxx:53-80 | While a worker sleeps, queued tasks never outnumber pending notifications plus woken workers, in spite of notifying after the unlock and of spurious wake-ups |
| PoolModel.StepKeepsShutdown | rate.cxx:41-75 | Workers leave only after stop, nobody sleeps after notify_all, joined workers have exited, and when all have exited the queue is empty |
| PoolModel.StepKeepsExactlyOnce | rate.cxx:62-84 | Each dequeued task was completed once or is in execution at the one worker that took it, never both |
| PoolModel.StepKeepsRunning | rate.cxx:62-84 | After every step the tasks taken but not completed are as many as the workers in execution |
| PoolModel.NeverMoreThanNumThreadsRunning | rate.cxx:34-38 | Tasks taken but not completed are exactly those in execution, at most one per thread |
| PoolModel.EnqueuedIsPushed | rate.cxx:53-57 | Where no task enqueues another, the enqueue history is the tasks given to enqueue_task, in order |
| PoolModel.TasksSpawnInOrder | rate.cxx:53-83 | The task that is executed enqueues its own tasks, in their order, and all of them by the time it is completed |
| PoolModel.NothingOwed | rate.cxx:53-83 | When nothing is queued or in execution, the tasks enqueued are those given from outside, those they enqueue, and so on, each as often as it is there |
| PoolModel.OneWorkerKeepsOrder | rate.cxx:62-84 | With one worker, tickets are completed in the order they were dequeued |
| PoolModel.OneWorkerCompletesAPrefix | rate.cxx:53-84 | With one worker, the completed tasks are a prefix of the enqueued ones |
| PoolModel.QueuedTaskMeansProgress | rate.cxx:53-80 | With a worker and a queued task some pool step is always possible: no wake-up is lost |
| PoolModel.QuiescentBeforeStop | rate.cxx:53-84 | A pool that cannot go on before shutdown has executed every task and all its workers sleep |
| PoolModel.QuiescentAfterStop | rate.cxx:41-84 | A pool that cannot go on after shutdown has joined all workers and executed every task |
| PoolModel.StepLowersMeasure | rate.cxx:41-84 | Every step the pool takes by itself lowers a measure, and so does a spurious wake-up after stop |
| PoolModel.StepIsPaidFor | rate.cxx:41-84 | Every event, from inside or outside, costs at most what an enqueue, a spurious wake-up or the shutdown brings in |
| PoolModel.PoolComesToRest | rate.cxx:41-84 | On every run the number of steps is bounded by the initial measure plus a charge for each external enqueue, each spurious wake-up and the shutdown; a pool at rest has executed everything |
| PoolModel.ShutdownTerminates | rate.cxx:41-84 | After stop, every interleaving is at most Measure steps long |
| PoolModel.ShutdownCanComplete | rate.cxx:41-84 | From every stopped state there is a run to a state with nothing left to do |
| PoolModel.DestructorDrains | rate.cxx:41-84 | After any history and stop: bounded runs, no sleeper after notify_all, and at the end all workers joined, queue empty, and the tasks given, those they enqueue, and so on, executed exactly once |
| PoolModel.DestructorReturns | rate.cxx:41-51 | When the last join has returned, the tasks given, those they enqueue, and so on, were executed exactly once and every worker has left |
| PoolObject.ThreadPool.constructor | rate.cxx:34-38 | The pool starts with numThreads workers about to test the predicate, nothing queued |
| PoolObject.ThreadPool.SignalOne | rate.cxx:58 | notify_one after the lock wakes one sleeper if there is one |
| PoolObject.ThreadPool.FetchTask | rate.cxx:66-79 | The worker's critical section: back to sleep, return, or take the front task |
| PoolObject.ThreadPool.SignalAll | rate.cxx:46 | notify_all wakes every sleeper and nobody else |
| PoolObject.Replay | rate.cxx:34-84 | Any history of events on the object leaves it in the state the transition system says, invariants included |
| Digits.MakeAfterBreak | kaprekar.cxx:15-38 | makeNum undoes breakNum, and breakNum yields no leading zero |
| Digits.BreakAfterMake | kaprekar.cxx:15-38 | breakNum undoes makeNum on digits without a leading zero |
| Digits.DigitCount | kaprekar.cxx:15-25 | breakNum yields k digits exactly for numbers from 10^(k-1) to 10^k - 1 |
| Digits.SortDescSorts | kaprekar.cxx:53 | The sorted vector is descending and has the same digits |
| Digits.SortDescIsTheSort | kaprekar.cxx:53 | Sorting has one possible result for given digits |
| Digits.Extremal | kaprekar.cxx:53-56 | ascNum and dscNum are the least and the greatest number any arrangement of the digits makes |
| Digits.ExtremesAttained | kaprekar.cxx:53-56 | Both are made by arrangements of the digits |
| Digits.DifferenceBounds | kaprekar.cxx:40-57 | For n digits that are not all equal the difference lies from 10^(n-1) - 1 to 10^n - 1, for every n |
| Digits.ModNineInvariant | kaprekar.cxx:27-57 | Rearranging digits and padding with zeros keep the number modulo nine |
| Kaprekar.NextDigitCount | kaprekar.cxx:40-73 | The next number has as many digits as were rearranged, or is one digit short and all nines |
| Kaprekar.NextDivisibleByNine | kaprekar.cxx:67-72 | Every number after the first is divisible by nine |
| Kaprekar.FourDigitDifference | kaprekar.cxx:40-57 | With four digits the difference depends on two gaps only |
| Kaprekar.DistanceDrops | kaprekar.cxx:67-73 | Each of the 54 gap pairs is at most six rounds from 6174, one less after every round |
| Kaprekar.SuitableDigits | kaprekar.cxx:44-52 | The inputs from 100 to 9999 without the four-digit repdigits are those with four padded digits that differ |
| Kaprekar.SuitableReturns | kaprekar.cxx:60-77 | From a suitable input the loop returns after exactly the number of rounds its digit gaps say, at most seven |
| Kaprekar.SevenRounds | kaprekar.cxx:60-77 | Seven rounds are needed, for example by 1400 |
| Kaprekar.UnsuitableStep | kaprekar.cxx:60-77 | A round from an unsuitable number leads to an unsuitable number other than 6174 |
| Kaprekar.ExactOutcome | kaprekar.cxx:60-77 | Over unbounded numbers the loop returns for exactly the suitable inputs, within seven rounds |
| Kaprekar.SmallInputsExit | kaprekar.cxx:48-52 | Inputs below 100 take the equal-digits exit within five rounds |
| KaprekarEndings.DifferenceStep | kaprekar.cxx:40-57 | The difference splits into the outermost pair of sorted digits and the difference of those between |
| KaprekarEndings.CollapseMeansNearlyEqual | kaprekar.cxx:40-57 | The difference is a row of nines, one digit short, exactly when all digits but one are equal and that one is one off |
| KaprekarEndings.EndlessStep | kaprekar.cxx:60-77 | Five or more digits that are neither equal nor nearly so lead to as many digits that are neither |
| KaprekarEndings.EndlessRepeats | kaprekar.cxx:60-77 | A run that goes on for ever goes round in a circle of numbers of the input's length |
| KaprekarEndings.ThreeEndings | kaprekar.cxx:44-77 | Every input returns, takes the equal-digits exit or runs for ever, and its digits tell which |
| KaprekarRoutine.BreakNumLoop | kaprekar.cxx:15-25 | The loop appends the digits to the vector, least significant first |
| KaprekarRoutine.MakeNumLoop | kaprekar.cxx:27-38 | The loop computes the number modulo 2^32 |
| KaprekarRoutine.GetAscDscNum | kaprekar.cxx:40-57 | Equal digits are detected after padding; otherwise both extremes are returned modulo 2^32 |
| KaprekarRoutine.KaprekarIterations | kaprekar.cxx:60-77 | The loop's outcome is that of Run32, for any number of rounds watched |
| KaprekarRoutine.NoWrap | kaprekar.cxx:67-72 | With at most nine digits nothing reaches 2^32, nothing goes below zero, and the next number has at most nine digits |
| KaprekarWrap.TenDigitDifference | kaprekar.cxx:40-57 | Of ten sorted digits the difference depends on five gaps only, with fixed weights |
| KaprekarWrap.WrappedDifference | kaprekar.cxx:67-72 | A difference that loses 2^32 once or twice still leaves five or more digits that are neither equal nor nearly so |
| KaprekarWrap.Run32IsRun | kaprekar.cxx:60-77 | On every input below 2^32 the 32-bit loop has the outcome of the unbounded one, for any number of rounds |
| KaprekarWrap.ThreeEndings32 | kaprekar.cxx:44-77 | Which unsigned inputs return, which take the equal-digits exit and which run for ever |
| KaprekarWrap.ReturnedCount32 | kaprekar.cxx:60-77 | From a suitable input the routine returns exactly the number of rounds its digit gaps say, and not before |
| KaprekarWrap.EndlessRepeats32 | kaprekar.cxx:60-77 | A run of the routine that goes on for ever goes round in a circle |
| KaprekarWrap.ExitsSoon32 | kaprekar.cxx:48-52 | Inputs that take the equal-digits exit do so within five rounds |
| Wire.I32RoundTrip | thrift-tests/gen-cpp/example_types.cpp:62 | Reading a written i32 gives it back and leaves what follows |
| Wire.I32Exact | thrift-tests/gen-cpp/example_types.cpp:62 | Four bytes that are read as an i32 are its encoding |
| Wire.StringRoundTrip | thrift-tests/gen-cpp/example_types.cpp:70 | Reading a written string of less than 2^31 bytes gives it back and leaves what follows |
| Wire.ValueRoundTrip | thrift-tests/gen-cpp/example_types.cpp:65 | Reading, and so skipping, any well-formed value of any nesting takes exactly its bytes |
| Wire.FieldsRoundTrip | thrift-tests/gen-cpp/example_types.cpp:47-91 | Reading the fields of a written struct gives them in order and leaves what follows |
| Wire.ValueExact | thrift-tests/gen-cpp/example_types.cpp:65 | Whatever is read or skipped is the encoding of a well-formed value of the announced type |
| Wire.FieldsExact | thrift-tests/gen-cpp/example_types.cpp:47-91 | Whatever is read as a struct is the encoding of well-formed fields and what is left |
| WireLayout.I32Layout | thrift-tests/gen-cpp/example_types.cpp:62 | An i32 is four bytes, the most significant first, in two's complement |
| WireLayout.ValueLayout | thrift-tests/gen-cpp/example_types.cpp:65 | The type code in numbers, the size and the bytes of every kind of value |
| WireLayout.FieldLayout | thrift-tests/gen-cpp/example_types.cpp:99-114 | A field is its type code, its id and its value; a struct is its fields and a zero byte |
| WireLayout.SkipsBySize | thrift-tests/gen-cpp/example_types.cpp:65 | By type code a skip takes one byte for a bool or byte, two for an i16, eight for an i64 or double |
| WireLayout.UnknownTypes | thrift-tests/gen-cpp/example_types.cpp:65 | No other type code can be read or skipped |
| Folding.PersonFieldsLast | thrift-tests/gen-cpp/example_types.cpp:58-87 | Each known field ends up with its last correctly typed value or is left alone, and the flags say which |
| Folding.FieldsOfPersonRead | thrift-tests/gen-cpp/example_types.cpp:58-111 | The fields a Person writes, read into any Person, give its values with all flags set |
| PersonCodec.Person.constructor | thrift-tests/gen-cpp/example_types.h:38-39 | A new Person is 0, "", 0 with no flag set |
| PersonCodec.Person.ReadFieldBody | thrift-tests/gen-cpp/example_types.cpp:58-87 | The switch assigns a known field of the right type and skips every other one, to the byte; an exception leaves all but the name as it was |
| PersonCodec.Person.ReadTurn | thrift-tests/gen-cpp/example_types.cpp:54-88 | One turn of the loop takes one field or the stop byte; an exception leaves all but the name as it was |
| PersonCodec.Person.Read | thrift-tests/gen-cpp/example_types.cpp:39-94 | read assigns the fields of the struct in order, stops right behind it, and reports the bytes taken modulo 2^32; after an exception the fields in front of the unreadable one have been assigned |
| PersonCodec.Person.Write | thrift-tests/gen-cpp/example_types.cpp:96-116 | write appends the encoding of the three fields and reports its length; a name of 2^31 bytes or more breaks it off behind the header of the name |
| WireLayout.PersonLayout | thrift-tests/gen-cpp/example_types.cpp:96-116 | The bytes of a written Person, one by one |
| WireLayout.CutPersonLayout | thrift-tests/gen-cpp/example_types.cpp:96-116 | The bytes that are out when the name turns out not to fit |
| Folding.ReadingIsParsing | thrift-tests/gen-cpp/example_types.cpp:52-89 | Reading turn by turn gives the fields of the struct as a whole, or the same exception |
| Folding.AbortedAfter | thrift-tests/gen-cpp/example_types.cpp:52-89 | A reading that breaks off has come past exactly the fields in front of the one that cannot be read |
| PersonCodec.PersonRoundTrip | thrift-tests/gen-cpp/example_types.cpp:39-116 | A written Person followed by any bytes is read back equal, all flags set, the bytes behind untouched, with the same byte count |
| PersonCodec.ReadsExactly | thrift-tests/gen-cpp/example_types.cpp:39-94 | read accepts exactly the byte strings that start with well-formed fields, which are then unique |
| PersonCodec.ForwardCompatible | thrift-tests/gen-cpp/example_types.cpp:52-89 | Fields in any order, repeated, unknown, mistyped or nested: the last correctly typed value or the default, the right flags, and a stop right behind the struct |
| Rpc.MessageBeginRoundTrip | thrift-tests/gen-cpp/PersonService.cpp:342 | A written message header is read back, to the byte |
| WireLayout.HeaderLayout | thrift-tests/gen-cpp/PersonService.cpp:342 | The bytes of a message header: version, type, name, sequence id |
| WireLayout.HeadersRead | thrift-tests/gen-cpp/PersonService.cpp:359 | Headers are read in the strict encoding and in the old one |
| WireLayout.HeaderExact | thrift-tests/gen-cpp/PersonService.cpp:359 | Nothing else can be read as a message header |
| Rpc.ArgsRoundTrip | thrift-tests/gen-cpp/PersonService.cpp:151-223 | getPerson's args read what its pargs write |
| Rpc.ArgsFieldsLast | thrift-tests/gen-cpp/PersonService.cpp:164-185 | The args are the last i32 sent as field 1; every other field is skipped |
| WireLayout.ArgsLayout | thrift-tests/gen-cpp/PersonService.cpp:211-223 | The bytes of the args |
| Rpc.ResultRoundTrip | thrift-tests/gen-cpp/PersonService.cpp:271-331 | getPerson's presult reads what its result writes, into whatever Person the caller passed |
| Rpc.ResultFieldsAll | thrift-tests/gen-cpp/PersonService.cpp:305-326 | The presult's Person has read the structs sent as field 0, in order; every other field is skipped |
| Rpc.ResultBrokenOff | thrift-tests/gen-cpp/PersonService.cpp:305-326 | A presult that breaks off has its fields so far, and a Person that breaks off as far as that one came |
| WireLayout.ResultLayout | thrift-tests/gen-cpp/PersonService.cpp:271-285 | The bytes of a result |
| Rpc.ExceptionRoundTrip | thrift-tests/gen-cpp/PersonService.cpp:450-452 | A written TApplicationException is read back, to the byte |
| Rpc.ExceptionFieldsLast | thrift-tests/gen-cpp/PersonService.cpp:363 | An exception's text and kind are the last string sent as field 1 and the last i32 sent as field 2 |
| WireLayout.ExceptionLayout | thrift-tests/gen-cpp/PersonService.cpp:452 | The bytes of a TApplicationException |
| WireLayout.OwnExceptions | thrift-tests/gen-cpp/PersonService.cpp:440-450 | The texts and kinds of the exceptions the generated code makes up itself |
| Rpc.ServesRequest | thrift-tests/gen-cpp/PersonService.cpp:443-567 | The processor takes a stub's request off the stream to the byte and answers with the handler's answer to it, under the request's sequence id |
| Rpc.ServesCall | thrift-tests/gen-cpp/PersonService.cpp:443-567 | The same for any call or one-way call, whatever other fields its arguments have; an answer that does not fit breaks off |
| Rpc.ReplyHeader | thrift-tests/gen-cpp/PersonService.cpp:492-504 | A reply carries the method called, the request's sequence id, and whether the handler returned or threw |
| Rpc.CutReplyHeader | thrift-tests/gen-cpp/PersonService.cpp:492-504 | So does a reply that breaks off |
| Rpc.ServeCases | thrift-tests/gen-cpp/PersonService.cpp:443-460 | Which bytes are answered, which are no call and which cannot be read |
| WireLayout.ReplyLayout | thrift-tests/gen-cpp/PersonService.cpp:504-506 | The bytes of a reply |
| WireLayout.ThrownLayout | thrift-tests/gen-cpp/PersonService.cpp:491-493 | The bytes of a reply when the handler has thrown: its text, and the unknown kind |
| Rpc.ReceivesAnswer | thrift-tests/gen-cpp/PersonService.cpp:352-441 | The client takes the reply off its stream to the byte, whatever its sequence id, and sees the handler's answer, returned or thrown |
| Rpc.SurprisesSkipped | thrift-tests/gen-cpp/PersonService.cpp:369-378 | In front of the result a struct is skipped for a message that is no reply, and one for another method's name |
| Rpc.ExceptionEndsCall | thrift-tests/gen-cpp/PersonService.cpp:362-368 | An exception message ends the call, whatever method it names |
| Rpc.UnknownMethodAnswered | thrift-tests/gen-cpp/PersonService.cpp:443-457 | A call of an unknown method is skipped to the byte and answered with an exception that its caller receives |
| PersonService.ReadNoFields | thrift-tests/gen-cpp/PersonService.cpp:16-42 | Structs without known fields are skipped field by field, to the byte, and counted modulo 2^32 |
| PersonService.GetPersonArgs.Read | thrift-tests/gen-cpp/PersonService.cpp:151-190 | The args take the last i32 sent as field 1, skip the rest and count the bytes; an exception keeps what came before it |
| PersonService.WriteArgs | thrift-tests/gen-cpp/PersonService.cpp:211-223 | The pargs write the id as field 1 and report the length |
| PersonService.WriteResult | thrift-tests/gen-cpp/PersonService.cpp:271-285 | The result writes the Person as field 0 if it is set, and the stop byte, and reports the length; a name that does not fit breaks it off at a known byte |
| PersonService.GetPersonPresult.Read | thrift-tests/gen-cpp/PersonService.cpp:292-331 | The presult fills the caller's Person from every struct sent as field 0, skips the rest and counts the bytes; after an exception it has what came before it, a Person as far as it was read |
| PersonService.Processor.Process | thrift-tests/gen-cpp/PersonService.cpp:443-460 | One turn of the processor on any bytes: replied, not a call, a reply cut short because it does not fit, or an exception from reading, before which nothing was sent and the handler not called |
| PersonService.Processor.ProcessPing | thrift-tests/gen-cpp/PersonService.cpp:462-513 | process_ping reads the args, calls the handler once and sends its answer or exception, or what of it fits |
| PersonService.Processor.ProcessGetPerson | thrift-tests/gen-cpp/PersonService.cpp:515-567 | process_getPerson calls the handler once with the id read and sends its Person or exception, or what of it fits |
| PersonService.Client.SendPing | thrift-tests/gen-cpp/PersonService.cpp:339-350 | send_ping writes the request message |
| WireLayout.PingLayout | thrift-tests/gen-cpp/PersonService.cpp:339-350 | The bytes of that message |
| PersonService.Client.SendGetPerson | thrift-tests/gen-cpp/PersonService.cpp:391-403 | send_getPerson writes the request message with the id |
| WireLayout.GetPersonLayout | thrift-tests/gen-cpp/PersonService.cpp:391-403 | The bytes of that message |
| PersonService.Client.ReceiveHeader | thrift-tests/gen-cpp/PersonService.cpp:359-376 | The common part of both receivers: an exception ends the call, other surprises cost a struct each, and then the result begins |
| PersonService.Client.RecvPing | thrift-tests/gen-cpp/PersonService.cpp:352-383 | recv_ping on any bytes |
| PersonService.Client.RecvGetPerson | thrift-tests/gen-cpp/PersonService.cpp:405-441 | recv_getPerson on any bytes: fills the caller's Person, as far as the reply can be read, throws what was sent, or reports a missing result |
| PersonService.RunCall | thrift-tests/gen-cpp/PersonService.cpp:333-389 | A call through stub, processor and stub shows the handler's answer and empties both streams |
| PersonService.RunSession | thrift-tests/gen-cpp/PersonService.cpp:333-441 | In any sequence of calls the k-th shows the handler's k-th answer, and both streams stay aligned |
| ListSpec.FoundMeansMember | ListDemo.c:44-55 | search succeeds exactly for values other than -1 that are in the list |
| ListSpec.LastIndexUnique | ListDemo.c:44-58 | The position search finds is the last occurrence |
| ListSpec.DeleteRemovesLast | ListDemo.c:60-90 | Deleting a value other than -1 takes out its last occurrence and nothing else |
| ListSpec.InsertThenDelete | ListDemo.c:33-90 | Deleting right after inserting restores the list exactly when the value is not -1 |
| ListSpec.InsertDeleteCommute | ListDemo.c:33-90 | Inserting and deleting different values can be exchanged |
| ListSpec.DeletesCommute | ListDemo.c:60-90 | Deletes can be exchanged |
| ListSpec.DeleteCounts | ListDemo.c:60-90 | A delete lowers the count of its value by one if it is found and changes no other count |
| ListSpec.PrintedIsReverse | ListDemo.c:119-136 | The backward traversal visits the reverse of the list without its -1 entries |
| LinkedList.List.constructor | ListDemo.c:23-30 | The initialized list is a sentinel alone |
| LinkedList.List.Insert | ListDemo.c:33-42 | insert appends and keeps one acyclic chain linked both ways |
| LinkedList.List.Search | ListDemo.c:44-58 | search returns the node of the last occurrence, never the sentinel, and NULL exactly if there is none or the value is -1 |
| LinkedList.List.Unlink | ListDemo.c:62-75 | Relinking takes one node out of the chain and moves the tail pointer if it was the last |
| LinkedList.List.DeleteNode | ListDemo.c:60-90 | deleteNode takes the node of the last occurrence out of the chain and frees it, and nothing else; its branch for a node without a predecessor is unreachable |
| LinkedList.List.PrintList | ListDemo.c:119-136 | printList prints the values from the tail back, without -1 |
| LinkedList.RunProgram | ListDemo.c:140-163 | Any sequence of inserts and deletes after the initialization leaves a valid chain with the values they say; no node is freed twice or freed and in the chain, and none is lost |
| LinkedList.EffectGrows | ListDemo.c:33-90 | What the calls say: an insert appends its value, a delete deletes its value, one after the other |
| RetryModel.Conservation | test.cxx:26-49 | At every step succeeded plus queued requests are the initial ones, and sends are successes plus failures |
| RetryModel.BatchCount | test.cxx:26-49 | A finished batched run is the unbatched run, send for send, in exactly (requests + failures) / batchSize rounds, rounded up |
| RetryModel.TerminatesExactly | test.cxx:27-35 | The outer loop ends exactly when the queue is empty at once, or the batch size is positive and no request fails for ever |
| RetryModel.AttemptLowersMeasure | test.cxx:35-44 | An attempt lowers a measure unless its request fails more often than its bound |
| RetryModel.FiniteFailuresDrain | test.cxx:26-49 | If on the run each request fails finitely often, the queue drains, every request succeeds exactly once, and sends are requests plus failures |
| RetryModel.DrainsExactly | test.cxx:26-49 | The queue drains exactly on the runs on which no request fails for ever |
| RetryModel.QueueIsSentInOrder | test.cxx:35-44 | From any state the queued requests are the next ones sent, in queue order |
| RetryModel.SlotsOfQueue | test.cxx:26-49 | Each queued request is one of the initial ones, and no two are the same one, even where the strings are equal |
| RetryModel.TraceShowsAttempts | test.cxx:35-44 | The i-th send is of the request at the front after i attempts |
| RetryModel.OneRoundBetweenAttempts | test.cxx:35-44 | Between two consecutive attempts of a request exactly the requests waiting behind it are attempted, once each and in order |
| RetryModel.AttemptsStayLevel | test.cxx:35-44 | The attempt counts of pending requests differ by at most one, and the front has the fewest |
| RetryQueue.ProcessBatch | test.cxx:26-49 | processBatch sends what the unbatched loop sends, for any batch size and oracle, and stops at the first round with an empty queue |
| RetryQueue.ProcessBatchToTheEnd | test.cxx:26-49 | processBatch, run to its end when on the run each request fails finitely often: the queue is empty, all succeeded once, in the exact number of rounds |
| PacedModel.RunPaced | fast_client.cxx:66-91 | Batch starts are a second or more apart, launches lie in their batches, and no batch exceeds the rate |
| PacedModel.RunWindowBound | fast_client.cxx:66-91 | A half-open window of L whole seconds holds at most (L + 1) * rate launches, whatever the clock does |
| PacedModel.BoundAttained | fast_client.cxx:66-91 | That bound is attained, for every rate and L |
| PacedModel.LaunchTimes | fast_client.cxx:66-91 | The time of every launch follows from the clock's ticks: the start of its batch and its offset in it |
| PacedModel.NominalRate | fast_client.cxx:79-84 | Every second holds at most rate launches exactly when, at each place, the period of a batch makes up for the launch's coming earlier in the next batch |
| PacedModel.SteadyPace | fast_client.cxx:79-84 | In particular it does when no launch comes earlier in its batch than the one a batch before |
| PacedModel.AlignedWindow | fast_client.cxx:66-84 | A second that begins with a batch holds that batch only, but for launches at that very instant |
| PacedModel.RunTakesTime | fast_client.cxx:66-91 | All requests are launched, and launching N takes at least N / rate seconds, rounded up |
| PacedModel.CleanUp | fast_client.cxx:86-91 | A clean-up erases the futures it finds ready and keeps the others |
| PacedModel.EveryRequestAwaited | fast_client.cxx:86-96 | Every launched request is erased, exactly if a clean-up from its batch on found it ready, or awaited at the end, exactly if none did; once |
| PacedLauncher.LaunchBatch | fast_client.cxx:68-77 | The inner loop launches one batch, cut short when all requests are out |
| PacedLauncher.SendRequests | fast_client.cxx:60-97 | The launcher's run is the one the results above are about, and it waits for the futures still held |

## Left out

- PersonCodec.Person.Read: after an exception the name and the rest of the input stream are left open, as they depend on the transport; the recursion limit of the library's tracker is not modelled.
- PersonCodec.Person.ReadFieldBody: the same two are left open after an exception.
- PersonCodec.Person.ReadTurn: the same two are left open after an exception.
- PersonService.GetPersonPresult.Read: the name of the caller's Person and the rest of the input stream are left open after an exception.
- PersonService.GetPersonArgs.Read: the rest of the input stream is left open after an exception.
- PersonService.ReadNoFields: the rest of the input stream is left open after an exception.
- Wire.GetValue: a type byte outside the protocol is an invalid-data exception; string and container limits are the unlimited defaults.
- PersonService.Processor.Process: event handlers, transports, flushing and the server loop are library behaviour; a stream is the bytes in flight in one direction, and what a failed read leaves of the input is open.
- PersonService.Processor.ProcessPing: what a failed read leaves of the input stream is open.
- PersonService.Processor.ProcessGetPerson: what a failed read leaves of the input stream is open.
- PersonService.Client.ReceiveHeader: what garbled bytes leave of the input stream is open.
- PersonService.Client.RecvPing: what garbled bytes leave of the input stream is open.
- PersonService.Client.RecvGetPerson: what garbled bytes leave of the input stream, and of the name of the Person, is open.
- `args::write` and `result::read`, which neither end calls, are not part of this model.
- PoolModel.DestructorDrains: external enqueues after destruction has begun and tasks that throw are excluded, and a pool without workers drains nothing.
- PoolObject.ThreadPool.FetchTask: the mutex itself is not modelled; one method call is one critical section.
- KaprekarRoutine.GetAscDscNum: vectors are sequences and `std::sort` and `std::reverse` are functions, so that sorting happens in place is not captured.
- LinkedList.List.DeleteNode: what freed memory holds afterwards and a failing `malloc` are not modelled.
- RetryQueue.ProcessBatch: the mutex, the printing and the pause between rounds have no part in the result.
- PacedLauncher.SendRequests: a launch that throws or blocks is not modelled, and the doubles of the duration arithmetic are reals.
- `PersonServiceConcurrentClient`: its hand-off lives in library code that is not part of this repository.
- `rate2.cxx`, `rate3.cxx`, the SCTP, HTTP/2 and Boost programs, the loggers, the generators and the build files: I/O or repetitions of the above.
