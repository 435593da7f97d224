# Verified models of the five stateful cores

Dafny models of five pieces of this repository, each a state that is changed step by step, with
proofs about every run:

- **The sorted timer list** (`Timer/linklistTimer.h`). `TimerSpec` is the list as a sequence of
  entries; `TimerList` is the doubly linked list with its `prev`, `next`, `head` and `tail` pointers,
  rewritten in place, together with the account of which timers were added and freed.
- **The idle-connection server** (`Timer/closeNonactiveConn.cpp`). `ReaperSpec` is the event loop as a
  state machine over that list; `Reaper` is the users table, the list and the flags in place.
- **The process-pool parent** (`ThreadPool/processPool.h`). `PoolSpec` and `Pool`.
- **The chat-server parent** (`Multiprocessing/multiprocessingChatServer.cpp`). `ChatSpec` and `Chat`.
- **The HTTP request-line parser** (`IOfunction/httpparser9_3.cpp`). `HttpLine` is the resumable line
  scanner, `RequestLine` the tokenizer for request lines (section 3 of RFC 9112; the target forms are
  those of sections 3.2.1 and 3.2.2).

The modules ending in `Spec` hold values, step functions and the lemmas about all runs. The class
modules hold the imperative code; each of their methods is proved to take exactly the step of the
specification, so what is proved about steps and runs holds of the pointers and arrays. In
`HttpLine` and `RequestLine` both parts share a module.

System calls are parameters: what `accept`, `fork`, `recv`, `waitpid` and `time` return comes in as
arguments, restricted by what the kernel guarantees (an accepted descriptor is not open, a
forked pid belongs to no unreaped child, waitpid returns an unreaped child) and by what the source
relies on without a check (a descriptor is below `FD_LIMIT`, a pid below the length of
`sub_process`, time does not run backwards). A signal byte read from the self-pipe is an event.

Check everything with `dafny verify dfyconfig.toml`.

## Where the code falls short of its purpose

The code is modelled as it is written, and the exact condition under which it meets its purpose is
proved. Where later results need the intended behaviour, a second form is proved beside it.

- Adding a timer starts the private helper at `head->next` (`Timer/linklistTimer.h:65`). With one
  timer in the list this dereferences null, and with more it can skip the gap right behind the head.
  `AddAsWrittenExactly` gives the exact condition; `AsWrittenSurvivesExactly` shows that the server
  then survives a run exactly when no two connections are ever open together. `AddTimer` starts at
  `head`, and the server in `ReaperSpec` and `Reaper` uses it.
- The helper does what its comment says exactly when its start node does not expire after the timer
  (`InsertAfterNodeCorrect`); adjusting is a stable re-insertion exactly when the expiry did not drop
  below the predecessor's (`AdjustIsReinsertion`).
- The pool parent picks child `j` but writes the notice to the pipe of slot `i`, the position of the
  event (`ThreadPool/processPool.h:387`). Both are modelled: fairness is about the picked child, and
  `NoticeReachesChosenExactly`, `ChosenButNeverNotified` and `NoticeLost` are about the notice.
- A chat child keeps its fork-time index as shared-memory slot after its record was moved.
  `SlotsStayDisjointExactly` gives the exact condition over every run, `MoveThenAcceptCollides` the
  first accept that breaks it, and `SlotsCollideInARun` a run from the start in which two children
  write the same slot.
- The chat server looks at its stop flag only after a batch, so it can leave with a child running:
  `ExitCanLeaveAChild` is such a run, and `ExitLeavesNoneExactly` says for every run of the loop when
  it leaves none.
- The inner test of the LF branch, which a comment in the parser asks about
  (`IOfunction/httpparser9_3.cpp:44`), never succeeds in a run: `InnerTestMattersExactly`,
  `InnerTestIsDead`.

## Model

| member | source | states |
|---|---|---|
| TimerSpec.StableInsertSorted | Timer/linklistTimer.h:47-67 | adding keeps the list ordered by expire and adds exactly the one timer |
| TimerSpec.StableInsertUnique | Timer/linklistTimer.h:162-189 | the position is the only one that is in order and behind all timers with the same expire |
| TimerSpec.InsertAfterNodeCorrect | Timer/linklistTimer.h:162-189 | the private helper inserts stably, and leaves the list ordered, if and only if its start node does not expire after the timer |
| TimerSpec.InsertAfterNodeTooLate | Timer/linklistTimer.h:162-189 | started at a node that expires after the timer, the helper links it in right behind that node |
| TimerSpec.AddAsWrittenExactly | Timer/linklistTimer.h:47-67 | add as written is right if and only if the timer does not belong right behind the head; it dereferences null if and only if the only timer does not expire later; otherwise wrong means that a timer due right behind the head comes second, behind a later one |
| TimerSpec.AddAsWrittenCounterexamples | Timer/linklistTimer.h:63-66 | concrete lists on which add as written dereferences null and on which it leaves the list out of order |
| TimerSpec.AdjustIsReinsertion | Timer/linklistTimer.h:70-95 | on a list ordered but for one node, adjusting equals removing and stably re-inserting it, and restores the order, if and only if its expire is not below its predecessor's, and otherwise leaves the list alone; the timers are the same |
| TimerSpec.TickFiresExactlyTheExpired | Timer/linklistTimer.h:131-159 | on an ordered list tick fires exactly the timers with expire <= cur, in list order, and keeps exactly the others, in order |
| TimerList.SortTimerList.Place | Timer/linklistTimer.h:165-189 | the pointer writes of the helper give the chain with the timer at the specified position, prev and next still inverse, tail updated |
| TimerList.SortTimerList.AddTimer | Timer/linklistTimer.h:47-67 | adding, started at the head, is stable insertion on the linked list; the timer enters the account of added timers; a null argument changes nothing |
| TimerList.SortTimerList.AddTimerAsWritten | Timer/linklistTimer.h:47-67 | the source's add on the linked list, with a fault exactly where it dereferences null |
| TimerList.SortTimerList.AdjustTimer | Timer/linklistTimer.h:70-95 | repositioning on the linked list in all cases: last node, no move, head, inner node |
| TimerList.SortTimerList.DelTimer | Timer/linklistTimer.h:98-128 | all four branches unlink exactly the given node and free it |
| TimerList.SortTimerList.Tick | Timer/linklistTimer.h:131-159 | the loop unlinks and frees exactly the expired prefix and calls back with its user data in list order, tail being left stale when the list empties |
| TimerList.SortTimerList.Destroy | Timer/linklistTimer.h:35-44 | the destructor frees exactly what is left, after which every timer ever added has been freed exactly once |
| TimerList.AllFreed | Timer/linklistTimer.h:35-44 | freed timers followed by the remaining ones are all the timers ever added, none twice |
| TimerList.AccountedRemove | Timer/linklistTimer.h:98-128 | taking a node out and freeing it keeps the account: each timer ever added is in the list or was freed, once |
| ReaperSpec.AddGoesToTail | Timer/closeNonactiveConn.cpp:153-159 | under a nondecreasing clock every added timer lands at the tail |
| ReaperSpec.RenewGoesToTail | Timer/closeNonactiveConn.cpp:216-222 | under a nondecreasing clock every adjusted timer lands at the tail, the others keeping their order |
| ReaperSpec.DataIsHangupThenAccept | Timer/closeNonactiveConn.cpp:194-223 | data from a client has the effect of a hangup and an immediate new accept of the same fd |
| ReaperSpec.TickClosesExactlyTheIdle | Timer/closeNonactiveConn.cpp:69-84 | a tick closes a connection if and only if its last activity is 3*TIMESLOT or more ago, and keeps the timers of the others |
| ReaperSpec.StepKeepsInv | Timer/closeNonactiveConn.cpp:140-231 | every event and every batch end keeps the invariant: fds and timers one to one, expire = last activity + 3*TIMESLOT, list ordered, nothing left that the latest tick should have closed |
| ReaperSpec.ReachableIsConsistent | Timer/closeNonactiveConn.cpp:131-232 | in every reachable state the open fds and the timers are in bijection and the list is in order of last activity |
| ReaperSpec.IdleIsClosedInTime | Timer/closeNonactiveConn.cpp:131-232 | over every run with ticks at most d apart, counted from the start, an idle connection is still open if and only if no tick has come 3*TIMESLOT after its last activity, and is otherwise closed by a tick at a time from last+3*TIMESLOT to below last+3*TIMESLOT+d |
| ReaperSpec.OpenExactly | Timer/closeNonactiveConn.cpp:131-232 | over every run from the start, a connection is open and was last active at a time if and only if its latest accept or data came then, no hangup followed, and no batch end that runs tick came 3*TIMESLOT after it or later |
| ReaperSpec.FlagsExactly | Timer/closeNonactiveConn.cpp:161-187 | over every run timeout is up if and only if SIGALRM was read since the last batch end, and stop_server if and only if SIGTERM was ever read |
| ReaperSpec.ExitsExactly | Timer/closeNonactiveConn.cpp:131 | over every run the loop is over if and only if a batch has ended after SIGTERM was read |
| ReaperSpec.ClosedAfterFifteen | Timer/closeNonactiveConn.cpp:157 | with TIMESLOT 5, a tick closes a client that has been silent since its accept if and only if it comes 15 or more after it |
| ReaperSpec.AsWrittenSurvivesExactly | Timer/closeNonactiveConn.cpp:143-160 | with add as written, a run behaves like the repaired server if no two connections are ever open together and dereferences null otherwise |
| Reaper.Server.constructor | Timer/closeNonactiveConn.cpp:125-129 | the server starts with no connection, no timer and both flags down |
| Reaper.Server.ClientsAndTimersMatch | Timer/closeNonactiveConn.cpp:150-159 | every open fd's record and its timer point at each other, the timer is in the list, not freed, and expires 3*TIMESLOT after the last activity; every list node belongs to an open fd |
| Reaper.Server.OnAccept | Timer/closeNonactiveConn.cpp:143-160 | the accept branch in place takes the accept step: record filled in, timer made, tied to the record and put into the list |
| Reaper.Server.OnData | Timer/closeNonactiveConn.cpp:214-223 | the data branch in place moves the expiry and repositions the timer of exactly this client |
| Reaper.Server.OnHangup | Timer/closeNonactiveConn.cpp:195-213 | the hangup branch in place drops exactly this client's timer |
| Reaper.Server.OnSignals | Timer/closeNonactiveConn.cpp:161-187 | the loop over signal bytes raises timeout if SIGALRM, and stop_server if SIGTERM, is among them |
| Reaper.Server.OnBatchEnd | Timer/closeNonactiveConn.cpp:227-231 | a pending timeout runs tick once and clears the flag; the fds closed by the callbacks are exactly the expired ones, in list order |
| Reaper.EventEffect | Timer/closeNonactiveConn.cpp:140-226 | per event: an accepted fd is open with expiry at+3*TIMESLOT at the tail; a read keeps the fd open if and only if it brought bytes or failed with EAGAIN, bytes renew its time and timer, EAGAIN changes nothing; signal bytes only raise flags; no other fd is touched |
| Reaper.EventsExactly | Timer/closeNonactiveConn.cpp:140-226 | after the events of a batch an fd is open since a time if and only if the latest event about it was an accept or bytes at that time, or it was so before and nothing about it came; the flags are up if and only if they were or their byte was read |
| Reaper.TurnExactly | Timer/closeNonactiveConn.cpp:131-231 | a whole turn: open are the fds last seen less than 3*TIMESLOT before a tick, the others are closed once each in order of last activity, timeout is down, and the loop ends if and only if SIGTERM was read |
| Reaper.Server.Handle | Timer/closeNonactiveConn.cpp:140-226 | one event in place has exactly the effect of EventEffect |
| Reaper.Server.RunBatch | Timer/closeNonactiveConn.cpp:131-232 | one turn of the event loop is the run of its events followed by the end of the batch, and has exactly the effect and the closed fds of TurnExactly |
| PoolSpec.PickIsNearestLive | ThreadPool/processPool.h:369-385 | no slot is found if and only if every child is reaped; the slot found is the live one nearest to the counter, cyclically |
| PoolSpec.ReapExactly | ThreadPool/processPool.h:405-420 | reaping clears exactly the slots of the dead pids, whatever their order |
| PoolSpec.StopMeansAllReaped | ThreadPool/processPool.h:356-429 | over every run m_stop holds if and only if every child is reaped, is never taken back, and no slot revives |
| PoolSpec.SlotsExactly | ThreadPool/processPool.h:405-417 | over every run a slot is cleared if and only if waitpid has returned its child's pid |
| PoolSpec.EachDispatch | ThreadPool/processPool.h:367-389 | over every run each connection that finds a live child adds one send, to the nearest live slot behind the last pick, written to the slot numbered by its position; nothing else sends |
| PoolSpec.StoppedStaysPut | ThreadPool/processPool.h:379-383 | once every child is reaped the rest of a batch changes nothing, so breaking out of it is harmless |
| PoolSpec.PickedWithinOneRound | ThreadPool/processPool.h:370-385 | a child that stays alive and is not picked gets strictly closer with each dispatch, and is picked within any n dispatches |
| PoolSpec.PicksIncrease | ThreadPool/processPool.h:370-385 | until a child is picked, the picks come in strictly increasing cyclic order from the slot behind it, under any deaths |
| PoolSpec.BoundedOvertaking | ThreadPool/processPool.h:370-385 | between two consecutive dispatches to one child no other child is dispatched to twice, under any deaths |
| PoolSpec.NoticeReachesChosenExactly | ThreadPool/processPool.h:385-388 | the notice goes to the picked child if and only if the event's position is the nearest live slot |
| PoolSpec.ChosenButNeverNotified | ThreadPool/processPool.h:370-387 | a child that is alive to the end of a run with at least n dispatches is picked in it, yet if no connection comes in at its own index as position it never gets a notice |
| PoolSpec.NoticeLost | ThreadPool/processPool.h:387 | a state in which the notice is written to the pipe of a reaped child |
| Pool.Parent.constructor | ThreadPool/processPool.h:172-200 | the parent starts with every child alive, the counter at 0 and not stopped |
| Pool.Parent.Search | ThreadPool/processPool.h:370-377 | the do-while search ends within n probes on the specified slot, or on a dead one if none is live |
| Pool.Parent.OnConnection | ThreadPool/processPool.h:367-389 | the connection branch moves the counter behind the pick and sends once, or stops, exactly as specified |
| Pool.Parent.OnSigchld | ThreadPool/processPool.h:405-430 | the SIGCHLD branch clears exactly the slots of the dead pids and recomputes m_stop |
| Pool.Parent.RunBatch | ThreadPool/processPool.h:365-455 | a batch, left early or not, has the effect and the sends of the run of its events |
| ChatSpec.ReapOneKeepsInv | Multiprocessing/multiprocessingChatServer.cpp:371-383 | swap-remove drops exactly the dead child's record, puts the last one in its place and keeps table and map inverse to each other, also when the dead record is the last |
| ChatSpec.ReapAllKeepsInv | Multiprocessing/multiprocessingChatServer.cpp:369-385 | a batch of deaths leaves exactly the records of the survivors, with table and map agreeing |
| ChatSpec.ReapOrderDoesNotMatter | Multiprocessing/multiprocessingChatServer.cpp:369-385 | the records left do not depend on the order in which children are reaped |
| ChatSpec.StepKeepsInv | Multiprocessing/multiprocessingChatServer.cpp:286-447 | every event keeps the invariant of table, map and slots |
| ChatSpec.ReachableTable | Multiprocessing/multiprocessingChatServer.cpp:278-450 | in every reachable state user_count is at most USER_LIMIT, the table lists the unreaped children each exactly once, and sub_process inverts it |
| ChatSpec.SlotsFitTheMapping | Multiprocessing/multiprocessingChatServer.cpp:270-274 | every child's slot lies inside the mapping and different slots share no byte |
| ChatSpec.ReapKeepsAlignedExactly | Multiprocessing/multiprocessingChatServer.cpp:382-383 | slots stay table indices after a death if and only if the dead record is the last |
| ChatSpec.SlotsStayDisjointExactly | Multiprocessing/multiprocessingChatServer.cpp:329-385 | over every run no two children ever share a slot if and only if every successful accept finds the slot numbered user_count free |
| ChatSpec.SlotsCollideInARun | Multiprocessing/multiprocessingChatServer.cpp:329-385 | two clients come, the first leaves, a third comes: from the start, a run in which two children have the same slot |
| ChatSpec.MoveThenAcceptCollides | Multiprocessing/multiprocessingChatServer.cpp:157-159 | after a death that moves a live record, the next accept gives the new child the moved child's slot |
| ChatSpec.SlotsAreSafeUntilAMove | Multiprocessing/multiprocessingChatServer.cpp:329-385 | over every run in which only last records die, slots are table indices and pairwise different |
| ChatSpec.MessageReachesEveryoneElse | Multiprocessing/multiprocessingChatServer.cpp:435-445 | a message goes to every other client exactly once, in table order, and not back to its sender |
| ChatSpec.StopsOnlyWhenEmpty | Multiprocessing/multiprocessingChatServer.cpp:386-409 | stop_server is set only when no child is left, and neither it nor terminate is taken back |
| ChatSpec.TerminatedStopsExactly | Multiprocessing/multiprocessingChatServer.cpp:386-389 | after a termination signal a batch of deaths stops the server if and only if it leaves no child |
| ChatSpec.StopsExactly | Multiprocessing/multiprocessingChatServer.cpp:386-409 | over every run the server is told to stop if and only if at some moment after a termination signal no child is left, and terminate is up if and only if such a signal found a child |
| ChatSpec.FlagsOfStep | Multiprocessing/multiprocessingChatServer.cpp:386-409 | only a termination signal without children, or the last death after terminate, raises stop_server; only a termination signal with children raises terminate |
| ChatSpec.ChildrenExactly | Multiprocessing/multiprocessingChatServer.cpp:286-391 | over every run the unreaped children are those at its start and those forked by successful accepts, except those reaped since |
| ChatSpec.ForkedSlot | Multiprocessing/multiprocessingChatServer.cpp:329-346 | over every run a child keeps the slot numbered by user_count at its fork |
| ChatSpec.StoppedLeavesNoneExactly | Multiprocessing/multiprocessingChatServer.cpp:286-448 | what is left of a batch after the stop flag went up ends with no child if and only if every child alive then or accepted since is reaped in it |
| ChatSpec.ExitLeavesNoneExactly | Multiprocessing/multiprocessingChatServer.cpp:278-450 | over every run of the loop, it leaves with no child running if and only if every child accepted after the stop flag went up is reaped before the batch ends |
| ChatSpec.LoopStopsExactly | Multiprocessing/multiprocessingChatServer.cpp:278-450 | the loop ends by the stop flag if and only if at some moment after a termination signal no child was left |
| ChatSpec.HandledExactly | Multiprocessing/multiprocessingChatServer.cpp:278-450 | the loop handles whole batches, up to the first after which the stop flag is up |
| ChatSpec.ExitCanLeaveAChild | Multiprocessing/multiprocessingChatServer.cpp:278-450 | a termination signal and a new client in one batch: the loop leaves with that client's child running |
| ChatSpec.EveryOutputIsRight | Multiprocessing/multiprocessingChatServer.cpp:392-445 | over every run each message goes once to every other client of that moment, and each termination signal once to every child unreaped at that moment |
| Chat.Parent.OnListen | Multiprocessing/multiprocessingChatServer.cpp:290-348 | the accept branch in place: exactly the record of this client appended, its pid mapped to its index and its slot that index; nothing changes when accept or fork fails or the table is full |
| Chat.Parent.ReapChild | Multiprocessing/multiprocessingChatServer.cpp:371-384 | one reaped child in place: the swap-remove and both map writes |
| Chat.Parent.OnSigchld | Multiprocessing/multiprocessingChatServer.cpp:365-391 | the waitpid loop and the stop test in place: exactly the dead children are gone, and stop_server goes up if and only if terminate is up and nobody is left |
| Chat.Parent.OnSigterm | Multiprocessing/multiprocessingChatServer.cpp:392-410 | stops at once without users, otherwise sets terminate and signals exactly the unreaped children, each once and in table order |
| Chat.Parent.OnMessage | Multiprocessing/multiprocessingChatServer.cpp:435-445 | the broadcast loop sends to exactly the specified pipes, in table order |
| Chat.Parent.RunBatch | Multiprocessing/multiprocessingChatServer.cpp:286-448 | a batch has the effect and the outputs (messages and signals sent) of the run of its events, raises the two flags exactly as StopsExactly says, and one that raises the stop flag leaves no child if and only if the children it accepts after that are reaped in it |
| Chat.Parent.EventLoop | Multiprocessing/multiprocessingChatServer.cpp:278-450 | the loop handles batches until the stop flag is up at the start of one, with the effect and outputs of the run of what it handled, stops under exactly the condition of LoopStopsExactly, and ends without a child under exactly the condition of ExitLeavesNoneExactly |
| HttpLine.ParseLineInPlace | IOfunction/httpparser9_3.cpp:28-56 | parse_line on the array returns the status, the index and the buffer of the specification and leaves the bytes past read_index alone |
| HttpLine.ParseLineAppend | IOfunction/httpparser9_3.cpp:28-56 | more bytes never change a verdict, and after LINE_OPEN a scan of more bytes may resume at the checked index |
| HttpLine.ChunksDoNotMatter | IOfunction/httpparser9_3.cpp:28-56 | however the input is cut into reads, lines, verdict, indices and buffer are those of one read |
| HttpLine.ScanIsExact | IOfunction/httpparser9_3.cpp:28-56 | for every input and cut, the lines are clean, with CR LF behind each they are the consumed input, the buffer has their terminators overwritten, LINE_BAD means exactly a stray CR or LF, and the checked index stands at the break or the end |
| HttpLine.LinesAreUnique | IOfunction/httpparser9_3.cpp:28-56 | any reading of the input as clean lines and a tail without a complete line is the scanner's |
| HttpLine.InnerTestMattersExactly | IOfunction/httpparser9_3.cpp:44-53 | dropping the inner test changes a call if and only if the call starts on an LF behind a CR |
| HttpLine.InnerTestIsDead | IOfunction/httpparser9_3.cpp:44-53 | dropping the inner test changes no run |
| HttpLine.NeverBehindCarriageReturn | IOfunction/httpparser9_3.cpp:34-53 | after every run the byte before the checked index is not CR |
| RequestLine.PathOfExactly | IOfunction/httpparser9_3.cpp:100-109 | a target has a path if and only if it starts with '/' or is http:// (any case), an authority without '/', and a path |
| RequestLine.IgnoringCaseExactly | IOfunction/httpparser9_3.cpp:76-99 | the comparisons accept a string if and only if it differs from the literal at most in the case of letters A-Z |
| RequestLine.AcceptsExactlyTheGrammar | IOfunction/httpparser9_3.cpp:64-113 | a line is accepted, with this path, if and only if it is GET in any case, blanks, target, blanks, HTTP/1.1 in any case with a target that has this path |
| RequestLine.CaseDoesNotMatter | IOfunction/httpparser9_3.cpp:64-113 | changing the case of any letters of a line changes neither whether it is accepted nor where in it the path stands |
| RequestLine.CutExactly | IOfunction/httpparser9_3.cpp:66-93 | the bytes overwritten with NUL are the first blank and, behind a GET, the first blank after the target; all others stay |
| RequestLine.SplitIsUnique | IOfunction/httpparser9_3.cpp:66-93 | a line has at most one such split |
| RequestLine.ParseAgain | IOfunction/httpparser9_3.cpp:64-113 | GET, the path of an accepted line and HTTP/1.1 parse to the same path |
| RequestLine.ParseRequestLine | IOfunction/httpparser9_3.cpp:64-113 | the tokenizer on the array: code, checkstate, printed path, and the NULs it writes |

## Left out

- Sockets, epoll, fcntl, fork, shared memory, signal handlers and the self-pipe themselves: only what they return or report is modelled.
- A descriptor of `FD_LIMIT` or more in `Timer/closeNonactiveConn.cpp`: the source indexes users with it unchecked; here accept returns a descriptor below `FD_LIMIT`. Likewise a pid beyond the `sub_process` array of the chat server.
- A failing accept in `Timer/closeNonactiveConn.cpp`: the source indexes users with -1; here accept returns an unused descriptor.
- The shadowed `epollfd` in `Timer/closeNonactiveConn.cpp`: closing the descriptor is taken to end the connection.
- Epoll failures that leave an event loop early, and events that are neither the listening socket, the signal pipe nor readable: no state changes.
- Client addresses, message contents and the reads into buffers: only record identity and slot ownership matter.
- `run_child` of the process pool and its template parameter: an unseen user class.
- The SIGTERM branch of the pool parent sends a signal to every live child; only its lack of effect on the parent's state is modelled.
- The payload of a broadcast, the sender's slot number, is passed on unchanged and is not modelled.
- The driver around the line parser is not in the repository; it is taken to append each read to the buffer, call until the result is not LINE_OK, and never call again after LINE_BAD.
- Integer widths: time, descriptors, pids and indices are mathematical integers.
- Other directories and the demo `main` functions: thin wrappers and finite examples.
- ParseLine: characters are `char`; a byte of the input is one character, and NUL in the input is an ordinary character to the line scanner as it is in the source.
