# shadowsocks-libev, libev and udns: a verified model

This Dafny project models the three layers of the repository whose correctness rests on invariants
that no single function shows, and proves those invariants for every input, every run and every
reachable state.

**Event loop (`libev/`).**  The wake-up handshake between the loop and concurrent senders is a state
machine over sequentially consistent interleavings (`Wakeup`).  The timer heap is a pure 4-ary heap
(`FourHeap`) and the heap as the loop updates it, with positions kept in the watchers (`Timers`).  The pending
queues are a pure scheduler (`PendingQueues`) and the indexed slots of the loop (`Pendings`).  The lazy
descriptor bookkeeping (`FdChanges`) is composed with the poll backend (`Poll`) and with the epoll
backend over a model of the kernel's registrations (`Epoll`).

**Stub resolver (`libudns/`).**  Names in wire and text form (`DomainNames`, `DnCodec`), compressed
names in packets (`Packet`), one query's retries, search list and EDNS0 fallback on values (`Queries`),
the deadline-ordered doubly linked list (`QueryList`) and the resolver context (`Resolver`).

**Stream codec and relay (`src/`).**  The primitives as parameters (`Crypto`), stream encryption on
values and over buffers (`Stream`, `StreamCodec`, `Buffers`), authenticated chunks on values and edited
in place (`Chunks`, `ChunkCodec`), client and server composed (`EndToEnd`), the IV cache (`IvCache`),
and a server connection (`Header`, `Relay`).

Code that changes things step by step is modelled by classes and methods with loops; each such method
is proved against a function or predicate about which the properties are then proved as lemmas.
System calls, clocks and randomness are parameters: how much a send took, whether the kernel had room,
which packet arrived.

Some promises turn out not to hold as they stand, and the exact condition is proved instead:

- A fork recreates the pipe, which drops a written wake-up byte, and only queues `pipe_w`, which the
  blocking poll does not look at.  No wake-up is lost as long as every fork happens with no flag raised,
  with a skipped write noted, or with a sender between raising its flag and its write; from any other
  fork the loop can go on to block for good (`Wakeup.NoLostWakeup`, `Wakeup.ForkIsSafeIffHarmless`, with
  a losing run in `Wakeup.ForkLosesWakeup`).
- A chunk comes back as its payload if and only if the payload is shorter than 65536 bytes
  (`Chunks.FrameRoundTrip`).
- The server waits only for more than the IV before it looks at the header, so the network decides
  whether an honest client is let in: exactly if the first fragment the server looks at holds the whole
  header (`Relay.HonestClientIsServed`, `Header.PrefixParses`, with a refused input in
  `Header.CutHeaderIsRefused`).
- `dns_getdn` tests the room for the terminator against the wrong pointer: a name is written past a
  destination of `dnsiz` bytes, by one byte, exactly if its labels fill the smaller of `dnsiz` and 255
  (`Packet.GetDn`, with a packet that does it in `Packet.OverrunHappens`).
- The wait of `dns_timeouts` is the time to the earliest deadline exactly if that fits 31 bits
  (`Resolver.Context.Timeouts`), which options the resolver admits can exceed (`Resolver.WaitOverflows`).

## Model

| member | source | states |
|---|---|---|
| `Wakeup.StepKeepsInv` | libev/ev.c:2293-2406 | every step of any sender, of the loop or of a fork keeps the handshake invariant: raised flags, marked items and a blocked loop are each covered by something that will make the loop look |
| `Wakeup.RunKeepsInv` | libev/ev.c:3469-3531 | the invariant holds at every point of every interleaving of any number of senders with the loop |
| `Wakeup.NoLostWakeup` | libev/ev.c:2293-2338 | in every state reachable with harmless forks only, a loop blocked in the poll with a raised flag has a readable pipe or a sender bound to write it |
| `Wakeup.ForkLosesWakeup` | libev/ev.c:2904-2938 | other forks do occur: there is a reachable state in which, after one, the loop blocks on a raised flag with an empty pipe and no sender left |
| `Wakeup.OtherForksLoseWakeup` | libev/ev.c:2904-2938 | from any fork with a raised flag, no skipped write noted and no sender between flag and write, the senders and two turns of the loop lead to such a state |
| `Wakeup.ForkIsSafeIffHarmless` | libev/ev.c:2904-2938 | every way on from a fork keeps the promise if and only if no flag was raised, a skipped write was noted or a sender was between its flag and its write |
| `Wakeup.BlockedLoopIsWoken` | libev/ev.c:3469-3531 | forks included, such a loop is being woken or already has the pipe watcher queued; without forks nothing is queued while it blocks |
| `Wakeup.CommittedSenderWrites` | libev/ev.c:2293-2338 | while the loop stays blocked no step of anyone makes a committed sender give up, and its own steps bring it strictly closer to the write |
| `Wakeup.FinishedSendIsCovered` | libev/ev.c:4769-4774 | after a send has returned, until its item is fed, the kind's flag is up or the scan in progress has yet to pass the item |
| `Wakeup.QuietBlockedIsReadable` | libev/ev.c:2410-2424 | with all senders done and harmless forks only, a blocked loop that still owes an item has a readable pipe |
| `Wakeup.ServingDeliversAll` | libev/ev.c:2340-2406 | left to itself, a loop that is being woken feeds every item owed and returns to its callbacks within a bounded number of turns |
| `Wakeup.BlockedLoopDelivers` | libev/ev.c:2340-2406 | end to end with harmless forks only: once the senders are done, a blocked loop delivers everything it owes |
| `FourHeap.UpRepairs` | libev/ev.c:2186-2206 | sifting up restores heap order when one key became too early for its place |
| `FourHeap.DownRepairs` | libev/ev.c:2107-2148 | sifting down restores heap order when one key became too late for its place |
| `FourHeap.AdjustRepairs` | libev/ev.c:2208-2215 | in a heap any single entry may be replaced by any other: adjusting there gives a heap again |
| `FourHeap.PushKeepsHeap` | libev/ev.c:3752-3757 | appending an entry and sifting it up keeps heap order |
| `FourHeap.DropKeepsHeap` | libev/ev.c:3777-3783 | a heap without its last entry is a heap |
| `FourHeap.ReheapOrders` | libev/ev.c:2217-2228 | sifting up every entry in turn makes a heap of any array |
| `FourHeap.UpRearranges` | libev/ev.c:2186-2206 | sifting up loses and invents no entry |
| `FourHeap.AdjustRearranges` | libev/ev.c:2208-2215 | nor does adjusting |
| `FourHeap.ReheapRearranges` | libev/ev.c:2217-2228 | nor does rebuilding the heap |
| `FourHeap.RootIsEarliest` | libev/ev.c:2969-2982 | the root is no later than any entry, however deep |
| `Timers.TimerHeap.Upheap` | libev/ev.c:2186-2206 | the hole-moving loop does to the array what sifting by swaps does, and every watcher's position is right again |
| `Timers.TimerHeap.Downheap` | libev/ev.c:2107-2148 | likewise downwards |
| `Timers.TimerHeap.Adjustheap` | libev/ev.c:2208-2215 | likewise in the direction the key asks for |
| `Timers.TimerHeap.ReheapAll` | libev/ev.c:2217-2228 | any placed array becomes a heap of the same entries with right positions |
| `Timers.TimerHeap.Start` | libev/ev.c:3740-3762 | starting an inactive timer adds just its entry, at its relative time plus now; starting an active one changes nothing; order, positions, cached times and pending queues stay consistent |
| `Timers.TimerHeap.Extract` | libev/ev.c:3773-3784 | just the given watcher's entry leaves the heap, wherever it stood |
| `Timers.TimerHeap.Stop` | libev/ev.c:3764-3792 | stopping also cancels pending events and leaves the remaining time in the watcher; an inactive timer keeps its time |
| `Timers.TimerHeap.Rekey` | libev/ev.c:3802-3807 | one active timer gets a new time and nothing else in the heap changes |
| `Timers.TimerHeap.Again` | libev/ev.c:3794-3819 | whatever its state, the timer ends active at now plus repeat, or inactive if it does not repeat, and no longer pending |
| `Timers.TimerHeap.Reschedule` | libev/ev.c:3316-3328 | moving all times by the same amount moves no entry and keeps everything consistent |
| `Timers.TimerHeap.Expire` | libev/ev.c:3186-3222 | terminates; collects exactly the timers due on entry, each once, by nondecreasing time; repeats are renewed, others stopped; nothing left is due |
| `Timers.TimerHeap.Reify` | libev/ev.c:3186-3222 | in addition the queues are those of reverse feeding; if no timer was pending, the callbacks that follow run priority by priority, due timers first and within a priority the earliest first |
| `Timers.OfPrioritySorted` | libev/ev.c:1871-1884 | picking the watchers of one priority out of a list ordered by time keeps the order |
| `PendingQueues.FeedAdds` | libev/ev.c:1852-1869 | feeding adds the events to what waits for that watcher, at the slot it already has or at the end, and changes nothing for any other |
| `PendingQueues.ClearRemoves` | libev/ev.c:3641-3650 | clearing takes just that watcher out of its queue |
| `PendingQueues.PopRemoves` | libev/ev.c:3149-3156 | taking the newest slot takes out just its watcher |
| `PendingQueues.FeedKeeps` | libev/ev.c:1852-1869 | feeding never queues a real watcher twice nor under another priority |
| `PendingQueues.ClearKeeps` | libev/ev.c:3641-3650 | nor does clearing, which leaves a dummy in the slot |
| `PendingQueues.Refed` | libev/ev.c:2006-2017 | a watcher cleared and fed afresh waits with just those events, all others with what they had |
| `PendingQueues.ScheduleDrains` | libev/ev.c:3141-3159 | with callbacks that leave the queues alone, the reference scheduler empties priority after priority, newest first, skipping dummies |
| `PendingQueues.FedQueues` | libev/ev.c:1878-1884 | watchers fed in reverse lie on top of their queues with the first collected uppermost |
| `PendingQueues.ReverseFeedingKeepsOrder` | libev/ev.c:1871-1884 | reverse feeding and last-in-first-out invocation cancel out: the watchers run in the order collected, before what was queued earlier |
| `PendingQueues.ClearNone` | libev/ev.c:3641-3650 | clearing watchers that are not pending changes no queue |
| `Pendings.PendingSet.Feed` | libev/ev.c:1852-1869 | the indexed update is the feeding function, and slot numbers and slots still point at each other |
| `Pendings.PendingSet.ClearPending` | libev/ev.c:3641-3667 | returns just the events that waited, forgets the watcher and keeps all slot numbers right |
| `Pendings.PendingSet.FeedReverseDone` | libev/ev.c:1878-1884 | the backward loop is reverse feeding |
| `Pendings.PendingSet.Callback` | libev/ev.c:1852-1869 | any feeds and clears of a callback keep the slots consistent and the cursor above everything queued |
| `Pendings.PendingSet.InvokeNewest` | libev/ev.c:3149-3156 | one turn invokes what the reference scheduler invokes next and leaves less to do |
| `Pendings.PendingSet.InvokePending` | libev/ev.c:3141-3159 | whatever the callbacks feed or clear, the events invoked are exactly those of the scheduler that always takes the newest of the highest nonempty priority, and all queues end empty |
| `FdChanges.WantedMeans` | libev/ev.c:1975-1978 | the combined mask holds exactly the events some watcher of the list wants |
| `FdChanges.ChangeLists` | libev/ev.c:1992-2004 | noting a change keeps every out-of-date descriptor listed exactly once, and only flagged ones |
| `FdChanges.TurnLists` | libev/ev.c:1958-1982 | bringing the first listed descriptor up to date keeps that of the rest of the list |
| `FdChanges.WithoutIn` | libev/ev.c:3626-3639 | unlinking removes just that watcher |
| `FdChanges.FdTable.Change` | libev/ev.c:1992-2004 | marks the descriptor, lists it if it was not, and restores the listing invariant that a changed list had broken |
| `FdChanges.FdTable.Start` | libev/ev.c:3695-3719 | the watcher heads its descriptor's list, the table grows if need be, the change is noted; starting an active watcher changes nothing |
| `FdChanges.FdTable.Stop` | libev/ev.c:3721-3738 | the watcher leaves its list and its pending slot and the change is noted, also in the middle of a reification |
| `FdChanges.FdTable.KillFirst` | libev/ev.c:2006-2017 | one watcher is stopped and left with error, read and write events pending; what others have pending stays |
| `FdChanges.FdTable.Kill` | libev/ev.c:2006-2017 | the descriptor ends without watchers, every one of them told; other descriptors are untouched |
| `FdChanges.FdTable.Refresh` | libev/ev.c:1958-1987 | a turn sets the mask to what the watchers want; the backend is to be told exactly if the mask changed or EV__IOFDSET was noted, and of just that change |
| `FdChanges.FdTable.Turn` | libev/ev.c:1962-1986 | a turn adds at most one backend call, keeps the account of all calls so far and leaves fewer watchers or the same change list, whatever the call kills |
| `FdChanges.FdTable.Reify` | libev/ev.c:1932-1989 | terminates however many descriptors each backend call kills; ends with an empty list and every mask equal to what the active watchers want; the backend calls lead from the old masks to the new, with one for every descriptor noted with EV__IOFDSET and no other call that changes nothing; every descriptor a call kills ends without watchers, no other descriptor loses any, and the watchers lost are told |
| `FdChanges.FdTable.RearmAll` | libev/ev.c:2056-2069 | every registered descriptor is forgotten and listed to be told anew, no other is touched; watchers and listing invariant stay |
| `Poll.PollBackend.Slot` | libev/ev_poll.c:62-71 | a new entry at the end keeps index and entries mutual inverses |
| `Poll.PollBackend.Remove` | libev/ev_poll.c:77-86 | swapping with the last entry removes just that descriptor and keeps index and entries mutual inverses |
| `Poll.PollBackend.Modify` | libev/ev_poll.c:51-87 | afterwards the kernel is asked for just the new mask on that descriptor and for what it was on all others |
| `Poll.PollBackend.Perform` | libev/ev_poll.c:51-87 | the calls of a reification take what the kernel is asked for from the old masks to the new |
| `Poll.ReifyPoll` | libev/ev_poll.c:51-87 | reification over poll: for every descriptor the kernel is asked for exactly what its active watchers want |
| `Epoll.EpollBackend.Modify` | libev/ev_epoll.c:70-139 | deletions leave the kernel alone; otherwise the kernel ends with exactly the new mask under the remembered generation, or the call reports failure, exactly when the descriptor is closed or there is no room to register it; every registration carries the remembered mask and generation, which is renewed exactly when the registration is |
| `Epoll.EpollBackend.Exact` | libev/ev_epoll.c:70-139 | whatever is wanted and was not closed or given up since is registered with exactly that mask |
| `Epoll.EpollBackend.Close` | libev/ev_epoll.c:74-83 | closing a descriptor drops its registration and keeps the bookkeeping right |
| `Epoll.EpollBackend.Receive` | libev/ev_epoll.c:164-216 | an event of a foreign generation or one that cannot be repaired asks for a fork and is not delivered; one beyond what is wanted narrows the registration to exactly what is wanted |
| `Epoll.EpollBackend.Poll` | libev/ev_epoll.c:160-217 | for events the kernel really holds, all are delivered, none asks for a fork, and every registration that proved too wide is narrowed |
| `Epoll.EpollBackend.Fork` | libev/ev_epoll.c:270-281 | the new set is empty and the masks of registered descriptors are forgotten, their generations kept |
| `Epoll.StaleEvent` | libev/ev_epoll.c:175-187 | after a descriptor is closed, opened anew and registered again, an event of the registration before is not delivered |
| `Epoll.ReifyEpoll` | libev/ev.c:1958-1989 | reification over epoll: a descriptor loses its watchers only if it was not registered and is closed or met no room in its turn; any other with watchers is then registered with exactly what they want, unless it was closed behind the loop's back before and not set anew since |
| `Epoll.ReifyUndisturbed` | libev/ev.c:1958-1989 | with every watched descriptor open and room throughout, no watcher is lost and all are registered with exactly what they want, reopened descriptors included |
| `Epoll.RegisterAfresh` | libev/ev_epoll.c:270-281 | after a fork and the next reification only what is closed or met no room has lost its watchers, and every descriptor with watchers is registered with exactly what they want |
| `DomainNames.TextRoundTrip` | libudns/udns_dn.c:66-145 | every well-formed name, the root included, is what its printed text spells; only the root reads as absolute |
| `DomainNames.SpelledGrows` | libudns/udns_dn.c:76-131 | any text that spells a name spells one with labels of 1 to 63 bytes, containing what was read before |
| `DomainNames.TextBound` | libudns/udns_dn.c:250-285 | the text of a name of at most 255 bytes needs at most 1004 bytes, short of DNS_MAXNAME |
| `DomainNames.TextPlain` | libudns/udns_dn.c:287-334 | a text holds no zero byte, so its terminator is where it ends |
| `DnCodec.DnLen` | libudns/udns_dn.c:27-32 | the length of the wire form |
| `DnCodec.DnEqual` | libudns/udns_dn.c:41-55 | the wire length if the names have the same labels up to letter case, and 0 otherwise |
| `DnCodec.DnTopSize` | libudns/udns_dn.c:250-285 | the size of the printed text with its terminator, or 0 if that exceeds DNS_MAXNAME |
| `DnCodec.DnTop` | libudns/udns_dn.c:287-334 | writes the text and a zero exactly when both fit, nothing beyond the buffer, and reports exactly that size |
| `DnCodec.Unescape` | libudns/udns_dn.c:113-129 | decimal and literal escapes are read as the text grammar says, and refused exactly when it refuses them |
| `DnCodec.TakeDot` | libudns/udns_dn.c:84-100 | a dot completes a label of 1 to 63 bytes in the buffer; otherwise no name that fits is spelled |
| `DnCodec.TakeByte` | libudns/udns_dn.c:105-131 | one plain or escaped byte joins the label in progress, unless the escape spells nothing |
| `DnCodec.EndName` | libudns/udns_dn.c:134-144 | the last label and the terminator complete the wire form; nothing behind it changes |
| `DnCodec.PtoDn` | libudns/udns_dn.c:66-145 | succeeds exactly when the text spells a name that fits 255 bytes and the buffer, leaves its wire form and says whether it is absolute; whatever the text, nothing behind the buffer is written |
| `DnCodec.PrintAndRead` | libudns/udns_dn.c:66-145 | printing any name of at most 255 bytes and reading the text gives back the same bytes |
| `Packet.WalkFinds` | libudns/udns_parse.c:52-86 | the labels found by following pointers always form a well-formed name |
| `Packet.WalkWire` | libudns/udns_parse.c:52-86 | a name written without pointers is found as it is |
| `Packet.WalkCompressed` | libudns/udns_parse.c:63-73 | labels followed by a pointer to a name are found as those labels and that name, with one jump more |
| `Packet.WalkCycle` | libudns/udns_parse.c:63-73 | a name whose pointer leads back to its own start is found by no number of jumps |
| `Packet.SkipDn` | libudns/udns_parse.c:27-40 | ends behind the name's own bytes, except that a pointer ending the packet is not skipped |
| `Packet.Follow` | libudns/udns_parse.c:65-75 | a pointer is refused only where no name can be found; otherwise the name found from its target is the name, one jump fewer is left and the end of the first pointer is remembered |
| `Packet.Terminate` | libudns/udns_parse.c:57-64 | the terminator completes the wire form and is written behind the destination exactly if the labels fill it |
| `Packet.GetDn` | libudns/udns_parse.c:42-89 | terminates on every packet, reads inside it, succeeds exactly when the labels reached within 100 jumps fit, and then holds their wire form, reports its length and stops behind the name's own bytes; behind the destination it writes one byte exactly if the labels fill it, and nothing else |
| `Packet.OverrunHappens` | libudns/udns_parse.c:58-61 | labels of 63, 63, 63 and 62 bytes behind the header make it write past a destination of 255 bytes |
| `Queries.SubmitAdvances` | libudns/udns_resolver.c:919-922 | a submitted name that fits always has a first candidate |
| `Queries.AdvanceFits` | libudns/udns_resolver.c:730-748 | every further candidate is the submitted name with an element of the search list, fits 255 bytes, and no usable element is passed over |
| `Queries.NoSearchTriesOne` | libudns/udns_resolver.c:911-918 | a query submitted without search tries the name as it is and nothing else |
| `Queries.SendPicks` | libudns/udns_resolver.c:755-868 | a server that failed for this name is never asked again; the query is given up exactly when no server is left in this attempt or the next, or sending fails |
| `Queries.EdnsFallback` | libudns/udns_resolver.c:1143-1167 | a server that answers FORMERR or NOTIMPL is asked again at once, and from then on for this name without EDNS0, unless the query asks for DNSSEC records: then with it |
| `Queries.SendKeeps` | libudns/udns_resolver.c:843-868 | sending keeps the account of an active query: waited-for servers were asked, transmissions are within bounds, earlier names are settled; it ends only with TEMPFAIL and never changes the name |
| `Queries.ReplyKeeps` | libudns/udns_resolver.c:1085-1200 | a reply keeps that account or ends the query with a justified status; failures, truncation and format errors never change the name tried |
| `Queries.DataJustified` | libudns/udns_resolver.c:1111-1129 | a result reported is the data of the last answer, from a server that had been asked for that name |
| `Queries.ExhaustedKeeps` | libudns/udns_resolver.c:1100-1141 | with the search exhausted the status is NODATA exactly if some name had an empty answer, and NXDOMAIN only if every name tried was answered so |
| `Queries.AdvanceKeeps` | libudns/udns_resolver.c:730-748 | the next candidate starts afresh further down the search list, with the answers so far on record |
| `Queries.TransmitKeeps` | libudns/udns_resolver.c:769-837 | a transmission by the next server of an attempt or after an EDNS0 refusal keeps the number for the name being tried within nserv * (ntries + 1), and the server is on record as asked |
| `Queries.TotalBound` | libudns/udns_resolver.c:730-748 | at most that many for each candidate, hence finitely many overall |
| `Queries.ReactDescends` | libudns/udns_resolver.c:843-868 | any timeout or awaited reply ends the query or decreases search elements, attempts, servers, EDNS0 knowledge and outstanding replies, taken lexicographically |
| `Queries.LifeIsJustified` | libudns/udns_resolver.c:608-626 | under any sequence of timeouts and awaited replies the query ends; every answer came from a server asked for that name, the bounds hold throughout and the status fits the answers: a result is the data of the last one, no data means an empty one, no such name that every name tried was denied |
| `Queries.SubmittedFine` | libudns/udns_resolver.c:908-922 | a new query starts with a clean account, whether or not it is to be searched |
| `QueryList.QList.Remove` | libudns/udns_resolver.c:99-104 | unlinking leaves the list of the other queries in their order, fully linked both ways |
| `QueryList.QList.AddHead` | libudns/udns_resolver.c:106-113 | the query becomes the first, all links right |
| `QueryList.QList.InsertAfter` | libudns/udns_resolver.c:115-127 | the query follows the given one, or becomes the first, all links right |
| `QueryList.QList.InsertByDeadline` | libudns/udns_resolver.c:826-834 | a list sorted by deadline stays sorted, with the query behind all that are not later |
| `Resolver.Context.FindServ` | libudns/udns_resolver.c:755-762 | the first server from the current one on that is not to be skipped |
| `Resolver.Context.NextSearch` | libudns/udns_resolver.c:730-748 | the next element whose name fits and is not the name as it is for the second time |
| `Resolver.Context.EndQuery` | libudns/udns_resolver.c:608-626 | the query leaves the list, its callback is reported once with a justified status, and the context stays in order |
| `Resolver.Context.SendThis` | libudns/udns_resolver.c:769-837 | the query waits for that server under a new deadline at its sorted place, or ends with TEMPFAIL when sending fails |
| `Resolver.Context.Send` | libudns/udns_resolver.c:843-868 | the outcome is that of the value-level step; list order, length, accounts and reports stay consistent |
| `Resolver.Context.HandleReply` | libudns/udns_resolver.c:1085-1200 | the same for every kind of reply; a new candidate gets a new id, otherwise the id stays |
| `Resolver.Context.Receive` | libudns/udns_resolver.c:1016-1083 | a packet acts on the first query with its id, and only if name, type and an awaited server fit; otherwise nothing changes |
| `Resolver.Context.Submit` | libudns/udns_resolver.c:883-934 | the new query is first in the still sorted list and accounted for |
| `Resolver.Context.Cancel` | libudns/udns_resolver.c:1312-1324 | the query is gone, never to be reported, and the rest is unchanged |
| `Resolver.Context.Timeouts` | libudns/udns_resolver.c:1205-1238 | terminates with every remaining deadline after now; every due query went through one send, with its outcome in list or report, and no other query changed; the wait is at most the time to the earliest deadline if that fits 31 bits, and without an upper bound is that time exactly then |
| `Resolver.DelayDoubles` | libudns/udns_resolver.c:823-824 | with a single silent server every transmission is waited for twice as long as the one before |
| `Resolver.WaitOverflows` | libudns/udns_resolver.c:185-188 | with a timeout of 300 seconds and 24 tries, which the options admit, a silent server brings a wait that turns negative as an int |
| `Stream.EncryptIgnoresCuts` | src/encrypt.c:1182-1222 | however plaintext is cut into calls, the output is the IV and plaintext XOR keystream from offset 0 |
| `Stream.DecryptIgnoresCuts` | src/encrypt.c:1328-1379 | however ciphertext is cut, the same plaintext comes out and the same context is left |
| `Stream.DecryptInvertsEncrypt` | src/encrypt.c:1328-1379 | any part of the wire, cut in any way, decrypts to that part of the plaintext, however that was cut |
| `StreamCodec.AlignedXor` | src/encrypt.c:1200-1222 | padding to the block, one keystream call and shifting back equal XOR at the byte offset |
| `StreamCodec.Encrypt` | src/encrypt.c:1182-1253 | the buffer ends with exactly what the value-level encryption gives, and so does the context |
| `StreamCodec.NewIvCache` | src/encrypt.c:1430 | the cache starts without history and holds 256 entries |
| `StreamCodec.Decrypt` | src/encrypt.c:1328-1410 | likewise for decryption; a first fragment is refused exactly when its IV was presented before with too few others since, and its IV joins the history |
| `Chunks.UnframeAppend` | src/encrypt.c:1531-1587 | parsing in two parts with the carried partial chunk and counter ends where parsing at once ends |
| `Chunks.UnframePrefix` | src/encrypt.c:1531-1617 | any prefix of framed payloads is accepted and releases exactly the payloads of its whole chunks |
| `Chunks.FrameRoundTrip` | src/encrypt.c:1589-1617 | a chunk parses back to exactly its payload if and only if the payload is shorter than 65536 bytes |
| `ChunkCodec.Parse` | src/encrypt.c:1540-1581 | the in-place loop computes the reference parser: verdict, released bytes, carried chunk and counter |
| `ChunkCodec.CheckHash` | src/encrypt.c:1531-1587 | the same for the whole routine; no byte beyond the entry chunk length plus buffer length is touched |
| `ChunkCodec.GenHash` | src/encrypt.c:1589-1617 | the buffer ends with exactly the frame of its payload |
| `EndToEnd.WholeChunksArrive` | src/encrypt.c:1182-1617 | for every cut into client reads and every re-cut of what has arrived, nothing is refused and exactly the payloads of the whole chunks received are released, in order |
| `EndToEnd.EverythingArrives` | src/encrypt.c:1182-1617 | once the whole wire has arrived, exactly the whole payload was released |
| `IvCache.CacheIsRecentSuffix` | src/cache.c:185-256 | after any history the cache holds exactly the most recently presented distinct keys, in that order |
| `IvCache.ExactLru` | src/cache.c:185-256 | a key is found if and only if it was presented before and fewer than capacity minus one distinct others were presented since |
| `IvCache.Cache.Present` | src/encrypt.c:1350-1357 | a first fragment's IV is refused exactly if it was presented before and fewer than capacity minus one distinct others were presented since, over any history |
| `Buffers.Buffer.Realloc` | src/encrypt.c:221-231 | the buffer is large enough, keeps its old bytes and never shrinks |
| `Buffers.Buffer.Consume` | src/server.c:841-870 | a send of n bytes takes exactly the first n that waited, and the rest waits on |
| `Buffers.Buffer.Leave` | src/server.c:790-812 | a first send of n bytes takes exactly the first n of the buffer, and the rest is left waiting |
| `Header.PrefixParses` | src/server.c:621-771 | the start of a whole header and whatever follows is accepted exactly if all of the header is there, and then nothing behind it matters |
| `Header.CutHeaderIsRefused` | src/server.c:660-673 | the first byte of an IPv4 header alone is refused |
| `Relay.ObligesMore` | src/server.c:547-588 | what one more fragment adds to the payload owed is what decrypting and unchunking just that fragment yields |
| `Relay.HonestClientIsServed` | src/server.c:533-588 | for a client that encrypts a header and its payload, cut in any way and re-cut by the network, the connection goes on if and only if the first fragment looked at holds the whole header; then what the server owes the remote is exactly the payload as far as it has arrived: whole chunks with authentication, byte for byte without |
| `Relay.AcceptsMore` | src/server.c:550-568 | a further fragment is accepted exactly if the chunk parser, resumed on just that fragment, accepts it |
| `Relay.Decoder.First` | src/server.c:547-776 | refuses a first fragment exactly if its IV is a replay, its header is malformed or incomplete, or a chunk in it does not verify; otherwise the payload produced is what it obliges the server to send |
| `Relay.Decoder.Next` | src/server.c:547-588 | refuses a further fragment exactly if a chunk completed by it does not verify; otherwise the payload produced is what all fragments together oblige the server to send |
| `Relay.Encoder.Next` | src/server.c:982-990 | the ciphertext produced is the encryption of all remote reads so far |
| `Relay.Connection.Handshake` | src/server.c:489-816 | bytes are collected until they exceed the IV; then the connection goes on exactly if the fragment is admissible and a lookup or a connection can be started, with the first payload waiting and nothing sent; it closes otherwise and on a closed or failed read |
| `Relay.Connection.Resolved` | src/server.c:888-940 | closes exactly if the lookup or the connection attempt failed; otherwise the new remote has exactly what waited |
| `Relay.Connection.Connect` | src/server.c:779-805 | the remote inherits exactly what waits; its send watcher alone runs |
| `Relay.Connection.ServerRecv` | src/server.c:541-588 | sent plus waiting stays exactly the payload produced; exactly the bytes the kernel took of the new payload are sent; client-recv goes on exactly if all were; closes exactly on a closed or failed read, a refused fragment or a broken send |
| `Relay.Connection.RemoteSend` | src/server.c:1016-1100 | exactly the bytes the kernel took of those waiting are sent and the rest waits on; closes exactly if there is no peer, nothing waits on an established connection or the send is broken |
| `Relay.Connection.RemoteRecv` | src/server.c:942-1014 | returned plus waiting stays exactly the ciphertext produced; exactly the bytes the kernel took of the new ciphertext are returned; remote-recv goes on exactly if all were; closes exactly on a closed or failed read or a broken send |
| `Relay.Connection.ServerSend` | src/server.c:818-871 | exactly the bytes the kernel took of those waiting are returned and the rest waits on; closes exactly if nothing waits or the send is broken |

## Left out

- Weak memory: the wake-up handshake is modelled under sequential consistency, which the fences in the code are there to establish.
- The loop's refcounts, prepare, check, idle, periodic, child, stat, embed and cleanup watchers: they repeat the patterns proved for timers, I/O and asyncs.
- The singly linked watcher list of a descriptor is a sequence: pointer updates of `wlist_add` and `wlist_del` are not modelled.
- Priority, descriptor and event mask of a watcher are fixed: libev allows changing them only while the watcher is neither active nor pending.
- Timestamps are reals: rounding of floating point is not modelled.
- Timers.TimerHeap.Reify: the order of invocation is stated for timers that were not already pending, because a pending timer keeps its old slot.
- The epoll EPERM list, duplicated file descriptions and the select, kqueue, port and win32 backends.
- Epoll.EpollBackend.Modify: of the kernel's errors only those of a closed, missing or existing registration and of a full table are modelled.
- Callbacks of the resolver that submit queries from inside: a callback is only recorded.
- Uniqueness of query ids: `dns_newid` gives up after five tries, so an id is any number.
- Resolver.Context.SendThis: the delay is the exact product of timeout and a power of two, while the shift in C drops bits once the product reaches 2^32 and is not defined from 32 attempts on.
- The packet fields a query is sent with, the application parsers of answers and raw answers: the result of a positive answer is a parameter.
- `dns_close`, `dns_reset` and synchronous `dns_resolve`.
- Packet.GetDn: which of the two failure codes is returned when a packet is both malformed and too long for the buffer is not stated beyond 0 being possible only for buffers under 255 bytes.
- DnCodec.PtoDn: likewise for texts that are both malformed and too long.
- HMAC, ciphers and key derivation are parameters; the CFB and RC4 paths and the table cipher are not modelled.
- Stream.EncryptIgnoresCuts: stated while the keystream lasts, which is 2^32 blocks for chacha20-ietf and a 64-bit byte counter for the others.
- TCP fast open, timeouts, access lists, statistics and `src/local.c`, `src/redir.c`, `src/tunnel.c`, which relay in the same way.
- uthash is a sequence of keys in insertion order; `cache_remove`, which only the UDP relay calls, is not modelled.
