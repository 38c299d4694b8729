# A verified model of the event library

This project models the parts of libevent 2.1.8 that keep state in step by hand, and proves what they
keep. `dafny verify dfyconfig.toml` checks it all. Sizes are those of a 64-bit build unless said
otherwise; every locked region is one step, and memory can be had unless a size cannot be allocated.

- `Bytes`, `Lists`: bytes, and lists without repetition.
- `Chains`, `Evbuffer`, `Search`: the byte queue. An `Evbuffer` is a list of chains with slack at both
  ends; `last` is the last of them, and `lwd` names the link that leads to the last one with data.
  `Valid` says that the chains up to there are not empty, that those after it are, and that the length
  and `last` are right. Every operation is proved against one byte string, `Contents()`.
- `EpollTable`, `FdInterest`: from events on file descriptors to epoll. The table of 512 operations is
  written out and proved entry by entry against the rule it stands for. The changelist that collects
  changes and the backend that passes each on at once are two modes of one class, and
  `CollectedIsDirect` runs both on the same steps.
- `EventQueues`, `EventLoop`: timers and active queues of an event base. The heap is a set of which
  some soonest member is the top. Common timeouts are sorted queues, each with an internal timer that
  must be active or in the heap no later than the first event of its queue.
- `TimerHeap`: that heap in its array, where every event knows its place. Each operation is proved
  against the set of members, and the top is some soonest one (`TopIsSoonest`).
- `DnsNames`, `DnsMessages`, `DnsQueries`: names in DNS messages with compression (sections 3.1 and
  4.1.4 of RFC 1035), and queries (section 4.1). `Spells` says what a message means without regard to
  how it is read; reading and writing are both proved against it.
- `Rings`, `DnsRequests`, `DnsSuspension`, `DnsResolver`: circular lists linked through their nodes,
  and the requests of a resolver in them: waiting, or in flight in the bucket of their id.
- `TokenBuckets`, `RateLimits`: token buckets in machine words, and bufferevents that are limited
  alone and in groups whose locks may fail. Asking how much may be read and taking it from the group
  are two steps, and any number of members may be between them.
- `TagCodes`, `Tagging`: tagged records, with the evbuffer under them.

## What the code does that one might not expect

- `TokenBuckets.AddTicksExact`: a bucket above its maximum, which a refund can make, does not come
  down at the next tick, and with 32-bit sizes it may turn negative (`RefundEmpties`). It is right for
  every limit up to the maximum.
- `DnsNames.NameReadsBack`: an empty label inside a name is written as the end of the name, and `.` is
  written as two ends. The writer reports no error (`DotLost`, `InnerLabelLost`). A second `.` is a
  pointer to the first and does read back (`SecondDotKept`); `AllReadBack` says exactly what does.
- `DnsQueries.OpcodeNeverSeen`: requests of any kind are handed on as standard queries, because the
  test comes after the mask (`OtherKindAsked`). A request without questions is dropped, since there is
  nothing to allocate for them.
- The writer of names puts its closing zero without a look at the limit. `DnsNames.SpillsExact` says
  for which names it goes one byte past it, and `OneByteOver` is one; `NameToLabels` asks that the
  buffer does not end there for those. Queries are built in buffers large enough for any name.
- `Evbuffer.PrependBuffer` lets trailing empty chains of the source end up in the middle of the list;
  its contract says exactly when (`EmptyInTheMiddle`). `CommitSpace` does the same when an earlier
  piece gets no bytes and a later one does (`FirstLeftEmpty`).
- Space offered in one piece can lie in a chain at which a commit does not look: `ReserveSpace` says
  exactly when, and `MiddlePieceRefused` is a case.
- When no chain can be had for the front of what is prepended, its end has been put in all the same
  (`Evbuffer.Prepend`).
- Encoded integers have their lowest nibble first, and tags their lowest seven bits (`TagCodes.SomeIntBytes`,
  `SomeTagBytes`). The comment before the code says the opposite.
- A request whose server turns out to have failed counts as sent, although it may have moved to another
  server that has not seen it (`Resolver.Transmit`).
- A header whose payload is not all there is taken off all the same (`Tagging.UnmarshalHeader`).
- A record whose length is a negative int takes everything else with it when it is consumed
  (`Tagging.Consume`).
- Requests taken back from the buckets wait in reverse order (`DnsSuspension.Backwards`).
- What a group may read is exceeded by more than a share when members ask before others have taken
  what they were granted (`RateLimits.BothAsk`). `RateLimits.Run` says by how much at most, for each
  number of grants outstanding at once, and `LastByteLeft` reaches that.
- In a group a decrement that leaves the bucket positive resumes it at once, also below a share.

## Model

| member | source | states |
|---|---|---|
| Chains.ChainNew | app/src/main/jni/libevent/buffer.c:156-192 | a new chain is empty and at least as large as asked, or there is none when the size cannot be allocated |
| Chains.SpellConcat | app/src/main/jni/libevent/evbuffer-internal.h:171-214 | a list of chains stands for the bytes of its parts one after the other |
| Chains.SpellPulled | app/src/main/jni/libevent/buffer.c:1345-1454 | one chain that took over the front of a list spells what that front spelled |
| Evbuffers.Evbuffer.FreeTrailingEmptyChains | app/src/main/jni/libevent/buffer.c:290-302 | drops exactly the empty chains at the end; contents and the boundary of the data stay |
| Evbuffers.Evbuffer.ChainInsert | app/src/main/jni/libevent/buffer.c:308-326 | appends the data of a chain in the place of the trailing empty chains, and keeps the layout valid |
| Evbuffers.Evbuffer.Add | app/src/main/jni/libevent/buffer.c:1723-1817 | appends the bytes, or changes nothing; exactly when it is frozen, the length cannot be counted or no chain can be had |
| Evbuffers.Evbuffer.Prepend | app/src/main/jni/libevent/buffer.c:1820-1899 | puts the bytes in front; exactly when it fails, and how much of their end is there all the same when no chain can be had for the rest |
| Evbuffers.Evbuffer.Drain | app/src/main/jni/libevent/buffer.c:1096-1161 | drops exactly a prefix, and frees chains without losing the boundary of the data |
| Evbuffers.Evbuffer.CopyOut | app/src/main/jni/libevent/buffer.c:1179-1249 | returns the first bytes of the contents, as many as asked for or as there are |
| Evbuffers.Evbuffer.Remove | app/src/main/jni/libevent/buffer.c:1165-1176 | splits the old contents into what is returned and what is left |
| Evbuffers.Evbuffer.AddBuffer | app/src/main/jni/libevent/buffer.c:961-1004 | moves all bytes of one buffer to the end of the other; exactly when it is allowed to |
| Evbuffers.Evbuffer.PrependBuffer | app/src/main/jni/libevent/buffer.c:1050-1093 | moves all chains to the front; the layout stays valid if and only if the source had no trailing empty chains |
| Evbuffers.EmptyInTheMiddle | app/src/main/jni/libevent/buffer.c:942-958 | two buffers after which an empty chain lies between chains with data |
| Evbuffers.Evbuffer.RemoveBuffer | app/src/main/jni/libevent/buffer.c:1255-1342 | moves exactly a prefix of one buffer to the end of another; where their lengths together cannot be counted, what is copied out of the middle of a chain is lost, and exactly the bytes of the whole chains before it arrive |
| Evbuffers.Evbuffer.Pullup | app/src/main/jni/libevent/buffer.c:1345-1454 | contents stay, and the first bytes asked for lie in the first chain; exactly when there are so many and one chain can hold them |
| Evbuffers.Evbuffer.ExpandSinglechain | app/src/main/jni/libevent/buffer.c:1928-2035 | contents stay, and the chain returned has the space asked for; which chain that is: the first with space, the empty one after it, or a new one |
| Evbuffers.Evbuffer.ExpandFast | app/src/main/jni/libevent/buffer.c:2040-2147 | contents stay, and the first n chains with space together have the space asked for |
| Evbuffers.Evbuffer.ReadSetupVecs | app/src/main/jni/libevent/buffer.c:2214-2247 | the pieces listed are the space of consecutive chains, at most n of them, and are enough; if exact, just enough |
| Evbuffers.Evbuffer.ReserveSpace | app/src/main/jni/libevent/buffer.c:670-700 | offers at most n pieces with room for the size; contents stay; a single piece is where a commit looks if and only if it is not in an empty chain between two others |
| Evbuffers.Evbuffer.CommitSpace | app/src/main/jni/libevent/buffer.c:719-786 | commits if and only if the writes are to consecutive chains where it looks for them, and then appends exactly the bytes in order; else nothing changes; the layout stays valid if and only if no chain is left empty in between |
| Evbuffers.Evbuffer.AdvanceLastWithData | app/src/main/jni/libevent/buffer.c:703-716 | the boundary moves over chains with data as far as it can |
| Evbuffers.Evbuffer.ReservedCommits | app/src/main/jni/libevent/buffer.c:670-786 | bytes written to the pieces just reserved can be committed, and leave the layout valid if only the last piece stays empty |
| Evbuffers.Evbuffer.OneReservedCommits | app/src/main/jni/libevent/buffer.c:729-769 | bytes written to a single piece can be committed if and only if it is in the first chain with space or in the last chain |
| Evbuffers.WriteThroughOnePiece | app/src/main/jni/libevent/buffer.c:670-786 | reserving one piece, writing to it and committing appends the bytes if and only if, before, the next chain was not to be taken or was the last; else nothing happens |
| Evbuffers.MiddlePieceRefused | app/src/main/jni/libevent/buffer.c:670-786 | a buffer of three chains that offers a piece of the second and then refuses what was written there |
| Evbuffers.FirstLeftEmpty | app/src/main/jni/libevent/buffer.c:762-775 | a commit of lengths 0 and 1 to two empty chains, after which the first stays empty before one with data |
| Evbuffers.GapExact | app/src/main/jni/libevent/buffer.c:762-782 | after a commit the chains are packed exactly when no write left a gap |
| Search.PtrSet | app/src/main/jni/libevent/buffer.c:2610-2659 | a position is reached if and only if it is within the contents, and names the right chain and byte; an advance that cannot be counted changes nothing |
| Search.PtrMemcmp | app/src/main/jni/libevent/buffer.c:2666-2699 | compares across chains: true if and only if the bytes occur there in the contents |
| Search.SearchRange | app/src/main/jni/libevent/buffer.c:2708-2769 | finds the least match at or after the start that ends by the end, or none exists, however the bytes are split into chains |
| Search.FindEolChar | app/src/main/jni/libevent/buffer.c:1489-1513 | the search in pieces of 128 bytes finds what a plain scan finds |
| Search.Strspn | app/src/main/jni/libevent/buffer.c:1538-1574 | counts the run of characters across chains |
| Search.SearchEol | app/src/main/jni/libevent/buffer.c:1590-1677 | finds the line end that the contents have by the definition of its style, and a position in the right chain |
| Search.Readln | app/src/main/jni/libevent/buffer.c:1680-1716 | old contents are the line, its end and the new contents; without a line end nothing changes |
| Search.EolIsFirst | app/src/main/jni/libevent/buffer.c:1590-1677 | from whatever start, what is found is a terminator of the style, as long as it can be, and no terminator lies between the start and it |
| Search.NoEol | app/src/main/jni/libevent/buffer.c:1590-1677 | from whatever start, when no line end is found there is no terminator after it |
| EpollTable.TableIsRight | app/src/main/jni/libevent/epolltable-internal.h:40-130 | all 512 entries: the operation is the one that leads from the old events to the wanted ones, and impossible combinations are marked |
| FdInterest.EventBase.EpollApplyOneChange | app/src/main/jni/libevent/epoll.c:269-355 | whatever the kernel has for the descriptor, a real change leaves exactly the wanted events registered, or nothing if there are none; a no-op touches nothing |
| FdInterest.EventBase.GetOrConstruct | app/src/main/jni/libevent/evmap.c:824-852 | one entry for a descriptor, and its index is known |
| FdInterest.EventBase.ChangelistAdd | app/src/main/jni/libevent/evmap.c:855-887 | an add replaces a delete; other entries stay |
| FdInterest.EventBase.ChangelistDel | app/src/main/jni/libevent/evmap.c:890-939 | a delete of what was not there undoes the add; other entries stay |
| FdInterest.AddsLead | app/src/main/jni/libevent/evmap.c:855-887 | noted adds keep a change leading from the settled events to the wanted ones |
| FdInterest.DelsLead | app/src/main/jni/libevent/evmap.c:890-939 | noted deletes keep a change leading from the settled events to the wanted ones, and never make an impossible one |
| FdInterest.AskedIs | app/src/main/jni/libevent/evmap.c:292-322 | counts above zero are for exactly what some pending event asks for |
| FdInterest.EventBase.BackendAdd | app/src/main/jni/libevent/epoll.c:377-395 | with a changelist the step is noted, without one the kernel has it at once |
| FdInterest.EventBase.BackendDel | app/src/main/jni/libevent/epoll.c:398-413 | with a changelist the step is noted, without one the kernel has it at once |
| FdInterest.EventBase.IoAdd | app/src/main/jni/libevent/evmap.c:266-342 | counts equal the pending events; it refuses exactly on too many; the backend hears of it exactly when the wanted events change |
| FdInterest.EventBase.IoDel | app/src/main/jni/libevent/evmap.c:347-409 | counts equal the events left; the backend hears of it exactly when the wanted events change |
| FdInterest.EventBase.RemoveAll | app/src/main/jni/libevent/evmap.c:768-786 | no descriptor has an entry after |
| FdInterest.EventBase.Dispatch | app/src/main/jni/libevent/epoll.c:358-460 | a descriptor is registered for what is wanted if and only if it had a real change or was right already; from a kernel in step, all are right after |
| FdInterest.Run | app/src/main/jni/libevent/evmap.c:266-409 | any sequence of adds, deletes and dispatches keeps exactly the events it means, and the kernel in step |
| FdInterest.CollectedIsDirect | app/src/main/jni/libevent/evmap.c:768-939 | over any sequence, collecting changes until a dispatch and telling each at once end in the same kernel, which watches a descriptor for reading, writing or closing exactly if some event pending on it asks for that |
| DnsNames.SpellsParse | app/src/main/jni/libevent/evdns.c:960-1013 | what a message spells, with pointers forward or back, is what is read from it |
| DnsNames.ParseExact | app/src/main/jni/libevent/evdns.c:960-1013 | a name is read if and only if there are labels that the message spells there, with no more pointers than it has bytes, that fit the room with dots between; the text is these labels |
| DnsNames.ParseEnd | app/src/main/jni/libevent/evdns.c:996-1008 | reading ends after the first terminator or pointer met |
| DnsNames.PointerReadsBack | app/src/main/jni/libevent/evdns.c:1625-1628 | a pointer is the word 0xc000 with the lower 14 bits of the position, and reads back as its target if and only if that lies in the first 0x4000 bytes (section 4.1.4 of RFC 1035) |
| DnsNames.WriteSpells | app/src/main/jni/libevent/evdns.c:1600-1663 | every name without a zero byte is spelled where it is written, up to its first empty label, and everything the label table learns is true; its end comes where its writing ends, but for names with an inner empty label that the table does not cut off |
| DnsNames.TextKept | app/src/main/jni/libevent/evdns.c:996-1032 | the labels that are spelled, read together, are the name if and only if it is well formed or a single dot in the place of an empty one |
| DnsNames.AllReadBack | app/src/main/jni/libevent/evdns.c:1560-1663 | among any names written into a message with one label table, each is read back with the position after it if and only if it is well formed, or is . and the table knew it; what else is in the message does not matter |
| DnsNames.NameReadsBack | app/src/main/jni/libevent/evdns.c:1600-1663 | a single name reads back if and only if no label but one after a last dot is empty |
| DnsNames.InnerLabelLost | app/src/main/jni/libevent/evdns.c:1600-1663 | the name a..b is written without error and does not read back |
| DnsNames.DotLost | app/src/main/jni/libevent/evdns.c:1600-1663 | the name . is written as two ends and does not read back |
| DnsNames.SecondDotKept | app/src/main/jni/libevent/evdns.c:1617-1629 | the second . of a message is a pointer to the first and does read back |
| DnsNames.SuffixShared | app/src/main/jni/libevent/evdns.c:1617-1653 | a.b, c.b and a.b after a header: the second name ends with a pointer to the end of the first, the third is the pointer c0 0c, and all are read back |
| DnsNames.FailsBecause | app/src/main/jni/libevent/evdns.c:1614-1645 | -1 only for a label over 63 bytes, -2 only if the name and two bytes do not fit |
| DnsNames.WriteFits | app/src/main/jni/libevent/evdns.c:1622-1645 | with two bytes more than the name is long, writing fails exactly for a label over 63 bytes |
| DnsNames.SpillsExact | app/src/main/jni/libevent/evdns.c:1600-1663 | with or without a table, a message gets longer than the limit, by one byte, if and only if all labels fit, none is found in the table, the last is not empty, and they fill the room exactly |
| DnsNames.OneByteOver | app/src/main/jni/libevent/evdns.c:1656-1661 | the name a, in a room of two bytes, takes three |
| DnsMessages.LabelTable.GetPos | app/src/main/jni/libevent/evdns.c:1560-1568 | the position of the first entry for a name, or -1 if there is none |
| DnsMessages.LabelTable.Add | app/src/main/jni/libevent/evdns.c:1572-1586 | remembers a name, last, unless the table is full, which is -1 |
| DnsMessages.NameToLabels | app/src/main/jni/libevent/evdns.c:1600-1663 | the buffer, the table and the result are what writing the name means, with the reason for each error; nothing beyond the limit is touched but the one byte for the closing zero of a name that spills |
| DnsMessages.NameParse | app/src/main/jni/libevent/evdns.c:960-1013 | ends on every input, reads only the packet, keeps within the output with its zero, and gives the text and the position that the packet means |
| DnsMessages.BothWays | app/src/main/jni/libevent/evdns.c:978-994 | a packet with pointers forward and back, read as b.a, in four bytes and not in three |
| DnsQueries.RequestDataBuild | app/src/main/jni/libevent/evdns.c:1680-1704 | the packet is the header, the name, the type and the class, or the right error; the limit may be the end of the buffer |
| DnsQueries.QueryBytes | app/src/main/jni/libevent/evdns.c:1687-1700 | the bytes of one query |
| DnsQueries.BuildFits | app/src/main/jni/libevent/evdns.c:1669-1704 | in a buffer of the size asked for beforehand, building fails exactly for a name that is too long or has a long label, and never leaves the buffer |
| DnsQueries.RequestParse | app/src/main/jni/libevent/evdns.c:1216-1290 | the packet is dropped if it is malformed, an answer or without questions; else refused or handed on by the flags that were kept |
| DnsQueries.HeaderKept | app/src/main/jni/libevent/evdns.c:1228-1255 | of the header the id, bits 8 and 4 of the flags and the number of questions are kept |
| DnsQueries.TwoFlagsKept | app/src/main/jni/libevent/evdns.c:1239-1272 | a packet with flags 0x0130 and two questions, of which 0x0110 and both questions stay |
| DnsQueries.QueryUnderstood | app/src/main/jni/libevent/evdns.c:1216-1272 | what is built for a well-formed name is parsed to the same id, the recursion flag and the one question |
| DnsQueries.OpcodeNeverSeen | app/src/main/jni/libevent/evdns.c:1239-1286 | no packet is answered with not implemented; a packet is treated as its kind of query asks for if and only if that is the standard one, or it is an answer, has no questions or cannot be read |
| DnsQueries.OtherKindAsked | app/src/main/jni/libevent/evdns.c:1239-1286 | a packet with opcode 1 that is handed on |
| Rings.Insert | app/src/main/jni/libevent/evdns.c:2721-2734 | links a node in as the last of a circular list, in place, and touches no other list |
| Rings.Remove | app/src/main/jni/libevent/evdns.c:2683-2717 | unlinks a node of a circular list, and moves the head on if it was that |
| Rings.RemovedAt | app/src/main/jni/libevent/evdns.c:2709-2716 | after a removal each node left is linked to the nodes around it |
| Rings.TurnedBack | app/src/main/jni/libevent/evdns.c:2445-2449 | moving the head back one step makes the last node the first of the same ring |
| DnsRequests.SomeIdFree | app/src/main/jni/libevent/evdns.c:1318-1329 | with fewer requests in flight than ids, some id is free |
| DnsRequests.MovedOne | app/src/main/jni/libevent/evdns.c:3400-3407 | moving one request to its new bucket keeps every request where its id says, old or new |
| DnsResolver.Resolver.FindFromTransId | app/src/main/jni/libevent/evdns.c:469-483 | the search in one bucket finds a request with the id if and only if there is one in flight |
| DnsResolver.Resolver.TransactionIdPick | app/src/main/jni/libevent/evdns.c:1318-1329 | an id that no request in flight has |
| DnsResolver.Resolver.NameserverPick | app/src/main/jni/libevent/evdns.c:1335-1367 | none only if there are no servers; else the first in turn that is up, and the turn passes to the one after it; if none is up, just the next |
| DnsResolver.Resolver.NameserverFailed | app/src/main/jni/libevent/evdns.c:558-615 | the server is down and no other changes; if another is up, no unsent request stays with it, and no other request is touched; the counts stay exact |
| DnsResolver.Resolver.NameserverUp | app/src/main/jni/libevent/evdns.c:618-636 | the server is up, no other changes, and the count of good ones is exact |
| DnsResolver.Resolver.SwapNs | app/src/main/jni/libevent/evdns.c:545-553 | the request changes server, and both counts follow |
| DnsResolver.Resolver.Reissue | app/src/main/jni/libevent/evdns.c:715-735 | the request goes to the server whose turn it is, and is unsent again; gives up exactly when that is the one it has, never if that is down and another is up, and then changes nothing |
| DnsResolver.Resolver.PumpWaitingQueue | app/src/main/jni/libevent/evdns.c:743-770 | promotes from the front of the waiting list, never beyond the limit; after it none waits, or there is no room, or no server; what still waits is untouched |
| DnsResolver.Resolver.Submit | app/src/main/jni/libevent/evdns.c:2747-2841 | in flight if and only if there is room and a server: the one whose turn it is, under a free id, sent or still to be sent as it turns out; else last of those waiting |
| DnsResolver.Resolver.Transmit | app/src/main/jni/libevent/evdns.c:2205-2283 | a request is sent, or not yet, or its server goes down: then what was still to be sent to it may move to servers that are up, and this one counts as sent |
| DnsResolver.Resolver.Finish | app/src/main/jni/libevent/evdns.c:649-706 | exactly the one request goes, and room it leaves is used by the first that wait, never beyond the limit |
| DnsResolver.Resolver.Enter | app/src/main/jni/libevent/evdns.c:2824-2841 | a request is put in the bucket of its id or among those waiting, with all counters right |
| DnsResolver.Resolver.Leave | app/src/main/jni/libevent/evdns.c:649-668 | a request is taken out of where it is, with all counters right |
| DnsResolver.Resolver.SetMaxRequestsInflight | app/src/main/jni/libevent/evdns.c:3386-3414 | rehashing keeps every request, each in the bucket that its id has now |
| DnsResolver.Resolver.ClearNameserversAndSuspend | app/src/main/jni/libevent/evdns.c:2396-2458 | everything in flight, and nothing else, is suspended and waits before what waited, in the order in which the buckets are walked, backwards; no server is left |
| DnsSuspension.SuspendRing | app/src/main/jni/libevent/evdns.c:2428-2452 | the walk around a bucket, by links that are overwritten behind it, reaches every request once |
| DnsSuspension.BackwardsIs | app/src/main/jni/libevent/evdns.c:2425-2453 | what is put to wait are exactly the requests of all buckets |
| DnsSuspension.BackwardsReversed | app/src/main/jni/libevent/evdns.c:2425-2453 | they wait in exactly the reverse of the order of the buckets |
| DnsResolver.Resolver.NameserverAdd | app/src/main/jni/libevent/evdns.c:2544-2553 | the server is up with nothing to do, comes after the one whose turn is next, and the count of good ones follows |
| TokenBuckets.CfgNew | app/src/main/jni/libevent/bufferevent_ratelim.c:143-173 | a configuration exactly when rates and bursts make sense |
| TokenBuckets.AddTicksExact | app/src/main/jni/libevent/bufferevent_ratelim.c:96-106 | the overflow-safe test gives min(maximum, limit + n * rate) if and only if the limit is at most the maximum or so many ticks passed that the difference wraps |
| TokenBuckets.RefundEmpties | app/src/main/jni/libevent/bufferevent_ratelim.c:96-106 | a concrete limit above the maximum that one tick turns negative, with 32-bit sizes |
| TokenBuckets.ToppedTwice | app/src/main/jni/libevent/bufferevent_ratelim.c:74-111 | two refills are one refill of the summed ticks |
| TokenBuckets.ElapsedWraps | app/src/main/jni/libevent/bufferevent_ratelim.c:80-86 | elapsed ticks are right when the tick counter wraps; more than half way round is no time at all |
| TokenBuckets.BucketInit | app/src/main/jni/libevent/bufferevent_ratelim.c:50-71 | a new bucket holds one tick's rate; an old one is only clipped |
| TokenBuckets.BucketUpdate | app/src/main/jni/libevent/bufferevent_ratelim.c:74-111 | both limits rise by the rate for each tick up to the maximum, without overflow |
| TokenBuckets.ThreeTicks | app/src/main/jni/libevent/bufferevent_ratelim.c:74-111 | three ticks over the wrap of the counter, in numbers |
| TokenBuckets.RefilledTwice | app/src/main/jni/libevent/bufferevent_ratelim.c:74-111 | updating at one tick and then a later one is updating at the later one |
| RateLimits.Bufferevent.SuspendRead | app/src/main/jni/libevent/bufferevent.c:67-76 | the reason is noted, and reading is armed exactly when it is enabled and nothing suspends it |
| RateLimits.Bufferevent.UnsuspendRead | app/src/main/jni/libevent/bufferevent.c:79-88 | the reason is gone, and reading is armed exactly when it is enabled and nothing suspends it |
| RateLimits.Bufferevent.Enable | app/src/main/jni/libevent/bufferevent.c:460-480 | reading is armed exactly when it is enabled and nothing suspends it |
| RateLimits.Bufferevent.Disable | app/src/main/jni/libevent/bufferevent.c:551-563 | reading is armed exactly when it is enabled and nothing suspends it |
| RateLimits.Bufferevent.DecrementRead | app/src/main/jni/libevent/bufferevent_ratelim.c:273-308 | reading waits for bandwidth exactly when its bucket is exhausted; then the timer is pending, and it is stopped when reading alone waited and no longer does |
| RateLimits.Bufferevent.DecrementWrite | app/src/main/jni/libevent/bufferevent_ratelim.c:311-346 | writing waits for bandwidth exactly when its bucket is exhausted; then the timer is pending, and it is stopped when writing alone waited and no longer does |
| RateLimits.Bufferevent.RefillCallback | app/src/main/jni/libevent/bufferevent_ratelim.c:394-439 | after a refill a direction still waits exactly when it did and its bucket is still exhausted; the timer is pending exactly when one waits |
| RateLimits.Bufferevent.SetRateLimit | app/src/main/jni/libevent/bufferevent_ratelim.c:560-636 | new limits, or none, leave waiting and timer as the buckets say |
| RateLimits.Bufferevent.LetTimerRun | app/src/main/jni/libevent/bufferevent_ratelim.c:394-439 | no wakeup is lost: letting the timer fire ends, and then reading is armed if enabled and not suspended for another reason |
| RateLimits.Group.SuspendReading | app/src/main/jni/libevent/bufferevent_ratelim.c:350-371 | the group and all members whose lock could be taken are suspended |
| RateLimits.Group.UnsuspendReading | app/src/main/jni/libevent/bufferevent_ratelim.c:474-504 | wherever it begins, all members whose lock could be taken are resumed, and another try is due exactly if some could not |
| RateLimits.Group.RefillCallback | app/src/main/jni/libevent/bufferevent_ratelim.c:529-557 | the group is resumed exactly when a share is there, and then, or when a try was due, every member that can be locked is; it holds no member back when it is neither suspended nor due to try again |
| RateLimits.Group.Ask | app/src/main/jni/libevent/bufferevent_ratelim.c:198-253 | a member is granted exactly the lesser of its own bucket after a refill, or what it reads at once if it has none, and the share; nothing if its bucket is overdrawn or the group is suspended, which then holds it back |
| RateLimits.Group.ShareIs | app/src/main/jni/libevent/bufferevent_ratelim.c:240-245 | the share is an equal part of the bucket, rounded down, or the least share if that is more |
| RateLimits.Group.Take | app/src/main/jni/libevent/bufferevent_ratelim.c:273-308 | what was read leaves both buckets, however long ago it was granted; the group and its members are suspended or resumed exactly as its bucket says |
| RateLimits.Group.SettledCovered | app/src/main/jni/libevent/bufferevent_ratelim.c:228-253 | a group in which nobody is between asking and taking, and that owes less than a share, may start a run with any number of grants outstanding that a word can count |
| RateLimits.Group.Draw | app/src/main/jni/libevent/bufferevent_sock.c:180-209 | asking and taking in one go: a member reads exactly what it wants, up to its bucket and its share, and never so much that the group is overdrawn by a whole share |
| RateLimits.Group.Join | app/src/main/jni/libevent/bufferevent_ratelim.c:736-810 | a bufferevent leaves the group it was in, which stays sound, and is held back exactly if its new one is; nothing happens to one that is in this group |
| RateLimits.Group.Leave | app/src/main/jni/libevent/bufferevent_ratelim.c:789-810 | who leaves is held back by the group no more, neither in reading nor in writing |
| RateLimits.Step | app/src/main/jni/libevent/bufferevent_ratelim.c:198-557 | each step that can be taken has its effect: the grant asked for, the bytes taken, the refill; one that cannot changes nothing |
| RateLimits.Run | app/src/main/jni/libevent/bufferevent_ratelim.c:198-557 | over any run in which members ask, take, give up and the timer fires in any order, with at most k grants outstanding at once, a group reads at most maximum + ticks * rate + (k - 1) * cap + share - 1 bytes, the cap being the share or an equal part of the maximum; however the locks fail |
| RateLimits.RunInTurn | app/src/main/jni/libevent/bufferevent_ratelim.c:198-557 | when nobody asks before the one who asked has taken, refills between the two or not, it is maximum + ticks * rate + share - 1 |
| RateLimits.RunTogether | app/src/main/jni/libevent/bufferevent_ratelim.c:198-557 | when all n members may have asked, whatever they do it is maximum + ticks * rate + (n - 1) * cap + share - 1 |
| RateLimits.BothAsk | app/src/main/jni/libevent/bufferevent_sock.c:180-209 | two members that both asked before either took: 128 bytes at once where maximum, rate and share are 64 |
| RateLimits.LastByteLeft | app/src/main/jni/libevent/bufferevent_sock.c:180-209 | the same two read 191 bytes at once, which is the bound of Run, when one of them first leaves a byte and asks again |
| TagCodes.TagReadsBack | app/src/main/jni/libevent/event_tagging.c:174-242 | a 32-bit tag is read back, whatever follows |
| TagCodes.TagPrefixFree | app/src/main/jni/libevent/event_tagging.c:174-242 | no tag begins with another |
| TagCodes.DecodeTagBounds | app/src/main/jni/libevent/event_tagging.c:206-240 | a decoded tag fits 32 bits and took at most five bytes |
| TagCodes.DecodeTagExact | app/src/main/jni/libevent/event_tagging.c:199-242 | a tag is decoded if and only if at most five bytes make one of 32 bits, be it longer than need be, and to the number of its bits |
| TagCodes.SomeTagBytes | app/src/main/jni/libevent/event_tagging.c:174-242 | the bytes of the tag 0x166 |
| TagCodes.OtherTagBytes | app/src/main/jni/libevent/event_tagging.c:199-242 | 82 66, which the comment gives for it, is another tag |
| TagCodes.IntReadsBack | app/src/main/jni/libevent/event_tagging.c:117-150 | an integer is read back, whatever follows, by each decoder with room for its nibbles |
| TagCodes.IntPrefixFree | app/src/main/jni/libevent/event_tagging.c:117-150 | no encoded integer begins with another |
| TagCodes.NibbleCountIs | app/src/main/jni/libevent/event_tagging.c:117-150 | an integer takes exactly the nibbles it needs |
| TagCodes.FirstIntByte | app/src/main/jni/libevent/event_tagging.c:138-147 | the first byte has their number, less one, and the lowest nibble |
| TagCodes.SomeIntBytes | app/src/main/jni/libevent/event_tagging.c:117-150 | the bytes of three integers, and codes with padding and with zero nibbles |
| TagCodes.DecodeIntFits | app/src/main/jni/libevent/event_tagging.c:315-350 | a decoded integer fits the word it is decoded into |
| TagCodes.HeaderReadsBack | app/src/main/jni/libevent/event_tagging.c:257-263 | the header of a record is read back, whatever follows |
| TagCodes.SomeRecordBytes | app/src/main/jni/libevent/event_tagging.c:257-263 | the bytes of one record |
| Tagging.EncodeIntInternal | app/src/main/jni/libevent/event_tagging.c:117-150 | the loop over nibbles writes the code of the number |
| Tagging.EncodeInt | app/src/main/jni/libevent/event_tagging.c:153-158 | appends the code of a 32-bit number, at most five bytes |
| Tagging.EncodeInt64 | app/src/main/jni/libevent/event_tagging.c:161-166 | appends the code of a 64-bit number, at most nine bytes |
| Tagging.EncodeTag | app/src/main/jni/libevent/event_tagging.c:174-194 | appends the code of the tag, at most five bytes |
| Tagging.DecodeTagInternal | app/src/main/jni/libevent/event_tagging.c:197-242 | decodes the tag at the start and drains it only if asked; on failure nothing is lost |
| Tagging.DecodeIntInternal | app/src/main/jni/libevent/event_tagging.c:315-373 | decodes the integer at an offset and drains nothing |
| Tagging.Marshal | app/src/main/jni/libevent/event_tagging.c:257-263 | appends the record, of any length that 32 bits can tell |
| Tagging.MarshalInt | app/src/main/jni/libevent/event_tagging.c:277-297 | appends the record of an integer |
| Tagging.UnmarshalHeader | app/src/main/jni/libevent/event_tagging.c:438-451 | takes the header off, also when the payload is not all there and -1 is returned |
| Tagging.Consume | app/src/main/jni/libevent/event_tagging.c:454-462 | drops exactly one whole record; all there is, exactly when the length is a negative int but not -1; else only the header |
| Tagging.Unmarshal | app/src/main/jni/libevent/event_tagging.c:467-480 | moves exactly the payload of one whole record; else only the header is gone |
| Tagging.Peek | app/src/main/jni/libevent/event_tagging.c:396-399 | the tag at the start, which stays |
| Tagging.PeekLength | app/src/main/jni/libevent/event_tagging.c:402-417 | the length of the whole record, which is what consuming it drops, modulo 2^32 |
| Tagging.PayloadLength | app/src/main/jni/libevent/event_tagging.c:420-433 | the length of the payload; nothing is drained |
| Tagging.UnmarshalInt | app/src/main/jni/libevent/event_tagging.c:485-534 | the integer of a record with the tag asked for, and what is left in each case |
| Tagging.IntRecordReadsBack | app/src/main/jni/libevent/event_tagging.c:277-534 | an integer marshalled with a tag is taken out by who asks for that tag |
| Tagging.RecordIsWhole | app/src/main/jni/libevent/event_tagging.c:438-480 | a marshalled record is taken apart into its tag and payload, and ends where the next begins, if and only if its length is no negative int |
| Tagging.RoundTrip | app/src/main/jni/libevent/event_tagging.c:257-480 | any records marshalled into a buffer are the records that come out until it is empty |
| EventQueues.CountChange | app/src/main/jni/libevent/event.c:3165-3171 | the count of memberships changes by what the changed callback is worth |
| EventQueues.NothingLeft | app/src/main/jni/libevent/event.c:1303-1307 | the count is zero if and only if no callback but internal ones is on any list |
| EventQueues.PutSorted | app/src/main/jni/libevent/event.c:3280-3307 | inserting in order keeps a common timeout queue sorted and without repetition |
| EventLoop.Base.Assign | app/src/main/jni/libevent/event.c:2065-2111 | a new event, field by field: on no list and in the middle of the priorities; nothing else changes |
| EventLoop.Base.DeferredInit | app/src/main/jni/libevent/event.c:3044-3051 | a new deferred callback, field by field: on no list; nothing else changes |
| EventLoop.Base.InsertInOrder | app/src/main/jni/libevent/event.c:3280-3307 | the place found from the end is the right one |
| EventLoop.Base.InsertTimeout | app/src/main/jni/libevent/event.c:3364-3385 | the event is in the heap, or in its common queue before the first that is due later; counts follow |
| EventLoop.Base.RemoveTimeout | app/src/main/jni/libevent/event.c:3216-3235 | the event leaves its list, counts follow, and no queue becomes due earlier |
| EventLoop.Base.InsertActive | app/src/main/jni/libevent/event.c:3326-3344 | the callback is last in the queue of its priority, counts follow |
| EventLoop.Base.RemoveActive | app/src/main/jni/libevent/event.c:3185-3199 | the callback leaves the queue of its priority, counts follow |
| EventLoop.Base.EventAdd | app/src/main/jni/libevent/event.c:2547-2716 | if the map of descriptors refuses, nothing at all changes; else the event is inserted and timed as asked, off the active queue if it was there for a timeout; no other event is touched but the timer of its common queue, which is set for it exactly if it is the first there |
| EventLoop.Base.EventDel | app/src/main/jni/libevent/event.c:2761-2844 | the event is off all lists, the order of the others stays, no other is touched, and every common queue has its timer early enough |
| EventLoop.Base.EventActive | app/src/main/jni/libevent/event.c:2865-2913 | the event is active once, last in its queue if it is new there, for all reasons since it became so; the pass is cut short exactly for a new event that comes before what runs |
| EventLoop.Base.ActivateCallback | app/src/main/jni/libevent/event.c:2952-2979 | a callback is active once, last in its queue if it is new there, also if it was put off; 1 exactly if it was neither |
| EventLoop.Base.ActivateLater | app/src/main/jni/libevent/event.c:2982-2992 | a callback is put off unless it is active or put off already |
| EventLoop.Base.PrioritySet | app/src/main/jni/libevent/event.c:2306-2318 | the priority changes only while the event is not active |
| EventLoop.Base.InitCommonTimeout | app/src/main/jni/libevent/event.c:1444-1515 | one common timeout for each duration, at most 256 |
| EventLoop.Base.HeapIsEnough | app/src/main/jni/libevent/event.c:1407-1413 | with nothing active, nothing waits for a time before the first in the heap |
| EventLoop.Base.TimeoutNext | app/src/main/jni/libevent/event.c:3088-3122 | the loop sleeps exactly until the first deadline in the heap, or not at all if that is past, or for ever if there is none; with nothing active that is never past the deadline of any event |
| EventLoop.Base.TimeoutProcess | app/src/main/jni/libevent/event.c:3126-3149 | exactly what is due in the heap leaves all lists and is active for its timeout alone, at the end of its queue in the order of the deadlines; nothing else is touched |
| EventLoop.Base.CommonTimeoutCallback | app/src/main/jni/libevent/event.c:1419-1439 | exactly what is due in one queue leaves all lists and is active for its timeout alone, at the end of its queue in order; the timer is set for the first of the rest |
| EventLoop.Base.ProcessTimeouts | app/src/main/jni/libevent/event.c:3126-3149 | the heap and the common queues together: exactly the events whose time has come, wherever they waited, leave all lists and are active for their timeout alone; none that is due waits any more, and no timer of a common queue is left active |
| EventLoop.Base.MakeLaterActive | app/src/main/jni/libevent/event.c:3388-3400 | everything put off becomes active, at the ends of the queues in order, and deferred callbacks among it are counted |
| EventLoop.Base.DeferredSchedule | app/src/main/jni/libevent/event.c:3069-3085 | a deferred callback that is not scheduled is active, last in its queue, and counted, or put off if more than 32 were; it never adds to what the pass may still run |
| EventLoop.Base.ScheduleAll | app/src/main/jni/libevent/event.c:3069-3085 | whatever is scheduled is active or put off, once; what was already stays so, and nothing else is touched |
| EventLoop.Base.ProcessQueue | app/src/main/jni/libevent/event.c:1591-1706 | a queue is run until it is empty, enough have run, time is up or a callback says so, and stops at the first of these; what was queued first runs first; what ran is off the queues, and off all lists if it does not persist; nothing scheduled is lost, nothing else is touched, and it ends however deferred callbacks schedule each other |
| EventLoop.Base.ProcessActive | app/src/main/jni/libevent/event.c:1715-1760 | a pass over all priorities runs at most what was queued and 33 more; what is not internal runs from one queue only, within its limits, and by then all that was queued before it has run; nothing scheduled is lost, and nothing else is touched |
| TimerHeap.FirstIsLeast | app/src/main/jni/libevent/minheap-internal.h:61-69 | where every event is no earlier than its parent, the first is due first |
| TimerHeap.MinHeap.Reserve | app/src/main/jni/libevent/minheap-internal.h:133-147 | makes room for as many as asked for, twice as much as there was or 8 if that is more, and keeps what is there |
| TimerHeap.MinHeap.ShiftUp | app/src/main/jni/libevent/minheap-internal.h:161-171 | the hole goes up until the event fits: order, places and members are right again |
| TimerHeap.MinHeap.ShiftUpUnconditional | app/src/main/jni/libevent/minheap-internal.h:149-159 | the same when the hole is known to go up |
| TimerHeap.MinHeap.ShiftDown | app/src/main/jni/libevent/minheap-internal.h:173-186 | the hole goes down, to the child that is due sooner, until the event fits |
| TimerHeap.MinHeap.Push | app/src/main/jni/libevent/minheap-internal.h:71-77 | exactly the new event joins; the heap stays in order and every event knows its place |
| TimerHeap.MinHeap.Top | app/src/main/jni/libevent/minheap-internal.h:69 | a member that is due no later than any, or none when there is none |
| TimerHeap.MinHeap.Pop | app/src/main/jni/libevent/minheap-internal.h:79-89 | takes out exactly that member, and the rest stays in order |
| TimerHeap.MinHeap.Erase | app/src/main/jni/libevent/minheap-internal.h:96-115 | takes out exactly the event, wherever it is, the last one filling its place; -1 exactly if it is not in the heap |
| TimerHeap.MinHeap.SiftIn | app/src/main/jni/libevent/minheap-internal.h:101-110 | an event put where another was has to go up or down, never both |
| TimerHeap.MinHeap.Adjust | app/src/main/jni/libevent/minheap-internal.h:117-131 | after the time of one event changed, in either direction, the heap is in order again; an event that was not in it joins |

## Left out

- Sockets, files, memory maps, printf, iovecs, clocks, random numbers and logging: what they yield is a parameter.
- User callbacks, locks and threads; a locked region is one step.
- Pinned, immutable, reference, multicast and file chains of evbuffers, and zero-length references.
- Next and first pointers of the chain list: the list is a sequence and a pointer to a chain or a link is its number, so aliasing of chains and memory that is freed too early are not covered.
- Evbuffers.Evbuffer.RemoveBuffer: the count that moved is not cut down to an int, and a length over SIZE_MAX, for which there is no memory, is not wrapped.
- Evbuffers.WriteThroughOnePiece: one piece; for several, ReservedCommits and the contract of CommitSpace say the same of what is written to the first of them on.
- Edge-triggered interest: deletions do not carry the flag, so interest is stated without it.
- Signals, descriptors that epoll rejects for other reasons than being there or not, and failing allocations in the map of descriptors.
- FdInterest.EventBase.IoDel: asks that the event is pending when its descriptor is known, as the source's flags make sure.
- Finalizing events, the closures of signals and of persistent events.
- That the heap of EventLoop is the one of TimerHeap is by their contracts, which both speak of a set of events; heaps of 2^31 events and more, and failing allocations, are not covered.
- EventLoop.Base.EventAdd: what the map of descriptors answers is a parameter; the timer of a common timeout is not added by users.
- EventLoop.Base.ProcessTimeouts: the timers of common timeouts that have gone off run right after the heap, one queue after another, and not from the active queue that they are in.
- EventLoop.Base.ProcessQueue: the callbacks run do nothing but schedule deferred callbacks and ask to stop or to start over, and no timer of a common timeout is among them.
- EventLoop.Base.ProcessActive: as for one queue; at least one callback may run, and when time is up is a parameter.
- DnsNames.AllReadBack: with a table that is true of the message, as an empty one is; messages of up to 0x4000 bytes, since longer ones cannot be pointed into; `PointerReadsBack` says why.
- Answers of nameservers, searching through domains, hosts files, probes of nameservers and their back-off.
- DnsResolver.Resolver.TransactionIdPick: picks some free id where the source draws until it finds one; fewer than 65535 requests may be in flight, or the source draws for ever.
- DnsResolver.Resolver.Transmit: one request; going over all requests that are still to be sent is many such steps.
- DnsResolver.Resolver.Submit: picking an id and putting the request in its bucket are one step; a search that goes on with another name picks the id before other requests are promoted.
- DnsResolver.Resolver.ClearNameserversAndSuspend: no probe is under way.
- DnsMessages.NameToLabels: not for a name that spills at the very end of the buffer, where the source writes the byte after it.
- DnsResolver.Resolver.SetMaxRequestsInflight: the new buckets lie behind the old ones in one list until these are empty.
- The ring of nameservers is a sequence that is turned, not linked nodes.
- Arming of writing, connecting, watermarks, and bufferevents other than those on sockets.
- RateLimits.Bufferevent.DecrementRead: a refund may not lift the limit above the maximum, where `AddTicksExact` shows the next update to be wrong.
- RateLimits.Bufferevent.DecrementWrite: as for reading.
- RateLimits.Group.Take: what is taken must not overflow the word, which `Group.TakeFits` shows of every covered group.
- RateLimits.Group.Decrement: may not lift the limit above the maximum.
- RateLimits.Group.Join: what the group it was in promises its other members is that it stays valid.
- RateLimits.Run: the configuration, the share and the members stay the same; the share is at least 1, and it and the caps of all grants but one are together counted in a word.
- RateLimits.RunInTurn: as for Run.
- RateLimits.RunTogether: as for Run.
- The writing side of groups, which is the same as the reading side.
- The tick of a point in time, which is a division, is a parameter.
- Tagging.RoundTrip: payloads under 2^31 bytes, since longer ones have no length that can be told from an error, as `RecordIsWhole` shows.
- Tagging.Unmarshal: two buffers, neither of them frozen, whose contents together fit one allocation.
- Strings, fixed-length payloads and time values as records, which add nothing to the codes.
- OpenSSL, filters, pairs and Windows ports, device polling, generated code, and everything outside the event library.
