# Fragments, requests and events in artdaq

A model of the path data takes through `artdaq/DAQrate`, with proofs about it:

- **RequestBuffer** (`RequestBuffer.dfy`) keeps the data requests that are pending and, compressed into a watermark and a
  sparse set, those already served.
- **FragmentBuffer** (`DataBuffer.dfy`, `Windows.dfy`, `BufferMode.dfy`, `Pipeline.dfy`, `FragmentBuffer.dfy` and the files
  about answers, runs, deliveries and calls) queues fragments per fragment ID, answers requests in five modes, prunes by size and age, and
  advances a sequence counter in step with the RequestBuffer.
- **SharedMemoryEventManager** (`EventTable.dfy`, `EventInvariants.dfy`, `EventSteps.dfy`, `EventSound.dfy`,
  `EventOnce.dfy`, `EventContents.dfy`, `EventRuns.dfy`, `EventReleases.dfy`, `EventExamples.dfy`, `EventDropped.dfy`,
  `DroppedData.dfy`, `EventTokens.dfy`, `EventManager.dfy`, `EventLayout.dfy`, `EventMemory.dfy`, `SubrunMap.dfy`)
  builds events in a fixed pool of buffers from fragments that several threads write, releases them complete or timed out,
  sends routing tokens, and maps sequence IDs to subruns.
- **DataSenderManager** (`Routing.dfy`) chooses a destination for a sequence ID, round-robin.

Each stateful component appears twice. Its specification is a datatype for the whole state with one function per
operation; runs are sequences of operations from a fresh state, and the theorems speak about all of them. Its
implementation is a class with the fields and loops of the source, whose methods are proved to move the abstract value
`View()` exactly as those functions say; so every theorem about runs is one about the objects.

Conventions:

- One locked method body is one step. Threads are arbitrary interleavings of steps. Finding a buffer and counting a writer
  on it (`artdaq/DAQrate/SharedMemoryEventManager.cc:216-254`) is taken as one step, which the source does not ensure. A
  pass of Window or SequenceID mode (`artdaq/DAQrate/FragmentBuffer.cc:684-737` and `776-795`) is one step too, though the
  source locks a data buffer at a time and data may arrive between two of them. So is `AddFragment`
  (`artdaq/DAQrate/SharedMemoryEventManager.cc:142-187`), which holds no lock from its search to its check.
- Clock readings are arguments that may take any value: which windows have waited too long (`late`), which sent windows
  are overdue (`expired`), which buffers `ResetBuffer` reports as stale (`stale`). An `AddFragment` that opens a buffer
  makes two checks, and both see the same `stale`.
- `SharedMemoryManager` is not part of this model. It appears as a pool of buffers that are Empty, Writing, Full or
  Reading; `slot` is the buffer that `GetBufferForWriting` offers, usable if it is Empty.
- Integers are unbounded except where their width matters, and there it is written out: the 32-bit distance in `push`, the
  64-bit window end, the unsigned differences of tokens and of missing fragments, the wrap of subrun and sequence counters.
- `fragments` of a buffer in `EventTable.dfy` counts each fragment that finds a buffer. The source counts by walking over the
  memory of the buffer, which is `EventLayout.dfy`: `EventMemory.WalkCountsFragmentsIff` says when the two agree.
- `DoneWritingFragment` is an operation of its own for fragments that were dropped, which the code treats alike. A run is
  *legal* if each fragment that was not dropped is done while it is in flight, and each dropped one while no buffer holds
  its event. Theorems that need this say so; the others hold of every run. Where the store of dropped data is modelled, only
  a fragment that waits in it is done as a dropped one, and no two with equal headers are confused.
- Ordered containers are visited in order. `dataBuffers_` is an unordered map; it is visited in the order of IDs.
- Runs start from fresh objects. `Reset` (`artdaq/DAQrate/FragmentBuffer.cc:123-141`) clears neither `WindowsSent` nor
  `HighestRequestSeen`, so it does not lead back to a fresh object.

Where the code and its documentation disagree, the code is modelled:

- `GetNextRequest` is documented to return the first request not yet returned. The code never returns a request at or
  below the last one returned, even if it arrives later (`Requests.NextIsFirstUnreturnedIff`, and a run in which it matters,
  `Requests.LateRequestIsNotGiven`).
- `stale_fragment_timeout` is documented to discard fragments that are older than the newest by at least the timeout. The
  code discards those that are older by more than it, and stops at the first that is not. `DataBuffers.JustTimeoutOldStays`
  and `DataBuffers.HiddenStaleStays` are inputs on which the documented rule fails, and `DataBuffers.DocumentedRuleHoldsIff`
  says exactly when it holds.
- A request window is documented as timestamp - offset to timestamp - offset + width. `Windows.WindowIsAsDocumentedIff` says
  for which requests that is so; `Windows.WindowBeforeTimeZero` and `Windows.WindowPastTheEnd` are two for which it is not.
- `push` stores a 64-bit difference in an `int` and judges by its sign which IDs were served. The exact condition under which that is
  harmless is `Requests.AdmissionIsExactIff` for one push and `Requests.PendingStaysNewIff` for a run;
  `Requests.AdmissionFailures` has two runs in which it goes wrong.
- Iterators that the source dereferences before it compares them with `end()`
  (`artdaq/DAQrate/FragmentBuffer.cc:695`, `artdaq/DAQrate/SharedMemoryEventManager.cc:1112`) are compared first, and
  `--end()` of an empty list (`artdaq/DAQrate/FragmentBuffer.cc:525` and `617-618`) is taken as an empty range.

Behaviour that reading one function does not show:

- A served request can be admitted again, and a new one refused, when it is 2^31 or more away from the watermark.
- In Single and Buffer mode a request that the counter has already passed stays pending until a later one comes
  (`LatestRuns.LatestIsAnsweredIff`, and a run in which one does, `LatestRuns.LateRequestStaysPending`).
- Back-to-back windows overlap at the start of time, where the subtraction of the offset saturates
  (`Windows.BackToBackRequestsTileIff`).
- A completed event opens a second time once the bounded list has forgotten it (`EventRuns.CompletedEventReopensIff`, and a
  run in which one does, `EventExamples.ReleasedEventReopens`).
- `DoneWritingFragment` does not know a dropped fragment from one in flight. If the event of a dropped one has a buffer when
  it is done, the event can go to art with a fragment in flight (`EventDropped.ReleasedWithAFragmentInFlight`); when that
  happens, and when it does no harm, is `EventDropped.DroppedDoneReleasesEarlyIff` and
  `EventDropped.DroppedDoneIsHarmlessIff`. On an idle event the count of writers becomes -1, and the event times out later
  with a fragment in flight (`EventDropped.DroppedDoneMiscounts`). The last fragment of an event that left too early can
  make the builder detach (`DroppedData.DoneMayDetach`), which no legal run does (`DroppedData.DoneNeverDetaches`).
- The store of dropped data keeps the entry of a body that does not fit in its buffer, and of a dropped fragment that is
  done while a buffer holds its event (`DroppedData.StoreEmptiesIff`).
- Tokens never overcommit the pool, even so (`EventTokens.TokensNeverOvercommit`).
- `GetAndClearRequests` can lower the watermark (`Requests.TakeAllLowersTheWatermark`).
- The promise of the missing-data flag has two exceptions when timestamps are equal (`WindowHistory.DroppedAtTheStart`,
  `WindowHistory.ArrivesAtTheEnd`), and no others (`WindowDelivery.UnflaggedContainersHoldTheirWindow`).
- With increment 1 the watermark of the request buffer is the sequence counter less one in every reachable state
  (`CounterRuns.WatermarkIsTheCounter`); for any increment no old request is pending either, under an exact condition
  (`CounterRuns.RequestBufferKeepsUpIff`).
- In SequenceID mode a request below the counter that finds data leaves its key in `WindowsSent`, and nothing else does
  (`CounterRuns.WindowsSentStayAheadIff`, and a run in which one stays, `CounterExamples.OldWindowIsRemembered`).
- Out-of-order rollovers do not stop an argument-less one from advancing (`Subruns.NextRolloverAdvancesIff`).

## Model

| member | source | states |
|---|---|---|
| Requests.WatermarkIsExact | artdaq/DAQrate/RequestBuffer.cc:90-128 | After any run of the operations but GetAndClearRequests, an aligned ID is at or below the watermark or in the out-of-order set exactly when it was removed since the last reset: the compression loses nothing |
| Requests.RunCompresses | artdaq/DAQrate/RequestBuffer.cc:20-128 | Every reachable state compresses exactly the set of removed IDs: out-of-order IDs lie above the watermark and were removed, every aligned ID up to the watermark was removed, the watermark is aligned, and the least out-of-order ID is never watermark + increment |
| Requests.RemoveCompresses | artdaq/DAQrate/RequestBuffer.cc:90-128 | One removal keeps the compressed form exact for the set with the removed ID added, on every state that compresses a set |
| Requests.DrainCompresses | artdaq/DAQrate/RequestBuffer.cc:103-115 | Raising the watermark over contiguous out-of-order IDs neither loses nor invents a served ID, and ends with a gap |
| Requests.CompressionIsCanonical | artdaq/DAQrate/RequestBuffer.cc:96-122 | Two states that compress the same aligned set agree on watermark and out-of-order set, so the form does not depend on the order of removals; watermark + increment was never removed |
| Requests.AdmissionIsExactIff | artdaq/DAQrate/RequestBuffer.cc:32-43 | A request that is not pending is admitted exactly when its ID was never removed - if and only if the 64-bit distance keeps its sign when narrowed to a 32-bit int, or the ID is still listed as out of order |
| Requests.NarrowKeepsSign | artdaq/DAQrate/RequestBuffer.cc:32 | The narrowed distance tells whether the ID is above the watermark, if and only if the distance modulo 2^32 is in the right half |
| Requests.NearGapFits | artdaq/DAQrate/RequestBuffer.cc:32 | Distances of less than 2^31 can be trusted |
| Requests.AdmissionFailures | artdaq/DAQrate/RequestBuffer.cc:32-43 | Two runs in which the narrowing fails: a fresh buffer refuses 2^31, which was never served, and after 1, ..., 2^31 + 2 were served in order, 1 is admitted again |
| Requests.RemovedInOrder | artdaq/DAQrate/RequestBuffer.cc:90-128 | Removing 1, 2, ..., n in order leaves exactly the watermark n, nothing pending and nothing out of order |
| Requests.AdmittedIffNew | artdaq/DAQrate/RequestBuffer.cc:20-46 | In every reachable state, whatever was pushed: a request is admitted exactly when it is neither pending nor removed, if and only if it is pending, out of order, or its distance keeps its sign when narrowed |
| Requests.PendingStaysNewIff | artdaq/DAQrate/RequestBuffer.cc:20-46 | Over a run no removed request is ever pending again, if and only if each push of an ID at or below the watermark comes at a distance that keeps its sign |
| Requests.NextNeverRepeats | artdaq/DAQrate/RequestBuffer.cc:74-88 | The IDs GetNextRequest returns over any run strictly increase, so none is returned twice |
| Requests.NextIsFirstUnreturnedIff | artdaq/DAQrate/RequestBuffer.hh:46-52 | In every reachable state GetNextRequest gives the documented first request not yet returned if and only if no unreturned request lies at or below the last one returned |
| Requests.LateRequestIsNotGiven | artdaq/DAQrate/RequestBuffer.cc:74-88 | A run in which it does not: 5 is pushed and returned, 3 comes, and GetNextRequest answers (0, 0) |
| Requests.TakeAllForgets | artdaq/DAQrate/RequestBuffer.cc:145-158 | In any state GetAndClearRequests forgets exactly the served IDs above the new watermark, which is the greatest pending request - out-of-order IDs, or IDs at or below the old watermark - and counts every pending request as served |
| Requests.TakeAllForgetsOnlyOutOfOrderIff | artdaq/DAQrate/RequestBuffer.cc:145-158 | In every reachable state it forgets none but out-of-order IDs if and only if no request is pending or one at or above the watermark is |
| Requests.TakeAllLowersTheWatermark | artdaq/DAQrate/RequestBuffer.cc:145-158 | A run in which it forgets more: with increment 10, 5 is pending and 10 was served, and the watermark goes from 10 to 5 |
| Requests.RequestBuffer.Push | artdaq/DAQrate/RequestBuffer.cc:20-46 | The new state is that of the specification function; a request already pending keeps its timestamp |
| Requests.RequestBuffer.Reset | artdaq/DAQrate/RequestBuffer.cc:48-56 | The state is that of a fresh buffer |
| Requests.RequestBuffer.GetRequests | artdaq/DAQrate/RequestBuffer.cc:63-72 | The copy equals the map of pending requests |
| Requests.RequestBuffer.GetNextRequest | artdaq/DAQrate/RequestBuffer.cc:74-88 | The least pending ID above the last one returned, or (0, 0) exactly when there is none |
| Requests.RequestBuffer.RemoveRequest | artdaq/DAQrate/RequestBuffer.cc:90-128 | The two branches of the source both give the one specification: insert, then raise the watermark as far as the IDs are contiguous |
| Requests.RequestBuffer.AdvanceWatermark | artdaq/DAQrate/RequestBuffer.cc:103-115 | The erase loop computes the drained watermark and set |
| Requests.RequestBuffer.ClearRequests | artdaq/DAQrate/RequestBuffer.cc:134-138 | Only the pending requests are forgotten |
| Requests.RequestBuffer.GetAndClearRequests | artdaq/DAQrate/RequestBuffer.cc:145-158 | Returns the pending requests; the watermark becomes the greatest of them, and the out-of-order set is emptied |
| Routing.CalcDest | artdaq/DAQrate/DataSenderManager.cc:142-168 | The counting loop over the ordered destinations ends at position (sequence ID mod n), and an empty table gives ROUTING_FAILED |
| Routing.ResidueIsMod | artdaq/DAQrate/DataSenderManager.cc:157 | Repeated subtraction is the modulo of the source |
| Routing.DestinationIsByRank | artdaq/DAQrate/DataSenderManager.cc:153-167 | The destination chosen is the one with exactly (sequence ID mod n) enabled destinations below it |
| Routing.SendersAgree | artdaq/DAQrate/DataSenderManager.cc:142-168 | Senders with equal enabled sets agree on the destination of every sequence ID |
| Routing.RoundIsFair | artdaq/DAQrate/DataSenderManager.cc:153-167 | Any n consecutive IDs reach each of the n destinations exactly once |
| Routing.RoundsAreEqual | artdaq/DAQrate/DataSenderManager.cc:153-167 | k whole rounds send exactly k IDs to each destination |
| Routing.LoadsDifferByAtMostOne | artdaq/DAQrate/DataSenderManager.cc:153-167 | Over any consecutive range of IDs the loads of two destinations differ by at most one |
| Subruns.FloorLookup | artdaq/DAQrate/SharedMemoryEventManager.cc:1104-1121 | The lookup gives the subrun of the greatest boundary at or below the ID, and 1 when there is none |
| Subruns.PutChangesOneInterval | artdaq/DAQrate/SharedMemoryEventManager.cc:989 | Setting a boundary changes the answer from there up to the next boundary above it, and nowhere else |
| Subruns.TrimKeepsAnswers | artdaq/DAQrate/SharedMemoryEventManager.cc:990-993 | Trimming never changes the answer at or above the smallest surviving boundary; below it the answer becomes 1 |
| Subruns.AscendingIsMonotone | artdaq/DAQrate/SharedMemoryEventManager.cc:1104-1121 | In a table with ascending subruns the subrun never decreases along the sequence IDs |
| Subruns.AdvancedTable | artdaq/DAQrate/SharedMemoryEventManager.cc:996-1015 | An argument-less rollover that can advance keeps the table ascending and adds the next boundary with the next subrun |
| Subruns.NextRolloverAdvancesIff | artdaq/DAQrate/SharedMemoryEventManager.cc:973-1015 | After any mixture of the two rollovers, also out of order: an argument-less one puts every ID above the last boundary in a later subrun than any ID was in before, if and only if the map may hold an entry, neither counter wraps, and the new boundary is not the invalid ID |
| Subruns.RolloverIsExact | artdaq/DAQrate/SharedMemoryEventManager.cc:973-994 | An explicit rollover does nothing for boundary 0, the invalid ID or a repeated subrun; else IDs from the boundary up to the next one above are in its subrun and all others where they were, in a table of at most the configured length, below which every ID is in subrun 1 |
| Subruns.RunIsWellFormed | artdaq/DAQrate/SharedMemoryEventManager.cc:973-1015 | Over any such run boundaries increase strictly and stay 64-bit, subruns stay 32-bit, boundary 0 keeps subrun 1, and the table stays within its length limit |
| Subruns.NextRolloverKeepsMonotone | artdaq/DAQrate/SharedMemoryEventManager.cc:996-1015 | If the subrun never decreases along the sequence IDs, an argument-less rollover keeps it so, unless the 32-bit subrun wraps |
| Subruns.OutOfOrderRollovers | artdaq/DAQrate/SharedMemoryEventManager.cc:973-1015 | Explicit rollovers at 100 and then at 50 with a greater subrun give a table that does not ascend; the next argument-less one takes a subrun above both |
| Subruns.ChainOfRollovers | artdaq/DAQrate/SharedMemoryEventManager.cc:996-1015 | After n argument-less rollovers from the start of a run, IDs from n on are in subrun n + 1 and the subrun never decreases along the IDs, whatever the length limit |
| Subruns.SubrunMap.GetSubrunForSequenceID | artdaq/DAQrate/SharedMemoryEventManager.cc:1104-1121 | The iterator loop computes the floor lookup |
| Subruns.SubrunMap.RolloverSubrun | artdaq/DAQrate/SharedMemoryEventManager.cc:973-994 | Ignores boundary 0 and the invalid ID and a repeated subrun; otherwise sets the boundary and trims; the table stays ordered |
| Subruns.SubrunMap.RolloverToNextSubrun | artdaq/DAQrate/SharedMemoryEventManager.cc:996-1015 | The scan for the first unused boundary and subrun, followed by the rollover |
| EventLayout.WalkMeetsEveryHeader | artdaq/DAQrate/SharedMemoryEventManager.cc:387-411 | The walk by word_count meets each written header once, in order, and no other word, whatever the bodies contain |
| EventLayout.MemoryOfUpdate | artdaq/DAQrate/SharedMemoryEventManager.cc:267-292 | Writing inside one fragment's memory changes that fragment only |
| EventLayout.CountOfOneKind | artdaq/DAQrate/SharedMemoryEventManager.cc:398-408 | The count for a fragment type is the number of headers of that type |
| EventLayout.EventBuffer.WriteHeader | artdaq/DAQrate/SharedMemoryEventManager.cc:263-297 | Appends exactly one fragment: the given header with the room it announces, or - when the body does not fit - the bare header marked invalid with its own length; earlier fragments are untouched |
| EventLayout.EventBuffer.Reserve | artdaq/DAQrate/SharedMemoryEventManager.cc:263-292 | Where the body goes, and when the header is rewritten: exactly when the body does not fit |
| EventLayout.EventBuffer.StoreBodyWord | artdaq/DAQrate/SharedMemoryEventManager.cc:296 | Filling in a body at the returned address keeps every header where the walk expects it |
| EventLayout.EventBuffer.GetFragmentCount | artdaq/DAQrate/SharedMemoryEventManager.cc:387-411 | Stops exactly at the write position, and counts the written fragments of the type - all of them for the invalid type |
| EventLayout.EventBuffer.HoldsAllIff | artdaq/DAQrate/SharedMemoryEventManager.cc:267-292 | In any state of the buffer all headers that were ever to be written are in it if and only if there was room for the last one: once a header does not fit, none does |
| EventInvariants.ExpireKeepsOwned | artdaq/DAQrate/SharedMemoryEventManager.cc:1275-1319 | The timeout check keeps active and pending disjoint, their union the buffers being written, and opened = released + active + pending |
| EventInvariants.ReleaseKeepsOwned | artdaq/DAQrate/SharedMemoryEventManager.cc:1321-1343 | Releasing the pending buffers keeps that invariant |
| EventInvariants.OpenKeepsOwned | artdaq/DAQrate/SharedMemoryEventManager.cc:1159-1189 | Opening an event keeps it, given that no buffer holds the ID |
| EventInvariants.LeaveKeepsCounted | artdaq/DAQrate/SharedMemoryEventManager.cc:1282-1343 | buffer_writes_pending_ stays the number of fragments in flight; a buffer that leaves has none |
| EventInvariants.AddKeepsTop | artdaq/DAQrate/SharedMemoryEventManager.cc:1236-1240 | Inserting into the bounded list keeps it exactly the max_event_list_length_ largest completed IDs |
| EventInvariants.WithMissingIs | artdaq/DAQrate/SharedMemoryEventManager.cc:1303-1311 | After a timeout the incomplete list has one new entry for each event that timed out, with its missing count, and the old entries unchanged |
| EventSteps.HeaderKeepsSteady | artdaq/DAQrate/SharedMemoryEventManager.cc:212-297 | WriteFragmentHeader keeps the event table invariant in every case |
| EventSteps.DoneKeepsSteady | artdaq/DAQrate/SharedMemoryEventManager.cc:299-380 | DoneWritingFragment of a fragment in flight keeps the event table invariant |
| EventSteps.AddKeepsSteady | artdaq/DAQrate/SharedMemoryEventManager.cc:142-187 | AddFragment keeps the event table invariant |
| EventSteps.CheckKeepsMid | artdaq/DAQrate/SharedMemoryEventManager.cc:1271-1372 | check_pending_buffers_ keeps the invariant wherever it is called from, also in the middle of finishing a fragment, and leaves nothing pending |
| EventRuns.RunIsSound | artdaq/DAQrate/SharedMemoryEventManager.cc:1130-1343 | In every reachable state of every run, whatever is done with dropped fragments: nothing is pending between steps, active buffers are exactly the buffers being written, with distinct IDs; opened = released + active; and the released list is the top of the completed IDs |
| EventRuns.RunIsSteady | artdaq/DAQrate/SharedMemoryEventManager.cc:1130-1343 | In every reachable state of legal runs, besides: buffer_writes_pending_ is the number of fragments in flight, an active buffer without a writer holds at least one and fewer than N fragments, and missing counts are between 1 and N - 1 |
| EventRuns.RunIsOnce | artdaq/DAQrate/SharedMemoryEventManager.cc:212-380 | In any run in which no fragment comes for an event evicted from the list, every event that ended is logged once or pending, and each buffer holds every fragment accepted for its event |
| EventRuns.ReleasedEventsAreFull | artdaq/DAQrate/SharedMemoryEventManager.cc:142-380 | In every reachable state of every run: an event that was released and is not listed as timed out had all expected fragments written, whether DoneWritingFragment or AddFragment finished it |
| EventRuns.MissingCountsAreExact | artdaq/DAQrate/SharedMemoryEventManager.cc:1303-1311 | In every reachable state of legal runs: an event that timed out is listed with the expected fragments less those ever accepted for it, between 1 and N - 1 |
| EventRuns.WrittenEventsAreReleasedOnce | artdaq/DAQrate/SharedMemoryEventManager.cc:254-373 | Any interleaving: no event is released twice or while a buffer holds it, and a released event had N fragments written or timed out; in legal runs, besides: an event with N fragments written and none in flight has been released, none is released while a fragment of it is in flight, and one that timed out is listed with exactly as many as it misses |
| EventRuns.DoneReleasesIff | artdaq/DAQrate/SharedMemoryEventManager.cc:346-373 | In legal runs DoneWritingFragment releases its event exactly when it is the last writer in flight and all expected fragments were written |
| EventReleases.CheckReleases | artdaq/DAQrate/SharedMemoryEventManager.cc:1271-1350 | A check from any state in which the buffers are owned as they should be, also in the middle of a step: it releases exactly the pending buffers and the idle stale ones, one release for each, in strictly increasing order of sequence ID, and leaves none pending |
| EventReleases.CheckReleasesIff | artdaq/DAQrate/SharedMemoryEventManager.cc:1275-1343 | In every reachable state of every run a check fills exactly the buffers being written that timed out and count no writer - in legal runs, that have no fragment in flight - and leaves all others as they were |
| EventReleases.NewEventReleasesInOrder | artdaq/DAQrate/SharedMemoryEventManager.cc:1159 | In every reachable state a fragment of a new event first makes that check, whether or not a buffer is then free for it |
| EventReleases.CheckRecords | artdaq/DAQrate/SharedMemoryEventManager.cc:1303-1311 | A check from any state a step of a legal run can be in records for each event that times out how many fragments it misses, between 1 and N - 1, without underflow |
| EventReleases.CheckReleasesInOrder | artdaq/DAQrate/SharedMemoryEventManager.cc:1271-1350 | A check in every reachable state of every run releases exactly the idle stale buffers, in strictly increasing order; in legal runs it records what each misses |
| EventReleases.DoneReleasesInOrder | artdaq/DAQrate/SharedMemoryEventManager.cc:346-373 | In every reachable state of every run DoneWritingFragment, also of a dropped fragment, releases nothing while the buffer counts another writer; else the event, if complete, sorted among the idle stale ones; in legal runs the other writers are the other fragments in flight, and what the stale ones miss is recorded |
| EventReleases.AddReleasesInOrder | artdaq/DAQrate/SharedMemoryEventManager.cc:152-187 | In every reachable state of every run AddFragment releases its event, if the fragment completes it and the buffer counts no writer, sorted among the idle stale ones; in legal runs it records what those miss, counting the new fragment |
| EventExamples.OneFragmentRun | artdaq/DAQrate/SharedMemoryEventManager.cc:212-297 | A run that meets the conditions of these theorems: an event of one fragment is opened and its only writer is in flight |
| EventRuns.TopHoldsLargerOnes | artdaq/DAQrate/SharedMemoryEventManager.cc:1236-1240 | A completed ID is in the bounded list exactly when fewer than max_event_list_length_ larger IDs were completed |
| EventRuns.CompletedEventReopensIff | artdaq/DAQrate/SharedMemoryEventManager.cc:1142-1151 | In every reachable state of every run an event that ended opens a second buffer exactly when it did not time out and at least max_event_list_length_ larger IDs have completed: protection against duplicates, and its limit |
| EventExamples.ReleasedEventReopens | artdaq/DAQrate/SharedMemoryEventManager.cc:1142-1240 | A run in which that happens: with a list of one, events 1 and 2 are released and a fragment of event 1 opens a buffer again |
| EventDropped.DroppedDoneIsHarmlessIff | artdaq/DAQrate/SharedMemoryEventManager.cc:299-373 | In every reachable state the end of a dropped fragment leaves the writer counts right if and only if no buffer holds its event, or the one that does has no fragment in flight and times out in the same call |
| EventDropped.DroppedDoneReleasesEarlyIff | artdaq/DAQrate/SharedMemoryEventManager.cc:346-373 | In every reachable state the end of a dropped fragment sends its event to art with a fragment of it in flight if and only if exactly one is and all expected fragments have been written |
| EventDropped.DroppedDoneMiscounts | artdaq/DAQrate/SharedMemoryEventManager.cc:1282 | In every reachable state of legal runs, when it is not harmless and no fragment of the event is in flight: the buffer counts -1 writers and cannot time out, and once the next header of the event is written it can, and goes to art with that fragment in flight |
| EventDropped.ReleasedWithAFragmentInFlight | artdaq/DAQrate/SharedMemoryEventManager.cc:212-380 | A run in which the end of a dropped fragment does release early: an event of one fragment is released, a second fragment of it is dropped, the event reopens for a third, and the end of the dropped one releases it and leaves the event unknown |
| DroppedData.PlaceIsExact | artdaq/DAQrate/SharedMemoryEventManager.cc:212-297 | In terms of the table: a header is refused if and only if no buffer holds its event, the event has not ended, none is offered and the caller does not ask to drop; its body goes to the store if and only if it has a buffer and does not fit, or has none and its event has ended or the caller asks; else to the buffer that holds the event, or the one offered |
| DroppedData.StoredIff | artdaq/DAQrate/SharedMemoryEventManager.cc:229-291 | In every reachable state the store gets the fragment exactly in those cases, and keeps what it had in all |
| DroppedData.NothingIsDroppedUnasked | artdaq/DAQrate/SharedMemoryEventManager.cc:220-291 | Over a run in which no caller asks to drop, only fragments of ended events and bodies that do not fit are ever in the store |
| DroppedData.DroppedDataIsKept | artdaq/DAQrate/SharedMemoryEventManager.cc:229-320 | In every reachable state of every proper run: the data of each fragment that got no buffer and is not yet done is in the store of dropped data, and its DoneWritingFragment does not detach |
| DroppedData.EndedDetachesIff | artdaq/DAQrate/SharedMemoryEventManager.cc:302-320 | In every reachable state of every run: the end of a fragment whose event has ended, and has no buffer, detaches if and only if no dropped data has its header, the event did not time out, and at least max_event_list_length_ larger IDs have been completed |
| DroppedData.UnseenDetachesIff | artdaq/DAQrate/SharedMemoryEventManager.cc:302-320 | And the end of one whose event was never seen, if and only if no dropped data has its header |
| DroppedData.DoneNeverDetaches | artdaq/DAQrate/SharedMemoryEventManager.cc:302-320 | In every reachable state of legal runs DoneWritingFragment of any fragment, in a buffer or dropped, does not detach from the shared memory |
| DroppedData.DoneMayDetach | artdaq/DAQrate/SharedMemoryEventManager.cc:302-320 | A run that is not legal in which it does: the end of a dropped fragment releases its event early, and the end of the fragment in flight finds neither buffer nor event nor dropped data |
| DroppedData.StoreIsExact | artdaq/DAQrate/SharedMemoryEventManager.cc:229-320 | In every reachable state of every proper run the store holds what waits in it plus the entries left behind: one for each body that did not fit in its buffer and for each dropped fragment that was done while a buffer held its event, less those taken out by a fragment whose event had lost its buffer |
| DroppedData.StoreEmptiesIff | artdaq/DAQrate/SharedMemoryEventManager.cc:229-320 | Once all dropped fragments are done the store is empty if and only if no step left an entry behind, in runs in which none is taken out by a fragment that has a buffer |
| DroppedData.ActsAreSteps | artdaq/DAQrate/SharedMemoryEventManager.cc:212-380 | The store does not influence the event table: with it, the table moves as in a run without it |
| EventMemory.FragmentsAreAnnounced | artdaq/DAQrate/SharedMemoryEventManager.cc:254-292 | In every reachable state of every run each buffer counts exactly the headers announced to it since it was opened, whatever was checked, released or dropped in between |
| EventMemory.WalkCountsFragmentsIff | artdaq/DAQrate/SharedMemoryEventManager.cc:267-411 | In every reachable state the walk over the memory of a buffer never counts more than the event table, and the same if and only if there was room for the last header announced to it |
| EventTokens.StartIsCoveredIff | artdaq/DAQrate/SharedMemoryEventManager.cc:929 | The tokens sent at the start of a run are covered by empty buffers if and only if the whole pool is empty |
| EventTokens.TokensNeverOvercommit | artdaq/DAQrate/SharedMemoryEventManager.cc:1352-1372 | In every reachable state of every run in which each new event comes on a token, whatever is done with dropped fragments: released <= opened <= sent <= released + queue_size_, the unused tokens are at most the empty buffers, and the unsigned subtraction does not wrap |
| EventTokens.TokenGetsBuffer | artdaq/DAQrate/SharedMemoryEventManager.cc:1159-1170 | In every such state an event that comes in on a token gets a buffer |
| EventTokens.CheckSendsTokens | artdaq/DAQrate/SharedMemoryEventManager.cc:1352-1372 | In every reachable state of every token run, whatever buffers are being written or read: after a check with routing on, the tokens sent are the greater of those sent before and the events released plus the empty buffers |
| EventTokens.EmptyBuffersHaveTokens | artdaq/DAQrate/SharedMemoryEventManager.cc:1352-1372 | So after every step that makes a check last - a check, the last writer of an event, an added fragment - there are no more empty buffers than outstanding tokens |
| EventTokens.NewEventSendsTokens | artdaq/DAQrate/SharedMemoryEventManager.cc:1159 | A new event sends those tokens before a buffer is opened for it |
| EventTokens.IdleRestoresTokens | artdaq/DAQrate/SharedMemoryEventManager.cc:1352-1372 | In every such state, once every buffer is empty, the next check leaves exactly queue_size_ tokens outstanding |
| EventTokens.OutstandingDoesNotWrap | artdaq/DAQrate/SharedMemoryEventManager.cc:1355 | Tokens sent minus events released never underflows |
| EventTokens.StepKeepsCredit | artdaq/DAQrate/SharedMemoryEventManager.cc:1352-1372 | Every step, also the end of a dropped fragment, keeps the unused tokens covered by empty buffers, given that a new event uses a token |
| EventManagers.InSequenceIsSorted | artdaq/DAQrate/SharedMemoryEventManager.cc:1258-1261 | The order made by bufferComparator lists the events of the pending buffers by increasing sequence ID, each once |
| EventManagers.EventManager.FindBuffer | artdaq/DAQrate/SharedMemoryEventManager.cc:1130-1139 | The search finds a buffer exactly when one holds the event |
| EventManagers.EventManager.SortPending | artdaq/DAQrate/SharedMemoryEventManager.cc:1321-1322 | All pending buffers, by increasing sequence ID |
| EventManagers.EventManager.MoveExpired | artdaq/DAQrate/SharedMemoryEventManager.cc:1275-1319 | The loop moves exactly the stale idle active buffers to pending and records their missing fragments |
| EventManagers.EventManager.ReleaseAllPending | artdaq/DAQrate/SharedMemoryEventManager.cc:1321-1350 | The loop marks every pending buffer full, in order, and counts it |
| EventManagers.EventManager.SendRoutingTokens | artdaq/DAQrate/SharedMemoryEventManager.cc:1352-1372 | Sends one token for each available buffer that has none, as EventTokens.CheckSendsTokens says of the specification |
| EventManagers.EventManager.CheckPendingBuffers | artdaq/DAQrate/SharedMemoryEventManager.cc:1271-1372 | The three parts together move the state as the specification of the check says |
| EventManagers.EventManager.ListReleased | artdaq/DAQrate/SharedMemoryEventManager.cc:1236-1240 | The erase loop drops the least ID when the list is over its limit |
| EventManagers.EventManager.CompleteBuffer | artdaq/DAQrate/SharedMemoryEventManager.cc:1221-1256 | A complete event goes from active to pending and onto the released list; then the pending buffers are checked |
| EventManagers.EventManager.GetBufferForSequenceID | artdaq/DAQrate/SharedMemoryEventManager.cc:1123-1204 | The buffer of the event, or a refusal because it has passed, or a newly opened buffer, or none free |
| EventManagers.EventManager.WriteFragmentHeader | artdaq/DAQrate/SharedMemoryEventManager.cc:212-297 | Keeps the invariant and moves the state as specified; says in terms of the table before the call when the header is refused, when the body goes into the store of dropped data, and into which buffer otherwise; the store changes in no other case |
| EventManagers.EventManager.TakeDropped | artdaq/DAQrate/SharedMemoryEventManager.cc:306-313 | The search takes the first entry with the header out of the store, if there is one |
| EventManagers.EventManager.DoneWritingFragment | artdaq/DAQrate/SharedMemoryEventManager.cc:299-380 | Moves the state as specified, for a fragment in flight or a dropped one, which the method cannot tell apart; the invariant survives for the first always, for the second exactly when it is harmless; without a buffer it takes the entry out of the store, and detaches exactly when there is none and the event is unknown |
| EventManagers.EventManager.FinishFragment | artdaq/DAQrate/SharedMemoryEventManager.cc:346-373 | Only the last writer in flight does the bookkeeping, and its count is dropped after it |
| EventManagers.EventManager.AddFragment | artdaq/DAQrate/SharedMemoryEventManager.cc:142-187 | Keeps the invariant, moves the state as specified; false exactly when no buffer is free |
| DataBuffers.SurvivorsAreLongestSuffix | artdaq/DAQrate/FragmentBuffer.cc:274-335 | The over-size loops keep the longest suffix within both limits: it is within them, every longer suffix is not, the depths are exact, and an empty buffer is never too large |
| DataBuffers.StaleLeaveFromFront | artdaq/DAQrate/FragmentBuffer.cc:402-423 | The age loop drops exactly the fragments at the front that are too old, up to the first that is not |
| DataBuffers.CheckPrunes | artdaq/DAQrate/FragmentBuffer.cc:378-426 | checkDataBuffer leaves a suffix with exact depths, and no kept mark if anything was dropped |
| DataBuffers.CheckIsExact | artdaq/DAQrate/FragmentBuffer.cc:378-426 | Pruning leaves the longest end of the list within the limits, without the stale fragments at its front up to the first that is not stale; in Single and Ignored mode it leaves everything |
| DataBuffers.CheckDropsOnlyWhatItMust | artdaq/DAQrate/FragmentBuffer.cc:385-425 | Afterwards the buffer is within its limits and begins with a fragment young enough; each dropped fragment was too old, or the buffer from it on was too large |
| DataBuffers.DocumentedRuleHoldsIff | artdaq/DAQrate/FragmentBuffer.hh:103-104 | After pruning, in whatever order fragments arrived, none is older than the newest by at least the timeout - the documented rule - if and only if, within the size limits, each such fragment and all in front of it were older by more than the timeout |
| DataBuffers.DocumentedRuleInOrder | artdaq/DAQrate/FragmentBuffer.hh:103-104 | For a buffer in order of timestamps: if and only if none was older by exactly the timeout |
| DataBuffers.JustTimeoutOldStays | artdaq/DAQrate/FragmentBuffer.cc:402-423 | One way the rule fails: timestamps 0 and 10 with timeout 10, and nothing is dropped |
| DataBuffers.HiddenStaleStays | artdaq/DAQrate/FragmentBuffer.cc:402-423 | The other: timestamps 20, 0, 30 with timeout 15, and the scan stops at 20 |
| DataBuffers.ReceiveKeepsDepths | artdaq/DAQrate/FragmentBuffer.cc:170-206 | Adding fragments keeps the cached depths those of the list, in every mode |
| DataBuffers.ArrivalsFindRoom | artdaq/DAQrate/FragmentBuffer.cc:170-205 | Arriving fragments are added behind what is there, in circular mode behind the longest end of it that is within the limits; in Single mode the last of them is all that is kept |
| DataBufferObjects.DataBuffer.DropOldest | artdaq/DAQrate/FragmentBuffer.cc:274-335 | The loop without an emptiness test terminates, never reads an empty list, and keeps the depths exact |
| DataBufferObjects.DataBuffer.DropBefore | artdaq/DAQrate/FragmentBuffer.cc:407-423 | The age loop as specified |
| DataBufferObjects.DataBuffer.Prune | artdaq/DAQrate/FragmentBuffer.cc:378-426 | checkDataBuffer as specified |
| DataBufferObjects.DataBuffer.Add | artdaq/DAQrate/FragmentBuffer.cc:170-206 | One data buffer's share of AddFragmentsToBuffer: room is made first in circular mode; Single mode keeps the newest only |
| DataBufferObjects.DataBuffer.RespondAll | artdaq/DAQrate/FragmentBuffer.cc:525-554 | The Buffer mode response: its content, and what stays in the buffer |
| DataBufferObjects.DataBuffer.FindStart | artdaq/DAQrate/FragmentBuffer.cc:613-627 | The backward scan stops where the specification says |
| DataBufferObjects.DataBuffer.Select | artdaq/DAQrate/FragmentBuffer.cc:629-656 | The erasing scan and the copying scan select the same fragments; the first leaves the others in order, the second changes nothing |
| DataBufferObjects.DataBuffer.FillWindow | artdaq/DAQrate/FragmentBuffer.cc:561-682 | When a window is answered, with which flag and content, and what remains, as the specification says, of which WindowAnswers.AnswerIsExact gives the meaning |
| DataBufferObjects.DataBuffer.TakeSequence | artdaq/DAQrate/FragmentBuffer.cc:751-773 | SequenceID mode: all fragments of the ID move to the output in order; the window counts as sent only if there was one |
| DataBufferObjects.DataBuffer.MoveAll | artdaq/DAQrate/FragmentBuffer.cc:433-444 | Ignored mode: everything leaves, and the depths are zero |
| Windows.ScanIsFilterIff | artdaq/DAQrate/FragmentBuffer.cc:629-656 | On any buffer the forward scan selects exactly the fragments in the window if and only if none of them hides behind one beyond the window; then it leaves exactly the others |
| Windows.BothScansFilter | artdaq/DAQrate/FragmentBuffer.cc:613-656 | On a timestamp-sorted buffer the forward scan and the timeout's backward-then-forward scan both select exactly the fragments in the window, in order, and leave the rest in order |
| Windows.FilterKeeps | artdaq/DAQrate/FragmentBuffer.cc:566-656 | What is selected and what is left is together everything, by fragments and by bytes |
| Windows.ScanKeepsBytes | artdaq/DAQrate/FragmentBuffer.cc:643-649 | The scan moves bytes and loses none, on any buffer |
| Windows.FillKeepsDepths | artdaq/DAQrate/FragmentBuffer.cc:643-678 | Answering a window keeps the cached depths exact |
| Windows.WindowIsAsDocumentedIff | artdaq/DAQrate/FragmentBuffer.hh:99-102 | For 64-bit values the window in use is the documented one, from timestamp - offset to timestamp - offset + width, if and only if it ends after 0 and timestamp + width does not wrap, or it is [0, 1); with width 0, if and only if the timestamp is above the offset |
| Windows.WindowBeforeTimeZero | artdaq/DAQrate/FragmentBuffer.cc:566-567 | A request whose window is over before time 0 is answered for [0, 1) |
| Windows.WindowPastTheEnd | artdaq/DAQrate/FragmentBuffer.cc:566-567 | A request whose end wraps is answered for an empty window |
| Windows.WindowsMeet | artdaq/DAQrate/FragmentBuffer.cc:566-567 | Of requests spaced by the width, each window begins where the one before it ends |
| Windows.BackToBackRequestsTileIff | artdaq/DAQrate/FragmentBuffer.cc:566-567 | For 64-bit requests spaced by the width, with the wrap of the last window end: the windows tile the stretch they are to cover - every 64-bit timestamp in it is in exactly one - if and only if the stretch is over before time 0, or the saturated start is in one window only and no end wraps, or it is the single window [0, 1) |
| Windows.ZeroIsInBoth | artdaq/DAQrate/FragmentBuffer.cc:566-567 | If the second request is not after the offset, timestamp 0 is in the first window and in the second |
| WindowHistory.RunKeepsInv | artdaq/DAQrate/FragmentBuffer.cc:561-682 | Over any history of arrivals in order of timestamps, pruning and requests: each fragment that arrived is in the buffer, delivered, or not younger than anything in the buffer; unflagged containers stay complete, and no container holds foreign fragments |
| WindowHistory.UnflaggedContainersAreComplete | artdaq/DAQrate/FragmentBuffer.cc:592-612 | For arrivals in order of timestamps a container without the missing-data flag holds every fragment of its window that ever arrives, but those an earlier container took in unique mode and, only with equal timestamps, those at the start of the window or, at width 0, at its end; nothing else is in any container |
| WindowHistory.DroppedAtTheStart | artdaq/DAQrate/FragmentBuffer.cc:378-426 | The first exception is real: of two fragments at the start of a window one is dropped for size, and the container is not flagged |
| WindowHistory.ArrivesAtTheEnd | artdaq/DAQrate/FragmentBuffer.cc:566-612 | So is the second: a window of width 0 is closed by its own fragment, and another one of that time arrives after the answer |
| WindowHistory.UniqueWindowsShareNothing | artdaq/DAQrate/FragmentBuffer.cc:629-656 | In whatever order fragments arrive, with unique windows each one is in at most one container, or still in the buffer |
| WindowHistory.NewAnswerIsComplete | artdaq/DAQrate/FragmentBuffer.cc:574-612 | At the moment it is made: a buffer that reaches back to the start of the window and past its end has lost nothing of the window |
| WindowDelivery.RunMirrors | artdaq/DAQrate/FragmentBuffer.cc:684-737 | Every run of the whole FragmentBuffer in Window mode is, for each fragment ID, a history of that one data buffer with the same arrivals and containers |
| WindowDelivery.UnflaggedContainersHoldTheirWindow | artdaq/DAQrate/FragmentBuffer.cc:561-737 | The promise of the missing-data flag for whole runs of the FragmentBuffer, over any requests, timeouts, pruning and circular drops, for arrivals in order of timestamps, equal ones with the same two exceptions |
| WindowDelivery.ContainersShareNothing | artdaq/DAQrate/FragmentBuffer.cc:561-737 | Over whole runs, in whatever order fragments arrive: with unique windows the fragments in the containers and in the buffer are, counted with repetitions, among those that arrived |
| WindowAnswers.AnswerIsExact | artdaq/DAQrate/FragmentBuffer.cc:561-682 | A data buffer asked for a window it has not sent answers if and only if the window has waited too long or the newest fragment is at or past its end; the container is unflagged if and only if moreover the oldest fragment is at or before its start; it holds, in whatever order data came, what a scan from the front, or for a late window from the last fragment before it, finds up to the first fragment beyond; in order of timestamps, exactly the window |
| WindowAnswers.EachRequestIsAnsweredIffDue | artdaq/DAQrate/FragmentBuffer.cc:561-737 | In every reachable state, at the turn of each request of a pass, each data buffer does so if the request is not older than the counter and has a valid timestamp, and nothing otherwise |
| WindowAnswers.PassSendsWhatIsDue | artdaq/DAQrate/FragmentBuffer.cc:684-737 | After a pass from any reachable state: an open request that has waited too long has been sent; one sent in the pass was open, and had waited too long or was reached by some fragment; if containers share their data, it was sent exactly if it had waited too long or was reached by the newest fragment |
| AnsweredRequests.EveryAnswerBearsARequest | artdaq/DAQrate/FragmentBuffer.cc:448-559 | In every reachable state, in every mode: each container and copy bears the sequence ID and timestamp of a request that was pushed; no container of Buffer mode is flagged; an empty fragment without a request comes only if missing fragments are sent |
| BufferMode.ResponseKeepsDepths | artdaq/DAQrate/FragmentBuffer.cc:516-554 | A response keeps the cached depths exact |
| BufferMode.ResponseDelivers | artdaq/DAQrate/FragmentBuffer.cc:514-555 | A response hands out exactly what is undelivered - or the kept fragment again when there is nothing - and leaves nothing undelivered |
| BufferMode.RunKeepsInv | artdaq/DAQrate/FragmentBuffer.cc:491-559 | Over any history: what left the buffer followed by what is undelivered is what arrived; a kept fragment is the last one delivered |
| BufferMode.DeliveredOnceInOrder | artdaq/DAQrate/FragmentBuffer.cc:514-555 | Responses without their repetitions deliver each fragment once, in order; when no limit is configured, together with what is undelivered they are exactly the arrivals |
| BufferMode.NothingIsDropped | artdaq/DAQrate/FragmentBuffer.cc:378-426 | When no limit is configured, no fragment ever leaves but by a response |
| BufferMode.RepeatsOnlyWhenNothingNew | artdaq/DAQrate/FragmentBuffer.cc:514-545 | A response repeats a fragment only with keep-latest and when nothing newer has arrived, and then it is just the last fragment delivered |
| BufferMode.RepetitionsAreHonest | artdaq/DAQrate/FragmentBuffer.cc:514-545 | Over any run each repetition is the last fragment that the responses before it delivered |
| BufferMode.NextResponseIs | artdaq/DAQrate/FragmentBuffer.cc:514-555 | When no limit is configured, the next response is what is undelivered; when nothing is, with keep-latest the last fragment ever delivered, and without nothing |
| BufferMode.RepeatedRequestRepeats | artdaq/DAQrate/FragmentBuffer.cc:514-555 | Whatever the limits, a request that follows another at once is answered, with keep-latest, by the last fragment of that answer, and else by nothing |
| BufferDelivery.RunMirrors | artdaq/DAQrate/FragmentBuffer.cc:491-559 | Every run of the whole FragmentBuffer in Buffer mode is, for each fragment ID, a history of that one data buffer with the same containers, whatever requests were skipped |
| BufferDelivery.EachFragmentIsDeliveredOnce | artdaq/DAQrate/FragmentBuffer.cc:491-559 | For whole runs of the FragmentBuffer the containers of a fragment ID are responses which, their repetitions left out, deliver each fragment once and in order; what left by them or by pruning, followed by what is undelivered, is what arrived - by them alone when no limit is configured; a repetition is the last fragment delivered, needs keep-latest, and comes only when nothing newer is there |
| LatestRuns.OneAnswerEach | artdaq/DAQrate/FragmentBuffer.cc:462-556 | A Single or Buffer mode answer has exactly one output for each fragment ID |
| LatestRuns.AnswersComeInOrder | artdaq/DAQrate/FragmentBuffer.cc:462-777 | In every mode the outputs for a request come in the order of their fragment IDs, each bearing the ID of its data buffer |
| LatestRuns.SkipKeepsNumbered | artdaq/DAQrate/FragmentBuffer.cc:891-908 | Skipping to a later request keeps the outputs of each fragment ID numbered without gaps when missing fragments are sent |
| LatestRuns.OneOutputPerSequenceId | artdaq/DAQrate/FragmentBuffer.cc:448-559 | Over any run of Single or Buffer mode: with missing fragments sent, the outputs for each fragment ID are numbered exactly 1, 2, ..., next_sequence_id_ - 1; without, they are a strictly increasing part of that |
| LatestRuns.LatestIsAnsweredIff | artdaq/DAQrate/FragmentBuffer.cc:448-488 | A Single or Buffer mode pass answers the latest request, leaving none pending and the counter just after it, if and only if the counter has not passed it; otherwise that request stays pending and nothing is sent |
| LatestRuns.LateRequestStaysPending | artdaq/DAQrate/FragmentBuffer.cc:448-488 | A run in which it does: 5 is answered, 3 comes late, and neither that pass nor the next one answers it |
| LatestRuns.SingleAnswersWithTheLatest | artdaq/DAQrate/FragmentBuffer.cc:180-186 | In every reachable state Single mode answers with a copy of the latest fragment that arrived for the ID, under the ID and timestamp of the request, and with an empty fragment exactly when none has arrived |
| PlainRuns.FragmentsAreConserved | artdaq/DAQrate/FragmentBuffer.cc:428-446 | SequenceID and Ignored mode, any run: no fragment is handed out twice or made up; without limits each one that arrived was handed out or is still held; in Ignored mode, unless circular mode makes room, all are whatever the limits, in order of arrival |
| PlainRuns.EachRequestTakesItsOwn | artdaq/DAQrate/FragmentBuffer.cc:739-775 | In every reachable state of SequenceID mode, at the turn of each request of a pass: each data buffer that has not sent the sequence ID hands out its fragments of it and keeps the others, and HighestRequestSeen is the greatest that asked, whether or not it found any |
| PlainRuns.TakingKeepsOrder | artdaq/DAQrate/FragmentBuffer.cc:757-773 | Those handed out and those kept are in the order in which they came |
| PlainRuns.IgnoredPassIsExact | artdaq/DAQrate/FragmentBuffer.cc:428-446 | A pass of Ignored mode empties every data buffer and leaves the counter just above the newest fragment of one of them and not below any, or where it was |
| PlainRuns.EverythingComesInOrder | artdaq/DAQrate/FragmentBuffer.cc:428-446 | What it hands out comes in the order of the fragment IDs |
| PlainRuns.TakingConserves | artdaq/DAQrate/FragmentBuffer.cc:757-773 | The fragments taken and those left are together the list, counted with repetitions |
| PlainRuns.NextIsAfterTheNewest | artdaq/DAQrate/FragmentBuffer.cc:432-438 | In Ignored mode the counter ends just above the newest fragments, or where it was |
| WindowRuns.TakingSplits | artdaq/DAQrate/FragmentBuffer.cc:757-773 | Taking a sequence ID takes all its fragments and leaves exactly the others, by fragments and by bytes |
| WindowRuns.CheckSentAdvances | artdaq/DAQrate/FragmentBuffer.cc:910-962 | One check moves the counter to just after the ID it checks or not at all, and off a complete ID always; every ID passed on the way was sent by all or is passed by the timeout, and exactly the windows in between are forgotten |
| WindowRuns.CheckEachAdvances | artdaq/DAQrate/FragmentBuffer.cc:733-736 | The same for a whole sweep |
| SentWindows.CheckIsExact | artdaq/DAQrate/FragmentBuffer.cc:910-962 | For any data buffers: a check moves the counter just past its window if and only if the window has timed out and some data buffer remembers it, or all do and it is next; over what it passes no window is remembered and no request pending, and nothing else is forgotten; only a timeout passes IDs, all of them up to the window; the request is removed once all have sent |
| SentWindows.PassSettles | artdaq/DAQrate/FragmentBuffer.cc:684-795 | After a pass from any reachable state: no window that had timed out, in the sweep or when its request was served, is remembered from the counter on; no request is pending that all data buffers have sent; in Window mode none is older than the counter |
| WindowRuns.WindowPassKeepsInv | artdaq/DAQrate/FragmentBuffer.cc:684-795 | A pass keeps: in Window mode at most one container per sequence ID and fragment ID; remembered windows were sent, and sent ones from the counter on are remembered; every ID below the counter sent or passed |
| CounterRuns.EachWindowIsSentOnce | artdaq/DAQrate/FragmentBuffer.cc:679-962 | Window and SequenceID mode, any run with any pushes: in Window mode each fragment ID answers a sequence ID at most once; every WindowsSent key was sent and is at or below HighestRequestSeen, and from next_sequence_id_ on the keys are exactly what was sent; every ID below next_sequence_id_ was sent for all fragment IDs or passed by the missing-window timeout; no key is below next_sequence_id_, in SequenceID mode if the pushes of IDs below it, at or below the watermark, are told by their distance |
| CounterRuns.WindowsSentStayAheadIff | artdaq/DAQrate/FragmentBuffer.cc:741-795 | In every reachable state no WindowsSent key is below next_sequence_id_, if and only if in no pass so far a request below it found data - in Window mode always |
| CounterExamples.OldWindowIsRemembered | artdaq/DAQrate/FragmentBuffer.cc:741-795 | A run of SequenceID mode in which one is: after requests 2^31 - 1 and 2^31 + 2, request 1 is let in again, and its window is remembered far below the counter |
| CounterAgreement.PassDrains | artdaq/DAQrate/FragmentBuffer.cc:719-736 | The sweep at the end of a pass drains the whole contiguous run of complete IDs, also when some time out on the way |
| CounterRuns.NextIsNeverComplete | artdaq/DAQrate/FragmentBuffer.cc:719-794 | In every reachable state of Window and SequenceID mode, and so after every pass, whatever is pushed: some fragment buffer has not sent next_sequence_id_ |
| CounterRuns.WatermarkIsTheCounter | artdaq/DAQrate/FragmentBuffer.cc:910-962 | With increment 1, in every reachable state of Window and SequenceID mode, whatever is pushed: highest_seen_request_ == next_sequence_id_ - 1, though the two components never exchange them |
| CounterRuns.RequestBufferKeepsUp | artdaq/DAQrate/FragmentBuffer.cc:695-960 | For any increment: if each push of an ID below next_sequence_id_ and at or below the watermark is told by its distance, no request older than next_sequence_id_ is pending and none is met in a pass |
| CounterRuns.RequestBufferKeepsUpIff | artdaq/DAQrate/FragmentBuffer.cc:695-960 | For any increment and any fragment IDs that condition is exact: over a run no old request is ever pending if and only if it is met |
| CounterAgreement.RemoveKeepsServed | artdaq/DAQrate/RequestBuffer.cc:90-122 | Removing a request makes its ID count as served, no served ID unserved and, with increment 1, no other ID served |
| CounterAgreement.WatermarkMeetsCounter | artdaq/DAQrate/RequestBuffer.cc:96-122 | With increment 1, when all IDs below the counter count as served and the next one is not complete, the watermark is just below the counter |
| CounterRuns.DepthsStayExact | artdaq/DAQrate/FragmentBuffer.cc:143-787 | In every mode, after every step of every run, the cached depths are the length and the bytes of the list |
| Arrivals.SortingIsExact | artdaq/DAQrate/FragmentBuffer.cc:143-168 | Each incoming fragment is a system fragment or belongs to the data buffer of its ID, and to no other |
| Arrivals.SortingKeepsOrder | artdaq/DAQrate/FragmentBuffer.cc:143-168 | And in the order of arrival, each as often as it came |
| Arrivals.AddIsArrivals | artdaq/DAQrate/FragmentBuffer.cc:143-210 | A call with fragments of many IDs has the effect of one arrival per fragment ID, each of fragments that bear it - so runs of arrivals are runs of calls |
| FragmentBuffers.FragmentBuffer.constructor | artdaq/DAQrate/FragmentBuffer.cc:41-63 | Empty, distinct data buffers for the declared IDs; the counter is 1 |
| FragmentBuffers.FragmentBuffer.AddFragmentsToBuffer | artdaq/DAQrate/FragmentBuffer.cc:143-210 | Fails exactly when some data fragment has an undeclared ID, and then adds no data; otherwise each data buffer receives its own fragments and system fragments are set aside, in order |
| FragmentBuffers.FragmentBuffer.GroupById | artdaq/DAQrate/FragmentBuffer.cc:143-168 | The first loop: stops at the first undeclared ID; system fragments before it have been set aside |
| FragmentBuffers.FragmentBuffer.CheckDataBuffers | artdaq/DAQrate/FragmentBuffer.hh:295-298 | All data buffers are pruned, nothing else changes |
| FragmentBuffers.FragmentBuffer.AnswerEach | artdaq/DAQrate/FragmentBuffer.cc:462-777 | Every data buffer is asked once; the outputs come in the order of the IDs |
| FragmentBuffers.FragmentBuffer.SendEmptyFragments | artdaq/DAQrate/FragmentBuffer.cc:891-908 | The counter stops at the request; one empty fragment per fragment ID and skipped sequence ID if missing fragments are sent |
| FragmentBuffers.FragmentBuffer.RemoveAllButLast | artdaq/DAQrate/FragmentBuffer.cc:451-457 | Exactly the latest request survives; the others are removed, oldest first |
| FragmentBuffers.FragmentBuffer.ApplyRequestsLatest | artdaq/DAQrate/FragmentBuffer.cc:448-559 | Single and Buffer mode move the whole state as specified |
| FragmentBuffers.FragmentBuffer.CheckSentWindows | artdaq/DAQrate/FragmentBuffer.cc:910-962 | Completion first, then the timeout, as specified |
| FragmentBuffers.FragmentBuffer.PassTimedOut | artdaq/DAQrate/FragmentBuffer.cc:944-961 | The timeout loop passes every ID up to the one that timed out |
| FragmentBuffers.FragmentBuffer.ApplyRequestsWaiting | artdaq/DAQrate/FragmentBuffer.cc:684-795 | Window and SequenceID mode move the whole state as specified: the pending requests in ascending order, then the sweep |
| FragmentBuffers.FragmentBuffer.ApplyRequestsIgnored | artdaq/DAQrate/FragmentBuffer.cc:428-446 | Everything moves to the output; the counter moves past the newest fragment of each buffer |
| ApplyCalls.CallsAreSteps | artdaq/DAQrate/FragmentBuffer.cc:143-210 | Any run of pushes, AddFragmentsToBuffer and applyRequests is a run of the steps that the theorems speak about, in which the same fragments arrive for each ID |
| ApplyCalls.CallPrunesFirst | artdaq/DAQrate/FragmentBuffer.cc:797-878 | A call of applyRequests answers from data buffers each of which is, outside Single and Ignored mode, the longest end of what it held that is within the fragment and byte limits, beginning with a fragment young enough, nothing else dropped |
| ApplyCalls.CallsStayExact | artdaq/DAQrate/FragmentBuffer.cc:143-878 | In every reachable state of any run of calls the cached depths are exact, which the theorems about one call start from |
| ApplyCalls.BufferCallIsPruned | artdaq/DAQrate/FragmentBuffer.cc:797-878 | So each container of Buffer mode is within the limits and holds just that, but for a fragment kept from the response before |
| FragmentBuffers.FragmentBuffer.ApplyRequests | artdaq/DAQrate/FragmentBuffer.cc:797-878 | Prune, hand out the system fragments, answer in the configured mode, as ApplyCalls.CallPrunesFirst says of the specification; the cached depths are exact before and after |

## Left out

- Requests.RunCompresses: runs without `GetAndClearRequests`, which forgets served IDs; what exactly it forgets is Requests.TakeAllForgets.
- EventRuns.RunIsOnce: for runs in which no fragment comes for an event already evicted from the bounded list; exactly when such an event reopens is EventRuns.CompletedEventReopensIff.
- EventRuns.WrittenEventsAreReleasedOnce: under the same condition as EventRuns.RunIsOnce, and for legal runs where it says so; EventRuns.ReleasedEventsAreFull holds of every run.
- EventRuns.MissingCountsAreExact: for legal runs, under the same condition as EventRuns.RunIsOnce, since a second buffer of an event starts empty; what one check records is EventReleases.CheckRecords, without it.
- EventRuns.DoneReleasesIff: for legal runs, under the same condition as EventRuns.RunIsOnce; what DoneWritingFragment releases in any run is EventReleases.DoneReleasesInOrder.
- EventTokens.TokensNeverOvercommit: for runs from an empty pool in which each new event comes on a token and overwrite mode is off; `WriteReadyCount` counts other buffers in overwrite mode.
- EventRuns.RunIsSteady: the writer counts, the fragments of idle buffers and the missing counts are for legal runs; what happens otherwise is EventDropped.DroppedDoneIsHarmlessIff, EventDropped.DroppedDoneReleasesEarlyIff and EventDropped.DroppedDoneMiscounts.
- EventSteps.DoneKeepsSteady: for fragments that are in flight; for dropped ones, EventDropped.DroppedDoneIsHarmlessIff.
- DroppedData.DroppedDataIsKept: this, DroppedData.StoreIsExact and DroppedData.DoneNeverDetaches are for proper runs: a fragment is done as a dropped one only if it is one that is not yet done, and a fragment whose event has lost its buffer has not the header of such a one.
- DroppedData.StoreEmptiesIff: for proper runs in which no fragment that has a buffer takes an entry out; DroppedData.StoreIsExact counts those that do.
- EventManagers.EventManager.DoneWritingFragment: the detach itself; it reports that it would detach. Headers are compared by their sequence ID, fragment ID, timestamp and size.
- EventManagers.EventManager.WriteFragmentHeader: whether the body fits is an argument, decided by EventLayout.EventBuffer.WriteHeader; the answer when no run is going on (`running_`).
- EventLayout.EventBuffer.WriteHeader: for headers that claim at least the words of a header; with fewer the subtraction at `artdaq/DAQrate/SharedMemoryEventManager.cc:270` wraps.
- EventLayout.EventBuffer.Reserve: for the same headers as EventLayout.EventBuffer.WriteHeader.
- EventMemory.WalkCountsFragmentsIff: for fragments written by header, and added ones that fit; what the `Write` of `AddFragment` does with one that does not fit is in SharedMemoryManager, which is not part of this model.
- Windows.BackToBackRequestsTileIff: for requests, widths and offsets of 64 bits and a positive width.
- WindowHistory.UnflaggedContainersAreComplete: for arrivals in the order of their timestamps, which a comment of the source assumes (`artdaq/DAQrate/FragmentBuffer.cc:602`); timestamps may be equal.
- CounterRuns.EachWindowIsSentOnce: at most one container in Window mode only; in SequenceID mode a sequence ID may have several fragments, and PlainRuns.FragmentsAreConserved says that none goes out twice.
- FragmentBuffers.FragmentBuffer.ApplyRequests: the waiting for data or requests, `check_stop`, and a request buffer that was never set.
- FragmentBuffers.FragmentBuffer.AddFragmentsToBuffer: without circular mode the source waits until the buffer is small enough or the run ends, and then adds; here it just adds.
- FragmentBuffer in non-unique windows: containers share fragments with the buffer by reference; here they are values.
- The byte totals, `run_event_count_`, sequence IDs used as counters and the writer counts are assumed not to overflow.
- The number of expected fragments per event is assumed to be at least 1.
- A missing routing table is excluded by a precondition: with a routing manager the destination is a lookup.
- Requests to the request sender, metrics, logging, statistics, and the byte format of containers.
- `endOfData`, broadcasts, init fragments, art processes and the leftovers of one run in the next.
- `UpdateFragmentHeader`: its loop does not advance the read position.
- The limit on over-size fragments (`artdaq/DAQrate/SharedMemoryEventManager.cc:281-284`).
- Mutexes, condition variables and deadlock freedom: steps are atomic.
- Routing tables, policies, TCP and the counting of end-of-data messages between senders and receivers.
