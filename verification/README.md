# Verification of the quicksort family, the asynchronous buffers and the locale names

This project models four parts of the repository in Dafny and proves properties of them.

**The quicksort family** (`presentations/quicker-sorting`). The range `[begin, end)` is a slice of an
array, a pivot policy is any function that picks a position of a non-empty range, `std::partition` is
any function with the contract of ISO C++ [alg.partitions], and a library sort is any sorting
permutation, of which integers allow only one (`Ranges.SortedPermutation`).

- `Ranges`, `Slices`: order, insertion, inversions; ranges inside arrays.
- `Powers`: powers of two and the binary logarithm, used by the ring buffer too.
- `Partition`, `PartitionLoops`: what exchanging from both ends leaves, and the loops that do it.
- `Insertion`: the insertion passes, with and without bounds checks.
- `SentinelReads`: exactly when the loops without bounds checks stay inside the array.
- `PolicyQuickSort`, `PolicyQuickSortLoops`: `quick_sort` and `quick_sort_tail` for every combination of
  policies, on values and in place.
- `CutoffQuickSort`: `simple_quicksort`, and what one division comes to.
- `FatSorts`: `fat_quicksort`, when it may use the partition without bounds checks, and the insertion
  quicksorts built on it.
- `SmallSort`, `DemoPartitions`, `DemoSort`: the demonstration sorts, with work and nesting bounds.

**The ring buffer** (`src/examples/es.cpp`). `RingProtocol` is the transition system with transfers in
flight, byte by byte; `RingSignals` counts completions; `RingRuns` says what the events of a run alone
determine; `RingBuffer` is the object whose methods are
proved to take the steps of the protocol; `RingArithmetic` is about 64-bit positions and masks.

**The notifying queue and the chat server** (`src/examples/cs2.cpp`, `src/examples/chat_server.cpp`).
`NotifyingQueue` interleaves any number of threads at the critical sections; `ChatServer` has the
completion countdown and the per-client use counts.

**Composite locale names** (`cxxrt-source/src/c_locale.cpp`, `cxxrt-source/src/locale_n.cpp`):
`LocaleNames`.

## Where the code does less than one might expect

Each of these is proved, with the exact condition under which the code does keep the promise.

- The fat step compares with `<=` after nothing was found below the pivot, so it selects everything and
  hands back the same range (`mid` is shadowed). With the depth limit this costs levels; without it, the
  policies come back on every input exactly if the fat step is off
  (`PolicyQuickSort.ComesBackIffTerminating`, with equal elements as the failing input).
- The sentinel partition stays inside `[begin, end]` exactly if the range is not empty and some element of
  it, or the one `end` points to, fails the predicate (`SentinelReads.SentinelRunSafeIff`). The second
  partition of `fat_quicksort` uses a predicate the pivot satisfies, so with the sentinel partition the
  whole sort stays inside its ranges exactly if it gets to no range longer than Size whose elements are
  all equal (`FatSorts.FatRunSafeIff`).
- `monitor_swaps` counts in 32 bits; for every length, zero means "was already partitioned" on all ranges
  of that length exactly if it is below 2^33 (`DemoSort.CounterTellsIff`). The early return is sound
  regardless (`DemoSort.TryEarly`).
- `ring_buffer::stop` leaves stopped operations registered. The program's own reader and writer never
  complete an operation twice (`RingSignals.DrivenSignalsOnce`), and neither does any run in which every
  `stop` from elsewhere finds nothing registered, or a buffer not stopped before and no transfer in flight
  on the side that is not parked (`RingSignals.GuardedSignalsOnce`). In every reachable state, that is
  also what it takes for a `stop` to be harmless (`RingSignals.StopHarmlessIff`). No operation is ever
  forgotten (`RingRuns.RunIs`).
- `notifying_queue::state::notify` looks at `d_next` after leaving its critical section. Every element is
  delivered once and in order exactly if no thread enters `notify` while another is between the two
  (`NotifyingQueue.DeliveredOnceIff`); the threads of a program may be left to themselves
  exactly if there are fewer than two (`NotifyingQueue.InOrderIffOneThread`).
- `when_each` over an empty range never completes (`ChatServer.CompletedIffAny`), and a client with a failed
  read or write is never erased (`ChatServer.ErasedIffAllEnded`).
- A composed locale name gives all its components back exactly if none holds a separator and the last is
  not empty (`LocaleNames.RoundTripIff`); for the name of a combined locale this comes to what the
  environment offers for an empty name (`LocaleNames.CombinedComponentsIff`).

## Model

| member | source | states |
|---|---|---|
| Ranges.SortedPermutation | presentations/quicker-sorting/int-quicksorts.hpp:117-123 | a fallback sort has no freedom: every sorted permutation of the range is its insertion sort |
| Ranges.InsertionStep | presentations/quicker-sorting/int-quicksorts.hpp:160-164 | a walk that stops at the first element not greater inserts the element and makes one shift for each inversion it ends |
| Ranges.FewInversions | presentations/quicker-sorting/int-quicksorts.hpp:390-394 | if every inversion spans fewer than w positions, a whole insertion pass makes at most n * (w - 1) shifts |
| Ranges.FewGreater | presentations/quicker-sorting/int-quicksorts.hpp:391-393 | on such a range no single element moves w positions or more |
| Ranges.InversionsArePairs | presentations/quicker-sorting/insertionsort.hpp:46-54 | the number of inversions, to which all shift counts are equated, is the number of pairs of places in the wrong order |
| Ranges.SortedAroundPivot | presentations/quicker-sorting/demo-sort.hpp:68-75 | sorting both sides of a partitioned range sorts the range |
| Partition.ExchangeIsPartition | presentations/quicker-sorting/partition.hpp:86-104 | exchanging from both ends gives a permutation with all satisfying elements first and the returned split point |
| Partition.PartitionPoint | presentations/quicker-sorting/partition.hpp:48-50 | any partition splits a range at its number of satisfying elements |
| Partition.ExchangesCountMisplaced | presentations/quicker-sorting/demo-sort.hpp:937-964 | the number of exchanges equals the number of failing elements among the positions that end up satisfying |
| Partition.NoExchangeIffPartitioned | presentations/quicker-sorting/demo-sort.hpp:937-968 | no exchange happens exactly if the range was partitioned from the start |
| PartitionLoops.Simple | presentations/quicker-sorting/partition.hpp:63-77 | the loop over two searches leaves exactly the exchanged arrangement and split point, nothing else changes; whether the predicate holds the pivot's value or reads it from its slot makes no difference |
| PartitionLoops.Manual | presentations/quicker-sorting/int-quicksorts.hpp:526-540 | so does the loop that checks its bounds before each read |
| PartitionLoops.Sentinel | presentations/quicker-sorting/int-quicksorts.hpp:550-573 | so does the loop without bounds checks, reading only the range and the element behind it, if one of them fails the predicate |
| SentinelReads.SentinelRunSafeIff | presentations/quicker-sorting/partition.hpp:115-138 | the sentinel loops stay inside exactly if the range is not empty and some element up to the end fails; then they match the checked partition |
| SentinelReads.UnguardedRunSafeIff | presentations/quicker-sorting/insertionsort.hpp:62-70 | the unguarded insertion pass stays inside exactly if each of its elements has one in front of its start that is not greater; then it sorts |
| Insertion.InsertionSort | presentations/quicker-sorting/insertionsort.hpp:46-54 | sorts in place, with one exchange per inversion |
| Insertion.Insertion | presentations/quicker-sorting/int-quicksorts.hpp:158-166 | sorts in place, with one exchange per inversion |
| Insertion.MoveInsertion | presentations/quicker-sorting/int-quicksorts.hpp:180-194 | the version that holds the element aside does the same, with one move per inversion |
| Insertion.UnguardedPass | presentations/quicker-sorting/insertionsort.hpp:59-93 | walks without bounds checks, by exchanges or by rotation, sort everything from the start of the array if the first element is a minimum of the rest; they never read in front of it |
| Insertion.SentinelPass | presentations/quicker-sorting/int-quicksorts.hpp:378-438 | both sentinel passes sort, unguarded after the first 2 * Size elements, if these hold a floor for every later element |
| PolicyQuickSort.StepIsSound | presentations/quicker-sorting/int-quicksorts.hpp:606-617 | one activation leaves a short or sorted leaf, a permutation split around a separating pivot, or the rearranged range |
| PolicyQuickSort.FatStepStandsStill | presentations/quicker-sorting/int-quicksorts.hpp:463-473 | on equal elements the fat step hands back the same range |
| PolicyQuickSort.InnerNearlySorts | presentations/quicker-sorting/int-quicksorts.hpp:602-623 | for every pivot, partition, fallback and fat setting the recursion leaves a permutation in which no inversion spans Size elements |
| PolicyQuickSort.RunSorts | presentations/quicker-sorting/int-quicksorts.hpp:602-605 | every terminating combination of policies sorts |
| PolicyQuickSort.ComesBackIffTerminating | presentations/quicker-sorting/int-quicksorts.hpp:606-622 | a combination of policies comes back on every input exactly if it has a depth limit or no fat step |
| PolicyQuickSortLoops.DepthLimit | presentations/quicker-sorting/int-quicksorts.hpp:108-115 | the halving loop computes the even number max with 2^(max / 2) <= n < 2^(max / 2 + 1), twice the binary logarithm, and 0 for an empty range |
| Powers.Log2Is | presentations/quicker-sorting/int-quicksorts.hpp:108-115 | the binary logarithm is the one k with 2^k <= n < 2^(k + 1) |
| PolicyQuickSortLoops.InitDepth | presentations/quicker-sorting/int-quicksorts.hpp:96-115 | the depth limit of a fallback, and 0 without one |
| PolicyQuickSortLoops.StepCases | presentations/quicker-sorting/int-quicksorts.hpp:606-612 | a range shorter than Size is left alone, or sorted by the direct post pass; from the limit on the fallback sorts; everything else is divided around the pivot moved to the end |
| PolicyQuickSortLoops.Pass | presentations/quicker-sorting/int-quicksorts.hpp:649-656 | in place, one activation ends as the step on values says, and touches only its range, whether the partition reads the pivot from its slot or got its value |
| PolicyQuickSortLoops.Recursive | presentations/quicker-sorting/int-quicksorts.hpp:606-623 | the doubly recursive form terminates with the array the recursion on values gives |
| PolicyQuickSortLoops.TailRecursive | presentations/quicker-sorting/int-quicksorts.hpp:648-732 | the forms that recurse into the shorter side, reading the pivot from its slot or by value, leave exactly the same array, at most floor(log2 n) + 1 activations deep for Size >= 2, and floor(log2(n + 1)) + 1 for Size 1 |
| PolicyQuickSortLoops.NestingIs | presentations/quicker-sorting/int-quicksorts.hpp:658-671 | more than one activation on top of each other take at least 2^(nested - 1) elements, for Size 1 one less |
| PolicyQuickSortLoops.PostIsShort | presentations/quicker-sorting/int-quicksorts.hpp:371-443 | what the recursion leaves meets the floor condition of the sentinel passes and has at most n * (Size - 2) inversions |
| PolicyQuickSortLoops.PostPass | presentations/quicker-sorting/int-quicksorts.hpp:138-444 | every post pass ends with the sorted original range, within that number of shifts |
| PolicyQuickSortLoops.Sort | presentations/quicker-sorting/int-quicksorts.hpp:644-647 | all three entry points sort in place with any valid, terminating policies, leaving the same array |
| CutoffQuickSort.SimpleQuickSort | presentations/quicker-sorting/quicksort.hpp:50-60 | leaves a permutation whose inversions span at most Size elements, with any partition; the one without bounds checks wants Size >= 1 and stays in its ranges |
| FatSorts.FatQuickSort | presentations/quicker-sorting/quicksort.hpp:69-85 | so does the version that gathers the elements equal to a smallest pivot; with each of the written-out partitions it leaves the array of the recursion on values, and with the one without bounds checks it stays in its ranges if it gets to no range longer than Size of equal elements |
| FatSorts.FatSecondCallSafeIff | presentations/quicker-sorting/quicksort.hpp:78-81 | its second partition could do without bounds checks exactly if some element differs from the pivot |
| FatSorts.FatRunSafeIff | presentations/quicker-sorting/quicksort.hpp:69-85 | the whole recursion with the partition that checks no bounds stays inside its ranges exactly if it gets to no range longer than Size whose elements are all equal, and then leaves what the checked one leaves |
| FatSorts.FatRunCutsOff | presentations/quicker-sorting/quicksort.hpp:69-85 | what that recursion leaves is a permutation whose inversions span at most Size elements |
| FatSorts.FrontHoldsMinimum | presentations/quicker-sorting/quicksort.hpp:109-111 | the first Size elements then hold a floor for everything behind them |
| FatSorts.InsertionQuickSort | presentations/quicker-sorting/quicksort.hpp:104-130 | the sentinel and the rotate variants sort; the unguarded pass from begin + Size never leaves the array |
| SmallSort.Sort3 | presentations/quicker-sorting/small.hpp:45-80 | three neighbours end up sorted, the count is zero exactly if they were in order |
| SmallSort.Sort4 | presentations/quicker-sorting/small.hpp:85-108 | four neighbours end up sorted, the count is zero exactly if they were in order |
| SmallSort.Sort5 | presentations/quicker-sorting/small.hpp:113-143 | five neighbours end up sorted, the count is zero exactly if they were in order |
| DemoPartitions.LivePartition | presentations/quicker-sorting/demo-sort.hpp:507-515 | the loop that reads the pivot from its slot partitions in front of it, never moves it, and makes at most n + 1 comparisons |
| DemoPartitions.CountingPartition | presentations/quicker-sorting/demo-sort.hpp:729-753 | the loop over the whole range partitions in front of the pivot without moving it, with at most n + 3 comparisons, and its counter is the number of exchanges modulo 2^32 |
| DemoSort.LimitedInsertion | presentations/quicker-sorting/demo-sort.hpp:911-927 | keeps the elements even when it gives up in the middle of a walk; succeeds exactly if the range has fewer than eight inversions, and then sorts |
| DemoSort.IncompleteInsertion | presentations/quicker-sorting/demo-sort.hpp:893-928 | returns true exactly for at most five elements or fewer than eight inversions; true means sorted, false still a permutation |
| DemoSort.TryEarly | presentations/quicker-sorting/demo-sort.hpp:968-972 | the early return leaves a sorted range and is taken exactly if each side has at most five elements or fewer than eight inversions; otherwise the range is still divided around its pivot |
| DemoSort.ZeroSwapsIffPartitioned | presentations/quicker-sorting/demo-sort.hpp:937-968 | below 2^33 elements the counter is zero exactly if the range was already partitioned |
| DemoSort.CounterWraps | presentations/quicker-sorting/demo-sort.hpp:937-968 | at every length from 2^33 on there is a range that was not partitioned and leaves the counter at zero |
| DemoSort.CounterTellsIff | presentations/quicker-sorting/demo-sort.hpp:937-968 | for every length: a zero counter tells on all ranges of that length whether they were already partitioned, exactly if the length is below 2^33 |
| DemoSort.BudgetStep | presentations/quicker-sorting/demo-sort.hpp:724-764 | the comparisons of one division of more than twenty elements are paid for by one level of depth |
| DemoSort.IntroLoop | presentations/quicker-sorting/demo-sort.hpp:930-1015 | the looping sorts sort, nest at most floor(log2 n) + 1 deep, and spend at most 8/7 * n * (max - 1 - depth) comparisons on partitions |
| DemoSort.RunLoop | presentations/quicker-sorting/demo-sort.hpp:781-786 | from the top that is at most 8/7 * n * (2 * floor(log2 n) - 1) comparisons |
| DemoSort.IntroRecursive | presentations/quicker-sorting/demo-sort.hpp:233-250 | the doubly recursive introsort leaves inversions of at most Size elements |
| DemoSort.RunIntro | presentations/quicker-sorting/demo-sort.hpp:144-171 | with Size 1 it sorts |
| DemoSort.RunGlobalInsertion | presentations/quicker-sorting/demo-sort.hpp:257-268 | with one closing insertion pass it sorts, with at most n * (Size - 1) shifts in that pass |
| RingArithmetic.MaskIsRemainder | src/examples/es.cpp:115 | the bitwise and with 2^k - 1 is the remainder modulo 2^k |
| RingArithmetic.WrapKeepsIndex | src/examples/es.cpp:144 | the index of a position does not depend on its having wrapped at 2^64 |
| RingProtocol.RoomIs | src/examples/es.cpp:158-164 | the wrapped subtraction of positions gives the true free and filled amounts |
| RingProtocol.NextInv | src/examples/es.cpp:133-192 | every step keeps the invariant on data, regions, registrations and numbering, stops included |
| RingProtocol.InvAlways | src/examples/es.cpp:133-209 | the invariant holds after every run |
| RingProtocol.ConsumedIsPrefix | src/examples/es.cpp:141-164 | consumed bytes are a prefix of produced bytes, at most Size behind, and the difference is in the buffer |
| RingProtocol.PositionsRefineCounters | src/examples/es.cpp:115-164 | the 64-bit positions stand for unbounded counters |
| RingProtocol.RegionInside | src/examples/es.cpp:144-147 | every region handed out is contiguous, not empty and inside the array |
| RingProtocol.FilledRegionIsFree | src/examples/es.cpp:141-160 | the region being filled holds no byte still to be consumed |
| RingProtocol.RegionsApart | src/examples/es.cpp:141-164 | the region being filled and the region being drained do not meet |
| RingProtocol.TransferGoesOn | src/examples/es.cpp:144-147 | a transfer can go on byte by byte for the whole of its region, inside the array |
| RingProtocol.StartDoes | src/examples/es.cpp:133-152 | a start on a stopped buffer is signalled; on any other it gets a region of all that can be filled or drained, or as much of it as fits in front of the end of the buffer, and is registered if there is nothing |
| RingProtocol.ReportDoes | src/examples/es.cpp:181-192 | a positive report moves the position by the bytes transferred, and hands the operation registered on the other side all of them, or as many as fit in front of the end of the buffer |
| RingProtocol.EndDoes | src/examples/es.cpp:202-247 | an end of file or an error stops the buffer, moves no position, and signals the operation registered on the other side |
| RingSignals.ParkedMeans | src/examples/es.cpp:149-151 | a parked producer means full, a parked consumer empty, and both are never parked at once |
| RingSignals.AdvanceReleases | src/examples/es.cpp:184-190 | any positive advance hands the parked operation of the other side a region |
| RingSignals.DrivenSignalsOnce | src/examples/es.cpp:238-272 | with the program's reader and writer no operation is completed twice in any run |
| RingSignals.GuardedSignalsOnce | src/examples/es.cpp:133-209 | in every run in which each stop from elsewhere comes in such a state, however many there are, no operation is completed twice |
| RingSignals.EveryStartIsAnswered | src/examples/es.cpp:133-209 | in every reachable state the started operations without a signal are exactly those registered while the buffer has not been stopped |
| RingSignals.GuardedSignalsExactlyOnce | src/examples/es.cpp:133-209 | in runs whose outside stops are safe all others have had exactly one |
| RingRuns.RunIs | src/examples/es.cpp:133-272 | for every run: produced are the bytes of the transfers that reported them, in order; consumed is their prefix of the length the consumer reported; the buffer is stopped exactly if a stop came or some transfer ended or failed; and every operation started was signalled, unless it is registered and the buffer not stopped |
| RingSignals.StopHarmlessIff | src/examples/es.cpp:202-209 | in every reachable state: after a stop from elsewhere no operation is ever completed twice, however the run goes on with safe stops, exactly if none was before, and nothing is registered, or the buffer was not stopped and the side that is not parked has no transfer in flight |
| RingSignals.StoppedThenCompleted | src/examples/es.cpp:202-209 | a run on two bytes in which a stopped operation is completed again |
| RingBuffer.RingBuffer.Complete | src/examples/es.cpp:141-152 | the method takes the protocol's step |
| RingBuffer.RingBuffer.Start | src/examples/es.cpp:133-140 | the method takes the protocol's step |
| RingBuffer.RingBuffer.Stop | src/examples/es.cpp:202-209 | the method takes the protocol's step, leaving the registrations |
| RingBuffer.RingBuffer.Report | src/examples/es.cpp:184-185 | the method takes the protocol's step, with the reaction of reader and writer to n <= 0 |
| RingBuffer.RingBuffer.Finish | src/examples/es.cpp:184-190 | the method takes the protocol's step |
| NotifyingQueue.Queue.Push | src/examples/cs2.cpp:116-122 | the critical section of push appends and takes the waiter out |
| NotifyingQueue.Queue.Notify | src/examples/cs2.cpp:146-155 | the critical section of notify takes the front or registers |
| NotifyingQueue.NextInv | src/examples/cs2.cpp:115-160 | every step of every thread keeps the invariant |
| NotifyingQueue.QueueKept | src/examples/cs2.cpp:115-160 | in every interleaving elements leave in push order, one per operation; the waiting operation is in exactly one place; a registered one means an empty queue |
| NotifyingQueue.DeliveredOnceIff | src/examples/cs2.cpp:144-159 | at rest each element was delivered exactly once in push order exactly if no thread entered notify while another was between its critical section and its look at d_next |
| NotifyingQueue.InOrderIffOneThread | src/examples/cs2.cpp:115-160 | for every number of threads: all runs that come to rest deliver each element exactly once and in order, exactly if there are fewer than two |
| NotifyingQueue.SurplusIsStale | src/examples/cs2.cpp:156-158 | the surplus deliveries are those by a thread that had registered the operation itself |
| NotifyingQueue.PromptDeliversInOrder | src/examples/cs2.cpp:144-159 | if nothing cuts in between registering and checking, delivery is in order and exactly once |
| NotifyingQueue.OneThreadIsPrompt | src/examples/cs2.cpp:274-289 | a single thread always keeps to that |
| NotifyingQueue.CompletedTwice | src/examples/cs2.cpp:144-159 | with two threads or more there is a run in which one operation is completed twice |
| ChatServer.WhenEach.SetValue | src/examples/chat_server.cpp:63-72 | the method takes the countdown's step |
| ChatServer.WhenEach.SetError | src/examples/chat_server.cpp:73-80 | the method takes the countdown's step, keeping the first trouble |
| ChatServer.WhenEach.SetStopped | src/examples/chat_server.cpp:81-88 | the method takes the countdown's step, keeping the first trouble |
| ChatServer.SignalsOnceAtTheEnd | src/examples/chat_server.cpp:54-90 | for operations completing in any order: no signal before the last, exactly one with it, and it is the first outcome that is no value, if any |
| ChatServer.ValueIffAllValues | src/examples/chat_server.cpp:63-72 | the signal is a value exactly if all outcomes were |
| ChatServer.FirstTroubleIsFirst | src/examples/chat_server.cpp:73-88 | and otherwise it is the first outcome that is no value |
| ChatServer.CompletedIffAny | src/examples/chat_server.cpp:117-121 | the outer receiver is completed exactly if the range was not empty |
| ChatServer.ClientList.AddClient | src/examples/chat_server.cpp:194-195 | a new client starts with its reader as one use |
| ChatServer.ClientList.Distribute | src/examples/chat_server.cpp:181-187 | the loop takes one use of each client in the list and starts one write to each |
| ChatServer.ClientList.RemoveClient | src/examples/chat_server.cpp:170-174 | releasing the last use erases the client; the invariant is kept |
| ChatServer.AddDoes | src/examples/chat_server.cpp:190-197 | a new client comes into the list with a count of one and one operation of its own; nobody else is touched |
| ChatServer.DistributeDoes | src/examples/chat_server.cpp:181-187 | the same clients stay in the list, the count of each is one higher, and exactly one write to each was started and is outstanding |
| ChatServer.EndDoes | src/examples/chat_server.cpp:170-222 | an operation that ends with a value takes one off the count of its client, which is gone if that was the last; one that fails takes nothing off; nobody else is touched |
| ChatServer.ErasedIffAllEnded | src/examples/chat_server.cpp:170-222 | in every run no operation touches an erased client, and a client is gone exactly when its reader and all its writes ended with a value |
| LocaleNames.JoinOfSplit | cxxrt-source/src/c_locale.cpp:61-82 | joining the pieces of a name gives the name |
| LocaleNames.SplitOfJoin | cxxrt-source/src/c_locale.cpp:52-138 | splitting joined names without separators gives the names |
| LocaleNames.ExtractPart | cxxrt-source/src/c_locale.cpp:52-87 | the walk over separators copies the piece at the category's place, and fails exactly if there is none or it is last and empty |
| LocaleNames.ComposeName | cxxrt-source/src/c_locale.cpp:123-138 | the buffer ends up with the six names joined by separators |
| LocaleNames.RoundTripIff | cxxrt-source/src/c_locale.cpp:91-138 | every extractor gives its component of a composed name back exactly if no name holds a separator and the last is not empty |
| LocaleNames.PartOfJoin | cxxrt-source/src/c_locale.cpp:61-82 | from a composite name of any number of components the one at the category's place is taken, and the extractor fails exactly if there is none or it is an empty last one |
| LocaleNames.CombineNames | cxxrt-source/src/locale_n.cpp:48-63 | the name of a combined locale is composed of the chosen components, or is "*" if either name is |
| LocaleNames.CombinedSays | cxxrt-source/src/locale_n.cpp:48-63 | for names that are plain or composed of six: the combined name is composed of the components of the second where selected and of the first elsewhere, and says just these again |
| LocaleNames.CombinedWithItself | cxxrt-source/src/locale_n.cpp:48-63 | a plain name is its own component for every category, and combined with itself composes six copies |
| LocaleNames.StarIff | cxxrt-source/src/locale_n.cpp:48-52 | the combined name is a star exactly if one of the names is |
| LocaleNames.CombinedComponentsIff | cxxrt-source/src/locale_n.cpp:49-60 | every component of the combined name is the one of the second locale if its category is selected, else of the first, exactly if the environment offers no name with a separator for an empty one and the messages component is not empty |
| LocaleNames.CombinedComponents | cxxrt-source/src/locale_n.cpp:49-60 | where the environment offers no separator, each component of the combined name is the one of the second locale if its category is selected, else of the first; only an empty messages component is lost |
| LocaleNames.EmptyMessagesIff | cxxrt-source/src/c_locale.cpp:72-81 | the messages component taken from a name is empty exactly if its sixth piece is empty and not the last, or the name is empty and the environment offers the empty name |

## Left out

- The pivot policies and `median.h`: any choice of position is allowed, so they need no model.
- `fancy_move_insertion`, `small_ranges`, `partition1`, `tail_recursion`, `tail_recursion2`, `intro_local_insertion`, `simple` and `insertion_quicksort`: they recombine parts that are modelled.
- How often `std::partition` itself reads the pivot's slot: it is handed the predicate as it stands when the call starts, and it may not touch the slot.
- Undefined behaviour itself: a read outside the array, a string made from a null pointer or a touch of an erased client ends the model with no result.
- Element types other than integers, moved-from values and iterator categories.
- Sockets, schedulers, senders and coroutines: an operation in flight later completes with some outcome. `nstd/execution.hpp` is not part of this model.
- Transfers of more than INT_MAX bytes: a transfer on the ring buffer stops there, as its result is an int.
- The lifetime of operation states: operations are numbers, so an operation completed twice shows as a count of two.
- Completing the last inner operation of `when_each` while `start` is still going through the list.
- What is read from and written to the chat clients, and the end of a reader after an empty read.
- The sizes of the character buffers and the reading of the environment: the buffers are strings, and what the environment offers is a parameter.
- The facet half of `_CS_combine` and facet reference counts.
