# Savina benchmarks for CAF: a verified model of the sequential core

The repository holds C++ ports of the Savina actor benchmarks for the C++
Actor Framework (CAF). Its central piece is `include/erlang_pattern_matching.hpp`,
a selective-receive tracker. Given a list of expected values, it accepts them
one at a time, in any order, and reports success once every value has arrived.
It has two kinds of slot accumulator: a word-packed bit vector and a vector of
counters with a target count.

Around the tracker, each benchmark has message handlers with small,
self-contained state machines:

- a sorted linked list with a cursor;
- the N-Queens board check, the recursive solver and the master's round-robin dispatch;
- the chameneos colour table and the mall's pairing;
- the successive over-relaxation (SOR) grid neighbours and message buffering;
- the dining philosophers' fork table;
- the sleeping barber's waiting room;
- the bounded buffer's manager;
- the filter bank stages;
- a row-major matrix;
- the all-pairs shortest path set-up: graph generation and block extraction.

The model has one Dafny module per source file:

| file | module | models |
|---|---|---|
| `pattern_matching.dfy` | `ErlangPatternMatching` | `include/erlang_pattern_matching.hpp` |
| `sorted_list.dfy` | `ConcurrentSortedList` | `src/caf/savina/savina_09_concsll.cpp` |
| `nqueens.dfy` | `NQueens` | `src/caf/savina/savina_28_nqueenk.cpp` |
| `chameneos.dfy` | `Chameneos` | `src/caf/savina/savina_06_chameneos.cpp` |
| `sor.dfy` | `Sor` | `src/caf/savina/savina_26_sor.cpp` |
| `philosophers.dfy` | `DiningPhilosophers` | `src/caf/savina/savina_11_philosopher.cpp` |
| `barber.dfy` | `SleepingBarber` | `src/caf/savina/savina_12_barber.cpp` |
| `bounded_buffer.dfy` | `BoundedBuffer` | `src/caf/savina/savina_10_bndbuffer.cpp` |
| `filter_bank.dfy` | `FilterBank` | `src/caf/savina/savina_17_filterbank.cpp` |
| `matrix.dfy` | `RowMajorMatrix` | `include/savina_helper.hpp` |
| `apsp.dfy` | `Apsp` | `src/caf/savina/savina_25_apsp.cpp` |
| `wrappers.dfy`, `arithmetic.dfy` | `Wrappers`, `Arithmetic` | support: `Option`, small lemmas on `*`, `/` and `%` |

How the source is mapped:

- **Objects that change in place become classes.** The tracker, the bit vector, the counter vector, the linked list and every actor's state are classes. Their methods change their fields and state the whole new state.
- **Handlers return their sends.** A message handler becomes a method that returns its outgoing messages as a sequence. Each message names its destination, with actors identified by index.
- **Pure code stays pure.** Pure code becomes functions, for example `complement`, `cal_pos`, the neighbour lists, the recursive N-Queens kernel and the integrator's filing rule. Loops become methods proved against those functions.
- **Whole runs are proved on a reference function.** A round of the tracker is also a datatype `Round` with a step function, `Step`. `PatternMatcher.Match` is proved to follow `Step`, and the lemmas about whole runs are proved about `Step`.
- **64-bit words are sequences.** A `uint64_t` word is a sequence of 64 booleans, with `|`, `&` and `<<` defined bit by bit.

## Model

| member | source | states |
|---|---|---|
| ErlangPatternMatching.Or | include/erlang_pattern_matching.hpp:30 | bit j of `a \| b` is `a[j] \|\| b[j]` |
| ErlangPatternMatching.And | include/erlang_pattern_matching.hpp:34 | bit j of `a & b` is `a[j] && b[j]` |
| ErlangPatternMatching.ShiftLeft | include/erlang_pattern_matching.hpp:26 | bit j of `w << m` is bit j - m of w, zero below m |
| ErlangPatternMatching.BlockIdx | include/erlang_pattern_matching.hpp:58-60 | `get_block_idx(k)` is the word r with 64 * r <= k < 64 * r + 64 |
| ErlangPatternMatching.WordCount | include/erlang_pattern_matching.hpp:24 | the constructor allocates r words with 64 * (r - 1) < n <= 64 * r: enough for n bits and not one word more |
| ErlangPatternMatching.GetMatchOf | include/erlang_pattern_matching.hpp:33-35 | `get_match(k)` on the words: word k / 64 and-ed with the block mask is non-zero (definition; `GetMatchIsBit` states it is logical bit k) |
| ErlangPatternMatching.AllMatchedWords | include/erlang_pattern_matching.hpp:37-44 | `all_matched()` as written: every word but the last is full and the last or-ed with the padding mask is full (definition; `AllMatchedChecks` states which logical bits it checks) |
| ErlangPatternMatching.BlockMask | include/erlang_pattern_matching.hpp:62-64 | `get_block_mask(k)` has exactly bit k % 64 set |
| ErlangPatternMatching.PaddingMask | include/erlang_pattern_matching.hpp:26 | the padding mask has exactly the bits at and above n % 64 set |
| ErlangPatternMatching.LogMatchOf | include/erlang_pattern_matching.hpp:29-31 | `log_a_match` keeps the number of words |
| ErlangPatternMatching.WordIsFull | include/erlang_pattern_matching.hpp:13 | a word equals `full_value` iff all its 64 bits are set |
| ErlangPatternMatching.GetMatchIsBit | include/erlang_pattern_matching.hpp:33-35 | `get_match(k)` is bit k % 64 of word k / 64 (through `get_block_idx` and `get_block_mask`, lines 58-64) |
| ErlangPatternMatching.LogMatchSetsOnlyThatBit | include/erlang_pattern_matching.hpp:29-35 | after `log_a_match(i)`, `get_match(k)` holds iff k == i or it held before: bit i is set and all other bits are unchanged |
| ErlangPatternMatching.EmptyWordsHaveNoMatch | include/erlang_pattern_matching.hpp:23-24 | a freshly built vector has no bit set |
| ErlangPatternMatching.PackedPrefix | include/erlang_pattern_matching.hpp:58-64 | the first 64 * full + m bits are set iff the first `full` words are full and word `full` has its low m bits set |
| ErlangPatternMatching.LastWordCheck | include/erlang_pattern_matching.hpp:41 | the last word passes the padding check iff its bits below n % 64 are set |
| ErlangPatternMatching.AllMatchedChecks | include/erlang_pattern_matching.hpp:23-44 | for n > 0, `all_matched()` holds iff every checked logical bit is set: all n when n % 64 != 0, only the first n - 64 when n % 64 == 0 |
| ErlangPatternMatching.AllMatchedIgnoresWholeLastWord | include/erlang_pattern_matching.hpp:26-41 | with 64 bits the mask is all ones, so an all-zero vector passes `all_matched()` although bit 0 is unset |
| ErlangPatternMatching.BitVector.Default | include/erlang_pattern_matching.hpp:17 | the default bit vector has no words |
| ErlangPatternMatching.BitVector.constructor | include/erlang_pattern_matching.hpp:23-27 | n > 0 bits: `(n - 1) / 64 + 1` empty words, no logical bit set |
| ErlangPatternMatching.BitVector.LogAMatch | include/erlang_pattern_matching.hpp:29-31 | ors the block mask into word i / 64 in place; bit i becomes set, every other bit is unchanged |
| ErlangPatternMatching.BitVector.GetMatch | include/erlang_pattern_matching.hpp:33-35 | returns logical bit i |
| ErlangPatternMatching.BitVector.AllMatched | include/erlang_pattern_matching.hpp:37-44 | the loop over all words but the last, then the padding check; true iff every checked logical bit is set |
| ErlangPatternMatching.VectorCounter.Default | include/erlang_pattern_matching.hpp:73 | the default counter vector has no slots |
| ErlangPatternMatching.VectorCounter.constructor | include/erlang_pattern_matching.hpp:79-82 | `num_matches` zero counters and the target |
| ErlangPatternMatching.VectorCounter.LogAMatch | include/erlang_pattern_matching.hpp:84-86 | slot idx grows by one, all other slots unchanged |
| ErlangPatternMatching.VectorCounter.GetMatch | include/erlang_pattern_matching.hpp:88-90 | returns the counter of slot idx |
| ErlangPatternMatching.VectorCounter.AllMatched | include/erlang_pattern_matching.hpp:92-98 | true iff every slot counter equals `count_to` exactly (an over-counted slot fails) |
| ErlangPatternMatching.FindFirst | include/erlang_pattern_matching.hpp:139-144 | none iff t is absent; otherwise the smallest position holding t |
| ErlangPatternMatching.FindLast | include/erlang_pattern_matching.hpp:146-152 | none iff t is absent; otherwise the largest position holding t |
| ErlangPatternMatching.Find | include/erlang_pattern_matching.hpp:139-144 | the forward scan loop returns FindFirst |
| ErlangPatternMatching.FindReverse | include/erlang_pattern_matching.hpp:146-152 | the reverse scan loop, turned back into a position, returns FindLast |
| ErlangPatternMatching.FindFirstUnique | include/erlang_pattern_matching.hpp:139-144 | the first occurrence is the position FindFirst returns |
| ErlangPatternMatching.FindLastUnique | include/erlang_pattern_matching.hpp:146-152 | the last occurrence is the position FindLast returns |
| ErlangPatternMatching.Search | include/erlang_pattern_matching.hpp:138-153 | the heuristic scan: forward below half the list's size, backward otherwise (definition; `SearchInDistinct` and `FoundValueIsLogged` state what it finds) |
| ErlangPatternMatching.Close | include/erlang_pattern_matching.hpp:156-163 | the completion check once recv_count reaches the list size: `failure_` is set, and `matched_` and the result are true iff the accumulator is satisfied (definition; used by `Step`) |
| ErlangPatternMatching.Step | include/erlang_pattern_matching.hpp:131-165 | one `match(t)` on the round state (definition; its properties are `FailureIsSticky`, `UnexpectedValueFails`, `FoundValueIsLogged`, `StepPreservesShape`, `StepPreservesInv`, `SuccessIsExactCover`, `CompletingStep`, and `PatternMatcher.Match` is proved to follow it) |
| ErlangPatternMatching.Run | include/erlang_pattern_matching.hpp:131-165 | feeding values keeps the list and the slot count, with one result per value |
| ErlangPatternMatching.SumUpdate | include/erlang_pattern_matching.hpp:154 | changing one slot count changes the sum by the difference |
| ErlangPatternMatching.SumZeros | include/erlang_pattern_matching.hpp:185 | fresh slot counts add up to zero |
| ErlangPatternMatching.SumOfPositivesIsLength | include/erlang_pattern_matching.hpp:154-163 | n positive counts adding up to n are all one |
| ErlangPatternMatching.SumAtLeastLength | include/erlang_pattern_matching.hpp:154-163 | n positive counts add up to at least n |
| ErlangPatternMatching.SumOfConstant | include/erlang_pattern_matching.hpp:92-98 | n counts all equal to the target add up to n * target |
| ErlangPatternMatching.FreshIsValid | include/erlang_pattern_matching.hpp:184-189 | `init` leaves recv_count 0, matched and failure false, zero slots: a state that keeps the invariant |
| ErlangPatternMatching.UnstartedRejects | include/erlang_pattern_matching.hpp:131-133 | before any `foreach`, `failure_` is true, so `match` returns false and changes nothing (`failure_` starts true at line 205) |
| ErlangPatternMatching.FailureIsSticky | include/erlang_pattern_matching.hpp:132-133 | once `failure_` is set, every later `match` returns false and changes nothing |
| ErlangPatternMatching.UnexpectedValueFails | include/erlang_pattern_matching.hpp:139-150 | a value absent from the list sets `failure_`, returns false and leaves the slots and recv_count as they were |
| ErlangPatternMatching.FoundValueIsLogged | include/erlang_pattern_matching.hpp:138-165 | a value in the list logs the slot of the heuristic's scan (first occurrence below half the list, last otherwise); that slot is below the list size and recv_count grows by one |
| ErlangPatternMatching.StepPreservesShape | include/erlang_pattern_matching.hpp:138-163 | `match` keeps recv_count <= size and the slot count equal to the list size |
| ErlangPatternMatching.StepPreservesInv | include/erlang_pattern_matching.hpp:154-163 | `match` keeps the invariant that the slot counts add up to recv_count |
| ErlangPatternMatching.RunPreservesInv | include/erlang_pattern_matching.hpp:131-165 | every sequence of `match` calls keeps the invariant |
| ErlangPatternMatching.SuccessIsExactCover | include/erlang_pattern_matching.hpp:154-163 | a call returns true only when recv_count reaches the list size with every slot logged exactly as the accumulator demands; the round is then over |
| ErlangPatternMatching.CounterSuccessNeedsTargetOne | include/erlang_pattern_matching.hpp:154-163 | with `vector_counter`, a successful call needs `count_to == 1` (with `all_matched` at lines 92-98) |
| ErlangPatternMatching.UnitFactor | include/erlang_pattern_matching.hpp:92-98 | n * target == n with n > 0 forces target == 1 |
| ErlangPatternMatching.SearchInDistinct | include/erlang_pattern_matching.hpp:138-153 | in a distinct list both scan directions find the one slot holding the value |
| ErlangPatternMatching.RunTallies | include/erlang_pattern_matching.hpp:131-165 | before the last value of a round over a distinct list, each slot count is how often its value was fed, and every call returned false |
| ErlangPatternMatching.MultisetFromTally | include/erlang_pattern_matching.hpp:154-163 | a feed drawn from a distinct list with every value once is a permutation of the list |
| ErlangPatternMatching.DistinctOccursOnce | include/erlang_pattern_matching.hpp:154-163 | each value of a distinct list occurs in it once |
| ErlangPatternMatching.PermutationMatches | include/erlang_pattern_matching.hpp:154-169 | feeding a permutation of a distinct non-empty list makes only the last call return true; `matched()` then holds |
| ErlangPatternMatching.AllOnesSatisfy | include/erlang_pattern_matching.hpp:37-98 | slots logged exactly once satisfy the bit vector and a counter with target one |
| ErlangPatternMatching.CompletingStep | include/erlang_pattern_matching.hpp:154-164 | the call that brings recv_count to the size with a satisfied accumulator sets `matched_` and returns true |
| ErlangPatternMatching.LastValueCompletesTally | include/erlang_pattern_matching.hpp:154-163 | before the last value of a permutation, its slot is zero and every other slot is one |
| ErlangPatternMatching.PermutationDrawsFromList | include/erlang_pattern_matching.hpp:139-150 | a permutation of the list has its length and only its values |
| ErlangPatternMatching.MatchedFeedIsPermutation | include/erlang_pattern_matching.hpp:154-169 | conversely, a full-length feed whose last call returns true is a permutation of the list (bit vector with size % 64 != 0, or a counter with target one) |
| ErlangPatternMatching.OnesMeanOnce | include/erlang_pattern_matching.hpp:154-163 | all slots at one after the last log means every list value occurs once in the feed |
| ErlangPatternMatching.PrefixInList | include/erlang_pattern_matching.hpp:139-150 | every value fed before a successful last call was in the list |
| ErlangPatternMatching.AbsentValueFailsForGood | include/erlang_pattern_matching.hpp:132-150 | a feed holding an absent value ends failed and its last call returns false |
| ErlangPatternMatching.AllBitsAcceptsAnyFullCount | include/erlang_pattern_matching.hpp:154-163 | the padding flaw seen from the tracker: with a 64-value list, any 64 values from the list succeed, repeats included (mask at line 26, check at line 41) |
| ErlangPatternMatching.NothingCheckedAtSixtyFour | include/erlang_pattern_matching.hpp:26-41 | with 64 slots the bit-vector check passes whatever the slots hold |
| ErlangPatternMatching.OpenWhileCounting | include/erlang_pattern_matching.hpp:154-156 | while fewer values than the list size have been fed from the list, the round stays open and unmatched |
| ErlangPatternMatching.SixtyFourCopiesMatch | include/erlang_pattern_matching.hpp:26-41 | 64 copies of the first value of a 64-value list match |
| ErlangPatternMatching.PatternMatcher.constructor | include/erlang_pattern_matching.hpp:201-205 | a default tracker: empty list, recv_count 0, `failure_` true |
| ErlangPatternMatching.PatternMatcher.ForeachBits | include/erlang_pattern_matching.hpp:114-129 | `foreach(list)` with the bit vector starts a fresh round on the list (then `init`, lines 184-189) |
| ErlangPatternMatching.PatternMatcher.ForeachCounter | include/erlang_pattern_matching.hpp:114-129 | `foreach(list, count_to)` with the counter starts a fresh round with that target (then `init`, lines 184-189) |
| ErlangPatternMatching.PatternMatcher.Restart | include/erlang_pattern_matching.hpp:171-173 | `restart()` starts a fresh round on the same list |
| ErlangPatternMatching.PatternMatcher.Init | include/erlang_pattern_matching.hpp:184-189 | `init` rebuilds the accumulator and clears recv_count, `matched_` and `failure_` |
| ErlangPatternMatching.PatternMatcher.Matched | include/erlang_pattern_matching.hpp:167-169 | returns `matched_` |
| ErlangPatternMatching.PatternMatcher.MatchList | include/erlang_pattern_matching.hpp:175-181 | returns the match list |
| ErlangPatternMatching.PatternMatcher.Match | include/erlang_pattern_matching.hpp:131-165 | `match(t)` on the classes moves the round state and returns the value exactly as `Step` does, so every lemma about `Step` and `Run` holds of the class |
| ErlangPatternMatching.PatternMatcher.Accept | include/erlang_pattern_matching.hpp:154-164 | logs the found slot, increments recv_count and runs the completion check |
| ErlangPatternMatching.PatternMatcher.LogSlot | include/erlang_pattern_matching.hpp:154 | `log_a_match` on the accumulator in use keeps it in step with the slot counts |
| ErlangPatternMatching.PatternMatcher.CheckAll | include/erlang_pattern_matching.hpp:157 | `all_matched()` on the accumulator in use decides the policy on the slot counts |
| ConcurrentSortedList.CompareTo | src/caf/savina/savina_09_concsll.cpp:94-97 | negative iff left < right, zero iff equal |
| ConcurrentSortedList.WalkFrom | src/caf/savina/savina_09_concsll.cpp:137-143 | the walk stops before the first node the item is below, having passed only nodes it is not below |
| ConcurrentSortedList.InsertionPoint | src/caf/savina/savina_09_concsll.cpp:129-146 | the insertion position is within the list |
| ConcurrentSortedList.NewHeadOnlyIfSmaller | src/caf/savina/savina_09_concsll.cpp:129-133 | a new item becomes the head iff the list is empty or the item is strictly below the head |
| ConcurrentSortedList.InsertionPointSplits | src/caf/savina/savina_09_concsll.cpp:131-138 | on a sorted list the new item goes after every item it is not below (so after all equal items) and before every larger one |
| ConcurrentSortedList.AddKeepsSorted | src/caf/savina/savina_09_concsll.cpp:127-147 | `add` keeps the list sorted nondecreasingly |
| ConcurrentSortedList.AddGrowsByItem | src/caf/savina/savina_09_concsll.cpp:127-147 | `add` grows the size by one, and the multiset of items gains exactly the new item (as counted by `size`, lines 184-192) |
| ConcurrentSortedList.AddAllSorted | src/caf/savina/savina_09_concsll.cpp:127-147 | after any sequence of `add` calls the list is sorted and holds exactly the added items |
| ConcurrentSortedList.DrainInOrder | src/caf/savina/savina_09_concsll.cpp:170-182 | repeated `next()` from a cursor yields the items from there on in list order, then null |
| ConcurrentSortedList.SortedLinkedList.constructor | src/caf/savina/savina_09_concsll.cpp:117-121 | an empty list with a null cursor |
| ConcurrentSortedList.SortedLinkedList.IsEmpty | src/caf/savina/savina_09_concsll.cpp:123-125 | true iff the list has no item |
| ConcurrentSortedList.SortedLinkedList.Add | src/caf/savina/savina_09_concsll.cpp:127-147 | the walking loop inserts the item where `Added` says; the cursor stays on its node |
| ConcurrentSortedList.SortedLinkedList.Contains | src/caf/savina/savina_09_concsll.cpp:149-158 | true iff some node compares equal to the item, that is iff the item is in the list |
| ConcurrentSortedList.SortedLinkedList.Size | src/caf/savina/savina_09_concsll.cpp:184-192 | the counting loop returns the number of items |
| ConcurrentSortedList.SortedLinkedList.Next | src/caf/savina/savina_09_concsll.cpp:170-178 | returns the cursor's item and advances, or null at the end; the items are unchanged |
| ConcurrentSortedList.SortedLinkedList.Reset | src/caf/savina/savina_09_concsll.cpp:180-182 | puts the cursor on the head |
| ConcurrentSortedList.Respond | src/caf/savina/savina_09_concsll.cpp:226-249 | a write adds its value and replies with it; contains replies 1 or 0; size replies the size; end-of-work gets no reply |
| ConcurrentSortedList.Handle | src/caf/savina/savina_09_concsll.cpp:226-249 | the list actor's handler does what `Respond` says and quits exactly on end-of-work |
| NQueens.BoardValid | src/caf/savina/savina_28_nqueenk.cpp:68-78 | true iff no two of the first n queens share a column or a diagonal |
| NQueens.ValidBoard | src/caf/savina/savina_28_nqueenk.cpp:68-78 | the reference for `board_valid`: no two of the first n queens share a column or a diagonal (definition; `BoardValid` is proved equal to it) |
| NQueens.ValidPrefix | src/caf/savina/savina_28_nqueenk.cpp:69-76 | the check is prefix-closed: valid for n implies valid for every m <= n |
| NQueens.ValidOnlyReadsPrefix | src/caf/savina/savina_28_nqueenk.cpp:69-76 | the check reads only the first n queens |
| NQueens.ExtendCompletion | src/caf/savina/savina_28_nqueenk.cpp:87-92 | the completions of a + [i] are the completions of a that put column i next |
| NQueens.CompletionColumnValid | src/caf/savina/savina_28_nqueenk.cpp:90 | the next column of a completion passes `board_valid` |
| NQueens.Kernel | src/caf/savina/savina_28_nqueenk.cpp:82-95 | the boards `nqueens_kernel_seq` sends a result for, in order: the board itself at full size, else the column loop (definition; its meaning is stated by `KernelFindsCompletions`, `KernelExtends`, `KernelNoDuplicates`) |
| NQueens.Expand | src/caf/savina/savina_28_nqueenk.cpp:87-93 | the column loop from i: for each valid next column, the kernel's boards from the extended board (definition; its meaning is stated by `ExpandFindsCompletions`, `ExpandExtends`, `ExpandNoDuplicates`) |
| NQueens.KernelFindsCompletions | src/caf/savina/savina_28_nqueenk.cpp:82-95 | from a valid prefix, `nqueens_kernel_seq` reports exactly the valid full boards extending it |
| NQueens.ExpandFindsCompletions | src/caf/savina/savina_28_nqueenk.cpp:87-93 | the column loop from i reports exactly the completions whose next column is at least i |
| NQueens.KernelExtends | src/caf/savina/savina_28_nqueenk.cpp:82-95 | every reported board has size queens and extends the prefix |
| NQueens.ExpandExtends | src/caf/savina/savina_28_nqueenk.cpp:87-93 | every board the column loop from i reports extends the prefix with a next column of at least i |
| NQueens.KernelNoDuplicates | src/caf/savina/savina_28_nqueenk.cpp:82-95 | no board is reported twice, so one result is sent per completion |
| NQueens.ExpandNoDuplicates | src/caf/savina/savina_28_nqueenk.cpp:87-93 | the column loop reports no board twice |
| NQueens.HeadColumn | src/caf/savina/savina_28_nqueenk.cpp:87-92 | every board reported from a + [i] has column i in row \|a\| |
| NQueens.DisjointConcat | src/caf/savina/savina_28_nqueenk.cpp:87-93 | boards from different columns are distinct |
| NQueens.SplitsFacts | src/caf/savina/savina_28_nqueenk.cpp:110-119 | the work items for the columns below i: at most i, each at depth + 1 and priority - 1 with a valid board extending the old one, in strictly increasing column order (so none twice), and one exactly for each valid column |
| NQueens.ParKernel | src/caf/savina/savina_28_nqueenk.cpp:102-121 | the loop's sends are `ParSends`: at full depth one result; at or past the threshold one result per board of the sequential kernel; otherwise the work items of `SplitsFacts`, one per valid next column, in column order |
| NQueens.FirstRowSplitsFour | src/caf/savina/savina_28_nqueenk.cpp:110-119 | on the empty 4 x 4 board below the threshold, the four work items for columns 0 to 3 |
| NQueens.SplitPreservesCount | src/caf/savina/savina_28_nqueenk.cpp:102-121 | splitting into work items reports as many results as the sequential kernel |
| NQueens.ChildrenPreserveCount | src/caf/savina/savina_28_nqueenk.cpp:112-119 | the work items of one split report as many results as the sequential column loop |
| NQueens.ResultsCount | src/caf/savina/savina_28_nqueenk.cpp:107-108 | n results account for n results |
| NQueens.SplitsAccountFor | src/caf/savina/savina_28_nqueenk.cpp:110-119 | the work items for the columns below i account for the tree's results from those columns |
| NQueens.ParSendsPreserveCount | src/caf/savina/savina_28_nqueenk.cpp:102-121 | for every work message, the results a worker sends plus those its work items eventually produce are exactly the sequential kernel's results from the same board |
| NQueens.WorkerHandle | src/caf/savina/savina_28_nqueenk.cpp:123-126 | a worker answers a work message with exactly `ParSends` followed by `done`, and what it sent before `done` accounts for the sequential kernel's results |
| NQueens.StopAll | src/caf/savina/savina_28_nqueenk.cpp:154-158 | one stop message per worker |
| NQueens.Master.constructor | src/caf/savina/savina_28_nqueenk.cpp:133-146 | all counters start at zero |
| NQueens.Master.SendWork | src/caf/savina/savina_28_nqueenk.cpp:147-153 | the work goes to worker `message_counter`, which stays in [0, num_workers) and equals the sends so far modulo num_workers; `num_worker_send` grows by one |
| NQueens.Master.Start | src/caf/savina/savina_28_nqueenk.cpp:164 | the first work item is the empty board at depth 0 with the configured priority |
| NQueens.Master.OnResult | src/caf/savina/savina_28_nqueenk.cpp:166-171 | counts the result; at exactly `solutions_limit` every worker is told to stop |
| NQueens.Master.OnDone | src/caf/savina/savina_28_nqueenk.cpp:172-177 | counts completed work; when it equals the work sent, every worker is told to stop |
| NQueens.Master.OnStop | src/caf/savina/savina_28_nqueenk.cpp:178-184 | counts stopped workers; when all have stopped, the result count is reported and the master stops |
| Chameneos.Complement | src/caf/savina/savina_06_chameneos.cpp:47-89 | faded iff either colour is faded; two equal colours stay; two different colours give the third colour, different from both |
| Chameneos.ComplementSymmetric | src/caf/savina/savina_06_chameneos.cpp:47-87 | `complement(c, o) == complement(o, c)` |
| Chameneos.FadedColor | src/caf/savina/savina_06_chameneos.cpp:91-93 | faded |
| Chameneos.InitialColor | src/caf/savina/savina_06_chameneos.cpp:183-186 | chameneo i starts with colour i % 3 of the enumeration: red, blue or yellow, never faded |
| Chameneos.Chameneo.constructor | src/caf/savina/savina_06_chameneos.cpp:139-141 | zero meetings and the given colour |
| Chameneos.Chameneo.Start | src/caf/savina/savina_06_chameneos.cpp:142 | the first message asks the mall for a meeting with the current colour |
| Chameneos.Chameneo.OnMeet | src/caf/savina/savina_06_chameneos.cpp:144-152 | takes the complement, counts one meeting, sends the new colour to the sender and asks the mall again |
| Chameneos.Chameneo.OnChange | src/caf/savina/savina_06_chameneos.cpp:153-158 | adopts the colour, counts one meeting, asks the mall again |
| Chameneos.Chameneo.OnExit | src/caf/savina/savina_06_chameneos.cpp:159-166 | fades, reports its meeting count to the sender and quits |
| Chameneos.MallState.constructor | src/caf/savina/savina_06_chameneos.cpp:179-180 | n meetings to arrange, nobody waiting |
| Chameneos.MallState.OnMeetingCount | src/caf/savina/savina_06_chameneos.cpp:188-195 | adds up the counts and quits once every chameneo has reported |
| Chameneos.MallState.OnMeet | src/caf/savina/savina_06_chameneos.cpp:196-209 | as written: the first chameneo waits; a second decrements n, forwards the message with the mall as sender and clears the waiter; with n <= 0 the sender is told to exit; n never goes negative |
| Chameneos.MallState.OnMeetForwarded | src/caf/savina/savina_06_chameneos.cpp:196-209 | the pairing with the second chameneo kept as the forwarded message's sender; otherwise as OnMeet |
| Chameneos.MeetingAsWritten | src/caf/savina/savina_06_chameneos.cpp:196-209 | as written, the first chameneo's change message goes to the mall; only one party counts the meeting (the chameneo's side at lines 144-152) |
| Chameneos.MeetingForwarded | src/caf/savina/savina_06_chameneos.cpp:196-209 | with the sender kept, both parties count the meeting and end with the same complement colour (the chameneos' side at lines 144-158) |
| Sor.Split | src/caf/savina/savina_26_sor.cpp:170-171 | the position splits as x = pos / ny, y = pos % ny |
| Sor.CalPos | src/caf/savina/savina_26_sor.cpp:174-176 | `cal_pos`: the row-major position x * ny + y (definition; `Split` inverts it, as `SplitCalPos` and `CalPosSplit` state) |
| Sor.CalPosSplit | src/caf/savina/savina_26_sor.cpp:170-176 | splitting then `cal_pos` gives back the position, with 0 <= y < ny |
| Sor.SplitCalPos | src/caf/savina/savina_26_sor.cpp:170-176 | `cal_pos` then splitting gives back (x, y) for 0 <= y < ny |
| Sor.CalPosInGrid | src/caf/savina/savina_26_sor.cpp:174-176 | an in-grid cell has a position in [0, nx * ny) |
| Sor.Neighbors | src/caf/savina/savina_26_sor.cpp:177-206 | interior cells get 4 neighbours, corners 2, other edge cells 3; in-grid cells never reach the empty branch |
| Sor.CellFacts | src/caf/savina/savina_26_sor.cpp:170-176 | an in-grid cell's position is in the grid and splits back into the cell |
| Sor.AdjacentCellFacts | src/caf/savina/savina_26_sor.cpp:180-200 | the same for each cell next to it that is in the grid |
| Sor.NeighborsAreAdjacent | src/caf/savina/savina_26_sor.cpp:179-202 | for nx, ny >= 2, every neighbour lies in [0, nx * ny) and is at Manhattan distance 1 |
| Sor.AdjacentAreNeighbors | src/caf/savina/savina_26_sor.cpp:179-202 | and every in-grid cell at distance 1 is listed |
| Sor.NeighborsDistinct | src/caf/savina/savina_26_sor.cpp:179-202 | and no neighbour is listed twice |
| Sor.Broadcast | src/caf/savina/savina_26_sor.cpp:246-249 | one value message per neighbour, in list order (also the start broadcast, lines 221-223) |
| Sor.Replay | src/caf/savina/savina_26_sor.cpp:227-229 | the buffered values re-sent to the actor itself, in arrival order |
| Sor.SorActor.constructor | src/caf/savina/savina_26_sor.cpp:168-213 | position split, neighbour list, counters at zero, expecting the start message |
| Sor.SorActor.OnStart | src/caf/savina/savina_26_sor.cpp:215-231 | clears the flag, records max_iter; colour 1 broadcasts and counts an iteration and a message; the pending values are replayed and the list emptied |
| Sor.SorActor.OnValue | src/caf/savina/savina_26_sor.cpp:232-259 | before start, values are only buffered; afterwards msg_rcv counts it; below max_iter received_vals counts it, resets to 0 exactly when it reaches the neighbour count, and then iter grows by one with a broadcast; reaching max_iter reports and quits; iter never passes max_iter |
| DiningPhilosophers.Arbitrator.constructor | src/caf/savina/savina_11_philosopher.cpp:79-83 | all forks start at 0 and nobody eats |
| DiningPhilosophers.Arbitrator.Hungry | src/caf/savina/savina_11_philosopher.cpp:84-97 | grants iff forks id and (id + 1) % n are both 0, then sets both to 1 and nothing else; a denial changes nothing; safety is kept |
| DiningPhilosophers.Arbitrator.Done | src/caf/savina/savina_11_philosopher.cpp:98-103 | clears exactly forks id and (id + 1) % n; when only granted philosophers send done, two philosophers sharing a fork are never granted at once |
| DiningPhilosophers.Arbitrator.Exit | src/caf/savina/savina_11_philosopher.cpp:104-109 | counts the finished philosophers |
| DiningPhilosophers.Philosopher.constructor | src/caf/savina/savina_11_philosopher.cpp:49-53 | both counters and the round count start at 0 |
| DiningPhilosophers.Philosopher.OnDenied | src/caf/savina/savina_11_philosopher.cpp:58-61 | counts the retry and asks again |
| DiningPhilosophers.Philosopher.OnEat | src/caf/savina/savina_11_philosopher.cpp:62-72 | one more round; the retries are added to the total; done goes to the arbitrator; below the round limit it starts again, otherwise it sends exit and its total |
| DiningPhilosophers.Philosopher.OnStart | src/caf/savina/savina_11_philosopher.cpp:74 | asks the arbitrator for the forks |
| SleepingBarber.BusyWait | src/caf/savina/savina_12_barber.cpp:54-61 | returns max(limit, 0) |
| SleepingBarber.WaitingRoom.constructor | src/caf/savina/savina_12_barber.cpp:81-84 | an empty queue with the barber asleep |
| SleepingBarber.WaitingRoom.Enter | src/caf/savina/savina_12_barber.cpp:94-108 | when full, replies full and changes nothing; otherwise queues the customer and either wakes the barber (and sends next) or tells the customer to wait; the queue never exceeds the capacity |
| SleepingBarber.WaitingRoom.Next | src/caf/savina/savina_12_barber.cpp:109-119 | hands the longest-waiting customer to the barber, or sends wait and sets `barber_asleep` on an empty queue; customers are served in admission order |
| SleepingBarber.WaitingRoom.OnExit | src/caf/savina/savina_12_barber.cpp:120-123 | passes exit on to the barber |
| SleepingBarber.ServedInAdmissionOrder | src/caf/savina/savina_12_barber.cpp:100-114 | in every waiting room whose invariant holds (which every handler keeps), the served customers are the first ones admitted, in order, and the next one sent to the barber is the earliest admitted customer not yet served |
| SleepingBarber.CustomerFactory.constructor | src/caf/savina/savina_12_barber.cpp:165-169 | no haircut counted yet |
| SleepingBarber.CustomerFactory.OnStart | src/caf/savina/savina_12_barber.cpp:180-185 | one new customer per haircut, each with the next id |
| SleepingBarber.CustomerFactory.OnReturned | src/caf/savina/savina_12_barber.cpp:186-189 | draws an id and sends the customer back to the room |
| SleepingBarber.CustomerFactory.OnDone | src/caf/savina/savina_12_barber.cpp:190-197 | counts the haircut; exactly the `haircuts`-th done closes the room |
| BoundedBuffer.ExitAll | src/caf/savina/savina_10_bndbuffer.cpp:180-184 | one exit message per consumer |
| BoundedBuffer.Manager.constructor | src/caf/savina/savina_10_bndbuffer.cpp:157-175 | every consumer starts available, the adjusted buffer size is buffer_size - num_producers, nothing pending |
| BoundedBuffer.Manager.Start | src/caf/savina/savina_10_bndbuffer.cpp:176-178 | one produce message per producer |
| BoundedBuffer.Manager.TryExit | src/caf/savina/savina_10_bndbuffer.cpp:185-192 | the consumers are stopped, and the manager quits, only when all producers have terminated and all consumers are available |
| BoundedBuffer.Manager.OnDataItem | src/caf/savina/savina_10_bndbuffer.cpp:194-208 | the item goes to the longest-idle consumer or is queued; the producer is parked iff the queue has reached the adjusted size, else asked for more; pending data and idle consumers are never both present; items received = delivered + pending, in order |
| BoundedBuffer.Manager.OnConsumerAvailable | src/caf/savina/savina_10_bndbuffer.cpp:209-224 | with nothing pending the consumer becomes idle and the manager may exit; otherwise it gets the oldest pending item and the longest-parked producer, if any, is woken (at most one) |
| BoundedBuffer.Manager.OnProducerExit | src/caf/savina/savina_10_bndbuffer.cpp:225-229 | counts the finished producer and tries to exit |
| BoundedBuffer.DeliveredInArrivalOrder | src/caf/savina/savina_10_bndbuffer.cpp:194-224 | in every manager whose invariant holds (which every handler keeps), the delivered items are the first ones received, in order, and the next one handed out is the earliest received item not yet delivered |
| BoundedBuffer.Producer.constructor | src/caf/savina/savina_10_bndbuffer.cpp:124-125 | no item produced yet |
| BoundedBuffer.Producer.OnProduce | src/caf/savina/savina_10_bndbuffer.cpp:133-142 | sends the next item until the quota is met, then announces its exit; the count never passes the quota |
| FilterBank.ClampChannels | src/caf/savina/savina_17_filterbank.cpp:108-111 | the channel count is clamped to [2, 34], unchanged inside it |
| FilterBank.Producer.constructor | src/caf/savina/savina_17_filterbank.cpp:153-154 | no boot sent yet |
| FilterBank.Producer.OnNext | src/caf/savina/savina_17_filterbank.cpp:156-165 | sends exactly `num_simulations` boots, then exit |
| FilterBank.Source.constructor | src/caf/savina/savina_17_filterbank.cpp:171-172 | the counter starts at 0 |
| FilterBank.Source.OnBoot | src/caf/savina/savina_17_filterbank.cpp:174-178 | the k-th boot emits k % 1000 and asks for the next boot; the counter stays in [0, 1000) |
| FilterBank.Source.OnExit | src/caf/savina/savina_17_filterbank.cpp:179-183 | passes exit on |
| FilterBank.Age | src/caf/savina/savina_17_filterbank.cpp:223 | how far a ring slot lies after the place holder, below the delay length |
| FilterBank.DelayLine.constructor | src/caf/savina/savina_17_filterbank.cpp:211-216 | delay_length zero slots, place holder 0 |
| FilterBank.DelayLine.OnValue | src/caf/savina/savina_17_filterbank.cpp:218-224 | output k is 0 for k < delay_length and input k - delay_length otherwise; the place holder stays in [0, delay_length) |
| FilterBank.Delayed | src/caf/savina/savina_17_filterbank.cpp:218-224 | output k of a delay line of length d: input k - d, or 0 while the line fills (definition; `DelayLine.OnValue` is proved to send it) |
| FilterBank.FirFilter.constructor | src/caf/savina/savina_17_filterbank.cpp:243-250 | peek_length zero slots, index 0, not full |
| FilterBank.FirFilter.OnValue | src/caf/savina/savina_17_filterbank.cpp:252-267 | the value is stored at the index, which stays in [0, peek_length); the first peek_length - 1 inputs produce nothing, every later one an output |
| FilterBank.Sampler.constructor | src/caf/savina/savina_17_filterbank.cpp:278 | no sample received |
| FilterBank.Sampler.OnValue | src/caf/savina/savina_17_filterbank.cpp:280-287 | input i is forwarded unchanged iff i % sample_rate == 0, and 0 is sent otherwise |
| FilterBank.MinOf | src/caf/savina/savina_17_filterbank.cpp:343 | the least key of a non-empty key set |
| FilterBank.Ascending | src/caf/savina/savina_17_filterbank.cpp:343-345 | the keys of a map in strictly ascending order, each once |
| FilterBank.ValuesByKey | src/caf/savina/savina_17_filterbank.cpp:341-345 | the values of a map in ascending key order, one per key |
| FilterBank.FirstLacking | src/caf/savina/savina_17_filterbank.cpp:325-333 | the first group lacking the source id; all groups before it hold the id |
| FilterBank.Filed | src/caf/savina/savina_17_filterbank.cpp:325-338 | after filing there is at least one group |
| FilterBank.FiledKeepsOrder | src/caf/savina/savina_17_filterbank.cpp:323-348 | filing, and then dropping the first group, keeps the groups filled in order: an id in a group is in every earlier group |
| FilterBank.FiledStoresValue | src/caf/savina/savina_17_filterbank.cpp:325-338 | the value lands in the first group lacking the id, or in a new last group; the id is then in exactly the groups up to that one; no other entry changes |
| FilterBank.FirstGroupIsLargest | src/caf/savina/savina_17_filterbank.cpp:339-340 | in every integrator whose invariant holds (which `OnSourceValue` keeps), a later group's ids are among an earlier one's, so no group is larger than the first and checking only the first misses no full group |
| FilterBank.SubsetSmaller | src/caf/savina/savina_17_filterbank.cpp:339-340 | a subset is no larger |
| FilterBank.Integrator.constructor | src/caf/savina/savina_17_filterbank.cpp:311-314 | no group and no exit yet |
| FilterBank.Integrator.File | src/caf/savina/savina_17_filterbank.cpp:323-338 | the loop over the groups files the value as `Filed` says |
| FilterBank.Integrator.OnSourceValue | src/caf/savina/savina_17_filterbank.cpp:319-349 | files the value; when the first group reaches `num_channels` entries, its values go out in ascending source-id order and it is removed |
| FilterBank.Integrator.OnExit | src/caf/savina/savina_17_filterbank.cpp:350-357 | counts the exits; the `num_channels`-th passes exit on and quits |
| RowMajorMatrix.IndexInRange | include/savina_helper.hpp:43-49 | an in-range cell's flat position lies inside the y * x block |
| RowMajorMatrix.IndexInjective | include/savina_helper.hpp:43-49 | with columns below the width, distinct coordinates address distinct cells |
| RowMajorMatrix.Index | include/savina_helper.hpp:43-49 | the flat position row * width + column that both `operator()` overloads address (definition; `IndexInRange` and `IndexInjective` state its properties) |
| RowMajorMatrix.Matrix2D.constructor | include/savina_helper.hpp:31-35 | y * x cells, each the default element |
| RowMajorMatrix.Matrix2D.Get | include/savina_helper.hpp:47-49 | the const `operator()` reads cell row * width + column |
| RowMajorMatrix.Matrix2D.Set | include/savina_helper.hpp:43-45 | a write through the non-const `operator()` changes only that cell, so the const `operator()` reads back the value and every other in-range cell is unchanged |
| RowMajorMatrix.Matrix2D.CopyOfLineAsWritten | include/savina_helper.hpp:51-56 | as written: `width` cells copied from flat position y on |
| RowMajorMatrix.Matrix2D.CopyOfLine | include/savina_helper.hpp:51-56 | corrected: element x is cell (y, x) |
| RowMajorMatrix.LineAsWrittenStartsInFirstRow | include/savina_helper.hpp:54 | for 0 < y < width, as-written line y starts at cell (0, y), which is not cell (y, 0) |
| RowMajorMatrix.FirstLinesAgree | include/savina_helper.hpp:51-56 | both readings agree on line 0 |
| Apsp.ArrayTabulate | src/caf/savina/savina_25_apsp.cpp:62-69 | y rows of length x, all equal to the initial value |
| Apsp.SlotsDistinct | src/caf/savina/savina_25_apsp.cpp:80-82 | every edge gets its own draw from the engine |
| Apsp.RowStartGrows | src/caf/savina/savina_25_apsp.cpp:80-82 | later rows start later in the draw sequence |
| Apsp.Weight | src/caf/savina/savina_25_apsp.cpp:82 | `next_int(random, w) + 1` (with `next_int` of lines 56-59) lies in [1, w] |
| Apsp.ApspUtils.constructor | src/caf/savina/savina_25_apsp.cpp:71-72 | an empty graph |
| Apsp.ApspUtils.GenerateGraph | src/caf/savina/savina_25_apsp.cpp:74-88 | the graph is n x n, symmetric, with a zero diagonal and off-diagonal weights in [1, w]; edge (i, j), i < j, holds the weight of its own draw |
| Apsp.FillRow | src/caf/savina/savina_25_apsp.cpp:81-85 | the inner loop fills row i above the diagonal and the mirrored column |
| Apsp.GetBlock | src/caf/savina/savina_25_apsp.cpp:90-103 | a b x b block with `local[i][j] = src[(id / (n / b)) * b + i][(id % (n / b)) * b + j]` |
| Apsp.CopyBlockRow | src/caf/savina/savina_25_apsp.cpp:98-100 | the inner loop copies one block row and leaves the others alone |
| Apsp.QuotientBelow | src/caf/savina/savina_25_apsp.cpp:95 | below k * b, the quotient by b is below k |
| Apsp.BlocksInBounds | src/caf/savina/savina_25_apsp.cpp:93-101 | when b divides n and id < (n / b)^2, `get_block` reads only inside the matrix |
| Apsp.TileNumber | src/caf/savina/savina_25_apsp.cpp:94-96 | tile numbers are below k^2, and their quotient and remainder by k are the tile's row and column |
| Apsp.BlockHoldsCell | src/caf/savina/savina_25_apsp.cpp:94-96 | the blocks tile the matrix: cell (r, c) is cell (r % b, c % b) of block (r / b) * (n / b) + c / b |

## Left out

- The CAF runtime is not modelled: spawning, mailboxes, `request`/`then`/`await`, `become`, `quit` and `caf_main`. Each handler is a transition that returns its sends. The scheduler that decides the order of deliveries is not modelled.
- Floating point is not modelled; sample values are Dafny `real` and carried through unchanged. This covers the SOR relaxation and `jgf_validate`, the FIR weighted sum, the combine stage, the h/f coefficient formulas and the bounded buffer's `process_item`.
- Randomness is an input. The drawn values are passed in, and `Apsp.ApspUtils.GenerateGraph` takes the engine as a function from draw number to value. `busy_wait`'s `drand48` calls are not modelled. The `inclusive_max + 1` overflow of `next_int` at src/caf/savina/savina_09_concsll.cpp:205 is not modelled: the list worker that draws requests is not part of this model.
- String and console output are not modelled: `to_string`, `apsp_utils::print` and `cout` logging.
- `foreach` has pointer, copy and move overloads (include/erlang_pattern_matching.hpp:113-129). They differ only in ownership, so the match list is one immutable sequence.
- ErlangPatternMatching.PatternMatcher.ForeachBits: requires a non-empty list. `bitvector(0)` underflows `num_bits - 1` at include/erlang_pattern_matching.hpp:24.
- ErlangPatternMatching.PatternMatcher.Restart: requires the bit-vector accumulator. `restart()` passes no `count_to`, so it compiles only with `bitvector`.
- The padding flaw is modelled as the code does it: with `num_bits % 64 == 0` the last word is not checked, and the consequences are proved (`AllMatchedIgnoresWholeLastWord`, `AllBitsAcceptsAnyFullCount`, `SixtyFourCopiesMatch`).
- ErlangPatternMatching.MatchedFeedIsPermutation: for the bit vector it requires a list size that is not a multiple of 64, because of the padding flaw above.
- ConcurrentSortedList.CompareTo: uses mathematical integers; the 32-bit overflow of `left - right` at src/caf/savina/savina_09_concsll.cpp:96 is not modelled.
- The linked list's nodes are represented by the sequence of their items, and the iterator by a position in it. Pointer relinking and `unique_ptr` ownership are not modelled.
- `size()` returns an `int` in the source; the model's count is unbounded.
- NQueens: the worker's `stop` echo at src/caf/savina/savina_28_nqueenk.cpp:127-130 is a single send back to the master and is not modelled; the master's side is `Master.OnStop`.
- NQueens.ParKernel: the work message's depth is required to equal the board length. The master only ever creates such messages.
- Sor.SorActor.OnStart: states no bound of iter by max_iter. A colour-1 actor started with `mi <= 0` has iter 1 above max_iter, as in the source; `OnValue` proves iter <= max_iter only for the values it counts.
- Sor: the cross-actor table `sor_actors`, the result message's payload and the `sor_source`/`sor_runner` actors are not modelled; neighbours are addressed by position.
- DiningPhilosophers.Philosopher.OnEat: `local_counter` is never reset in the source, so the total counts retries cumulatively; the model does the same.
- SleepingBarber: the barber actor and the customer actor only forward messages and call `busy_wait` with a random limit; they are not modelled. The shared atomic id counter is a field of the factory.
- FilterBank: the sink, tagged-forward, combine and bank actors are not modelled, nor are the exit forwarding of the delay, FIR and sampler stages. Each forwards exit with one send and quits.
- FilterBank.FirFilter.OnValue: the weighted sum sent from the window is left abstract; only whether an output is sent, and the window contents, are stated.
- RowMajorMatrix.Matrix2D.Set: the "other cells unchanged" part is stated for column < width. With a larger column the flat index aliases a cell of a later row, as in the source.
- include/savina_helper.hpp:20 reuses the header guard `ERLANG_PATTERN_MATCHING_HPP`, so the two headers cannot both be included; this is a build matter and is not modelled.
- Apsp: the Floyd-Warshall worker actors, their neighbour messaging and `print` are not modelled.
- These benchmarks are not part of this model: recursive matrix multiplication, banking, cigarette smokers, concurrent dictionary, counting, ping-pong, bencherl big and bencherl ehb. They are messaging over floating point, random choice, a thin map wrapper, trivial counters, or commented-out code.

## Findings

| source | as written | input that shows it | evidently intended | confidence | as-written member | corrected member |
|---|---|---|---|---|---|---|
| src/caf/savina/savina_06_chameneos.cpp:196-209 | the mall forwards the second chameneo's `meet_msg` to the waiting one with `self->send`, so the sender the receiver sees is the mall, and its `change_msg` reply goes to the mall (where no handler takes it) | mall with n = 1 and nobody waiting; chameneo a sends meet, then chameneo b sends meet | the message reaches the waiting chameneo with the second chameneo as sender (the commented-out `sender` fields of the messages), so the partner gets `change_msg` and both count the meeting | not executed | Chameneos.MeetingAsWritten | Chameneos.MeetingForwarded |
| include/savina_helper.hpp:51-56 | `get_copy_of_line(y)` copies `width_` cells from flat offset `y` | a 2 x 2 matrix and y = 1: the copy holds cells (0, 1) and (1, 0) | copy from offset `y * width_`: cells (y, 0) to (y, width - 1) | not executed | RowMajorMatrix.LineAsWrittenStartsInFirstRow | RowMajorMatrix.Matrix2D.CopyOfLine |
