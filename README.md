# Rossonet utilities: priority dispatcher and rule engine, modelled in Dafny

This project models the sequential core of the Rossonet Java utilities and proves properties of that model.

**Priority task dispatcher** (`org.rossonet.ext.utils.concurrent`):
- `PriorityDeque` is an array-backed min-max heap. It is modelled as a class over an `array` with `size` and `modCount` fields and a fail-fast iterator. Even depths hold minima and odd depths hold maxima.
- Bubbling up and trickling down work in place on the array. They are proved to keep the heap and the element multiset.
- `PriorityFuture` is a task with a priority that is validated to lie in [1, 10].
- `PriorityThreadPoolExecutor` orders its work queue by descending priority. It answers extremum queries and re-tags queued tasks in `changePriorities`.

**Rule engine** (`org.rossonet.ext.rules`):
- Facts, identified by name.
- The ordered rule set `Rules`.
- Rule proxies: how a name, description and priority are resolved, and how proxies compare, are equal and hash.
- The validator for annotated rule classes.
- The reader that turns maps of rule properties into rule definitions.
- The firing and checking policy of `DefaultRulesEngine`.

**Small stores** (`org.rossonet.rules.base`, `utils`, `rpc`, `sshd`):
- `RulesContext` lookups over facts, and its command registry.
- `CachedMemory` and its timed variant `BaseCachedMemory`.
- The FIFO `CommandQueue`.
- The DNS TXT-record chunk encoder and decoder of `DataInDnsHelper`.
- The thread-priority clamp of `ShellSession`.
- The state recorder `BaseSshServerStatus`.

How the model represents the Java program:
- An exception is a `Thrown(e)` outcome, and `null` is `None`.
- A comparator is a rank function `E -> int`. The natural-order and comparator code paths are one path.
- Reflection is replaced by descriptors of rule classes and methods.
- Calls into user code are function parameters (oracles). This covers invoking a condition or an action, a listener veto, and a DNS lookup.
- The clock is an explicit `now` parameter.

Where the documentation and the code disagree, the model follows the code:
- `pollFirst`, `pollLast`, `removeFirst` and `removeLast` on an empty deque throw IllegalArgumentException. This comes from the bounds check in `removeAt`. NoSuchElementException is never reached on that path.
- `getHighestPriority` and `getLeastPriority` read the head and `peekLast` of a queue ordered by descending priority. So the "highest" is the largest priority number and the "least" the smallest.

`Rule` and `Facts` are outside the model; their behaviour is taken as follows:
- For `Rule`, the constants come from the easy-rules library this code vendors: `DEFAULT_NAME = "rule"`, `DEFAULT_DESCRIPTION = "description"` and `DEFAULT_PRIORITY = Integer.MAX_VALUE - 1`.
- `Facts` is a name-keyed collection in which a later add replaces an earlier fact of the same name.

## Model

| member | source | states |
|---|---|---|
| MinMaxHeap.HeapOrder | src/main/java/org/rossonet/ext/utils/concurrent/PriorityDeque.java:263-274 | In a heap, a node on a min level is at most every descendant and a node on a max level at least every descendant (local parent/grandparent order implies the global order) |
| MinMaxHeap.RootIsMin | src/main/java/org/rossonet/ext/utils/concurrent/PriorityDeque.java:717-723 | The root of a non-empty heap has the least rank of all elements |
| HeapEdit.LastIsMax | src/main/java/org/rossonet/ext/utils/concurrent/PriorityDeque.java:727-735 | The slot peekLast picks (root when alone, else the larger root child) has the greatest rank of all elements |
| HeapArray.GetLevel | src/main/java/org/rossonet/ext/utils/concurrent/PriorityDeque.java:263-274 | The loop over powers of two returns the level of the slot's depth: min on even depths, max on odd |
| HeapArray.IndexOfBestGrandChild | src/main/java/org/rossonet/ext/utils/concurrent/PriorityDeque.java:304-325 | Returns -1 when there is no grandchild, else the grandchild that comes first on the level, earliest among those that tie |
| HeapArray.PreferredChild | src/main/java/org/rossonet/ext/utils/concurrent/PriorityDeque.java:448-464 | The child the trickle-down compares with: the left child when it comes first on the level (or is alone), otherwise the right one |
| HeapArray.SwapSlots | src/main/java/org/rossonet/ext/utils/concurrent/PriorityDeque.java:420-428 | The occupied prefix becomes the old one with the two slots exchanged; slots beyond size are untouched |
| HeapArray.Climb | src/main/java/org/rossonet/ext/utils/concurrent/PriorityDeque.java:172-202 | The bubbleUpMin/bubbleUpMax loop leaves exactly the climb of the old prefix from the start slot (HeapBubble.ClimbFrom), and nothing past the prefix changes |
| HeapBubble.ClimbSound | src/main/java/org/rossonet/ext/utils/concurrent/PriorityDeque.java:172-202 | Climbing by grandparents on one level permutes the prefix and ends with a heap, or with the displaced slot ready for trickling down |
| HeapArray.BubbleUp | src/main/java/org/rossonet/ext/utils/concurrent/PriorityDeque.java:131-148 | After the parent test and the climb, the prefix is a permutation and the displaced slot is the only place the heap may still need downward repair |
| HeapArray.TrickleStep | src/main/java/org/rossonet/ext/utils/concurrent/PriorityDeque.java:448-464 | One round picks the best grandchild and the preferred child of the old array and leaves exactly the specified swap sequence (grandchild swap, then the extra parent check) |
| HeapArray.LoopRound | src/main/java/org/rossonet/ext/utils/concurrent/PriorityDeque.java:448-464 | A round keeps the multiset and the slots before it, and either hands the repair to the grandchild on the same level or finishes with a heap |
| HeapArray.TrickleDown | src/main/java/org/rossonet/ext/utils/concurrent/PriorityDeque.java:487-503 | Trickle-down permutes the prefix, leaves slots before the index alone and changes nothing at a leaf; if only the index was out of order, the result is a heap |
| HeapEdit.Moved | src/main/java/org/rossonet/ext/utils/concurrent/PriorityDeque.java:820-837 | Moving the last element into the vacated slot drops exactly that slot's element from the multiset and keeps every other slot |
| HeapEdit.AppendDisplaced | src/main/java/org/rossonet/ext/utils/concurrent/PriorityDeque.java:676-698 | Appending to a heap disturbs only the new last slot |
| HeapEdit.NearRootReady | src/main/java/org/rossonet/ext/utils/concurrent/PriorityDeque.java:820-837 | For slots 0..2 (those pollFirst and pollLast empty), moving the last element in needs downward repair only |
| HeapEdit.DropLast | src/main/java/org/rossonet/ext/utils/concurrent/PriorityDeque.java:820-837 | Removing the last slot of a heap leaves a heap |
| PriorityDeques.HugeCapacity | src/main/java/org/rossonet/ext/utils/concurrent/PriorityDeque.java:284-289 | A negative (overflowed) request is OutOfMemoryError; otherwise the capacity is MAX_ARRAY_SIZE or Integer.MAX_VALUE and covers the request |
| PriorityDeques.GrowthPolicy | src/main/java/org/rossonet/ext/utils/concurrent/PriorityDeque.java:648-657 | A full deque of capacity below 64 grows to 2·old+2, otherwise to old+old/2 while that fits; growth is strict, and Integer.MAX_VALUE slots cannot grow |
| PriorityDeques.MoveLastAndTrickle | src/main/java/org/rossonet/ext/utils/concurrent/PriorityDeque.java:820-837 | The array after removeAt's move-and-trickle: the removed element leaves the multiset, earlier slots stay, and the result is a heap when the moved element needs no upward repair |
| PriorityDeques.MoveLastAndRepair | src/main/java/org/rossonet/ext/utils/concurrent/PriorityDeque.java:820-837 | The corrected array work of removeAt: from a heap of n + 1 elements, the n left form a heap and their multiset lacks exactly the element that was at the slot |
| PriorityDeques.AppendAndBubble | src/main/java/org/rossonet/ext/utils/concurrent/PriorityDeque.java:676-698 | Storing the element at slot size and bubbling up gives a heap holding the old elements plus the new one |
| PriorityDeques.PriorityDeque.WithCapacity | src/main/java/org/rossonet/ext/utils/concurrent/PriorityDeque.java:563-564 | Past the capacity check: an empty heap over a fresh array of exactly the requested capacity |
| PriorityDeques.NewPriorityDeque | src/main/java/org/rossonet/ext/utils/concurrent/PriorityDeque.java:557-565 | IllegalArgumentException exactly for a capacity below 1; otherwise a fresh empty heap of exactly that capacity with the given order |
| PriorityDeques.PriorityDeque.constructor | src/main/java/org/rossonet/ext/utils/concurrent/PriorityDeque.java:533-535 | An empty heap over a fresh array of the default capacity 11 |
| PriorityDeques.PriorityDeque.Size | src/main/java/org/rossonet/ext/utils/concurrent/PriorityDeque.java:916-918 | The number of elements held |
| PriorityDeques.PriorityDeque.Grow | src/main/java/org/rossonet/ext/utils/concurrent/PriorityDeque.java:648-657 | Either OutOfMemoryError with the array unchanged, or a fresh array of the new capacity whose prefix copies the old array; the elements do not change |
| PriorityDeques.PriorityDeque.Offer | src/main/java/org/rossonet/ext/utils/concurrent/PriorityDeque.java:676-698 | modCount is always bumped; null throws NullPointerException and a full int-sized deque OutOfMemoryError, both leaving the elements; otherwise true, size+1, the multiset gains exactly the element, and the heap is kept |
| PriorityDeques.PriorityDeque.MakeRoom | src/main/java/org/rossonet/ext/utils/concurrent/PriorityDeque.java:680-683 | A full array grows so that slot size exists, keeping the elements and the heap; at Integer.MAX_VALUE elements size + 1 overflows and OutOfMemoryError is thrown |
| PriorityDeques.PriorityDeque.PeekFirst | src/main/java/org/rossonet/ext/utils/concurrent/PriorityDeque.java:717-723 | None exactly when empty, otherwise slot 0, which is a minimum |
| PriorityDeques.PriorityDeque.PeekLast | src/main/java/org/rossonet/ext/utils/concurrent/PriorityDeque.java:727-735 | None exactly when empty, otherwise an element that is a maximum |
| PriorityDeques.PriorityDeque.GetFirst | src/main/java/org/rossonet/ext/utils/concurrent/PriorityDeque.java:629-636 | NoSuchElementException exactly when empty, otherwise peekFirst's element |
| PriorityDeques.PriorityDeque.GetLast | src/main/java/org/rossonet/ext/utils/concurrent/PriorityDeque.java:639-646 | NoSuchElementException exactly when empty, otherwise peekLast's element |
| PriorityDeques.PriorityDeque.RemoveAt | src/main/java/org/rossonet/ext/utils/concurrent/PriorityDeque.java:820-837 | As written: an index outside [0, size) throws IllegalArgumentException and changes nothing; otherwise it returns the slot's element and moves the last element in and trickles down, so the heap survives only when no upward repair is needed |
| PriorityDeques.PriorityDeque.RemoveAtRepaired | src/main/java/org/rossonet/ext/utils/concurrent/PriorityDeque.java:820-837 | Corrected removeAt: same errors and result, size−1, the multiset loses exactly that element, and the heap always survives |
| PriorityDeques.PriorityDeque.PollFirst | src/main/java/org/rossonet/ext/utils/concurrent/PriorityDeque.java:743-746 | modCount bumped; on an empty deque IllegalArgumentException; otherwise the old minimum is returned and removed once, and the heap is kept |
| PriorityDeques.PriorityDeque.PollLast | src/main/java/org/rossonet/ext/utils/concurrent/PriorityDeque.java:749-754 | modCount bumped; on an empty deque IllegalArgumentException; otherwise the old maximum is returned and removed once, and the heap is kept |
| PriorityDeques.RemovedNearRoot | src/main/java/org/rossonet/ext/utils/concurrent/PriorityDeque.java:743-754 | Removing slot 0, 1 or 2 of a heap with removeAt as written leaves a heap, so the missing upward repair never bites pollFirst or pollLast |
| PriorityDeques.PriorityDeque.RemoveFirst | src/main/java/org/rossonet/ext/utils/concurrent/PriorityDeque.java:860-867 | Throws exactly when empty (IllegalArgumentException, from pollFirst); otherwise removes and returns the minimum |
| PriorityDeques.PriorityDeque.RemoveLast | src/main/java/org/rossonet/ext/utils/concurrent/PriorityDeque.java:888-895 | Throws exactly when empty (IllegalArgumentException, from pollLast); otherwise removes and returns the maximum |
| PriorityDeques.PriorityDeque.IndexOf | src/main/java/org/rossonet/ext/utils/concurrent/PriorityDeque.java:291-300 | -1 for null or an absent element; otherwise the first slot holding the element |
| PriorityDeques.PriorityDeque.Contains | src/main/java/org/rossonet/ext/utils/concurrent/PriorityDeque.java:619-621 | True exactly when the argument is non-null and held |
| PriorityDeques.PriorityDeque.Remove | src/main/java/org/rossonet/ext/utils/concurrent/PriorityDeque.java:808-817 | True exactly when the element is held; then modCount+1, size−1 and exactly one copy removed; otherwise nothing changes |
| PriorityDeques.PriorityDeque.RemoveFirstOccurrence | src/main/java/org/rossonet/ext/utils/concurrent/PriorityDeque.java:870-885 | Same as remove(o): true exactly when held, then exactly one copy removed and modCount bumped, else no change |
| PriorityDeques.PriorityDeque.RemoveLastOccurrence | src/main/java/org/rossonet/ext/utils/concurrent/PriorityDeque.java:898-913 | Same promise, scanning from the last slot |
| PriorityDeques.PriorityDeque.Clear | src/main/java/org/rossonet/ext/utils/concurrent/PriorityDeque.java:590-596 | Size 0 and modCount bumped, keeping the same array |
| PriorityDeques.PriorityDeque.RemoveAtIter | src/main/java/org/rossonet/ext/utils/concurrent/PriorityDeque.java:840-857 | As written: ascending removes only below size−1 (bumping modCount) and reports whether the moved last element landed in the slot; descending removes at any index ≥ 0 and reports false |
| PriorityDeques.PriorityDeque.RemoveAtIterRepaired | src/main/java/org/rossonet/ext/utils/concurrent/PriorityDeque.java:840-857 | Corrected: every valid index removes exactly that element and keeps the heap; the report is true only when an ascending iterator must step back |
| PriorityDeques.PriorityDeque.Push | src/main/java/org/rossonet/ext/utils/concurrent/PriorityDeque.java:762-764 | Always UnsupportedOperationException |
| PriorityDeques.PriorityDeque.Pop | src/main/java/org/rossonet/ext/utils/concurrent/PriorityDeque.java:757-759 | Always UnsupportedOperationException |
| PriorityDeques.Itr.constructor | src/main/java/org/rossonet/ext/utils/concurrent/PriorityDeque.java:60-65 | Ascending starts at slot 0, descending at size−1; it records modCount and has no last-returned slot |
| PriorityDeques.Itr.HasNext | src/main/java/org/rossonet/ext/utils/concurrent/PriorityDeque.java:68-70 | True exactly when the cursor still lies inside the deque in the iteration's direction |
| PriorityDeques.Itr.Next | src/main/java/org/rossonet/ext/utils/concurrent/PriorityDeque.java:73-84 | A changed modCount throws ConcurrentModificationException and none left throws NoSuchElementException; otherwise it returns the cursor's element and steps |
| PriorityDeques.Itr.Remove | src/main/java/org/rossonet/ext/utils/concurrent/PriorityDeque.java:103-117 | A changed modCount throws ConcurrentModificationException and no last-returned slot IllegalStateException; otherwise it removes exactly that element, resynchronises modCount and steps the ascending cursor back when the moved element landed there |
| PriorityDeques.RemoveAtBreaksHeap | src/main/java/org/rossonet/ext/utils/concurrent/PriorityDeque.java:820-837 | removeAt as written, applied at slot 7 of a valid 12-element heap, leaves an array that is not a heap |
| PriorityTasks.ValidatePriority | src/main/java/org/rossonet/ext/utils/concurrent/PriorityFuture.java:43-47 | Passes exactly for priorities in [1, 10]; otherwise IllegalArgumentException |
| PriorityTasks.NewPriorityFuture | src/main/java/org/rossonet/ext/utils/concurrent/PriorityFuture.java:9-19 | IllegalArgumentException exactly for an out-of-range priority; otherwise a fresh future with that task and priority |
| PriorityTasks.PriorityFuture.constructor | src/main/java/org/rossonet/ext/utils/concurrent/PriorityFuture.java:9-19 | A future holding the task and an in-range priority |
| PriorityTasks.PriorityFuture.GetPriority | src/main/java/org/rossonet/ext/utils/concurrent/PriorityFuture.java:21-23 | The stored priority, which always lies in [1, 10] |
| PriorityTasks.PriorityFuture.SetPriority | src/main/java/org/rossonet/ext/utils/concurrent/PriorityFuture.java:33-36 | Succeeds exactly for in-range values and then stores them; otherwise IllegalArgumentException with the priority unchanged |
| PriorityTasks.PriorityFuture.ToString | src/main/java/org/rossonet/ext/utils/concurrent/PriorityFuture.java:39-41 | "Priority: " followed by digits that parse back to the priority |
| PriorityTasks.ComparatorSign | src/main/java/org/rossonet/ext/utils/concurrent/PriorityThreadPoolExecutor.java:16-21 | For in-range priorities, t2.priority − t1.priority cannot overflow and orders the higher priority first |
| PriorityTasks.Retagged | src/main/java/org/rossonet/ext/utils/concurrent/PriorityThreadPoolExecutor.java:51-67 | Same tasks in the same order; a task of the from-priority gets the to-priority, others keep theirs |
| PriorityTasks.RetaggedPriorities | src/main/java/org/rossonet/ext/utils/concurrent/PriorityThreadPoolExecutor.java:51-67 | After re-tagging no task keeps the from-priority, and every task of another priority is untouched |
| PriorityTasks.RetaggedInRange | src/main/java/org/rossonet/ext/utils/concurrent/PriorityThreadPoolExecutor.java:51-67 | Re-tagging in-range tasks to an in-range priority keeps every priority in [1, 10] |
| PriorityTasks.InRangeByMultiset | src/main/java/org/rossonet/ext/utils/concurrent/PriorityThreadPoolExecutor.java:51-67 | Rearranging the queue keeps every priority in range |
| PriorityTasks.PriorityThreadPoolExecutor.constructor | src/main/java/org/rossonet/ext/utils/concurrent/PriorityThreadPoolExecutor.java:47 | The executor keeps the empty, task-ordered queue it was built with as its work queue |
| PriorityTasks.NewPriorityThreadPoolExecutor | src/main/java/org/rossonet/ext/utils/concurrent/PriorityThreadPoolExecutor.java:27-48 | IllegalArgumentException exactly for a corePoolSize below 1, raised while the work queue is built; otherwise a fresh executor whose empty queue has corePoolSize slots and the task order |
| PriorityTasks.PriorityThreadPoolExecutor.GetHighestPriority | src/main/java/org/rossonet/ext/utils/concurrent/PriorityThreadPoolExecutor.java:71-74 | Integer.MAX_VALUE on an empty queue; otherwise a queued priority that no queued task exceeds |
| PriorityTasks.PriorityThreadPoolExecutor.GetLeastPriority | src/main/java/org/rossonet/ext/utils/concurrent/PriorityThreadPoolExecutor.java:78-81 | Integer.MIN_VALUE on an empty queue; otherwise a queued priority no queued task is below |
| PriorityTasks.PriorityThreadPoolExecutor.ChangePriorities | src/main/java/org/rossonet/ext/utils/concurrent/PriorityThreadPoolExecutor.java:51-67 | IllegalArgumentException, changing nothing, exactly when either priority is out of range or they are equal; otherwise same size and the queue holds exactly the re-tagged snapshot |
| PriorityTasks.PriorityThreadPoolExecutor.RequeueAll | src/main/java/org/rossonet/ext/utils/concurrent/PriorityThreadPoolExecutor.java:57-66 | The loop over the snapshot leaves the queue holding the re-tagged snapshot, as a valid heap of the same size |
| PriorityTasks.PriorityThreadPoolExecutor.Requeue | src/main/java/org/rossonet/ext/utils/concurrent/PriorityThreadPoolExecutor.java:61-64 | Removing a queued task and offering it with the new priority swaps exactly that one task in the multiset |
| PriorityTasks.PriorityThreadPoolExecutor.Submit | src/main/java/org/rossonet/ext/utils/concurrent/PriorityThreadPoolExecutor.java:97-104 | A null task throws NullPointerException, an out-of-range priority IllegalArgumentException; otherwise a fresh future with that task and priority |
| PriorityTasks.PriorityThreadPoolExecutor.SubmitDefault | src/main/java/org/rossonet/ext/utils/concurrent/PriorityThreadPoolExecutor.java:92-94 | A null task throws NullPointerException; otherwise a future with NORM_PRIORITY 5 |
| RuleFacts.NewFact | src/main/java/org/rossonet/ext/rules/api/Fact.java:56-61 | A fact exactly when name and value are both non-null, holding them unchanged; otherwise NullPointerException |
| RuleFacts.EqualsContract | src/main/java/org/rossonet/ext/rules/api/Fact.java:64-73 | equals (same name) is reflexive, symmetric and transitive, false for null, and equal facts have equal hash codes |
| RuleFacts.StringHashCode | src/main/java/org/rossonet/ext/rules/api/Fact.java:100-102 | The 31-based string hash stays within int |
| RuleFacts.FactHashCode | src/main/java/org/rossonet/ext/rules/api/Fact.java:100-102 | The hash stays within int (it depends on the name only, see EqualsContract) |
| RuleFacts.ValueString | src/main/java/org/rossonet/ext/rules/api/Fact.java:105-115 | Text within the limit verbatim; a longer one cut to the first limit characters followed by "[...]"; a negative limit throws StringIndexOutOfBoundsException |
| RuleFacts.FactToString | src/main/java/org/rossonet/ext/rules/api/Fact.java:105-115 | Renders Fact{name='<name>', value=<value string>} and fails exactly when the value string fails |
| RuleFacts.WithoutName | src/main/java/org/rossonet/rules/base/RulesContext.java:143-154 | Drops exactly the fact of that name (none when absent) and keeps names unique |
| RuleFacts.AddFact | src/main/java/org/rossonet/rules/base/RulesContext.java:40-42 | The added fact is the only one of its name; facts of other names are kept and nothing else appears |
| RuleFacts.GetFact | src/main/java/org/rossonet/rules/base/RulesContext.java:82-89 | None exactly when no fact has the name, else a held fact of that name |
| RuleFacts.AddedLookup | src/main/java/org/rossonet/rules/base/RulesContext.java:40-42 | Looking up a just-added name yields the added fact |
| RuleFacts.OtherLookup | src/main/java/org/rossonet/rules/base/RulesContext.java:40-42 | Adding a fact does not change lookups of other names |
| RuleFacts.LaterAddWins | src/main/java/org/rossonet/rules/base/CachedMemory.java:19-26 | Of two adds under one name, the later value is the one found |
| Context.CommandRegistry.RegisterCommand | src/main/java/org/rossonet/rules/base/RulesContext.java:26-29 | The label maps to the class (null included), and the count returned is the number of distinct labels (unchanged on re-registration) |
| Context.ValuesByClass | src/main/java/org/rossonet/rules/base/RulesContext.java:66-76 | Exactly the values whose simple class name matches or whose full class name starts with the argument |
| Context.Entries | src/main/java/org/rossonet/rules/base/RulesContext.java:128-141 | One "name - Simple [Full]" entry per fact, in order |
| Context.RulesContext.constructor | src/main/java/org/rossonet/rules/base/RulesContext.java:35-38 | Holds the given command queue and facts |
| Context.RulesContext.AddFact | src/main/java/org/rossonet/rules/base/RulesContext.java:40-42 | A null name or payload throws NullPointerException (from the Fact constructor) and keeps the facts; otherwise the fact replaces any of the same name |
| Context.RulesContext.Exec | src/main/java/org/rossonet/rules/base/RulesContext.java:48-64 | An unknown label, or a construction failure exec catches, returns normally and enqueues nothing; a label bound to null throws NullPointerException and a class without a public constructor ArrayIndexOutOfBoundsException, both escaping and enqueuing nothing; otherwise exactly one command of the registered class carrying the data |
| Context.RulesContext.GetFact | src/main/java/org/rossonet/rules/base/RulesContext.java:82-89 | None exactly when no fact has the name, else the first one that has it |
| Context.RulesContext.IsPresent | src/main/java/org/rossonet/rules/base/RulesContext.java:104-111 | True exactly when some fact has the name |
| Context.RulesContext.IsPresentByClass | src/main/java/org/rossonet/rules/base/RulesContext.java:113-122 | True exactly when some value's simple or full class name equals the argument |
| Context.RulesContext.GetByClass | src/main/java/org/rossonet/rules/base/RulesContext.java:66-76 | The matching values in iteration order |
| Context.RulesContext.ListAllFactsByClassWith | src/main/java/org/rossonet/rules/base/RulesContext.java:128-141 | The entries joined by the separator, with none leading or trailing |
| Context.RulesContext.ListAllFactsByClass | src/main/java/org/rossonet/rules/base/RulesContext.java:124-126 | The same with the default separator ", " |
| Context.RulesContext.RemoveFact | src/main/java/org/rossonet/rules/base/RulesContext.java:143-154 | Removes exactly the fact of that name, and changes nothing when there is none |
| Context.AddThenPresent | src/main/java/org/rossonet/rules/base/RulesContext.java:40-42 | After addFact(n, v), n is present and looks up to v |
| Memories.AllFacts | src/main/java/org/rossonet/rules/base/CachedMemory.java:19-26 | Adding the stored facts in order yields unique names |
| Memories.LastNamed | src/main/java/org/rossonet/rules/base/CachedMemory.java:19-26 | The last stored fact with the name, None exactly when there is none |
| Memories.AllFactsLookup | src/main/java/org/rossonet/rules/base/CachedMemory.java:19-26 | In the collected facts, each name maps to its last stored fact |
| Memories.FirstNamed | src/main/java/org/rossonet/rules/base/CachedMemory.java:28-39 | The index of the first entry with the name, −1 exactly when there is none |
| Memories.WithoutFirst | src/main/java/org/rossonet/rules/base/CachedMemory.java:28-39 | Deletes only that one index, or nothing for −1 |
| Memories.ListText | src/main/java/org/rossonet/rules/base/CachedMemory.java:46-56 | The list text exists exactly when every entry renders |
| Memories.Joined | src/main/java/org/rossonet/rules/base/CachedMemory.java:46-56 | The joined entries exist exactly when every entry renders |
| Memories.CachedMemory.constructor | src/main/java/org/rossonet/rules/base/CachedMemory.java:10-58 | Starts empty |
| Memories.CachedMemory.Clear | src/main/java/org/rossonet/rules/base/CachedMemory.java:14-16 | The memory becomes empty |
| Memories.CachedMemory.Save | src/main/java/org/rossonet/rules/base/CachedMemory.java:41-43 | Appends exactly one entry; a null name or payload throws NullPointerException and changes nothing |
| Memories.CachedMemory.Remove | src/main/java/org/rossonet/rules/base/CachedMemory.java:28-39 | Deletes only the first entry with the name, or nothing |
| Memories.CachedMemory.GetFacts | src/main/java/org/rossonet/rules/base/CachedMemory.java:19-26 | The stored facts added in order plus "mem" bound to the memory, without changing the memory |
| Memories.GetFactsContents | src/main/java/org/rossonet/rules/base/CachedMemory.java:19-26 | In getFacts, "mem" is the memory itself and every other name yields its last stored fact |
| Memories.CachedMemory.ToString | src/main/java/org/rossonet/rules/base/CachedMemory.java:46-56 | Fails exactly when one of the first 20 entries fails to render; otherwise "CachedMemory [factsMemory=" followed by the list and "]" |
| Memories.ToStringFirstTwenty | src/main/java/org/rossonet/rules/base/CachedMemory.java:46-56 | Two memories that agree on their first 20 entries render the same, so only those are listed |
| Memories.IsExpired | src/main/java/org/rossonet/rules/base/BaseCachedMemory.java:52-68 | Never expired without a lifetime; unexpired exactly while now is within createdAt + lifetime |
| Memories.IsValidNow | src/main/java/org/rossonet/rules/base/BaseCachedMemory.java:52-68 | Valid exactly inside [createdAt + delay, createdAt + lifetime], an unset bound not limiting; a valid entry is not expired |
| Memories.ValidityWindow | src/main/java/org/rossonet/rules/base/BaseCachedMemory.java:52-68 | Valid now exactly when the delay (if set) has passed and the lifetime (if set) has not run out; expired implies invalid and stays expired later |
| Memories.UntimedAlwaysValid | src/main/java/org/rossonet/rules/base/BaseCachedMemory.java:140-142 | An entry saved without windows is always valid and never expires |
| Memories.VisibleFacts | src/main/java/org/rossonet/rules/base/BaseCachedMemory.java:109-125 | A fact is returned exactly when some entry valid now carries it: every returned fact comes from such an entry, and every such entry contributes its fact |
| Memories.Unexpired | src/main/java/org/rossonet/rules/base/BaseCachedMemory.java:109-125 | Exactly the entries that have not expired remain |
| Memories.BaseCachedMemory.constructor | src/main/java/org/rossonet/rules/base/BaseCachedMemory.java:11-162 | Starts empty |
| Memories.BaseCachedMemory.Clear | src/main/java/org/rossonet/rules/base/BaseCachedMemory.java:98-100 | The memory becomes empty |
| Memories.BaseCachedMemory.Close | src/main/java/org/rossonet/rules/base/BaseCachedMemory.java:103-106 | The memory becomes empty |
| Memories.BaseCachedMemory.SaveTimed | src/main/java/org/rossonet/rules/base/BaseCachedMemory.java:144-147 | Appends one entry with the windows and creation time now; a null name or payload throws NullPointerException and changes nothing |
| Memories.BaseCachedMemory.Save | src/main/java/org/rossonet/rules/base/BaseCachedMemory.java:140-142 | Appends one entry with both windows −1; a null name or payload throws NullPointerException and changes nothing |
| Memories.BaseCachedMemory.Remove | src/main/java/org/rossonet/rules/base/BaseCachedMemory.java:127-138 | Deletes only the first entry with the name; the size drops by one exactly when there is one |
| Memories.BaseCachedMemory.GetFacts | src/main/java/org/rossonet/rules/base/BaseCachedMemory.java:109-125 | The facts of entries valid now plus "mem", and the memory keeps exactly its unexpired entries |
| Memories.LastValidNamedMeans | src/main/java/org/rossonet/rules/base/BaseCachedMemory.java:109-125 | The backward scan over the entries finds nothing exactly when no entry valid now has the name, else the fact of the last entry valid now that has it |
| Memories.VisibleLookup | src/main/java/org/rossonet/rules/base/BaseCachedMemory.java:109-125 | Adding the visible facts in order and looking a name up gives the backward scan's answer: the last valid entry wins |
| Memories.BaseGetFactsContents | src/main/java/org/rossonet/rules/base/BaseCachedMemory.java:109-125 | getFacts offers "mem" as the memory; any other name is absent exactly when no entry valid now has it, else it yields the fact of the last entry valid now with that name |
| Commands.CommandQueue.constructor | src/main/java/org/rossonet/rules/base/CommandQueue.java:8-48 | Starts empty |
| Commands.CommandQueue.Offer | src/main/java/org/rossonet/rules/base/CommandQueue.java:24-26 | Appends at the tail; null throws NullPointerException and changes nothing |
| Commands.CommandQueue.Poll | src/main/java/org/rossonet/rules/base/CommandQueue.java:28-30 | Removes and returns the head; None and no change when empty |
| Commands.CommandQueue.AsCollection | src/main/java/org/rossonet/rules/base/CommandQueue.java:12-18 | Returns all commands in FIFO order and leaves the queue empty |
| Commands.CommandQueue.Clear | src/main/java/org/rossonet/rules/base/CommandQueue.java:20-22 | The queue becomes empty |
| Commands.CommandQueue.Size | src/main/java/org/rossonet/rules/base/CommandQueue.java:32-34 | The number of queued commands |
| Commands.CommandQueue.ToString | src/main/java/org/rossonet/rules/base/CommandQueue.java:37-46 | "CommandQueue [size=" then digits that parse back to the size, then "]" |
| Commands.FifoOrder | src/main/java/org/rossonet/rules/base/CommandQueue.java:24-30 | Offering a then b to an empty queue polls a then b and leaves it empty |
| DnsData.Chunks | src/main/java/org/rossonet/utils/DataInDnsHelper.java:64 | Consecutive non-empty chunks of at most 254 characters whose concatenation is the data, ⌈n/254⌉ of them (one empty chunk for empty data) |
| DnsData.PrepareStringAsDnsHostRecord | src/main/java/org/rossonet/utils/DataInDnsHelper.java:63-74 | The loop builds one TXT line per chunk, then the index line carrying the count |
| DnsData.ChunkLinesCount | src/main/java/org/rossonet/utils/DataInDnsHelper.java:65-70 | One line per chunk |
| DnsData.RecordsLineCount | src/main/java/org/rossonet/utils/DataInDnsHelper.java:65-73 | The records have the chunk count plus one lines |
| DnsData.ChunksWithout | src/main/java/org/rossonet/utils/DataInDnsHelper.java:64 | A character absent from the data is absent from every chunk |
| DnsData.ParseInt | src/main/java/org/rossonet/utils/DataInDnsHelper.java:24-29 | A parsed count fits in int |
| DnsData.ParseIntNat | src/main/java/org/rossonet/utils/DataInDnsHelper.java:24-29 | The decimal text of a count within int parses back to the count |
| DnsData.Unquote | src/main/java/org/rossonet/utils/DataInDnsHelper.java:30-43 | Removing the quotes never lengthens the text |
| DnsData.UnquoteQuoted | src/main/java/org/rossonet/utils/DataInDnsHelper.java:30-43 | Unquoting a quoted chunk gives the chunk back |
| DnsData.Assemble | src/main/java/org/rossonet/utils/DataInDnsHelper.java:30-43 | The missing set is exactly the chunk indexes below n that the lookup does not find |
| DnsData.ReadChunks | src/main/java/org/rossonet/utils/DataInDnsHelper.java:30-43 | The chunk loop produces the concatenated found texts and the missing indexes |
| DnsData.AssembleServed | src/main/java/org/rossonet/utils/DataInDnsHelper.java:30-43 | When every chunk record is served, the first n are concatenated in order with none missing |
| DnsData.Fetch | src/main/java/org/rossonet/utils/DataInDnsHelper.java:20-61 | null exactly when the index record is missing on the first try and every retry; a chunk failure names at least one missing chunk |
| DnsData.GetStringFromDnsHostRecord | src/main/java/org/rossonet/utils/DataInDnsHelper.java:20-61 | The retrying reader returns the decoding the specification function defines |
| DnsData.RoundTrip | src/main/java/org/rossonet/utils/DataInDnsHelper.java:20-74 | A resolver serving the encoder's records returns the original data |
| Shell.Clamp | src/main/java/org/rossonet/rpc/ShellSession.java:90-98 | Above max gives max, below min gives min, inside the range unchanged; with min ≤ max the result lies in [min, max] |
| Shell.ClampIdempotent | src/main/java/org/rossonet/rpc/ShellSession.java:90-98 | Clamping twice equals clamping once |
| Shell.ShellSession.constructor | src/main/java/org/rossonet/rpc/ShellSession.java:13-20 | Default bounds 2 and 8 |
| Shell.ShellSession.SetMinThreadPriority | src/main/java/org/rossonet/rpc/ShellSession.java:82-84 | Sets only the lower bound |
| Shell.ShellSession.SetMaxThreadPriority | src/main/java/org/rossonet/rpc/ShellSession.java:78-80 | Sets only the upper bound |
| Shell.ShellSession.SetThreadPriority | src/main/java/org/rossonet/rpc/ShellSession.java:90-98 | The watchdog priority becomes the clamped value; the bounds stay |
| Shell.ShellSession.GetThreadPriority | src/main/java/org/rossonet/rpc/ShellSession.java:54-56 | Reads back the watchdog priority |
| Shell.DefaultBounds | src/main/java/org/rossonet/rpc/ShellSession.java:13-14 | Under the default bounds any request ends in [2, 8], and requests already inside are kept |
| SshStatus.BaseSshServerStatus.constructor | src/main/java/org/rossonet/sshd/BaseSshServerStatus.java:7-9 | No state, last state or change time yet |
| SshStatus.BaseSshServerStatus.GetState | src/main/java/org/rossonet/sshd/BaseSshServerStatus.java:22-24 | The current state |
| SshStatus.BaseSshServerStatus.GetLastState | src/main/java/org/rossonet/sshd/BaseSshServerStatus.java:12-14 | The state before the last change |
| SshStatus.BaseSshServerStatus.SetState | src/main/java/org/rossonet/sshd/BaseSshServerStatus.java:28-32 | The new state is current, the previous one becomes the last state, and the change time is now |
| SshStatus.TwoChanges | src/main/java/org/rossonet/sshd/BaseSshServerStatus.java:28-32 | After setState(a) then setState(b), the state is b and the last state a |
| RuleOrder.StringCompareTo | src/main/java/org/rossonet/ext/rules/core/RuleProxy.java:113-125 | Negative, zero or positive exactly when the first name sorts before, equals or sorts after the second |
| RuleOrder.LexTransitive | src/main/java/org/rossonet/ext/rules/core/RuleProxy.java:113-125 | The name order is transitive |
| RuleOrder.CompareTo | src/main/java/org/rossonet/ext/rules/core/RuleProxy.java:113-125 | Priority ascending and then name: negative, zero or positive exactly when the first rule sorts before, has the same key or sorts after |
| RuleOrder.RuleOrderIsStrictTotal | src/main/java/org/rossonet/ext/rules/api/Rules.java:48 | The rule order is irreflexive, asymmetric, transitive and total up to equal keys, as the sorted set needs |
| RuleOrder.AscendingUnique | src/main/java/org/rossonet/ext/rules/api/Rules.java:48 | In the rule set no two rules share a key |
| RuleValidation.AnnotatedWith | src/main/java/org/rossonet/ext/rules/core/RuleDefinitionValidator.java:120-129 | Exactly the methods carrying the annotation, one per marked method |
| RuleValidation.GetNotAnnotatedParameter | src/main/java/org/rossonet/ext/rules/core/RuleDefinitionValidator.java:131-139 | The first parameter without annotations, or −1 when every parameter has one |
| RuleValidation.ValidParameters | src/main/java/org/rossonet/ext/rules/core/RuleDefinitionValidator.java:167-192 | True exactly when annotations are all @Fact, at most one parameter is unannotated, and that one is a Facts |
| RuleValidation.FailingCheck | src/main/java/org/rossonet/ext/rules/core/RuleDefinitionValidator.java:160-165 | The first failing check in the order rule class, condition, actions, priority; None exactly when all pass |
| RuleValidation.ValidateRuleDefinition | src/main/java/org/rossonet/ext/rules/core/RuleDefinitionValidator.java:160-165 | Throws IllegalArgumentException exactly when some check fails |
| RuleValidation.ValidationAcceptsWellDefined | src/main/java/org/rossonet/ext/rules/core/RuleDefinitionValidator.java:49-158 | Validation passes exactly for a @Rule class with one well-defined @Condition, at least one action, all well defined, and at most one well-defined @Priority |
| RuleValidation.ConditionCheckMeans | src/main/java/org/rossonet/ext/rules/core/RuleDefinitionValidator.java:66-85 | checkConditionMethod passes exactly when one method carries @Condition and every @Condition method is public, returns boolean and has valid parameters |
| RuleValidation.ActionsCheckMeans | src/main/java/org/rossonet/ext/rules/core/RuleDefinitionValidator.java:49-64 | checkActionMethods passes exactly when some method carries @Action and every @Action method is public, returns void and has valid parameters |
| RuleValidation.PriorityCheckMeans | src/main/java/org/rossonet/ext/rules/core/RuleDefinitionValidator.java:87-107 | checkPriorityMethod passes exactly when at most one method carries @Priority and every such method is public, returns int and takes no parameters |
| Proxies.InsertByOrder | src/main/java/org/rossonet/ext/rules/core/RuleProxy.java:188-201 | Insertion keeps exactly the old methods plus the new one |
| Proxies.InsertKeepsOrder | src/main/java/org/rossonet/ext/rules/core/RuleProxy.java:188-201 | Insertion keeps the action order |
| Proxies.ActionBeans | src/main/java/org/rossonet/ext/rules/core/RuleProxy.java:188-201 | Exactly the @Action methods, ordered by their order value |
| Proxies.Names | src/main/java/org/rossonet/ext/rules/core/RuleProxy.java:94-102 | The method names in order |
| Proxies.ConditionMethod | src/main/java/org/rossonet/ext/rules/core/RuleProxy.java:236-247 | None exactly when no method is a @Condition, else the first one |
| Proxies.CompareToMethodOf | src/main/java/org/rossonet/ext/rules/core/RuleProxy.java:223-234 | None exactly when no method is named compareTo, else such a method |
| Proxies.PriorityMethod | src/main/java/org/rossonet/ext/rules/core/RuleProxy.java:285-304 | None exactly when no method is a @Priority |
| Proxies.RuleName | src/main/java/org/rossonet/ext/rules/core/RuleProxy.java:277-283 | The annotation's name, or the class's simple name when that is DEFAULT_NAME |
| Proxies.DefaultDescription | src/main/java/org/rossonet/ext/rules/core/RuleProxy.java:94-111 | Starts "when <condition> then " when there is a condition method; otherwise just the action names joined by "," |
| Proxies.RuleDescription | src/main/java/org/rossonet/ext/rules/core/RuleProxy.java:263-275 | The annotation's description, or the default description when that is DEFAULT_DESCRIPTION |
| Proxies.RulePriority | src/main/java/org/rossonet/ext/rules/core/RuleProxy.java:285-304 | The @Priority method's result when one exists, else the annotation's priority |
| Proxies.RuleProxy.constructor | src/main/java/org/rossonet/ext/rules/core/RuleProxy.java:90-92 | Wraps the target with nothing memoised |
| Proxies.RuleProxy.GetRuleName | src/main/java/org/rossonet/ext/rules/core/RuleProxy.java:277-283 | Returns and memoises the resolved name, leaving the other memos |
| Proxies.RuleProxy.GetRuleDescription | src/main/java/org/rossonet/ext/rules/core/RuleProxy.java:263-275 | Returns and memoises the resolved description |
| Proxies.RuleProxy.GetRulePriority | src/main/java/org/rossonet/ext/rules/core/RuleProxy.java:285-304 | Returns and memoises the resolved priority |
| Proxies.CompareToMethod | src/main/java/org/rossonet/ext/rules/core/RuleProxy.java:113-139 | Without a custom compareTo, or against a plain rule, the sign is the rule order; with one and another proxy, IllegalArgumentException exactly when it does not take one parameter |
| Proxies.HashCodeMethod | src/main/java/org/rossonet/ext/rules/core/RuleProxy.java:327-334 | The 31-based hash of name, description and priority stays within int |
| Proxies.EqualsMethod | src/main/java/org/rossonet/ext/rules/core/RuleProxy.java:141-159 | True exactly when the other object is a Rule whose name, description and priority are this proxy's |
| Proxies.EqualsContract | src/main/java/org/rossonet/ext/rules/core/RuleProxy.java:141-159 | equals holds exactly when name, description and priority agree; it is symmetric, false for null, and equal proxies hash and order alike |
| Proxies.ArgFor | src/main/java/org/rossonet/ext/rules/core/RuleProxy.java:203-221 | A @Fact parameter gets the named fact's value, or NoSuchFactException when absent; a non-@Fact annotation fails with ClassCastException; other parameters get the facts |
| Proxies.ActualParametersOk | src/main/java/org/rossonet/ext/rules/core/RuleProxy.java:203-221 | When every parameter resolves, the list holds the resolved arguments in order |
| Proxies.ActualParametersThrown | src/main/java/org/rossonet/ext/rules/core/RuleProxy.java:203-221 | The first parameter that fails decides the exception |
| Proxies.GetActualParameters | src/main/java/org/rossonet/ext/rules/core/RuleProxy.java:203-221 | The loop computes the argument list or the first failure |
| Proxies.EvaluateMethod | src/main/java/org/rossonet/ext/rules/core/RuleProxy.java:161-176 | No condition method throws NullPointerException; a missing fact or an IllegalArgumentException from the call gives false; other errors propagate; otherwise the condition's result |
| Proxies.RunActionsFirstFailure | src/main/java/org/rossonet/ext/rules/core/RuleProxy.java:178-186 | The actions succeed exactly when each one does; otherwise the first failing action's exception is thrown |
| Proxies.ExecuteMethod | src/main/java/org/rossonet/ext/rules/core/RuleProxy.java:178-186 | Runs the action methods in their order and stops at the first failure |
| Proxies.AsRule | src/main/java/org/rossonet/ext/rules/core/RuleProxy.java:65-75 | A Rule is returned unchanged; another object becomes a proxy exactly when it validates, else IllegalArgumentException |
| RuleSet.InsertRule | src/main/java/org/rossonet/ext/rules/api/Rules.java:117-123 | Adding keeps the set sorted; a rule with an equal key already present leaves it unchanged, otherwise exactly the new rule joins |
| RuleSet.RemoveRule | src/main/java/org/rossonet/ext/rules/api/Rules.java:143-149 | Removes exactly the rules with an equal key, keeping order; an absent rule changes nothing |
| RuleSet.InsertThenRemove | src/main/java/org/rossonet/ext/rules/api/Rules.java:117-149 | Registering a new rule and unregistering it gives back the original set |
| RuleSet.InsertIdempotent | src/main/java/org/rossonet/ext/rules/api/Rules.java:117-123 | Registering the same rule twice equals registering it once |
| RuleSet.FindRuleByName | src/main/java/org/rossonet/ext/rules/api/Rules.java:84-86 | None exactly when no name matches ignoring case, else the first match in iteration order |
| RuleSet.RegisterAll | src/main/java/org/rossonet/ext/rules/api/Rules.java:117-123 | Registering an array keeps the set sorted, even when it stops early |
| RuleSet.UnregisterAll | src/main/java/org/rossonet/ext/rules/api/Rules.java:143-149 | Unregistering an array keeps the set sorted |
| RuleSet.RegisterAllContents | src/main/java/org/rossonet/ext/rules/api/Rules.java:117-123 | Rules already held stay; on success every given object is registered; a failure comes from a null element or one asRule rejects |
| RuleSet.KeyedElementKept | src/main/java/org/rossonet/ext/rules/api/Rules.java:117-123 | Registering never drops an existing rule's key |
| RuleSet.Rules.constructor | src/main/java/org/rossonet/ext/rules/api/Rules.java:48 | The empty TreeSet every constructor starts from |
| RuleSet.NewRules | src/main/java/org/rossonet/ext/rules/api/Rules.java:55-57 | NullPointerException for a null argument array; otherwise register's fold over the arguments from the empty set: its exception escapes, or a fresh set holding exactly the registered rules |
| RuleSet.Rules.Clear | src/main/java/org/rossonet/ext/rules/api/Rules.java:80-82 | The set becomes empty |
| RuleSet.Rules.Size | src/main/java/org/rossonet/ext/rules/api/Rules.java:134-136 | The number of rules |
| RuleSet.Rules.IsEmpty | src/main/java/org/rossonet/ext/rules/api/Rules.java:93-95 | True exactly when the size is 0 |
| RuleSet.Rules.Register | src/main/java/org/rossonet/ext/rules/api/Rules.java:117-123 | A null array throws NullPointerException; otherwise each object in turn, as the fold defines, stopping at the first null or invalid one |
| RuleSet.Rules.Unregister | src/main/java/org/rossonet/ext/rules/api/Rules.java:143-149 | A null array throws NullPointerException; otherwise each object is removed in turn |
| RuleSet.Rules.UnregisterByName | src/main/java/org/rossonet/ext/rules/api/Rules.java:156-162 | A null name throws NullPointerException; otherwise the first rule matching ignoring case is removed, or nothing |
| RuleSet.UnregisterByNameRemovesOne | src/main/java/org/rossonet/ext/rules/api/Rules.java:156-162 | The found rule is removed and every other rule stays |
| RuleReader.Collect | src/main/java/org/rossonet/ext/rules/support/reader/AbstractRuleDefinitionReader.java:80-89 | All values in order when every outcome is a value; otherwise the first exception |
| RuleReader.CreateRuleDefinition | src/main/java/org/rossonet/ext/rules/support/reader/AbstractRuleDefinitionReader.java:47-92 | Missing name, description and priority take the defaults; the four checks throw IllegalArgumentException; a simple rule has no composing rules and no type |
| RuleReader.ComposedRules | src/main/java/org/rossonet/ext/rules/support/reader/AbstractRuleDefinitionReader.java:80-89 | A composite rule is read exactly when every composing rule is; they keep their count and order, and the composite type is recorded |
| RuleReader.CreateOkIffWellFormed | src/main/java/org/rossonet/ext/rules/support/reader/AbstractRuleDefinitionReader.java:47-92 | A map is read without exception exactly when it and all its composing rules, at every depth, pass the checks |
| RuleReader.CompositeIffComposing | src/main/java/org/rossonet/ext/rules/support/reader/AbstractRuleDefinitionReader.java:74-89 | A read definition has a composite type exactly when it has composing rules |
| RuleReader.Read | src/main/java/org/rossonet/ext/rules/support/reader/AbstractRuleDefinitionReader.java:104-111 | One definition per map in order, or the first map's exception |
| RuleReader.CollectEach | src/main/java/org/rossonet/ext/rules/support/reader/AbstractRuleDefinitionReader.java:104-111 | The read loop, proved equal to Collect over the mapped outcomes: all values in order, or the exception of the first element that throws |
| RulesEngine.StatusOf | src/main/java/org/rossonet/ext/rules/core/DefaultRulesEngine.java:108-151 | Vetoed exactly when a listener refuses; executed exactly when evaluation returned true; applied exactly when execution also succeeded; an evaluation error exactly when evaluate threw |
| RulesEngine.FireFrom | src/main/java/org/rossonet/ext/rules/core/DefaultRulesEngine.java:90-154 | The steps from rule i never run past the end of the rule list |
| RulesEngine.FireFromSteps | src/main/java/org/rossonet/ext/rules/core/DefaultRulesEngine.java:90-154 | Rules are visited in order, each with its status and within the threshold, and no step before the last triggers a skip flag |
| RulesEngine.DoFire | src/main/java/org/rossonet/ext/rules/core/DefaultRulesEngine.java:90-154 | The loop with its breaks and continues yields the trace the firing policy defines, empty for no rules |
| RulesEngine.ThresholdStops | src/main/java/org/rossonet/ext/rules/core/DefaultRulesEngine.java:102-107 | No rule at or after one above the threshold is visited |
| RulesEngine.FireMaximal | src/main/java/org/rossonet/ext/rules/core/DefaultRulesEngine.java:90-154 | Processing ends only when the rules run out, the next rule is above the threshold, or the last status triggers a skip flag; so it goes on past a vetoed rule and past any status no set flag stops at |
| RulesEngine.Fire | src/main/java/org/rossonet/ext/rules/core/DefaultRulesEngine.java:90-154 | doFire's trace is a run from the first rule (in order, with statuses, within the threshold, only the last step stopping) that ends for one of FireMaximal's reasons |
| RulesEngine.FireReachesAll | src/main/java/org/rossonet/ext/rules/core/DefaultRulesEngine.java:90-154 | With no skip flags and every priority within the threshold, every rule is visited |
| RulesEngine.FireRules | src/main/java/org/rossonet/ext/rules/core/DefaultRulesEngine.java:157-163 | NullPointerException exactly when rules or facts is null; otherwise the firing trace |
| RulesEngine.Checked | src/main/java/org/rossonet/ext/rules/core/DefaultRulesEngine.java:79-88 | The map's keys are rules of the set; an exception is the one some accepted rule's evaluation threw |
| RulesEngine.CheckedContents | src/main/java/org/rossonet/ext/rules/core/DefaultRulesEngine.java:79-88 | check succeeds exactly when no accepted rule's evaluation throws; then the map holds exactly the accepted rules, each mapped to its evaluation |
| RulesEngine.DoCheck | src/main/java/org/rossonet/ext/rules/core/DefaultRulesEngine.java:79-88 | The loop builds the map the check specification defines |
| RulesEngine.ThrownPersists | src/main/java/org/rossonet/ext/rules/core/DefaultRulesEngine.java:79-88 | The first evaluation exception ends the check with that exception |
| RulesEngine.Check | src/main/java/org/rossonet/ext/rules/core/DefaultRulesEngine.java:70-77 | NullPointerException for null rules or facts; otherwise the checked map |

## Left out

- Threads, the worker pool, FutureTask completion and `PriorityFuture.run`'s swap of the OS thread priority: these are concurrency, outside a sequential model.
- The locking adapter around the deque (`PriorityBlockingDeque`): it only takes an exclusive lock around each deque call and makes idle workers wait for work, and locking and waiting are concurrency. NewPriorityThreadPoolExecutor takes its capacity constructor to be PriorityDeque(int, Comparator), with the same IllegalArgumentException below 1.
- The ThreadPoolExecutor superclass and its own argument checks (maximumPoolSize, keepAliveTime, a null thread factory or handler) are not modelled: NewPriorityThreadPoolExecutor takes only corePoolSize.
- `PriorityDeque`'s constructors from a Collection, a PriorityDeque or a SortedSet, and `initFromPriorityDeque`: the model starts from the capacity constructors.
- `toArray`, `readObject` and `writeObject`: these are allocation and serialisation I/O.
- `comparator()`, `iterator()` and `descendingIterator()`: these only hand out values. The iterator itself is `PriorityDeques.Itr`.
- `poll`, `peek`, `remove()`, `offerFirst`, `offerLast`, `addFirst` and `addLast`: each only delegates to the modelled pollFirst, peekFirst, removeFirst or offer.
- The descending iterator's `removeAtIter` does not bump modCount. The model keeps that.
- Removal through an iterator can make the iteration skip or repeat an element, because there is no queue of forgotten elements. The model does not state which elements an iteration visits.
- Vacated slots are nulled in the source. The model leaves stale values beyond `size`, and `Itr.Next` reports a slot at or beyond size as None.
- A comparator that throws ClassCastException is not modelled: the rank function is total.
- PriorityDeques.PriorityDeque.Remove, RemoveFirstOccurrence, RemoveLastOccurrence and Itr.Remove use the corrected removal of the Findings, so they keep the heap. As written, they inherit the defect of removeAt. So do PriorityTasks.PriorityThreadPoolExecutor.ChangePriorities, RequeueAll and Requeue, whose `workQueue.remove(task)` goes through removeAt: their valid-heap promise holds for the corrected removal, and as written the re-queued heap can be broken.
- PriorityDeques.PriorityDeque.RemoveAt: the heap is promised only when the moved element needs no upward repair. That is the defect recorded under Findings.
- PriorityDeques.PriorityDeque.PeekLast: the contract states that the result is a maximum, not which of two equal-ranked children it is.
- PriorityTasks.PriorityThreadPoolExecutor.ChangePriorities: tasks are modelled as values, so there is no aliasing between a future in the queue and one held elsewhere. A failing `remove` cannot happen on the snapshot of a sequential queue.
- The Runnable and Callable variants of `submit`, and `newPriorityTaskFor`: they differ only in the work they wrap, and the work is an opaque task id here.
- `Fact`'s static setter for the truncation limit: the limit is a parameter `maxChars`. A value's `toString` is the text stored in the value.
- `Facts` iteration order is the order of addition. The source's HashSet order is unspecified.
- Java's `hashCode` and `String` work on UTF-16 units. The model uses Dafny characters, and `equalsIgnoreCase` folds ASCII letters only.
- `Rules(Rule...)` and `Rules(Set)`, and the trace flag accessors: the trace flag only switches logging.
- A custom `compareTo` declared by a rule class is not used for the set's order: the set is ordered by priority and name. Proxies.CompareToMethod then returns the value of the invoked method (an oracle), and nothing more is promised about it.
- Proxies.PriorityMethod: states only whether a @Priority method exists, not which of several is taken. Validation admits only one.
- Proxies.DefaultDescription: with a condition method only the "when … then " prefix is stated. The action names after it are built by the same join as without one.
- An exception thrown while invoking the @Priority method is not modelled: its result is a field of the class descriptor.
- Reflection, meta-annotations and `Proxy.newProxyInstance`: a rule class is a descriptor. The `invoke` dispatch, `toStringMethod`, `getTarget`, `getMethods` and `getRuleAnnotation` are left out.
- RulesEngine: listeners and logging are left out. A listener veto is the oracle `accepts`. A rule's evaluate and execute are oracles indexed by the rule's position, which is general because one run visits each rule at most once.
- The rule reader's parsing of YAML or JSON is left out, along with the ClassCastException a wrongly typed map entry raises. Maps arrive already typed. RuleDefinition.java is not part of this model: its fields are the datatype's.
- Facts.java is not part of this model. The RuleFacts operations on a Facts collection follow how RulesContext and CachedMemory call add, get and remove, with one fact per name and a later add replacing an earlier one.
- RulesContext's logging methods (`info`, `warning`, `error`) and `test`: they only log.
- RulesContext's `getEpochMs`, `uuid`, `isCachedMemoryPresent` and `toString`: these are the clock, randomness, a class check outside the model, and a rendering.
- Context.RulesContext.Exec: the command object's construction by reflection is reduced to three cases: it succeeds, it fails with an exception exec catches, or the class has no public constructor. What the Command's constructor and `setData` do beyond that is not modelled, so an unchecked exception thrown by `setData` is not among the escaping cases.
- BaseCachedMemory's `toString` and the TimerCachedMemory getters and `toString` are left out. The `now` used for the creation time and for `getFacts` is a parameter, rather than a separate `Instant.now()` call each time. Long overflow of `createdAt + delay` is not modelled.
- Memories.CachedMemory.ToString: the bracketed list text between the frame is not spelled out, only that it comes from the first 20 entries.
- DataInDnsHelper's resolver, its timeouts and its quoting are left out:
  - DNS lookups are an oracle indexed by name and attempt;
  - quote removal strips one leading and one trailing `"`, as the two anchored `replaceAll` calls do, without modelling regular expressions in general;
  - escaping of quotes and non-ASCII octets inside chunks is not modelled;
  - `parseInt` accepts ASCII digits with an optional sign only.
- DnsData.Fetch: its own contract states only when the result is null and that a chunk failure names a missing chunk. Its full behaviour is pinned by GetStringFromDnsHostRecord and RoundTrip.
- Exception messages are not modelled, only exception kinds.
- ShellSession's streams and RPC engine, and the range check of `Thread.setPriority` itself: these are I/O and threads below the clamp.
- BaseSshServerStatus's change time is the `now` parameter, not `Instant.now()`.

## Findings

| source | as written | input that shows it | evidently intended | confidence | as-written member | corrected member |
|---|---|---|---|---|---|---|
| src/main/java/org/rossonet/ext/utils/concurrent/PriorityDeque.java:820-837 | removeAt moves the last element into the vacated slot and only trickles it down | the min-max heap [0, 100, 100, 50, 50, 1, 1, 60, 60, 60, 60, 2] with slot 7 removed (as remove(60) does): 2 lands at slot 7 under 50, which is on a min level | also bubble the moved element up, so remove(o), the occurrence removals and iterator removal keep the heap | not executed | PriorityDeques.RemoveAtBreaksHeap | PriorityDeques.PriorityDeque.RemoveAtRepaired |
| src/main/java/org/rossonet/ext/utils/concurrent/PriorityDeque.java:840-857 | the ascending iterator's removal acts only when the index is below size − 1 | a deque holding one element: next() and then remove() on its ascending iterator return normally and leave the element in place (the ensures of the as-written member for index = size − 1) | remove the element at any valid index | not executed | PriorityDeques.PriorityDeque.RemoveAtIter | PriorityDeques.PriorityDeque.RemoveAtIterRepaired |
