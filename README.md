# thread_support: the heap-ordered priority queue and its drivers, in Dafny

This project models the core of the `thread_support` repository:

- `david::thread::thread_priority_queue` (thread_priority_queue.hpp). This is a `std::vector` that is kept as a binary heap under an injected comparator. The model is a class over an array buffer and a size. Its constructors copy a container in, optionally append a range, and run `make_heap`. `push` and `emplace` append one element and run `push_heap`. `empty` and `size` are read-only queries.
- The heap algorithms the queue uses (heap.dfy). "Heap" means what the heap operations section of ISO/IEC 14882:2014 means (section 25.4.6): for every `i > 0`, `comp(a[(i - 1) / 2], a[i])` is false. The comparator must be a strict weak order (section 25.4 of the same standard). `push_heap` is an in-place sift-up. `make_heap` does one sift-up per slot.
- The age-sort driver (thread_priority_queue.cpp), which is covered by age_sort.dfy:
  - `Person` and its operators `<`, `==` and `<<`;
  - the operators `std::rel_ops` derives from them;
  - the queue of people;
  - the argument checks of `main`;
  - the consumer loop's `done`/`waitedFor` counter logic.
- The output-file naming of make_people.cpp (make_people.dfy):
  - `fileName` and its static counter;
  - the memoised `genFNames` and `getFNames`;
  - the argument checks of `main`;
  - the choice between the two name sources.

Each heap algorithm has two forms. One is a function on sequences (`SiftUp`, `Heapify`); the lemmas prove that it gives a heap and a permutation. The other is a method on an array (`PushHeap`, `MakeHeap`), proved to compute that function. The queue's methods state their new contents through these functions and through multisets. The consumer loop has a specification function `Run`, which folds the one-iteration function `Step`. It is tied to an independent count of trailing misses, `TrailingMisses`.

What the loop writes for each popped person is `Format(p)` followed by one more newline (`output << p << std::endl`); `AgeSort.Transcript` renders a whole output file that way, and `AgeSort.Consume` returns the text it wrote as that transcript.

Decimal output (`std::to_string`, and `operator<<` on `int`) is rendered by `Decimal.NatToString` / `Decimal.IntToString`. It is proved to read back to the number rendered.

The driver calls a `wait_for_and_pop` (thread_priority_queue.cpp:103) that thread_priority_queue.hpp never defines. The header defines no pop, top or swap. thread_queue.hpp and thread_stack.hpp declare constructors only. The model follows the code and leaves these out (see below). Where the code does not compile, the model follows the evident intent. Examples: `_Compare()` at thread_priority_queue.hpp:56, the constructor misnamed `priority_queue` at :85, and `std::for_all` at thread_priority_queue.cpp:104, which stands for `std::all_of`.

## Model

| member | source | states |
|---|---|---|
| Cli.ToUnsigned | make_people.cpp:84 | storing `atoi`'s `int` in an `unsigned` reduces it modulo 2^32; for an `int`-range value the result is 0 exactly when the value is 0 |
| Decimal.NatToString | make_people.cpp:52 | `std::to_string` of an unsigned value is a non-empty digit string without superfluous leading zero |
| Decimal.NatRoundTrip | make_people.cpp:52 | reading the decimal rendering back gives the number rendered |
| Decimal.NatToStringInjective | make_people.cpp:52 | distinct numbers get distinct renderings |
| Decimal.IntToString | thread_priority_queue.cpp:51 | an `int` is written as an optional minus sign followed by a numeral, never "-0" |
| Decimal.IntRoundTrip | thread_priority_queue.cpp:51 | reading the signed rendering back gives the `int` written |
| Heap.Asymmetric | thread_priority_queue.hpp:22-23 | a strict weak order (the requirement on `Compare`) never orders two elements both ways |
| Heap.NotBeforeTransitive | thread_priority_queue.hpp:22-23 | under a strict weak order, "does not come before" is transitive |
| Heap.SiftUp | thread_priority_queue.hpp:119 | the sift-up of `push_heap` keeps the length and the multiset of elements |
| Heap.Heapify | thread_priority_queue.hpp:53 | `make_heap` over the first n slots permutes the elements and leaves the slots from n on untouched |
| Heap.SwapWithParent | thread_priority_queue.hpp:119 | one sift-up swap moves the only heap violation from a slot to its parent |
| Heap.SiftUpRestoresHeap | thread_priority_queue.hpp:119 | sifting up from the only violating slot leaves a heap |
| Heap.PushKeepsHeap | thread_priority_queue.hpp:116-128 | appending to a heap and running `push_heap` gives a heap again |
| Heap.HeapifyMakesHeap | thread_priority_queue.hpp:51-59 | after `make_heap` the range is a heap under `comp` |
| Heap.HeapRootRanksHighest | thread_priority_queue.hpp:22-23 | in a heap, no element comes after the element in slot 0 under `comp` |
| Heap.RootNotBefore | thread_priority_queue.hpp:22-23 | slot 0 does not come before any given slot of a heap (induction on the path to the root) |
| Heap.PushHeap | thread_priority_queue.hpp:119 | in-place `push_heap(begin, begin + n, comp)` leaves the first n slots equal to `SiftUp` of their old contents and the rest unchanged |
| Heap.MakeHeap | thread_priority_queue.hpp:53 | in-place `make_heap(begin, begin + n, comp)` leaves the first n slots equal to `Heapify` of their old contents and the rest unchanged |
| ThreadPriorityQueue.ThreadPriorityQueue.constructor | thread_priority_queue.hpp:51-59 | storage is a heap under `comp` that holds exactly the multiset of the container given |
| ThreadPriorityQueue.ThreadPriorityQueue.FromRange | thread_priority_queue.hpp:75-91 | storage is a heap under `comp` that holds the multiset of the container plus the elements of [first, last) |
| ThreadPriorityQueue.ThreadPriorityQueue.Empty | thread_priority_queue.hpp:92-98 | true iff the storage has no element; the storage is not changed |
| ThreadPriorityQueue.ThreadPriorityQueue.Size | thread_priority_queue.hpp:100-106 | the number of stored elements; the storage is not changed |
| ThreadPriorityQueue.ThreadPriorityQueue.PushBack | thread_priority_queue.hpp:118 | the vector's `push_back` appends x after the old elements, reallocating the buffer when it is full |
| ThreadPriorityQueue.ThreadPriorityQueue.Push | thread_priority_queue.hpp:116-128 | the multiset grows by exactly {x}, the size by exactly 1, and the storage stays a heap |
| ThreadPriorityQueue.ThreadPriorityQueue.Emplace | thread_priority_queue.hpp:133-139 | same new storage as a push of the element built from `args`; the heap is kept |
| ThreadPriorityQueue.LessHeapRootIsMaximum | thread_priority_queue.hpp:22-23 | with the default `std::less`, no stored element is greater than slot 0 |
| AgeSort.Less | thread_priority_queue.cpp:43-44 | `operator<` is defined as comparing ages only; its properties are LessIgnoresNames and LessIsStrictWeakOrder |
| AgeSort.Equal | thread_priority_queue.cpp:46-48 | `operator==` is defined as names and ages both agreeing; EqualIsSameRecord shows that is record equality |
| AgeSort.Greater | thread_priority_queue.cpp:27 | the `>` of `std::rel_ops` is defined from `operator<` with the arguments swapped; GreaterMeansOlder gives its meaning |
| AgeSort.LessOrEqual | thread_priority_queue.cpp:27 | the `<=` of `std::rel_ops` is defined as `!(b < a)`; LessOrEqualMeansNotOlder gives its meaning |
| AgeSort.GreaterOrEqual | thread_priority_queue.cpp:27 | the `>=` of `std::rel_ops` is defined as `!(a < b)`; GreaterOrEqualMeansNotYounger gives its meaning |
| AgeSort.NotEqual | thread_priority_queue.cpp:27 | the `!=` of `std::rel_ops` is defined as `!(a == b)`; NotEqualMeansDifferentRecord gives its meaning |
| AgeSort.LessIgnoresNames | thread_priority_queue.cpp:44 | `operator<` compares ages only: renaming either person never changes the outcome |
| AgeSort.EqualIsSameRecord | thread_priority_queue.cpp:46-48 | `operator==` holds iff names and ages agree, and then neither person is less than the other |
| AgeSort.GreaterMeansOlder | thread_priority_queue.cpp:27 | the `>` that `std::rel_ops` derives holds iff the first person is strictly older |
| AgeSort.LessOrEqualMeansNotOlder | thread_priority_queue.cpp:27 | the `<=` that `std::rel_ops` derives holds iff the first person is not older |
| AgeSort.GreaterOrEqualMeansNotYounger | thread_priority_queue.cpp:27 | the `>=` that `std::rel_ops` derives holds iff the first person is not younger |
| AgeSort.NotEqualMeansDifferentRecord | thread_priority_queue.cpp:27 | the `!=` that `std::rel_ops` derives holds iff the two records differ, in name or in age |
| AgeSort.LessIsStrictWeakOrder | thread_priority_queue.cpp:44 | `operator<` meets the `Compare` requirement of the queue |
| AgeSort.FrontIsOldest | thread_priority_queue.cpp:55 | in the queue of people, nobody is older than the person in slot 0 |
| AgeSort.Format | thread_priority_queue.cpp:50-53 | a person prints as the name, then "; ", then the decimal age (which reads back to the age), then a newline |
| AgeSort.NewPeopleQueue | thread_priority_queue.cpp:55 | `People_Queue` starts empty and is ordered by `operator<` |
| AgeSort.EmplacePerson | thread_priority_queue.cpp:69 | `emplace(age, name)` adds exactly `Person(age, name)` and keeps the heap |
| AgeSort.CheckArgs | thread_priority_queue.cpp:83-91 | exit code 1 iff argc < 4 or argc > 34; otherwise exit code 2 iff N parses to 0; otherwise N is the unsigned value read |
| AgeSort.Step | thread_priority_queue.cpp:103-113 | a successful pop resets `waitedFor` to 0; a miss adds one; `done` becomes "all futures ready, or more than 10 misses" |
| AgeSort.RunCountsMisses | thread_priority_queue.cpp:99-114 | after any iterations, `waitedFor` is the number of consecutive misses since the last pop, and `done` holds iff the last iteration saw all producers ready or those misses exceed 10 |
| AgeSort.TrailingMissesAtLeast | thread_priority_queue.cpp:112 | iterations that end in m misses have at least m trailing misses |
| AgeSort.EleventhMissEndsLoop | thread_priority_queue.cpp:112 | the 11th consecutive miss sets `done` |
| AgeSort.RunOneMore | thread_priority_queue.cpp:102-114 | one more iteration applies one more `Step`, and writes at most the one person it popped |
| AgeSort.StopsByEleventhMiss | thread_priority_queue.cpp:112 | a loop that never saw `done` cannot have run past 11 consecutive misses |
| AgeSort.Transcript | thread_priority_queue.cpp:109 | the text written for the popped people, in order: each person's `operator<<` line followed by the newline of `std::endl` |
| AgeSort.TranscriptOneMore | thread_priority_queue.cpp:109 | writing one more person appends exactly that person's line and one more newline to the text |
| AgeSort.EndsAfterPopWhenAllReady | thread_priority_queue.cpp:103-110 | after any iterations, an iteration whose pop succeeds while all futures are ready sets `done` (with `waitedFor` 0), so the loop ends even if records are still queued |
| AgeSort.Iterate | thread_priority_queue.cpp:102-113 | one iteration entered with `done` false moves the loop state to that of `Run` over one more poll, and appends the popped person, and that person's line, to what was written |
| AgeSort.Consume | thread_priority_queue.cpp:99-114 | the loop stops at the first iteration after which `done` holds, never later than the 11th consecutive miss; it writes exactly the popped people, in pop order, and the text written is their `Transcript` |
| MakePeople.FileNameFor | make_people.cpp:50-53 | the name is "output/people", then the counter in decimal (which reads back to the counter), then ".txt" |
| MakePeople.FileNamesDiffer | make_people.cpp:52 | different counter values give different file names |
| MakePeople.WrapDistinct | make_people.cpp:51-52 | counter values fewer than 2^32 steps apart stay distinct after 32-bit wrap-around |
| MakePeople.NamesFromDistinct | make_people.cpp:50-53 | up to 2^32 consecutive `fileName` calls never repeat a name |
| MakePeople.Statics.constructor | make_people.cpp:51-68 | at program start the counter is 1, neither `made` flag is set, and `i` is 0 |
| MakePeople.Statics.FileName | make_people.cpp:50-53 | returns the name for the current counter and advances the counter by exactly one, modulo 2^32 |
| MakePeople.Statics.GenFNames | make_people.cpp:55-63 | the first call returns n names, the next n `fileName` results in order; later calls return the same vector and do not call `fileName`, whatever n is |
| MakePeople.Statics.GetFNames | make_people.cpp:65-74 | the first call returns argv[2], ..., argv[n + 1] in order; later calls return the same vector without reading argv |
| MakePeople.WrapStep | make_people.cpp:52 | advancing a wrapped counter by one equals wrapping the advanced counter |
| MakePeople.CheckArgs | make_people.cpp:81-87 | exit code -1 iff argc < 2; otherwise exit code 2 iff N parses to 0; otherwise N is the unsigned value read |
| MakePeople.OutputFiles | make_people.cpp:81-96 | after the checks pass, the output files are argv[2..N+1] when argc > 2, and otherwise "output/people1.txt" through "output/peopleN.txt" |

## Left out

- The mutex, `lock_guard`/`unique_lock` and `notify_one` (thread_priority_queue.hpp:35-39, 96, 104, 117, 120) are left out. Their purpose is concurrency. The class is modelled single-threaded, as if every call held the lock.
- The rvalue overloads collapse into the copying ones:
  - `push(value_type&&)` is modelled by `Push`;
  - the constructors taking `Container&&` (thread_priority_queue.hpp:55-59, 84-91) are modelled by the constructor and `FromRange`.
  - Without aliasing, copying and moving a value have the same effect. A defaulted `Compare()` or `Container()` argument is passed explicitly.
- The header defines no pop, no top, no swap, no copy constructor and no `wait_for_and_pop` (which the driver calls at thread_priority_queue.cpp:103), so none is modelled.
- thread_queue.hpp and thread_stack.hpp declare constructors without bodies. structs_fwd.hpp holds only forward declarations. No FIFO or LIFO behaviour exists to model.
- The exact arrangement that `std::make_heap` produces is left out. The standard promises only a heap that is a permutation of the range. `Heapify` and `MakeHeap` reach one by a sift-up per slot. Library implementations usually sift down from the middle, which generally gives a different arrangement, for distinct elements as well as for equal-ranked ones. Under `std::less<int>`, `Heapify([1, 2, 3], 3, IntLess)` is `[3, 1, 2]`, while a sift-down from the middle gives `[3, 2, 1]`; both are heaps. The same applies to the constructors' first postcondition about `Contents`.
- The vector's growth policy and its `max_size` are left out. `PushBack` doubles the buffer (plus one) and the size is an unbounded `nat`.
- `Person(std::istream&)` (thread_priority_queue.cpp:34-38) and `read_n_people` (:57-71) are stream parsing and are not modelled. In `read_n_people`, the counter `x` is never incremented. `EmplacePerson` models only its `emplace` call.
- The producer tasks, the futures and their `join` (thread_priority_queue.cpp:92-96, 115) are async plumbing and are left out. The per-iteration outcomes "a record was popped" and "all futures were ready" are inputs to `Consume`. Line 92 builds N - 1 streams from `&argv[3]` to `&argv[N + 2]` for N producers. That code is not part of this model.
- AgeSort.Consume: the source calls a `wait_for_and_pop()` the header lacks, and writes a `p` it never assigns. The model writes the popped person, which is the evident intent. `Consume` also stops when its finite sequence of polls runs out, which the source's loop cannot do.
- AgeSort.Iterate: like `Consume`, it writes the popped person where the source writes the unassigned `p`.
- AgeSort.Consume: this mirrors a property of the source rather than weakening a contract. `done` is recomputed from the futures on every iteration, even after a successful pop. So the loop can end while records are still queued. The model keeps that behaviour, and `EndsAfterPopWhenAllReady` proves it.
- The random engines, `writePerson`, the seeding from pointer values and the file-writing loop (make_people.cpp:23-41, 88-91, 97-104) are left out. They are randomness and file output.
- `std::atoi` is not modelled. Its result is the parameter `parsedN`, an `int`-range value.
- MakePeople.OutputFiles: the model requires argv to hold the N names that `getFNames` reads when argc > 2. `main` never checks argc against N. Reading past `argv` is undefined behaviour and is not modelled.
- MakePeople.Statics.GetFNames: this member has the same requirement on its first call, for the same reason.
- solve_equations.cpp, generate_math.cpp, thread_queue.cpp and elHol_rloWrd.cpp are not part of this model. They contain floating-point arithmetic, randomness, file I/O and thread demos, with no logic of the core.
