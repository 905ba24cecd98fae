# Heap priority queue and job queue, modelled in Dafny

This project models the C++ `HeapPriorityQueue<Entry, Compare>` of
`priorityQueue.cpp`. It is a max-priority queue stored as a dense vector that
encodes a complete binary tree through index arithmetic. The project also
models the `JobQueue` wrapper that schedules `Job`s on top of it, and the
`Job` ordering the heap uses.

- `jobs.dfy`, module `Jobs`: the `Job` record, and `GreaterThan`, which is
  `Job::operator>` (a strictly higher priority). The heap's default
  comparator `std::greater<Job>` calls this operator.
- `heap_index.dfy`, module `HeapIndex`: `parent`, `left`, `right`,
  `has_left` and `has_right`, plus the "on the root path" relation that the
  upheap and downheap frame conditions use.
- `heap.dfy`, module `Heaps`: the heap property, `upheap` and `downheap`
  written as while-loops with their invariants, and `insert`, `remove_max`,
  `max`, `size`, `empty`. The queue is an immutable value
  `HeapPriorityQueue(data)`. Each mutating operation returns the new value.
  The contents of a queue are the multiset of its vector.
- `job_queue.dfy`, module `JobQueues`: `JobQueue` with `insert`,
  `runHighestPriority`, `isEmpty` and `size`. It also has the draining
  property, meaning jobs come out in non-increasing priority and the
  priority order does not depend on insertion order (`InsertAll` followed
  by `Drain`, in `InsertThenDrain`), and the five-job run
  of `main`.

The heap property is the class invariant (`Heaps.Valid`). Every queue built
from `NewQueue` by `Insert` and `RemoveMax` satisfies it, and those
operations require it.

## Model

| member | source | states |
|---|---|---|
| `Jobs.GreaterThanIsStrictWeakOrder` | priorityQueue.cpp:26-29 | the job ordering is irreflexive, asymmetric and transitive, its complement is transitive, and two jobs are incomparable exactly when their priorities are equal |
| `HeapIndex.Parent` | priorityQueue.cpp:38 | the root is its own parent (C++ truncating division); every other index lies strictly below its parent and is its left or right child |
| `HeapIndex.Left` | priorityQueue.cpp:39 | the left child lies strictly after `j`, and its parent is `j` |
| `HeapIndex.Right` | priorityQueue.cpp:40 | the right child is the slot just after the left child, and its parent is `j` |
| `HeapIndex.ChildOfParent` | priorityQueue.cpp:38-42 | every non-root index is a child of its parent; having a right child implies having a left child |
| `Heaps.HeapPropertyByChildren` | priorityQueue.cpp:41-42 | "no entry is greater than its parent" holds exactly when "no existing left or right child is greater than its node" holds |
| `Heaps.RootDominates` | priorityQueue.cpp:77 | in a heap, no entry is greater than the entry at index 0 |
| `Heaps.Swap` | priorityQueue.cpp:49 | exchanging two slots keeps the length and the multiset of entries, puts each entry in the other's slot, and leaves every other slot unchanged |
| `Heaps.UpheapStep` | priorityQueue.cpp:48-50 | swapping an entry with a strictly smaller parent moves the single heap-order exception one edge up |
| `Heaps.Upheap` | priorityQueue.cpp:45-54 | from "heap except the edge j to its parent", the result is a heap and a permutation of the input; only indices on the root path of `j` change; nothing moves if `j` is the root or its parent is not strictly smaller; no ancestor of `j` that the entry at `j` does not strictly exceed is changed, so the entry never passes an equal-priority ancestor; every path slot whose parent slot changed now holds the entry that parent held, and (`RaisedFrom`) the entry stops at some ancestor `k` of `j`: every path slot strictly below `k`, identified by position, holds its parent's former entry, so each displaced ancestor moves exactly one level down and keeps its order even among identical jobs |
| `Heaps.RaisedAlongStep` | priorityQueue.cpp:48-50 | one swap of the entry at `k` with a strictly smaller parent keeps the upheap trail: the slots above the parent are untouched, each slot below holds its parent's former entry, and every entry passed was strictly smaller than the raised one |
| `Heaps.BigChild` | priorityQueue.cpp:59-62 | the chosen child is a child of `j` that no sibling exceeds; it is the right child exactly when a right child exists and is strictly greater than the left |
| `Heaps.DownheapStep` | priorityQueue.cpp:64-66 | swapping `j` with a strictly greater big child moves the heap-order exception from `j` down to that child |
| `Heaps.Downheap` | priorityQueue.cpp:57-70 | from "heap except the edges below j", the result is a heap and a permutation of the input; only indices in the subtree of `j` change; a heap is left unchanged; every changed slot other than `j` held the big child of its parent (so a right child moves up only when strictly greater than the left), its entry was strictly greater than the sinking one, and that entry is now in the parent slot; and (`SunkFrom`) the entry stops at some slot `k` below `j`: the slots changed are exactly those on the path from `j` to `k`, and each one below `j`, identified by position, is its parent's big child whose entry rose one level, even among identical jobs |
| `Heaps.SameBigChild` | priorityQueue.cpp:59-62 | while the entry sinks, the children of its current slot are untouched, so the child chosen there is the big child of the original vector |
| `Heaps.RoseAlongStep` | priorityQueue.cpp:59-66 | when the sinking entry at `k` is swapped with a strictly greater big child, every slot on the path from `j` down to that child, other than `j`, held the big child of its parent, its entry was strictly greater than the sinking one, and that entry now sits in the parent slot |
| `Heaps.NewQueue` | priorityQueue.cpp:73 | a new queue is a heap with no entries |
| `Heaps.Empty` | priorityQueue.cpp:76 | true exactly when the queue holds no entries |
| `Heaps.Max` | priorityQueue.cpp:77 | on a non-empty queue, the result is a stored entry; on a valid queue, no stored entry is greater than it |
| `Heaps.Insert` | priorityQueue.cpp:80-83 | the heap property is kept; the size grows by one; the contents become the old contents plus `e`; only slots on the new slot's root path change; if `e` is not greater than its first parent, it stays appended at the end; no ancestor of the new slot that `e` does not strictly exceed is moved; (`RaisedFrom`) there is a slot `k` on the new slot's root path above which nothing changed and below which each displaced ancestor, identified by position, moved exactly one level down |
| `Heaps.LastToRoot` | priorityQueue.cpp:87-88 | moving the last entry over the root and dropping the last slot loses exactly one copy of the root, and a heap becomes a heap except possibly below the root |
| `Heaps.RemoveMax` | priorityQueue.cpp:86-90 | on a non-empty heap, the heap property is kept; the size drops by one; the contents lose exactly one copy of the former maximum |
| `JobQueues.NewJobQueue` | priorityQueue.cpp:99 | a new job queue is valid and holds no jobs |
| `JobQueues.IsEmpty` | priorityQueue.cpp:117-119 | true exactly when no job is queued, and exactly when the size is 0 |
| `JobQueues.Insert` | priorityQueue.cpp:102-104 | the queue stays valid, gains exactly the given job, and its size grows by one |
| `JobQueues.InsertAll` | priorityQueue.cpp:102-104 | inserting a sequence of jobs one by one keeps the queue valid, adds exactly the jobs of the sequence, and grows the size by its length |
| `JobQueues.RunHighestPriority` | priorityQueue.cpp:107-114 | on an empty queue, nothing runs and the queue is unchanged; otherwise one queued job that no queued job exceeds is run and removed, and the size drops by one |
| `JobQueues.InsertThenDrain` | priorityQueue.cpp:102-114 | inserting a sequence of jobs into an empty queue and draining it runs exactly those jobs in non-increasing priority, and any permutation of the sequence yields the same priorities in the same order |
| `JobQueues.RunUniqueTop` | priorityQueue.cpp:107-114 | when one queued job has a strictly highest priority, exactly that job is run and the rest stay queued |
| `JobQueues.Drain` | priorityQueue.cpp:107-114 | running jobs until the queue is empty runs each queued job exactly once, in non-increasing priority order |
| `JobQueues.DrainOrderIsDetermined` | priorityQueue.cpp:107-114 | two non-increasing orders of the same jobs have the same sequence of priorities, so the priority order a drain produces does not depend on insertion order |
| `JobQueues.QueueDemoJobs` | priorityQueue.cpp:128-139 | after queueing jobs a to e, the queue is valid and holds exactly those five jobs |
| `JobQueues.DemoSchedule` | priorityQueue.cpp:127-150 | queueing priorities 5, 2, 9, 8, 1 and running five jobs runs jobs c, d, a, b, e (priorities 9, 8, 5, 2, 1) in that order and leaves the queue empty |

## Left out

- `Job::execute` only writes a line to standard output. `RunHighestPriority` models running a job by returning it (`ran`). The `cout` calls in `main` are left out.
- `Job::getName` is left out. Jobs keep their name as data, but the ordering never reads it.
- The generic `Compare` parameter is left out. The heap is instantiated at `Job`, with `std::greater<Job>`, which is `Job::operator>`.
- Vector growth and reallocation are left out. `std::swap` is modelled as exchanging two sequence elements.
- Fixed-width integers are left out. `2 * j + 1` in `int` and the `int`/`size_t` comparison in `has_left`/`has_right` are modelled on unbounded naturals. A heap with more than about 2^30 entries would overflow in the source.
- `Heaps.Max` and `Heaps.RemoveMax` require a non-empty queue. The source reads `data.front()` and `data[0]` without a check there, which is undefined behaviour.
- `Heaps.Insert`, `Heaps.RemoveMax`, `JobQueues.Insert` and `JobQueues.RunHighestPriority` require the heap property (`Valid`). It is the class invariant that every public operation keeps, and nothing outside the class can break it.
- `Jobs.GreaterThan` (`Job::operator>`, priorityQueue.cpp:27-28), `HeapIndex.HasLeft` and `HeapIndex.HasRight` (`has_left`/`has_right`, priorityQueue.cpp:41-42) are predicates defined directly by the source's comparison. They have no contract of their own. Their properties are stated by `Jobs.GreaterThanIsStrictWeakOrder`, `HeapIndex.ChildOfParent` and `Heaps.HeapPropertyByChildren`.
- `Heaps.Size` and `JobQueues.Size` carry no contract of their own. The size law ("insert adds one, remove_max takes one") is stated on `Insert`, `RemoveMax` and `RunHighestPriority`.
- `Heaps.Max` returns the entry by value, not a reference into the vector.
