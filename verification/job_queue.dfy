/** JobQueues: the thin scheduler wrapper around one `HeapPriorityQueue<Job>`.

    `Insert` forwards to the heap. `RunHighestPriority` does nothing on an
    empty queue; otherwise it reads the maximum job, runs it, and removes it.
    Running a job only prints a line, so the model hands the job that was run
    back to the caller instead.
 */
module JobQueues {
  import opened Jobs
  import Heaps

  datatype Option<T> = None | Some(value: T)

  datatype JobQueue = JobQueue(queue: Heaps.HeapPriorityQueue)

  ghost predicate Valid(q: JobQueue)
  {
    Heaps.Valid(q.queue)
  }

  ghost function Contents(q: JobQueue): multiset<Job>
  {
    Heaps.Contents(q.queue)
  }

  /** A fresh job queue holds no jobs. */
  function NewJobQueue(): (q: JobQueue)
    ensures Valid(q) && Contents(q) == multiset{}
  {
    JobQueue(Heaps.NewQueue())
  }

  /** Number of queued jobs. */
  function Size(q: JobQueue): nat
  {
    Heaps.Size(q.queue)
  }

  /** True exactly when no job is queued. */
  function IsEmpty(q: JobQueue): (r: bool)
    ensures r <==> Contents(q) == multiset{}
    ensures r <==> Size(q) == 0
  {
    Heaps.Empty(q.queue)
  }

  /** Adds a job to the queue. */
  method Insert(q: JobQueue, job: Job) returns (q': JobQueue)
    requires Valid(q)
    ensures Valid(q')
    ensures Contents(q') == Contents(q) + multiset{job}
    ensures Size(q') == Size(q) + 1
  {
    var h := Heaps.Insert(q.queue, job);
    q' := JobQueue(h);
  }

  /** Adds the jobs of `s` to the queue, one after another in order. */
  method InsertAll(q: JobQueue, s: seq<Job>) returns (q': JobQueue)
    requires Valid(q)
    ensures Valid(q')
    ensures Contents(q') == Contents(q) + multiset(s)
    ensures Size(q') == Size(q) + |s|
  {
    q' := q;
    var i := 0;
    while i < |s|
      invariant i <= |s|
      invariant Valid(q')
      invariant Contents(q') == Contents(q) + multiset(s[..i])
      invariant Size(q') == Size(q) + i
    {
      assert s[..i + 1] == s[..i] + [s[i]];
      q' := Insert(q', s[i]);
      i := i + 1;
    }
    assert s[..i] == s;
  }

  /** Runs and removes the highest-priority job; a no-op on an empty queue.
      `ran` is the job that was run, if any. */
  method RunHighestPriority(q: JobQueue) returns (q': JobQueue, ran: Option<Job>)
    requires Valid(q)
    ensures Valid(q')
    ensures IsEmpty(q) ==> q' == q && ran == None
    ensures !IsEmpty(q) ==> ran.Some? && Size(q') + 1 == Size(q)
    ensures ran.Some? ==> ran.value in Contents(q)
    ensures ran.Some? ==> forall e :: e in Contents(q) ==> !GreaterThan(e, ran.value)
    ensures ran.Some? ==> Contents(q') == Contents(q) - multiset{ran.value}
  {
    if Heaps.Empty(q.queue) {
      return q, None;
    }
    var next := Heaps.Max(q.queue);
    var h := Heaps.RemoveMax(q.queue);
    q', ran := JobQueue(h), Some(next);
  }

  /** Non-increasing priority order: no later job is greater than an
      earlier one. */
  ghost predicate NonIncreasing(s: seq<Job>)
  {
    forall i, k :: 0 <= i < k < |s| ==> !GreaterThan(s[k], s[i])
  }

  /** Runs jobs until the queue is empty; returns them in the order run.
      They come out in non-increasing priority order, and they are exactly
      the jobs that were queued. */
  method Drain(q: JobQueue) returns (q': JobQueue, ran: seq<Job>)
    requires Valid(q)
    ensures Valid(q') && IsEmpty(q')
    ensures NonIncreasing(ran)
    ensures multiset(ran) == Contents(q)
  {
    q' := q;
    ran := [];
    while !IsEmpty(q')
      invariant Valid(q')
      invariant multiset(ran) + Contents(q') == Contents(q)
      invariant NonIncreasing(ran)
      invariant forall i, e :: 0 <= i < |ran| && e in Contents(q') ==> !GreaterThan(e, ran[i])
      decreases Size(q')
    {
      var next: Option<Job>;
      ghost var before := q';
      q', next := RunHighestPriority(q');
      assert forall e :: e in Contents(q') ==> e in Contents(before);
      ran := ran + [next.value];
    }
  }

  // ------------------------------------------------- order independence

  /** Non-increasing sequences of integers. */
  ghost predicate Descending(p: seq<int>)
  {
    forall i, k :: 0 <= i < k < |p| ==> p[k] <= p[i]
  }

  lemma DescendingTail(p: seq<int>)
    requires |p| > 0 && Descending(p)
    ensures Descending(p[1..])
  {
  }

  /** A descending sequence of integers is determined by its multiset. */
  lemma {:induction false} DescendingUnique(p: seq<int>, r: seq<int>)
    requires Descending(p) && Descending(r)
    requires multiset(p) == multiset(r)
    ensures p == r
    decreases |p|
  {
    if |p| == 0 {
      assert |multiset(r)| == 0;
    } else {
      assert |r| == |multiset(r)| == |multiset(p)| == |p|;
      assert p[0] in multiset(r);
      assert r[0] in multiset(p);
      assert p[0] == r[0];
      assert p == [p[0]] + p[1..];
      assert r == [r[0]] + r[1..];
      assert multiset(p) == multiset{p[0]} + multiset(p[1..]);
      assert multiset(r) == multiset{r[0]} + multiset(r[1..]);
      assert multiset(p[1..]) == multiset(p) - multiset{p[0]};
      assert multiset(r[1..]) == multiset(r) - multiset{r[0]};
      DescendingTail(p);
      DescendingTail(r);
      DescendingUnique(p[1..], r[1..]);
    }
  }

  lemma PrioritiesRemoveAt(b: seq<Job>, k: nat)
    requires k < |b|
    ensures Priorities(b[..k] + b[k + 1..]) == Priorities(b)[..k] + Priorities(b)[k + 1..]
  {
  }

  /** Removing the entry at index `k` removes one copy of it. */
  lemma MultisetRemoveAt<T>(b: seq<T>, k: nat)
    requires k < |b|
    ensures multiset(b[..k] + b[k + 1..]) == multiset(b) - multiset{b[k]}
  {
    assert b == b[..k] + [b[k]] + b[k + 1..];
  }

  lemma MultisetCancel<T>(m: multiset<T>, n: multiset<T>, v: T)
    requires v in m && v in n
    requires m - multiset{v} == n - multiset{v}
    ensures m == n
  {
    assert m == (m - multiset{v}) + multiset{v};
    assert n == (n - multiset{v}) + multiset{v};
  }

  /** Jobs with equal multisets have priorities with equal multisets. */
  lemma {:induction false} SamePriorityMultiset(a: seq<Job>, b: seq<Job>)
    requires multiset(a) == multiset(b)
    ensures multiset(Priorities(a)) == multiset(Priorities(b))
    decreases |a|
  {
    if |a| == 0 {
      assert |multiset(b)| == 0;
    } else {
      var n := |a| - 1;
      var x := a[n];
      assert x in multiset(b);
      var k :| 0 <= k < |b| && b[k] == x;
      MultisetRemoveAt(a, n);
      MultisetRemoveAt(b, k);
      SamePriorityMultiset(a[..n] + a[n + 1..], b[..k] + b[k + 1..]);
      var pa, pb := Priorities(a), Priorities(b);
      PrioritiesRemoveAt(a, n);
      PrioritiesRemoveAt(b, k);
      MultisetRemoveAt(pa, n);
      MultisetRemoveAt(pb, k);
      MultisetCancel(multiset(pa), multiset(pb), x.priority);
    }
  }

  /** However the same jobs were inserted, draining yields the same
      sequence of priorities: two non-increasing orders of one multiset of
      jobs agree on every priority (ties may appear in either order). */
  lemma DrainOrderIsDetermined(a: seq<Job>, b: seq<Job>)
    requires NonIncreasing(a) && NonIncreasing(b)
    requires multiset(a) == multiset(b)
    ensures Priorities(a) == Priorities(b)
  {
    SamePriorityMultiset(a, b);
    DescendingUnique(Priorities(a), Priorities(b));
  }

  /** Round trip: queueing the jobs of `s` on an empty queue in whatever
      order and draining runs exactly those jobs, and the sequence of
      priorities they run in is the sorted order of `s`'s priorities, the same
      for every permutation of `s`. */
  method InsertThenDrain(s: seq<Job>, t: seq<Job>) returns (ranS: seq<Job>, ranT: seq<Job>)
    requires multiset(s) == multiset(t)
    ensures multiset(ranS) == multiset(s) && NonIncreasing(ranS)
    ensures Priorities(ranS) == Priorities(ranT)
  {
    var q := InsertAll(NewJobQueue(), s);
    var drained: JobQueue;
    drained, ranS := Drain(q);
    q := InsertAll(NewJobQueue(), t);
    drained, ranT := Drain(q);
    DrainOrderIsDetermined(ranS, ranT);
  }

  // ------------------------------------------------------ the demonstration

  /** When one queued job has a priority strictly above all the others,
      running the highest-priority job runs exactly that one and leaves the
      others queued. */
  method RunUniqueTop(q: JobQueue, top: Job, ghost rest: multiset<Job>)
    returns (q': JobQueue, ran: Option<Job>)
    requires Valid(q)
    requires Contents(q) == rest + multiset{top}
    requires forall e :: e in rest ==> GreaterThan(top, e)
    ensures Valid(q')
    ensures ran == Some(top)
    ensures Contents(q') == rest
  {
    q', ran := RunHighestPriority(q);
    assert !GreaterThan(top, ran.value);
  }

  /** The five jobs of the demonstration run. */
  const JobA := Job("This is job a", 5)
  const JobB := Job("This is job b", 2)
  const JobC := Job("This is job c", 9)
  const JobD := Job("This is job d", 8)
  const JobE := Job("This is job e", 1)

  /** The first half of the demonstration: the five jobs are queued in the
      order a, b, c, d, e. */
  method QueueDemoJobs() returns (q: JobQueue)
    ensures Valid(q)
    ensures Contents(q) == multiset{JobA, JobB, JobC, JobD, JobE}
  {
    q := NewJobQueue();
    q := Insert(q, JobA);
    q := Insert(q, JobB);
    q := Insert(q, JobC);
    q := Insert(q, JobD);
    q := Insert(q, JobE);
  }

  /** The demonstration run: jobs with priorities 5, 2, 9, 8, 1 are queued in
      that order and five jobs are run; they run in the order 9, 8, 5, 2, 1
      and the queue ends empty. */
  method DemoSchedule() returns (ran: seq<Option<Job>>, q: JobQueue)
    ensures ran == [Some(JobC), Some(JobD), Some(JobA), Some(JobB), Some(JobE)]
    ensures IsEmpty(q)
  {
    q := QueueDemoJobs();
    // The jobs still queued after each run, built lowest priority first.
    ghost var left4 := multiset{} + multiset{JobE};
    ghost var left3 := left4 + multiset{JobB};
    ghost var left2 := left3 + multiset{JobA};
    ghost var left1 := left2 + multiset{JobD};
    assert Contents(q) == left1 + multiset{JobC};
    var r1, r2, r3, r4, r5;
    q, r1 := RunUniqueTop(q, JobC, left1);
    q, r2 := RunUniqueTop(q, JobD, left2);
    q, r3 := RunUniqueTop(q, JobA, left3);
    q, r4 := RunUniqueTop(q, JobB, left4);
    q, r5 := RunUniqueTop(q, JobE, multiset{});
    ran := [r1, r2, r3, r4, r5];
  }
}
