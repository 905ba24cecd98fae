/** Jobs: the entry type the job queue stores and the ordering the heap uses.

    A job carries a name and an integer priority. The heap never looks at the
    name; it only asks whether one job is "greater than" another, which for
    jobs means a strictly higher priority. The default comparator of the heap
    (`std::greater<Job>`) calls exactly this operator.
 */
module Jobs {

  datatype Job = Job(name: string, priority: int)

  /** `a > b` for jobs: `a` has a strictly higher priority than `b`. */
  predicate GreaterThan(a: Job, b: Job)
  {
    a.priority > b.priority
  }

  /** The relation the heap relies on is a strict weak order: irreflexive,
      transitive, and "not greater than" is transitive too (equal priorities
      form the equivalence classes). */
  lemma GreaterThanIsStrictWeakOrder(a: Job, b: Job, c: Job)
    ensures !GreaterThan(a, a)
    ensures GreaterThan(a, b) ==> !GreaterThan(b, a)
    ensures GreaterThan(a, b) && GreaterThan(b, c) ==> GreaterThan(a, c)
    ensures !GreaterThan(a, b) && !GreaterThan(b, c) ==> !GreaterThan(a, c)
    ensures !GreaterThan(a, b) && !GreaterThan(b, a) <==> a.priority == b.priority
  {
  }

  /** The priorities of a sequence of jobs, in order. */
  function Priorities(s: seq<Job>): seq<int>
  {
    seq(|s|, i requires 0 <= i < |s| => s[i].priority)
  }
}
