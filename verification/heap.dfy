/** Heaps: the array-backed binary max-heap `HeapPriorityQueue<Job>`.

    The queue is a dense vector read as a complete binary tree through the
    index arithmetic of `HeapIndex`. Its invariant is the heap property: no
    entry is greater than its parent. `Insert` appends and sifts the new entry
    up; `RemoveMax` moves the last entry to the root, drops the last slot and
    sifts the root down. The contents of the queue are the multiset of the
    vector's entries.
 */
module Heaps {
  import opened Jobs
  import opened HeapIndex

  datatype HeapPriorityQueue = HeapPriorityQueue(data: seq<Job>)

  /** The heap property: no entry is greater than its parent. */
  ghost predicate IsHeap(a: seq<Job>)
  {
    forall i :: 0 < i < |a| ==> !GreaterThan(a[i], a[Parent(i)])
  }

  /** The heap property as the source phrases it: for every index, neither
      child that exists is greater than the entry at that index. */
  ghost predicate ChildrenNotGreater(a: seq<Job>)
  {
    forall j :: 0 <= j < |a| ==>
      && (HasLeft(j, |a|) ==> !GreaterThan(a[Left(j)], a[j]))
      && (HasRight(j, |a|) ==> !GreaterThan(a[Right(j)], a[j]))
  }

  /** The two phrasings of the heap property agree. */
  lemma HeapPropertyByChildren(a: seq<Job>)
    ensures IsHeap(a) <==> ChildrenNotGreater(a)
  {
    if IsHeap(a) {
      forall j | 0 <= j < |a|
        ensures HasLeft(j, |a|) ==> !GreaterThan(a[Left(j)], a[j])
        ensures HasRight(j, |a|) ==> !GreaterThan(a[Right(j)], a[j])
      {
        if HasLeft(j, |a|) {
          assert Parent(Left(j)) == j;
        }
        if HasRight(j, |a|) {
          assert Parent(Right(j)) == j;
        }
      }
    }
    if ChildrenNotGreater(a) {
      forall i | 0 < i < |a|
        ensures !GreaterThan(a[i], a[Parent(i)])
      {
        var p := Parent(i);
        if i == Left(p) {
          assert HasLeft(p, |a|);
        } else {
          assert i == Right(p);
          assert HasRight(p, |a|);
        }
      }
    }
  }

  /** Every entry of a heap is not greater than the entry on the root path
      above it; in particular nothing is greater than the root. */
  lemma {:induction false} NotGreaterThanAncestor(a: seq<Job>, i: nat, k: nat)
    requires IsHeap(a)
    requires i < |a| && IsAncestor(k, i)
    ensures k < |a|
    ensures !GreaterThan(a[i], a[k])
    decreases i
  {
    AncestorIsNotBelow(k, i);
    if k != i {
      NotGreaterThanAncestor(a, Parent(i), k);
    }
  }

  /** The root lies on the root path of every index. */
  lemma {:induction false} RootIsAncestor(i: nat)
    ensures IsAncestor(0, i)
    decreases i
  {
    if i > 0 {
      RootIsAncestor(Parent(i));
    }
  }

  /** The root of a heap dominates every entry. */
  lemma RootDominates(a: seq<Job>)
    requires |a| > 0
    ensures IsHeap(a) ==> forall i :: 0 <= i < |a| ==> !GreaterThan(a[i], a[0])
  {
    if IsHeap(a) {
      forall i | 0 <= i < |a|
        ensures !GreaterThan(a[i], a[0])
      {
        RootIsAncestor(i);
        NotGreaterThanAncestor(a, i, 0);
      }
    }
  }

  /** Exchange the entries at indices `i` and `k`. */
  function Swap(a: seq<Job>, i: nat, k: nat): (b: seq<Job>)
    requires i < |a| && k < |a|
    ensures |b| == |a| && multiset(b) == multiset(a)
    ensures b[i] == a[k] && b[k] == a[i]
    ensures forall m :: 0 <= m < |a| && m != i && m != k ==> b[m] == a[m]
  {
    a[i := a[k]][k := a[i]]
  }

  // ---------------------------------------------------------------- upheap

  /** The state upheap works in: the heap property holds on every edge
      except possibly the one from `j` to its parent, and the children of `j`
      are not greater than the parent of `j` (so that `j` may be swapped
      with its parent without breaking the edges below). */
  ghost predicate HeapExceptUp(a: seq<Job>, j: nat)
  {
    && (forall i :: 0 < i < |a| && i != j ==> !GreaterThan(a[i], a[Parent(i)]))
    && (j > 0 ==> forall c :: 0 < c < |a| && Parent(c) == j ==> !GreaterThan(a[c], a[Parent(j)]))
  }

  /** One swap of upheap moves the exception one edge up. */
  lemma UpheapStep(a: seq<Job>, j: nat)
    requires 0 < j < |a|
    requires HeapExceptUp(a, j)
    requires GreaterThan(a[j], a[Parent(j)])
    ensures HeapExceptUp(Swap(a, j, Parent(j)), Parent(j))
  {
  }

  /** Slots above `k` on its root path hold their original entries. */
  ghost predicate UnchangedAbove(a: seq<Job>, b: seq<Job>, k: nat)
    requires |b| == |a|
  {
    forall i :: 0 <= i < |a| && IsAncestor(i, k) && i != k ==> b[i] == a[i]
  }

  /** Slots on the root path of `j` below `k` hold the entry their parent
      held. */
  ghost predicate ShiftedBelow(a: seq<Job>, b: seq<Job>, j: nat, k: nat)
    requires |b| == |a|
  {
    forall i :: 0 < i < |a| && IsAncestor(i, j) && !IsAncestor(i, k) ==> b[i] == a[Parent(i)]
  }

  /** Every changed slot on the root path of `j`, other than `j`, held an
      entry strictly smaller than the one at `j`. */
  ghost predicate PassedSmaller(a: seq<Job>, b: seq<Job>, j: nat)
    requires |b| == |a|
  {
    forall p :: 0 <= p < |a| && p != j && IsAncestor(p, j) && b[p] != a[p] ==> j < |a| && GreaterThan(a[j], a[p])
  }

  /** The trail upheap leaves after raising the entry from `j` to `k`: slots
      off the root path of `j` and above `k` are untouched; every slot on the
      path below `k` holds the entry its parent held; the raised entry sits at
      `k`; and every entry it passed, `k`'s original one included, was
      strictly smaller than it. */
  ghost predicate RaisedAlong(a: seq<Job>, b: seq<Job>, j: nat, k: nat)
    requires |b| == |a|
  {
    && (forall i :: 0 <= i < |a| && !IsAncestor(i, j) ==> b[i] == a[i])
    && UnchangedAbove(a, b, k)
    && ShiftedBelow(a, b, j, k)
    && PassedSmaller(a, b, j)
    && (k < |a| ==> j < |a| && b[k] == a[j])
    && (k < |a| && k != j ==> j < |a| && GreaterThan(a[j], a[k]))
  }

  /** A swap of `k` with its parent leaves the slots above the parent untouched. */
  lemma UnchangedAboveStep(a: seq<Job>, b: seq<Job>, k: nat)
    requires |b| == |a| && 0 < k < |a|
    requires UnchangedAbove(a, b, k)
    ensures b[Parent(k)] == a[Parent(k)]
    ensures UnchangedAbove(a, Swap(b, k, Parent(k)), Parent(k))
  {
    var p := Parent(k);
    assert IsAncestor(p, p);
    assert IsAncestor(p, k);
    forall i | 0 <= i < |a| && IsAncestor(i, p) && i != p
      ensures Swap(b, k, p)[i] == a[i]
    {
      AncestorIsNotBelow(i, p);
      assert IsAncestor(i, k);
    }
  }

  /** After a swap of `k` with its parent, `k` too holds its parent's former entry. */
  lemma ShiftedBelowStep(a: seq<Job>, b: seq<Job>, j: nat, k: nat)
    requires |b| == |a| && 0 < k < |a|
    requires b[Parent(k)] == a[Parent(k)] && ShiftedBelow(a, b, j, k)
    ensures ShiftedBelow(a, Swap(b, k, Parent(k)), j, Parent(k))
  {
    var p := Parent(k);
    forall i | 0 < i < |a| && IsAncestor(i, j) && !IsAncestor(i, p)
      ensures Swap(b, k, p)[i] == a[Parent(i)]
    {
      if i != k {
        assert IsAncestor(i, k) == IsAncestor(i, p);
        assert IsAncestor(p, p);
      }
    }
  }

  /** `b` is `a` with the entry at `j` raised to some slot of its root path,
      along the trail `RaisedAlong` describes. */
  ghost predicate RaisedFrom(a: seq<Job>, b: seq<Job>, j: nat)
    requires |b| == |a|
  {
    exists k :: IsAncestor(k, j) && RaisedAlong(a, b, j, k)
  }

  /** One swap of upheap extends the trail by the parent of `k`. */
  lemma RaisedAlongStep(a: seq<Job>, b: seq<Job>, j: nat, k: nat)
    requires |b| == |a| && 0 < k < |a|
    requires IsAncestor(k, j) && RaisedAlong(a, b, j, k)
    requires GreaterThan(b[k], b[Parent(k)])
    ensures RaisedAlong(a, Swap(b, k, Parent(k)), j, Parent(k))
  {
    var p := Parent(k);
    ParentOfAncestor(k, j);
    UnchangedAboveStep(a, b, k);
    ShiftedBelowStep(a, b, j, k);
    assert PassedSmaller(a, Swap(b, k, p), j);
  }

  /** Moves the entry at index `j` up, swapping it with its parent while it
      is strictly greater than that parent. */
  method Upheap(a: seq<Job>, j: nat) returns (b: seq<Job>)
    requires j < |a| || j == 0
    requires HeapExceptUp(a, j)
    ensures IsHeap(b)
    ensures |b| == |a| && multiset(b) == multiset(a)
    ensures forall i :: 0 <= i < |a| && !IsAncestor(i, j) ==> b[i] == a[i]
    ensures j == 0 || !GreaterThan(a[j], a[Parent(j)]) ==> b == a
    ensures forall p: nat :: p != j && IsAncestor(p, j) && p < |a| && !GreaterThan(a[j], a[p]) ==> b[p] == a[p]
    ensures forall i :: 0 < i < |a| && IsAncestor(i, j) && b[Parent(i)] != a[Parent(i)] ==> b[i] == a[Parent(i)]
    ensures RaisedFrom(a, b, j)
  {
    b := a;
    var k: nat := j;
    while k > 0
      invariant k < |b| || k == 0
      invariant |b| == |a| && multiset(b) == multiset(a)
      invariant HeapExceptUp(b, k)
      invariant IsAncestor(k, j)
      invariant k == j ==> b == a
      invariant b == a || (j > 0 && GreaterThan(a[j], a[Parent(j)]))
      invariant RaisedAlong(a, b, j, k)
    {
      var p := Parent(k);
      if GreaterThan(b[k], b[p]) {
        UpheapStep(b, k);
        RaisedAlongStep(a, b, j, k);
        ParentOfAncestor(k, j);
        b := Swap(b, k, p);
        k := p;
      } else {
        break;
      }
    }
    forall i | 0 < i < |a| && IsAncestor(i, j) && IsAncestor(i, k)
      ensures b[Parent(i)] == a[Parent(i)]
    {
      AncestorIsNotBelow(i, k);
      ParentOfAncestor(i, k);
    }
  }

  // -------------------------------------------------------------- downheap

  /** The state downheap works in: the heap property holds on every edge
      except possibly those from `j` to its children, and the children of
      `j` are not greater than the parent of `j` (so that a child may be
      swapped into `j` without breaking the edge above). */
  ghost predicate HeapExceptDown(a: seq<Job>, j: nat)
  {
    && (forall i :: 0 < i < |a| && Parent(i) != j ==> !GreaterThan(a[i], a[Parent(i)]))
    && (j > 0 ==> forall c :: 0 < c < |a| && Parent(c) == j ==> !GreaterThan(a[c], a[Parent(j)]))
  }

  /** The child downheap compares `j` with: the left one, unless a right
      child exists and is strictly greater than the left. */
  function BigChild(a: seq<Job>, j: nat): (c: nat)
    requires HasLeft(j, |a|)
    ensures j < c < |a| && Parent(c) == j
    ensures c == Right(j) <==> HasRight(j, |a|) && GreaterThan(a[Right(j)], a[Left(j)])
    ensures forall s :: 0 < s < |a| && Parent(s) == j ==> !GreaterThan(a[s], a[c])
  {
    ChildOfParent(j, |a|);
    if HasRight(j, |a|) && GreaterThan(a[Right(j)], a[Left(j)]) then Right(j) else Left(j)
  }

  /** One swap of downheap moves the exception one edge down. */
  lemma DownheapStep(a: seq<Job>, j: nat)
    requires HasLeft(j, |a|)
    requires HeapExceptDown(a, j)
    requires GreaterThan(a[BigChild(a, j)], a[j])
    ensures HeapExceptDown(Swap(a, j, BigChild(a, j)), BigChild(a, j))
  {
  }

  /** Only slots on the path from `j` down to `k` have changed. */
  ghost predicate UnchangedOffPath(a: seq<Job>, b: seq<Job>, j: nat, k: nat)
    requires |b| == |a|
  {
    forall i :: 0 <= i < |a| && !(IsAncestor(j, i) && IsAncestor(i, k)) ==> b[i] == a[i]
  }

  /** Every slot on the path from `j` down to `k`, other than `j`, held the
      big child of its parent, an entry strictly greater than the one at `j`,
      and that entry has moved up into the parent. */
  ghost predicate RoseAlong(a: seq<Job>, b: seq<Job>, j: nat, k: nat)
    requires |b| == |a|
  {
    forall i :: 0 <= i < |a| && i != j && IsAncestor(j, i) && IsAncestor(i, k) ==>
      && j < |a| && HasLeft(Parent(i), |a|) && i == BigChild(a, Parent(i))
      && b[Parent(i)] == a[i] && GreaterThan(a[i], a[j])
  }

  /** The trail downheap leaves after sinking the entry from `j` to `k`: the
      path from `j` to `k` is the only change, each entry on it below `j`
      rose one level, and the sinking entry now sits at `k`. */
  ghost predicate SunkAlong(a: seq<Job>, b: seq<Job>, j: nat, k: nat)
    requires |b| == |a|
  {
    && UnchangedOffPath(a, b, j, k)
    && RoseAlong(a, b, j, k)
    && (k < |a| ==> j < |a| && b[k] == a[j])
  }

  /** `b` is `a` with the entry at `j` sunk to some slot of its subtree,
      along the trail `SunkAlong` describes. */
  ghost predicate SunkFrom(a: seq<Job>, b: seq<Job>, j: nat)
    requires |b| == |a|
  {
    exists k :: IsAncestor(j, k) && SunkAlong(a, b, j, k)
  }

  /** Before any swap, nothing has changed. */
  lemma SunkAlongStart(a: seq<Job>, j: nat)
    ensures SunkAlong(a, a, j, j)
  {
    forall i | 0 <= i < |a| && IsAncestor(j, i) && IsAncestor(i, j)
      ensures i == j
    {
      AncestorIsNotBelow(j, i);
      AncestorIsNotBelow(i, j);
    }
  }

  /** The children of the slot the entry has sunk to are untouched, so the
      big child there is the one of the original sequence. */
  lemma SameBigChild(a: seq<Job>, b: seq<Job>, j: nat, k: nat)
    requires |b| == |a| && HasLeft(k, |a|)
    requires UnchangedOffPath(a, b, j, k)
    ensures b[BigChild(b, k)] == a[BigChild(b, k)]
    ensures BigChild(b, k) == BigChild(a, k)
  {
    ChildOfParent(k, |a|);
    var l := Left(k);
    assert !IsAncestor(l, k) by { if IsAncestor(l, k) { AncestorIsNotBelow(l, k); } }
    assert b[l] == a[l];
    if HasRight(k, |a|) {
      var r := Right(k);
      assert !IsAncestor(r, k) by { if IsAncestor(r, k) { AncestorIsNotBelow(r, k); } }
      assert b[r] == a[r];
    }
  }

  /** A swap of `k` with its child `c` only changes slots on the path from `j` to `c`. */
  lemma UnchangedOffPathStep(a: seq<Job>, b: seq<Job>, j: nat, k: nat, c: nat)
    requires |b| == |a| && k < c < |a| && Parent(c) == k
    requires IsAncestor(j, k) && UnchangedOffPath(a, b, j, k)
    ensures IsAncestor(j, c)
    ensures UnchangedOffPath(a, Swap(b, k, c), j, c)
  {
    assert IsAncestor(k, k);
    assert IsAncestor(k, c) && IsAncestor(c, c);
    forall i | 0 <= i < |a| && !(IsAncestor(j, i) && IsAncestor(i, c))
      ensures Swap(b, k, c)[i] == a[i]
    {
      assert IsAncestor(i, c) == (i == c || IsAncestor(i, k));
    }
  }

  /** A swap of `k` with a strictly greater big child `c` lets that child's entry rise one level. */
  lemma RoseAlongStep(a: seq<Job>, b: seq<Job>, j: nat, k: nat, c: nat)
    requires |b| == |a| && HasLeft(k, |a|) && c == BigChild(a, k)
    requires IsAncestor(j, k) && RoseAlong(a, b, j, k)
    requires k < |a| ==> j < |a| && b[k] == a[j]
    requires b[c] == a[c] && GreaterThan(b[c], b[k])
    ensures RoseAlong(a, Swap(b, k, c), j, c)
  {
    forall i | 0 <= i < |a| && i != j && IsAncestor(j, i) && IsAncestor(i, c)
      ensures j < |a| && HasLeft(Parent(i), |a|) && i == BigChild(a, Parent(i))
      ensures Swap(b, k, c)[Parent(i)] == a[i] && GreaterThan(a[i], a[j])
    {
      if i != c {
        assert IsAncestor(i, c) == (i == c || IsAncestor(i, k));
        AncestorIsNotBelow(i, k);
      }
    }
  }

  /** Moves the entry at index `j` down, swapping it with its bigger child
      while that child is strictly greater. */
  method Downheap(a: seq<Job>, j: nat) returns (b: seq<Job>)
    requires HeapExceptDown(a, j)
    ensures IsHeap(b)
    ensures |b| == |a| && multiset(b) == multiset(a)
    ensures forall i :: 0 <= i < |a| && !IsAncestor(j, i) ==> b[i] == a[i]
    ensures IsHeap(a) ==> b == a
    ensures && (forall i :: j < |a| && 0 <= i < |a| && i != j && b[i] != a[i] ==>
                  && GreaterThan(a[i], a[j])
                  && HasLeft(Parent(i), |a|) && i == BigChild(a, Parent(i)) && b[Parent(i)] == a[i])
            && SunkFrom(a, b, j)
  {
    b := a;
    var k: nat := j;
    SunkAlongStart(a, j);
    while HasLeft(k, |b|)
      invariant |b| == |a| && multiset(b) == multiset(a)
      invariant HeapExceptDown(b, k)
      invariant IsAncestor(j, k)
      invariant forall i :: 0 <= i < |a| && !IsAncestor(j, i) ==> b[i] == a[i]
      invariant b == a || !IsHeap(a)
      invariant SunkAlong(a, b, j, k)
      decreases |b| - k
    {
      var c := BigChild(b, k);
      if GreaterThan(b[c], b[k]) {
        DownheapStep(b, k);
        SameBigChild(a, b, j, k);
        UnchangedOffPathStep(a, b, j, k, c);
        RoseAlongStep(a, b, j, k, c);
        b := Swap(b, k, c);
        k := c;
      } else {
        break;
      }
    }
  }

  // ------------------------------------------------------------ public API

  /** The class invariant: the stored vector is a heap. */
  ghost predicate Valid(h: HeapPriorityQueue)
  {
    IsHeap(h.data)
  }

  /** The entries the queue holds, with multiplicity. */
  ghost function Contents(h: HeapPriorityQueue): multiset<Job>
  {
    multiset(h.data)
  }

  /** A fresh queue: empty, and trivially a heap. */
  function NewQueue(): (h: HeapPriorityQueue)
    ensures Valid(h) && Contents(h) == multiset{}
  {
    HeapPriorityQueue([])
  }

  /** Number of entries. */
  function Size(h: HeapPriorityQueue): nat
  {
    |h.data|
  }

  /** True exactly when the queue holds nothing. */
  function Empty(h: HeapPriorityQueue): (r: bool)
    ensures r <==> Contents(h) == multiset{}
  {
    |h.data| == 0
  }

  /** The root entry: on a valid queue, no entry is greater than it. */
  function Max(h: HeapPriorityQueue): (m: Job)
    requires !Empty(h)
    ensures m in Contents(h)
    ensures Valid(h) ==> forall e :: e in Contents(h) ==> !GreaterThan(e, m)
  {
    RootDominates(h.data);
    h.data[0]
  }

  /** Appends `e` and sifts it up. */
  method Insert(h: HeapPriorityQueue, e: Job) returns (h': HeapPriorityQueue)
    requires Valid(h)
    ensures Valid(h')
    ensures Contents(h') == Contents(h) + multiset{e}
    ensures Size(h') == Size(h) + 1
    ensures forall i :: 0 <= i < Size(h) && !IsAncestor(i, Size(h)) ==> h'.data[i] == h.data[i]
    ensures Size(h) == 0 || !GreaterThan(e, h.data[Parent(Size(h))]) ==> h'.data == h.data + [e]
    ensures forall p: nat :: p < Size(h) && IsAncestor(p, Size(h)) && !GreaterThan(e, h.data[p]) ==> h'.data[p] == h.data[p]
    ensures forall i :: 0 < i <= Size(h) && IsAncestor(i, Size(h)) && h'.data[Parent(i)] != h.data[Parent(i)] ==> h'.data[i] == h.data[Parent(i)]
    ensures RaisedFrom(h.data + [e], h'.data, Size(h))
  {
    var a := h.data + [e];
    var b := Upheap(a, |a| - 1);
    h' := HeapPriorityQueue(b);
  }

  /** Moving the last entry over the root and dropping the last slot loses
      exactly the root, and leaves a heap except below the root. */
  lemma LastToRoot(d: seq<Job>)
    requires |d| > 0
    ensures multiset(d[0 := d[|d| - 1]][..|d| - 1]) == multiset(d) - multiset{d[0]}
    ensures IsHeap(d) ==> HeapExceptDown(d[0 := d[|d| - 1]][..|d| - 1], 0)
  {
    var n := |d|;
    var a := d[0 := d[n - 1]][..n - 1];
    if n > 1 {
      assert a == [d[n - 1]] + d[1..n - 1];
      assert d == [d[0]] + d[1..n - 1] + [d[n - 1]];
    }
  }

  /** Moves the last entry to the root, drops the last slot and sifts the
      new root down. */
  method RemoveMax(h: HeapPriorityQueue) returns (h': HeapPriorityQueue)
    requires Valid(h) && !Empty(h)
    ensures Valid(h')
    ensures Contents(h') == Contents(h) - multiset{Max(h)}
    ensures Size(h') + 1 == Size(h)
  {
    var n := |h.data|;
    var a := h.data[0 := h.data[n - 1]][..n - 1];
    LastToRoot(h.data);
    var b := Downheap(a, 0);
    h' := HeapPriorityQueue(b);
  }
}
