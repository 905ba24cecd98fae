/** HeapIndex: the index arithmetic that lays a complete binary tree over a
    dense, 0-indexed vector. The node at index `j` has its children at
    `2j+1` and `2j+2`, and its parent at `(j-1)/2`.
 */
module HeapIndex {

  /** Parent of index `j`. The source divides with C++ integer division,
      which truncates toward zero, so the root is its own parent:
      `(0 - 1) / 2 == 0`. Dafny's `/` on `int` would give -1 there, hence the
      explicit case. */
  function Parent(j: nat): (p: nat)
    ensures j == 0 ==> p == 0
    ensures j > 0 ==> p < j && (2 * p + 1 == j || 2 * p + 2 == j)
  {
    if j == 0 then 0 else (j - 1) / 2
  }

  /** Left child of index `j`. */
  function Left(j: nat): (l: nat)
    ensures j < l
    ensures Parent(l) == j
  {
    2 * j + 1
  }

  /** Right child of index `j`: the slot just after the left child. */
  function Right(j: nat): (r: nat)
    ensures r == Left(j) + 1
    ensures Parent(r) == j
  {
    2 * j + 2
  }

  /** Does index `j` have a left child in a vector of `n` entries? */
  predicate HasLeft(j: nat, n: nat)
  {
    Left(j) < n
  }

  /** Does index `j` have a right child in a vector of `n` entries? */
  predicate HasRight(j: nat, n: nat)
  {
    Right(j) < n
  }

  /** Every index other than the root is one of the two children of its
      parent, and having a right child implies having a left one. */
  lemma ChildOfParent(i: nat, n: nat)
    ensures i > 0 ==> Left(Parent(i)) == i || Right(Parent(i)) == i
    ensures HasRight(i, n) ==> HasLeft(i, n)
  {
  }

  /** `i` lies on the path from `j` up to the root (`j` included). */
  predicate IsAncestor(i: nat, j: nat)
    decreases j
  {
    i == j || (j > 0 && IsAncestor(i, Parent(j)))
  }

  /** An ancestor is never below its descendant. */
  lemma {:induction false} AncestorIsNotBelow(i: nat, j: nat)
    requires IsAncestor(i, j)
    ensures i <= j
    decreases j
  {
    if i != j {
      AncestorIsNotBelow(i, Parent(j));
    }
  }

  /** Walking one step up from a node on the root path of `j` stays on it. */
  lemma {:induction false} ParentOfAncestor(i: nat, j: nat)
    requires IsAncestor(i, j)
    ensures IsAncestor(Parent(i), j)
    decreases j
  {
    if i != j {
      ParentOfAncestor(i, Parent(j));
    }
  }
}
