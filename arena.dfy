/**
 * Value-level model of the node storage behind a `struct ph_root`.
 *
 * Node ids are 0 .. |left| - 1 and `Nil` stands for the NULL pointer.  Each
 * node has a left and a right child word, a parent word and a colour (packed
 * into one word in C, two fields here).  Beside the real words the model keeps
 * a ghost labelling that says what the pointer graph means:
 *
 *   inorder   the nodes of the tree in sort order (in-order),
 *   ord[i]    the position of node i in `inorder`,
 *   lo[i]..hi[i]  the positions covered by the subtree rooted at i,
 *   bh[i]     the number of black nodes on every path from i down to NULL
 *             (not counting i itself, counting the NULL leaf).
 *
 * Every invariant is stated node by node (`NodeShape`, `Balanced`, `RedOk`),
 * so that a rotation, which touches a handful of nodes, is checked locally.
 */
module PhArena {
  /** The NULL node pointer. */
  const Nil: int := -1

  datatype Color = Red | Black

  /** Which child slot: `ph_left` or `ph_right`. */
  datatype Dir = Left | Right

  function Flip(d: Dir): (e: Dir)
    ensures e != d
  {
    if d == Left then Right else Left
  }

  datatype Arena = Arena(
    left: seq<int>, right: seq<int>, parent: seq<int>, color: seq<Color>, root: int,
    inorder: seq<int>, ord: seq<int>, lo: seq<int>, hi: seq<int>, bh: seq<int>)

  ghost predicate Sized(a: Arena)
  {
    var n := |a.left|;
    |a.right| == n && |a.parent| == n && |a.color| == n &&
    |a.ord| == n && |a.lo| == n && |a.hi| == n && |a.bh| == n
  }

  ghost predicate IsNode(a: Arena, i: int)
  {
    0 <= i < |a.left|
  }

  ghost predicate NodeOrNil(a: Arena, i: int)
  {
    i == Nil || IsNode(a, i)
  }

  /** Node i is linked into the tree: it sits at its own position of `inorder`. */
  ghost predicate InTree(a: Arena, i: int)
    requires Sized(a)
  {
    IsNode(a, i) && 0 <= a.ord[i] < |a.inorder| && a.inorder[a.ord[i]] == i
  }

  /**
   * The same condition as `InTree`, spelled out so that it is not a trigger
   * term: `NodeShape` mentions the neighbours of a node through it, and a
   * trigger there would make the solver unfold the whole tree.
   */
  ghost predicate Linked(a: Arena, j: int)
    requires Sized(a)
  {
    0 <= j < |a.left| && 0 <= a.ord[j] < |a.inorder| && a.inorder[a.ord[j]] == j
  }

  function Child(a: Arena, i: int, d: Dir): int
    requires Sized(a) && IsNode(a, i)
  {
    if d == Left then a.left[i] else a.right[i]
  }

  /**
   * The local shape of tree node i: its interval contains its own position,
   * its left subtree covers exactly the positions before it and its right
   * subtree exactly those after it, each child points back at i, and i is
   * either the root or a child of its parent.
   */
  ghost predicate NodeShape(a: Arena, i: int)
    requires Sized(a) && IsNode(a, i)
  {
    var l, r, p := a.left[i], a.right[i], a.parent[i];
    0 <= a.lo[i] <= a.ord[i] <= a.hi[i] < |a.inorder| &&
    (if l == Nil then a.lo[i] == a.ord[i]
     else Linked(a, l) && a.parent[l] == i && a.lo[l] == a.lo[i] && a.hi[l] == a.ord[i] - 1) &&
    (if r == Nil then a.hi[i] == a.ord[i]
     else Linked(a, r) && a.parent[r] == i && a.lo[r] == a.ord[i] + 1 && a.hi[r] == a.hi[i]) &&
    (if p == Nil then a.root == i else Linked(a, p) && (a.left[p] == i || a.right[p] == i))
  }

  /** The tree shape: child words form a tree, parent words are their inverse, `inorder` is its sort order. */
  ghost predicate WellFormed(a: Arena)
  {
    Sized(a) &&
    (forall k :: 0 <= k < |a.inorder| ==> IsNode(a, a.inorder[k]) && a.ord[a.inorder[k]] == k) &&
    (if a.root == Nil then |a.inorder| == 0
     else InTree(a, a.root) && a.parent[a.root] == Nil && a.lo[a.root] == 0 && a.hi[a.root] == |a.inorder| - 1) &&
    (forall i {:trigger NodeShape(a, i)} :: InTree(a, i) ==> NodeShape(a, i))
  }

  /** An arena whose words and labels agree. */
  type WfArena = a: Arena | WellFormed(a)
    witness Arena([], [], [], [], Nil, [], [], [], [], [])

  /** A NULL child counts as black. */
  ghost predicate IsBlack(a: Arena, c: int)
    requires Sized(a) && NodeOrNil(a, c)
  {
    c == Nil || a.color[c] == Black
  }

  /** The black nodes a parent sees through child word c: NULL counts one. */
  ghost function Contrib(a: Arena, c: int): int
    requires Sized(a) && NodeOrNil(a, c)
  {
    if c == Nil then 1 else a.bh[c] + (if a.color[c] == Black then 1 else 0)
  }

  /** The equal-black-count rule at tree node i: both children carry the same black count. */
  ghost predicate BalancedAt(a: Arena, i: int)
    requires Sized(a) && IsNode(a, i) && NodeOrNil(a, a.left[i]) && NodeOrNil(a, a.right[i])
  {
    Contrib(a, a.left[i]) == a.bh[i] && Contrib(a, a.right[i]) == a.bh[i]
  }

  ghost predicate Balanced(a: Arena)
    requires WellFormed(a)
  {
    forall i {:trigger BalancedAt(a, i)} :: InTree(a, i) ==> NodeShape(a, i) && BalancedAt(a, i)
  }

  /** The red-child rule (no red node has a red child) at tree node i, except that node x may be a red child of a red parent. */
  ghost predicate RedOkAt(a: Arena, x: int, i: int)
    requires Sized(a) && IsNode(a, i) && NodeOrNil(a, a.left[i]) && NodeOrNil(a, a.right[i])
  {
    a.color[i] == Red ==>
      (a.left[i] == x || IsBlack(a, a.left[i])) && (a.right[i] == x || IsBlack(a, a.right[i]))
  }

  ghost predicate RedOk(a: Arena, x: int)
    requires WellFormed(a)
  {
    forall i {:trigger RedOkAt(a, x, i)} :: InTree(a, i) ==> NodeShape(a, i) && RedOkAt(a, x, i)
  }

  /** The red-black invariants: the tree shape, the equal-black-count rule, the red-child rule and a black root. */
  ghost predicate RBTree(a: Arena)
  {
    WellFormed(a) && Balanced(a) && RedOk(a, Nil) && IsBlack(a, a.root)
  }

  /**
   * The loop invariant of the insertion fix-up: a red-black tree except that
   * the red node x may have a red parent, and x may be a red root.
   */
  ghost predicate FixupInv(a: Arena, x: int)
  {
    WellFormed(a) && Balanced(a) && InTree(a, x) && NodeShape(a, x) && a.color[x] == Red &&
    IsBlack(a, a.left[x]) && IsBlack(a, a.right[x]) &&
    RedOk(a, x) && (a.root == x || IsBlack(a, a.root))
  }

  /** The size of the subtree hanging from child word c. */
  ghost function SizeAt(a: Arena, c: int): int
    requires Sized(a) && NodeOrNil(a, c)
  {
    if c == Nil then 0 else a.hi[c] - a.lo[c] + 1
  }

  /** `PH_EMPTY_NODE`: the parent word refers to the node itself. */
  predicate EmptyNode(parent: seq<int>, i: int)
    requires 0 <= i < |parent|
  {
    parent[i] == i
  }
}
