/**
 * The exits and the case split of the insertion fix-up loop: what holds
 * when the loop stops because the parent is NULL or black, and where the
 * grandparent is when the parent is red.
 */
module PhLoop {
  import opened PhArena
  import opened PhRewrite
  import opened PhFixup

  /** No tree node is its own parent. */
  lemma NotOwnParent(a: WfArena, c: int)
    requires InTree(a, c)
    ensures a.parent[c] != c
  {
    if a.parent[c] == c {
      ParentAbove(a, c);
    }
  }

  /** A node whose parent word refers to itself (`PH_EMPTY_NODE`) is not in the tree. */
  lemma EmptyNotInTree(a: WfArena, c: int)
    requires IsNode(a, c)
    ensures EmptyNode(a.parent, c) ==> !InTree(a, c)
  {
    if InTree(a, c) {
      NotOwnParent(a, c);
    }
  }

  /** The root is the only tree node with a NULL parent. */
  lemma NilParentIsRoot(a: WfArena, c: int)
    requires InTree(a, c) && a.parent[c] == Nil
    ensures a.root == c
  {
    assert NodeShape(a, c);
  }

  /** A tree node that is some node's child word has that node as its parent. */
  lemma ChildOf(a: WfArena, i: int, c: int)
    requires InTree(a, i) && c != Nil && (a.left[i] == c || a.right[i] == c)
    ensures IsNode(a, c) && a.parent[c] == i
  {
    assert NodeShape(a, i);
  }

  /**
   * The fix-up stops at a NULL parent (lib/phtree.c, the first exit of the
   * loop): n is the root, and painting it black gives a red-black tree.
   */
  lemma RootBlackened(a: WfArena, n: int)
    requires FixupInv(a, n) && a.parent[n] == Nil
    ensures var b := SetParentColor(a, n, Nil, Black);
      RBTree(b) && b.inorder == a.inorder && b.left == a.left && b.right == a.right && b.parent == a.parent
  {
    var b := SetParentColor(a, n, Nil, Black);
    assert b.parent == a.parent;
    NilParentIsRoot(a, n);
    forall i | InTree(b, i)
      ensures NodeShape(b, i)
    {
      assert NodeShape(a, i);
    }
    assert WellFormed(b);
    forall i | InTree(b, i)
      ensures NodeShape(b, i) && BalancedAt(b, i) && RedOkAt(b, Nil, i)
    {
      assert NodeShape(a, i) && BalancedAt(a, i) && RedOkAt(a, n, i);
      if a.left[i] != Nil { ChildOf(a, i, a.left[i]); }
      if a.right[i] != Nil { ChildOf(a, i, a.right[i]); }
    }
  }

  /**
   * The fix-up stops at a black parent (lib/phtree.c, the second exit of
   * the loop): the one exempted red node has a black parent, so nothing is
   * exempted any more.
   */
  lemma BlackParentDone(a: WfArena, n: int)
    requires FixupInv(a, n) && a.parent[n] != Nil && IsNode(a, a.parent[n]) && a.color[a.parent[n]] == Black
    ensures RBTree(a)
  {
    forall i | InTree(a, i)
      ensures NodeShape(a, i) && RedOkAt(a, Nil, i)
    {
      assert NodeShape(a, i) && RedOkAt(a, n, i);
      if a.left[i] == n || a.right[i] == n { ChildOf(a, i, n); }
    }
  }

  /** The side of g on which P hangs, read as the source reads it: not the right child means the left. */
  function SideOf(a: Arena, g: int, P: int): (d: Dir)
    requires Sized(a) && IsNode(a, g)
    ensures (a.left[g] == P || a.right[g] == P) ==> Child(a, g, d) == P
  {
    if a.right[g] != P then Left else Right
  }

  /**
   * When the loop goes on past both exits, the parent P is red, so it is not
   * the root: the grandparent exists, and P hangs below it on side `SideOf`.
   */
  lemma RedParentAbove(a: WfArena, n: int)
    requires FixupInv(a, n) && a.parent[n] != Nil && IsNode(a, a.parent[n]) && a.color[a.parent[n]] == Red
    ensures var P := a.parent[n];
      a.parent[P] != Nil && IsNode(a, a.parent[P]) &&
      RedParent(a, n, P, a.parent[P], SideOf(a, a.parent[P], P)) &&
      (Child(a, P, Left) == n || Child(a, P, Right) == n)
  {
    var P := a.parent[n];
    ParentAbove(a, n);
    NotOwnParent(a, n);
    if a.parent[P] == Nil {
      NilParentIsRoot(a, P);
    }
    ParentAbove(a, P);
  }
}
