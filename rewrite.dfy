/**
 * A rotation or a recolouring rewrites a handful of nodes.  `LocalRewrite`
 * says when the per-node invariants of every other node carry over: the
 * nodes outside the rewritten set S keep all their words and labels, a child
 * slot changes only when its old occupant is in S, and a node of S whose
 * parent lies outside S still looks the same to that parent.
 */
module PhRewrite {
  import opened PhArena

  /** b has the same nodes and the same in-order labelling as a. */
  ghost predicate Congruent(a: Arena, b: Arena)
  {
    Sized(a) && Sized(b) && |b.left| == |a.left| && b.inorder == a.inorder && b.ord == a.ord
  }

  /** Node i keeps every word and label. */
  ghost predicate Same(a: Arena, b: Arena, i: int)
    requires Congruent(a, b) && IsNode(a, i)
  {
    b.left[i] == a.left[i] && b.right[i] == a.right[i] && b.parent[i] == a.parent[i] &&
    b.lo[i] == a.lo[i] && b.hi[i] == a.hi[i] && b.color[i] == a.color[i] && b.bh[i] == a.bh[i]
  }

  /** Node c keeps what its parent's invariants look at. */
  ghost predicate Seen(a: Arena, b: Arena, c: int)
    requires Congruent(a, b) && IsNode(a, c)
  {
    b.parent[c] == a.parent[c] && b.lo[c] == a.lo[c] && b.hi[c] == a.hi[c] &&
    b.color[c] == a.color[c] && b.bh[c] == a.bh[c]
  }

  /** The root conjunct of `WellFormed`. */
  ghost predicate RootOk(b: Arena)
    requires Sized(b)
  {
    if b.root == Nil then |b.inorder| == 0
    else InTree(b, b.root) && b.parent[b.root] == Nil && b.lo[b.root] == 0 && b.hi[b.root] == |b.inorder| - 1
  }

  /** The invariants of all three kinds at node s. */
  ghost predicate GoodAt(b: Arena, y: int, s: int)
    requires Sized(b) && IsNode(b, s)
  {
    NodeShape(b, s) && NodeOrNil(b, b.left[s]) && NodeOrNil(b, b.right[s]) &&
    BalancedAt(b, s) && RedOkAt(b, y, s)
  }

  /** The conditions under which only the nodes of S need a proof of their own. */
  ghost predicate Local(a: Arena, b: Arena, S: set<int>, x: int)
    requires Congruent(a, b)
  {
    (forall i {:trigger Same(a, b, i)} :: IsNode(a, i) && i !in S ==> Same(a, b, i)) &&
    (forall q {:trigger b.left[q]} :: IsNode(a, q) && b.left[q] != a.left[q] ==> a.left[q] in S) &&
    (forall q {:trigger b.right[q]} :: IsNode(a, q) && b.right[q] != a.right[q] ==> a.right[q] in S) &&
    (b.root != a.root ==> a.root in S) &&
    (forall c {:trigger Seen(a, b, c)} :: IsNode(a, c) && c in S && a.parent[c] != Nil && a.parent[c] !in S ==> Seen(a, b, c)) &&
    (x != Nil ==> IsNode(a, x) && a.parent[x] in S)
  }

  lemma LocalRewrite(a: WfArena, b: Arena, S: set<int>, x: int, y: int)
    requires Balanced(a) && RedOk(a, x)
    requires Congruent(a, b) && Local(a, b, S, x) && RootOk(b)
    requires forall s {:trigger GoodAt(b, y, s)} :: s in S && InTree(b, s) ==> GoodAt(b, y, s)
    ensures WellFormed(b) && Balanced(b) && RedOk(b, y)
  {
    forall i | InTree(b, i)
      ensures NodeShape(b, i) && BalancedAt(b, i) && RedOkAt(b, y, i)
    {
      if i in S {
        assert GoodAt(b, y, i);
      } else {
        FrameAt(a, b, S, x, y, i);
      }
    }
  }

  /** A node outside S keeps its invariants. */
  lemma FrameAt(a: WfArena, b: Arena, S: set<int>, x: int, y: int, i: int)
    requires Balanced(a) && RedOk(a, x)
    requires Congruent(a, b) && Local(a, b, S, x)
    requires InTree(a, i) && i !in S
    ensures NodeOrNil(b, b.left[i]) && NodeOrNil(b, b.right[i])
    ensures NodeShape(b, i) && BalancedAt(b, i) && RedOkAt(b, y, i)
  {
    assert NodeShape(a, i) && BalancedAt(a, i) && RedOkAt(a, x, i);
    assert Same(a, b, i);
    var l, r, q := a.left[i], a.right[i], a.parent[i];
    if l != Nil {
      if l in S { assert Seen(a, b, l); } else { assert Same(a, b, l); }
    }
    if r != Nil {
      if r in S { assert Seen(a, b, r); } else { assert Same(a, b, r); }
    }
    if q != Nil {
      if a.left[q] == i {
        assert b.left[q] == i;
      } else {
        assert b.right[q] == i;
      }
    }
  }

  /** Gathers the per-node facts of a rewrite of four nodes into the form `LocalRewrite` wants. */
  lemma GoodOn4(b: Arena, y: int, s1: int, s2: int, s3: int, s4: int)
    requires Sized(b)
    requires InTree(b, s1) ==> GoodAt(b, y, s1)
    requires InTree(b, s2) ==> GoodAt(b, y, s2)
    requires InTree(b, s3) ==> GoodAt(b, y, s3)
    requires InTree(b, s4) ==> GoodAt(b, y, s4)
    ensures forall s {:trigger GoodAt(b, y, s)} :: s in {s1, s2, s3, s4} && InTree(b, s) ==> GoodAt(b, y, s)
  {
  }

  /** A black subtree t that keeps its own words and moves under a new parent q keeps its invariants. */
  lemma Reattached(a: Arena, b: Arena, t: int, q: int, y: int)
    requires Congruent(a, b) && InTree(a, t) && NodeShape(a, t) && BalancedAt(a, t)
    requires b.left[t] == a.left[t] && b.right[t] == a.right[t] && b.lo[t] == a.lo[t] && b.hi[t] == a.hi[t]
    requires b.bh[t] == a.bh[t] && b.color[t] == Black && b.parent[t] == q
    requires InTree(a, q) && (b.left[q] == t || b.right[q] == t)
    requires a.left[t] != Nil ==> Same(a, b, a.left[t])
    requires a.right[t] != Nil ==> Same(a, b, a.right[t])
    ensures GoodAt(b, y, t)
  {
  }

  /**
   * A node r whose child slot that held x now holds c, where c stands where x
   * stood and shows r the same black count, keeps its invariants.
   */
  lemma Replaced(a: Arena, b: Arena, r: int, x: int, c: int, o: int, y: int)
    requires Congruent(a, b) && InTree(a, r) && NodeShape(a, r) && BalancedAt(a, r) && Seen(a, b, r)
    requires x != Nil && (a.left[r] == x || a.right[r] == x)
    requires a.left[r] == x ==> b.left[r] == c && b.right[r] == a.right[r] && o == a.right[r]
    requires a.left[r] != x ==> b.right[r] == c && b.left[r] == a.left[r] && o == a.left[r]
    requires InTree(a, c) && b.parent[c] == r && b.lo[c] == a.lo[x] && b.hi[c] == a.hi[x]
    requires Contrib(b, c) == Contrib(a, x)
    requires o != Nil ==> Same(a, b, o)
    requires a.parent[r] != Nil ==> b.left[a.parent[r]] == a.left[a.parent[r]] && b.right[a.parent[r]] == a.right[a.parent[r]]
    requires a.parent[r] == Nil ==> b.root == a.root
    requires b.color[r] == Red ==> (c == y || IsBlack(b, c)) && (o == y || IsBlack(a, o))
    ensures GoodAt(b, y, r)
  {
  }

  /** `GoodOn4` for a rewrite of six nodes. */
  lemma GoodOn6(b: Arena, y: int, s1: int, s2: int, s3: int, s4: int, s5: int, s6: int)
    requires Sized(b)
    requires InTree(b, s1) ==> GoodAt(b, y, s1)
    requires InTree(b, s2) ==> GoodAt(b, y, s2)
    requires InTree(b, s3) ==> GoodAt(b, y, s3)
    requires InTree(b, s4) ==> GoodAt(b, y, s4)
    requires InTree(b, s5) ==> GoodAt(b, y, s5)
    requires InTree(b, s6) ==> GoodAt(b, y, s6)
    ensures forall s {:trigger GoodAt(b, y, s)} :: s in {s1, s2, s3, s4, s5, s6} && InTree(b, s) ==> GoodAt(b, y, s)
  {
  }
}
