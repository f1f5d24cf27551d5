/**
 * Case 1 of the insertion fix-up: the uncle is red.  Parent and uncle turn
 * black, the grandparent turns red, and the loop goes on from the
 * grandparent, two levels up.
 */
module PhRecolor {
  import opened PhArena
  import opened PhRewrite
  import opened PhFixup

  /**
   * The three `ph_set_parent_color` calls of Case 1; each rewrites the
   * parent word with the value it already holds.  The ghost black count of
   * g grows by one, since g is now red over two black children.
   */
  function Case1(a: Arena, P: int, g: int, u: int): (b: Arena)
    requires Sized(a) && IsNode(a, P) && IsNode(a, g) && IsNode(a, u)
    ensures Congruent(a, b)
  {
    var a1 := SetParentColor(a, u, g, Black);
    var a2 := SetParentColor(a1, P, g, Black);
    var a3 := SetParentColor(a2, g, a2.parent[g], Red);
    a3.(bh := a3.bh[g := a.bh[g] + 1])
  }

  /** The state in which the fix-up takes Case 1: the uncle u is red. */
  ghost predicate Case1Pre(a: Arena, n: int, P: int, g: int, d: Dir)
  {
    RedParent(a, n, P, g, d) && Child(a, g, Flip(d)) != Nil && a.color[Child(a, g, Flip(d))] == Red
  }

  /** What Case 1 writes: only colours and g's black count change. */
  ghost predicate Case1Effect(a: Arena, b: Arena, P: int, g: int, u: int)
    requires Sized(a) && IsNode(a, P) && IsNode(a, g) && IsNode(a, u)
  {
    Congruent(a, b) && b.left == a.left && b.right == a.right && b.parent == a.parent &&
    b.root == a.root && b.lo == a.lo && b.hi == a.hi &&
    b.color[P] == Black && b.color[u] == Black && b.color[g] == Red && b.bh[g] == a.bh[g] + 1 &&
    (forall i {:trigger b.color[i]} :: IsNode(a, i) && i != P && i != u && i != g ==> b.color[i] == a.color[i]) &&
    (forall i {:trigger b.bh[i]} :: IsNode(a, i) && i != g ==> b.bh[i] == a.bh[i])
  }

  lemma Case1Effects(a: Arena, P: int, g: int, u: int)
    requires Sized(a) && IsNode(a, P) && IsNode(a, g) && IsNode(a, u)
    requires a.parent[P] == g && a.parent[u] == g && P != g && u != g && P != u
    ensures Case1Effect(a, Case1(a, P, g, u), P, g, u)
  {
    var b := Case1(a, P, g, u);
    assert b.parent == a.parent by {
      assert |b.parent| == |a.parent|;
      forall i | 0 <= i < |a.parent|
        ensures b.parent[i] == a.parent[i]
      {
      }
    }
  }

  /** After Case 1, g is red over its two children, both now black, and one black higher. */
  lemma Case1AtG(a: Arena, b: Arena, P: int, g: int, u: int)
    requires Sized(a) && IsNode(a, P) && IsNode(a, g) && IsNode(a, u) && Case1Effect(a, b, P, g, u)
    requires InTree(a, g) && NodeShape(a, g) && BalancedAt(a, g)
    requires (a.left[g] == P && a.right[g] == u) || (a.left[g] == u && a.right[g] == P)
    requires a.color[P] == Red && a.color[u] == Red
    ensures GoodAt(b, g, g)
  {
  }

  /** After Case 1, parent and uncle are black with unchanged subtrees. */
  lemma Case1AtChild(a: Arena, b: Arena, P: int, g: int, u: int, c: int)
    requires Sized(a) && IsNode(a, P) && IsNode(a, g) && IsNode(a, u) && Case1Effect(a, b, P, g, u)
    requires c == P || c == u
    requires InTree(a, c) && NodeShape(a, c) && BalancedAt(a, c)
    requires a.left[c] != P && a.left[c] != u && a.left[c] != g
    requires a.right[c] != P && a.right[c] != u && a.right[c] != g
    ensures GoodAt(b, g, c)
  {
  }

  /** After Case 1, g's parent sees the same black count through g, which may now be red. */
  lemma Case1AtAbove(a: Arena, b: Arena, P: int, g: int, u: int, o: int)
    requires Sized(a) && IsNode(a, P) && IsNode(a, g) && IsNode(a, u) && Case1Effect(a, b, P, g, u)
    requires a.parent[g] != Nil
    requires var gg := a.parent[g];
      InTree(a, gg) && NodeShape(a, gg) && BalancedAt(a, gg) && gg != P && gg != u && gg != g &&
      (a.left[gg] == g || a.right[gg] == g) &&
      o == (if a.left[gg] == g then a.right[gg] else a.left[gg]) &&
      o != P && o != u && o != g && (a.color[gg] == Red ==> IsBlack(a, o))
    requires a.color[g] == Black
    ensures GoodAt(b, g, a.parent[g])
  {
  }

  /** Case 1 rewrites only P, g, u, and what g's parent sees is unchanged. */
  lemma Case1Local(a: Arena, b: Arena, n: int, P: int, g: int, u: int)
    requires Sized(a) && IsNode(a, P) && IsNode(a, g) && IsNode(a, u) && Case1Effect(a, b, P, g, u)
    requires IsNode(a, n) && a.parent[n] == P && a.parent[P] == g && a.parent[u] == g
    requires a.parent[g] != Nil ==> a.parent[g] != P && a.parent[g] != u && a.parent[g] != g
    ensures Local(a, b, {P, g, u, a.parent[g]}, n)
  {
  }

  /** Where the nodes of Case 1 sit and what colours they have. */
  lemma Case1Shape(a: WfArena, n: int, P: int, g: int, d: Dir)
    requires Case1Pre(a, n, P, g, d)
    ensures var u := Child(a, g, Flip(d));
      InTree(a, n) && InTree(a, P) && InTree(a, g) && InTree(a, u) &&
      NodeShape(a, g) && NodeShape(a, P) && NodeShape(a, u) &&
      BalancedAt(a, g) && BalancedAt(a, P) && BalancedAt(a, u) &&
      a.parent[u] == g && P != g && u != g && P != u && n != P && n != g && n != u &&
      a.color[g] == Black &&
      ((a.left[g] == P && a.right[g] == u) || (a.left[g] == u && a.right[g] == P))
  {
    ParentSpan(a, n);
    ParentSpan(a, P);
    ChildSpan(a, g, Flip(d));
    ChildSpan(a, g, d);
    var u := Child(a, g, Flip(d));
    assert NodeShape(a, g) && BalancedAt(a, g) && RedOkAt(a, n, g);
    assert NodeShape(a, P) && BalancedAt(a, P);
    assert NodeShape(a, u) && BalancedAt(a, u);
  }

  /** The children of P and u are not among the recoloured nodes. */
  lemma Case1Below(a: WfArena, n: int, P: int, g: int, d: Dir)
    requires Case1Pre(a, n, P, g, d)
    ensures var u := Child(a, g, Flip(d));
      IsNode(a, u) &&
      a.left[P] != P && a.left[P] != u && a.left[P] != g && a.right[P] != P && a.right[P] != u && a.right[P] != g &&
      a.left[u] != P && a.left[u] != u && a.left[u] != g && a.right[u] != P && a.right[u] != u && a.right[u] != g
  {
    ParentSpan(a, n);
    ParentSpan(a, P);
    ChildSpan(a, g, Flip(d));
    ChildSpan(a, g, d);
    var u := Child(a, g, Flip(d));
    if a.left[P] != Nil { ChildSpan(a, P, Left); }
    if a.right[P] != Nil { ChildSpan(a, P, Right); }
    if a.left[u] != Nil { ChildSpan(a, u, Left); }
    if a.right[u] != Nil { ChildSpan(a, u, Right); }
  }

  /** The neighbours of g's parent are not among the recoloured nodes. */
  lemma Case1Beside(a: WfArena, n: int, P: int, g: int, d: Dir)
    requires Case1Pre(a, n, P, g, d) && a.parent[g] != Nil
    ensures var u, gg := Child(a, g, Flip(d)), a.parent[g];
      IsNode(a, u) && InTree(a, gg) && NodeShape(a, gg) && BalancedAt(a, gg) &&
      gg != P && gg != u && gg != g && (a.left[gg] == g || a.right[gg] == g) &&
      var o := if a.left[gg] == g then a.right[gg] else a.left[gg];
      o != P && o != u && o != g && (a.color[gg] == Red ==> NodeOrNil(a, o) && IsBlack(a, o))
  {
    ParentSpan(a, n);
    ParentSpan(a, P);
    ParentSpan(a, g);
    ChildSpan(a, g, Flip(d));
    ChildSpan(a, g, d);
    var gg := a.parent[g];
    assert NodeShape(a, gg) && BalancedAt(a, gg) && RedOkAt(a, n, gg);
    if a.left[gg] == g {
      if a.right[gg] != Nil { ChildSpan(a, gg, Right); }
    } else {
      if a.left[gg] != Nil { ChildSpan(a, gg, Left); }
    }
  }

  /** After Case 1 the root is unchanged, and it is black unless it is g. */
  lemma Case1Root(a: Arena, b: Arena, n: int, P: int, g: int, u: int)
    requires Sized(a) && IsNode(a, P) && IsNode(a, g) && IsNode(a, u) && Case1Effect(a, b, P, g, u)
    requires RootOk(a) && IsNode(a, n) && (a.root == n || IsBlack(a, a.root))
    requires a.parent[n] == P && a.parent[P] == g && a.parent[u] == g
    ensures RootOk(b) && (b.root == g || IsBlack(b, b.root))
  {
  }

  /** Every node Case 1 rewrites satisfies the invariants afterwards, with g as the possible violation. */
  lemma Case1Good(a: WfArena, b: Arena, n: int, P: int, g: int, d: Dir)
    requires Case1Pre(a, n, P, g, d) && Case1Effect(a, b, P, g, Child(a, g, Flip(d)))
    ensures var u := Child(a, g, Flip(d));
      forall s {:trigger GoodAt(b, g, s)} :: s in {P, g, u, a.parent[g]} && InTree(b, s) ==> GoodAt(b, g, s)
  {
    var u, gg := Child(a, g, Flip(d)), a.parent[g];
    Case1Shape(a, n, P, g, d);
    Case1Below(a, n, P, g, d);
    Case1AtG(a, b, P, g, u);
    Case1AtChild(a, b, P, g, u, P);
    Case1AtChild(a, b, P, g, u, u);
    if gg != Nil {
      Case1Beside(a, n, P, g, d);
      var o := if a.left[gg] == g then a.right[gg] else a.left[gg];
      Case1AtAbove(a, b, P, g, u, o);
    }
    GoodOn4(b, g, P, g, u, gg);
  }

  /** Any state related to the one before by `Case1Effect` satisfies the loop invariant at g. */
  lemma Case1Finish(a: WfArena, b: Arena, n: int, P: int, g: int, d: Dir)
    requires Case1Pre(a, n, P, g, d) && Case1Effect(a, b, P, g, Child(a, g, Flip(d)))
    ensures FixupInv(b, g) && b.inorder == a.inorder && b.lo == a.lo && b.hi == a.hi
  {
    var u := Child(a, g, Flip(d));
    Case1Shape(a, n, P, g, d);
    Case1Good(a, b, n, P, g, d);
    if a.parent[g] != Nil { Case1Beside(a, n, P, g, d); }
    Case1Local(a, b, n, P, g, u);
    Case1Root(a, b, n, P, g, u);
    LocalRewrite(a, b, {P, g, u, a.parent[g]}, n, g);
    assert GoodAt(b, g, g);
  }

  /** Case 1 leaves the fix-up invariant at g, whose subtree is larger than n's. */
  lemma Case1Advances(a: WfArena, b: Arena, n: int, P: int, g: int, d: Dir)
    requires Case1Pre(a, n, P, g, d) && Case1Effect(a, b, P, g, Child(a, g, Flip(d)))
    ensures FixupInv(b, g) && b.inorder == a.inorder && SizeAt(a, n) < SizeAt(b, g)
  {
    Case1Finish(a, b, n, P, g, d);
    ParentSpan(a, n);
    ParentSpan(a, P);
  }

  /** Case 1 (lib/phtree.c, the colour flip) moves the one violation two levels up. */
  lemma Case1Restores(a: WfArena, n: int, P: int, g: int, d: Dir)
    requires Case1Pre(a, n, P, g, d)
    ensures var b := Case1(a, P, g, Child(a, g, Flip(d)));
      FixupInv(b, g) && b.inorder == a.inorder && SizeAt(a, n) < SizeAt(b, g)
  {
    var u := Child(a, g, Flip(d));
    Case1Shape(a, n, P, g, d);
    Case1Effects(a, P, g, u);
    Case1Advances(a, Case1(a, P, g, u), n, P, g, d);
  }
}
