/**
 * Case 2 of the insertion fix-up, the rotation at the parent when n is the
 * parent's inner child, always followed by Case 3.  Case 2 alone leaves the
 * grandparent's child word and n's parent word stale, so the two cases are
 * proved together: the state after both is a red-black tree.
 */
module PhZigzag {
  import opened PhArena
  import opened PhRewrite
  import opened PhFixup

  /** Case 2: n, P's child on side Flip(d), rotates up over P; B, n's child on side d, moves to P. */
  function Case2(a: Arena, n: int, P: int, d: Dir): (b: Arena)
    requires Sized(a) && IsNode(a, n) && IsNode(a, P) && NodeOrNil(a, Child(a, n, d))
    ensures Congruent(a, b)
  {
    var B := Child(a, n, d);
    var a1 := SetChild(a, P, Flip(d), B);
    var a2 := SetChild(a1, n, d, P);
    var a3 := if B != Nil then SetParentColor(a2, B, P, Black) else a2;
    var a4 := SetParentColor(a3, P, n, Red);
    Rotated(a4, P, n, d)
  }

  /** The nodes Case 2 writes to are distinct. */
  ghost predicate Case2Distinct(a: Arena, n: int, P: int, d: Dir)
  {
    Sized(a) && IsNode(a, n) && IsNode(a, P) && NodeOrNil(a, Child(a, n, d)) &&
    n != P && Child(a, n, d) != n && Child(a, n, d) != P
  }

  /** Everything Case 2 writes and everything it leaves alone. */
  ghost predicate Case2Effect(a: Arena, b: Arena, n: int, P: int, d: Dir)
    requires Case2Distinct(a, n, P, d)
  {
    var B := Child(a, n, d);
    Congruent(a, b) && b.bh == a.bh && b.root == a.root &&
    Child(b, P, Flip(d)) == B && Child(b, P, d) == Child(a, P, d) &&
    Child(b, n, d) == P && Child(b, n, Flip(d)) == Child(a, n, Flip(d)) &&
    b.parent[P] == n && b.color[P] == Red && b.parent[n] == a.parent[n] && b.color[n] == a.color[n] &&
    b.lo[n] == a.lo[P] && b.hi[n] == a.hi[P] &&
    (d == Left ==> b.lo[P] == a.lo[P] && b.hi[P] == a.ord[n] - 1) &&
    (d == Right ==> b.lo[P] == a.ord[n] + 1 && b.hi[P] == a.hi[P]) &&
    (B != Nil ==> b.left[B] == a.left[B] && b.right[B] == a.right[B] && b.parent[B] == P &&
                  b.color[B] == Black && b.lo[B] == a.lo[B] && b.hi[B] == a.hi[B]) &&
    (forall i {:trigger Same(a, b, i)} :: IsNode(a, i) && i != n && i != P && i != B ==> Same(a, b, i))
  }

  /** What Case 2 writes into n and P. */
  lemma Case2Words(a: Arena, n: int, P: int, d: Dir)
    requires Case2Distinct(a, n, P, d)
    ensures var b := Case2(a, n, P, d);
      Congruent(a, b) && b.bh == a.bh && b.root == a.root &&
      Child(b, P, Flip(d)) == Child(a, n, d) && Child(b, P, d) == Child(a, P, d) &&
      Child(b, n, d) == P && Child(b, n, Flip(d)) == Child(a, n, Flip(d)) &&
      b.parent[P] == n && b.color[P] == Red && b.parent[n] == a.parent[n] && b.color[n] == a.color[n] &&
      b.lo[n] == a.lo[P] && b.hi[n] == a.hi[P] &&
      (d == Left ==> b.lo[P] == a.lo[P] && b.hi[P] == a.ord[n] - 1) &&
      (d == Right ==> b.lo[P] == a.ord[n] + 1 && b.hi[P] == a.hi[P])
  {
    if d == Left {
    } else {
    }
  }

  /** What Case 2 writes into B and what it leaves alone. */
  lemma Case2Rest(a: Arena, n: int, P: int, d: Dir)
    requires Case2Distinct(a, n, P, d)
    ensures var b, B := Case2(a, n, P, d), Child(a, n, d);
      Congruent(a, b) &&
      (B != Nil ==> b.left[B] == a.left[B] && b.right[B] == a.right[B] && b.parent[B] == P &&
                    b.color[B] == Black && b.lo[B] == a.lo[B] && b.hi[B] == a.hi[B]) &&
      (forall i {:trigger Same(a, b, i)} :: IsNode(a, i) && i != n && i != P && i != B ==> Same(a, b, i))
  {
    var b, B := Case2(a, n, P, d), Child(a, n, d);
    forall i | IsNode(a, i) && i != n && i != P && i != B
      ensures Same(a, b, i)
    {
    }
  }

  lemma Case2Effects(a: Arena, n: int, P: int, d: Dir)
    requires Case2Distinct(a, n, P, d)
    ensures Case2Effect(a, Case2(a, n, P, d), n, P, d)
  {
    Case2Words(a, n, P, d);
    Case2Rest(a, n, P, d);
  }

  /** The state in which the fix-up takes Case 2: n is P's inner child and the uncle is black. */
  ghost predicate Case2Pre(a: Arena, n: int, P: int, g: int, d: Dir)
  {
    RedParent(a, n, P, g, d) && Child(a, P, Flip(d)) == n && IsBlack(a, Child(a, g, Flip(d)))
  }

  /** The six nodes Case 2 and Case 3 together write to are distinct, apart from NULLs. */
  ghost predicate ZigzagDistinct(a: Arena, n: int, P: int, g: int, d: Dir)
  {
    Sized(a) && IsNode(a, n) && IsNode(a, P) && IsNode(a, g) &&
    var B, C, gg := Child(a, n, d), Child(a, n, Flip(d)), a.parent[g];
    NodeOrNil(a, B) && NodeOrNil(a, C) && NodeOrNil(a, gg) &&
    n != P && n != g && P != g && n != gg && P != gg && g != gg &&
    (B != Nil ==> B != n && B != P && B != g && B != gg && B != C) &&
    (C != Nil ==> C != n && C != P && C != g && C != gg)
  }

  /**
   * Everything Case 2 followed by Case 3 writes: n ends on top in g's old
   * place with g's colour, P and g below it, both red; n's old children B
   * and C move, black, to P and g.
   */
  ghost predicate ZigzagEffect(a: Arena, b: Arena, n: int, P: int, g: int, d: Dir)
    requires ZigzagDistinct(a, n, P, g, d)
  {
    var B, C, gg := Child(a, n, d), Child(a, n, Flip(d)), a.parent[g];
    Congruent(a, b) && b.bh == a.bh &&
    Child(b, n, d) == P && Child(b, n, Flip(d)) == g && b.parent[n] == gg && b.color[n] == a.color[g] &&
    b.lo[n] == a.lo[g] && b.hi[n] == a.hi[g] &&
    Child(b, P, d) == Child(a, P, d) && Child(b, P, Flip(d)) == B && b.parent[P] == n && b.color[P] == Red &&
    (d == Left ==> b.lo[P] == a.lo[P] && b.hi[P] == a.ord[n] - 1) &&
    (d == Right ==> b.lo[P] == a.ord[n] + 1 && b.hi[P] == a.hi[P]) &&
    Child(b, g, d) == C && Child(b, g, Flip(d)) == Child(a, g, Flip(d)) && b.parent[g] == n && b.color[g] == Red &&
    (d == Left ==> b.lo[g] == a.ord[n] + 1 && b.hi[g] == a.hi[g]) &&
    (d == Right ==> b.lo[g] == a.lo[g] && b.hi[g] == a.ord[n] - 1) &&
    (B != Nil ==> b.left[B] == a.left[B] && b.right[B] == a.right[B] && b.parent[B] == P &&
                  b.color[B] == Black && b.lo[B] == a.lo[B] && b.hi[B] == a.hi[B]) &&
    (C != Nil ==> b.left[C] == a.left[C] && b.right[C] == a.right[C] && b.parent[C] == g &&
                  b.color[C] == Black && b.lo[C] == a.lo[C] && b.hi[C] == a.hi[C]) &&
    (gg != Nil ==> Seen(a, b, gg) && b.root == a.root &&
                   (a.left[gg] == g ==> b.left[gg] == n && b.right[gg] == a.right[gg]) &&
                   (a.left[gg] != g ==> b.right[gg] == n && b.left[gg] == a.left[gg])) &&
    (gg == Nil ==> b.root == n) &&
    (forall i {:trigger Same(a, b, i)} :: IsNode(a, i) && i != n && i != P && i != g && i != B && i != C && i != gg ==> Same(a, b, i))
  }

  /** After Case 2 the nodes Case 3 writes to are distinct, and n's outer child and g's parent are as before. */
  lemma Case2Then3(a: Arena, a1: Arena, n: int, P: int, g: int, d: Dir)
    requires ZigzagDistinct(a, n, P, g, d) && Case2Distinct(a, n, P, d) && Case2Effect(a, a1, n, P, d)
    ensures Child(a1, n, Flip(d)) == Child(a, n, Flip(d)) && a1.parent[g] == a.parent[g]
    ensures Case3Distinct(a1, g, n, Child(a1, n, Flip(d)), d)
  {
    assert Same(a, a1, g);
  }

  /** The two effects compose to `ZigzagEffect`. */
  lemma ZigzagCompose(a: Arena, a1: Arena, b: Arena, n: int, P: int, g: int, d: Dir)
    requires ZigzagDistinct(a, n, P, g, d) && Case2Distinct(a, n, P, d) && Case2Effect(a, a1, n, P, d)
    requires Case3Distinct(a1, g, n, Child(a1, n, Flip(d)), d)
    requires Case3Effect(a1, b, g, n, Child(a1, n, Flip(d)), d)
    requires Child(a1, n, Flip(d)) == Child(a, n, Flip(d)) && a1.parent[g] == a.parent[g]
    ensures ZigzagEffect(a, b, n, P, g, d)
  {
    var B, C, gg := Child(a, n, d), Child(a, n, Flip(d)), a.parent[g];
    assert Same(a, a1, g);
    assert Same(a1, b, P);
    if B != Nil { assert Same(a1, b, B); }
    if C != Nil { assert Same(a, a1, C); }
    if gg != Nil { assert Same(a, a1, gg); }
    forall i | IsNode(a, i) && i != n && i != P && i != g && i != B && i != C && i != gg
      ensures Same(a, b, i)
    {
      assert Same(a, a1, i) && Same(a1, b, i);
    }
    if d == Left {
    } else {
    }
  }

  /** After both rotations n is the black top over P and g. */
  lemma ZigzagAtN(a: Arena, b: Arena, n: int, P: int, g: int, d: Dir)
    requires ZigzagDistinct(a, n, P, g, d) && ZigzagEffect(a, b, n, P, g, d)
    requires InTree(a, n) && InTree(a, P) && InTree(a, g) && NodeShape(a, n) && NodeShape(a, P) && NodeShape(a, g)
    requires Child(a, P, Flip(d)) == n && Child(a, g, d) == P
    requires a.parent[g] != Nil ==> InTree(a, a.parent[g])
    requires a.color[n] == Red && a.color[P] == Red && a.color[g] == Black && BalancedAt(a, P) && BalancedAt(a, g)
    ensures IsNode(b, n) && GoodAt(b, Nil, n)
  {
    if d == Left {
    } else {
    }
  }

  /** After both rotations P is red over its outer child and n's old inner child, both black. */
  lemma ZigzagAtP(a: Arena, b: Arena, n: int, P: int, g: int, d: Dir)
    requires ZigzagDistinct(a, n, P, g, d) && ZigzagEffect(a, b, n, P, g, d)
    requires InTree(a, n) && InTree(a, P) && NodeShape(a, n) && NodeShape(a, P) && Child(a, P, Flip(d)) == n
    requires Child(a, P, d) != Nil ==> Same(a, b, Child(a, P, d))
    requires IsBlack(a, Child(a, P, d)) && IsBlack(a, Child(a, n, d))
    requires a.color[n] == Red && BalancedAt(a, P) && BalancedAt(a, n)
    ensures IsNode(b, P) && GoodAt(b, Nil, P)
  {
    if d == Left {
    } else {
    }
  }

  /** After both rotations g is red over n's old outer child and the uncle, both black. */
  lemma ZigzagAtG(a: Arena, b: Arena, n: int, P: int, g: int, d: Dir)
    requires ZigzagDistinct(a, n, P, g, d) && ZigzagEffect(a, b, n, P, g, d)
    requires InTree(a, n) && InTree(a, P) && InTree(a, g) && NodeShape(a, n) && NodeShape(a, P) && NodeShape(a, g)
    requires Child(a, P, Flip(d)) == n && Child(a, g, d) == P
    requires Child(a, g, Flip(d)) != Nil ==> Same(a, b, Child(a, g, Flip(d)))
    requires IsBlack(a, Child(a, g, Flip(d))) && IsBlack(a, Child(a, n, Flip(d)))
    requires a.color[n] == Red && a.color[P] == Red && BalancedAt(a, n) && BalancedAt(a, P) && BalancedAt(a, g)
    ensures IsNode(b, g) && GoodAt(b, Nil, g)
  {
    if d == Left {
    } else {
    }
  }

  /** Where the nodes of Case 2 sit before it: the six roles are distinct. */
  lemma ZigzagShape(a: WfArena, n: int, P: int, g: int, d: Dir)
    requires Case2Pre(a, n, P, g, d)
    ensures ZigzagDistinct(a, n, P, g, d) && Case2Distinct(a, n, P, d)
    ensures InTree(a, n) && InTree(a, P) && InTree(a, g) && NodeShape(a, n) && NodeShape(a, P) && NodeShape(a, g)
    ensures a.parent[g] != Nil ==> InTree(a, a.parent[g]) && (a.left[a.parent[g]] == g || a.right[a.parent[g]] == g)
    ensures a.parent[g] == Nil ==> a.root == g
  {
    ParentSpan(a, n);
    ParentSpan(a, P);
    assert NodeShape(a, n) && NodeShape(a, P) && NodeShape(a, g);
    if Child(a, n, d) != Nil { ChildSpan(a, n, d); }
    if Child(a, n, Flip(d)) != Nil { ChildSpan(a, n, Flip(d)); }
    if a.parent[g] != Nil { ParentSpan(a, g); }
  }

  /** The colours and black counts around Case 2: everything next to n and P is black, and shows the same count. */
  lemma ZigzagColors(a: WfArena, n: int, P: int, g: int, d: Dir)
    requires Case2Pre(a, n, P, g, d)
    ensures InTree(a, P) && InTree(a, g)
    ensures NodeOrNil(a, Child(a, P, d)) && NodeOrNil(a, Child(a, n, d)) && NodeOrNil(a, Child(a, n, Flip(d)))
    ensures a.color[g] == Black && IsBlack(a, Child(a, P, d)) && IsBlack(a, Child(a, n, d)) && IsBlack(a, Child(a, n, Flip(d)))
    ensures BalancedAt(a, n) && BalancedAt(a, P) && BalancedAt(a, g)
  {
    ParentSpan(a, n);
    ParentSpan(a, P);
    assert NodeShape(a, n) && NodeShape(a, P) && NodeShape(a, g);
    assert BalancedAt(a, n) && BalancedAt(a, P) && BalancedAt(a, g);
    assert RedOkAt(a, n, g) && RedOkAt(a, n, P);
  }

  /** The nodes just below the six roles are not among them. */
  lemma ZigzagBelow(a: WfArena, n: int, P: int, g: int, d: Dir)
    requires Case2Pre(a, n, P, g, d)
    ensures var A, B, C, U, gg := Child(a, P, d), Child(a, n, d), Child(a, n, Flip(d)), Child(a, g, Flip(d)), a.parent[g];
      IsNode(a, n) && IsNode(a, P) && IsNode(a, g) && NodeOrNil(a, A) && NodeOrNil(a, B) && NodeOrNil(a, C) &&
      (A != Nil ==> A != n && A != P && A != g && A != B && A != C && A != gg) &&
      (U != Nil ==> U != n && U != P && U != g && U != B && U != C && U != gg)
  {
    ParentSpan(a, n);
    ParentSpan(a, P);
    ChildSpan(a, g, d);
    ChildSpan(a, P, Flip(d));
    var A, B, C, U, gg := Child(a, P, d), Child(a, n, d), Child(a, n, Flip(d)), Child(a, g, Flip(d)), a.parent[g];
    if gg != Nil { ParentSpan(a, g); }
    if A != Nil { ChildSpan(a, P, d); }
    if U != Nil { ChildSpan(a, g, Flip(d)); }
    if B != Nil { ChildSpan(a, n, d); }
    if C != Nil { ChildSpan(a, n, Flip(d)); }
  }

  /** A grandchild of n is not among the six roles. */
  lemma ZigzagGrandchild(a: WfArena, n: int, P: int, g: int, d: Dir, e: Dir, f: Dir)
    requires Case2Pre(a, n, P, g, d) && Child(a, n, e) != Nil
    requires InTree(a, Child(a, n, e)) && Child(a, Child(a, n, e), f) != Nil
    ensures var c, B, C, gg := Child(a, Child(a, n, e), f), Child(a, n, d), Child(a, n, Flip(d)), a.parent[g];
      c != n && c != P && c != g && c != B && c != C && c != gg
  {
    ParentSpan(a, n);
    ParentSpan(a, P);
    ChildSpan(a, g, d);
    ChildSpan(a, P, Flip(d));
    if a.parent[g] != Nil { ParentSpan(a, g); }
    ChildSpan(a, n, e);
    if Child(a, n, Flip(e)) != Nil { ChildSpan(a, n, Flip(e)); }
    ChildSpan(a, Child(a, n, e), f);
  }

  /** The children of n's old children are not among the six roles. */
  lemma ZigzagMoved(a: WfArena, n: int, P: int, g: int, d: Dir, e: Dir)
    requires Case2Pre(a, n, P, g, d) && Child(a, n, e) != Nil
    ensures var t, B, C, gg := Child(a, n, e), Child(a, n, d), Child(a, n, Flip(d)), a.parent[g];
      IsNode(a, t) && InTree(a, t) && NodeShape(a, t) && BalancedAt(a, t) &&
      (a.left[t] != Nil ==> a.left[t] != n && a.left[t] != P && a.left[t] != g && a.left[t] != B && a.left[t] != C && a.left[t] != gg) &&
      (a.right[t] != Nil ==> a.right[t] != n && a.right[t] != P && a.right[t] != g && a.right[t] != B && a.right[t] != C && a.right[t] != gg)
  {
    ParentSpan(a, n);
    ChildSpan(a, n, e);
    var t := Child(a, n, e);
    assert NodeShape(a, t) && BalancedAt(a, t);
    if a.left[t] != Nil { ZigzagGrandchild(a, n, P, g, d, e, Left); }
    if a.right[t] != Nil { ZigzagGrandchild(a, n, P, g, d, e, Right); }
  }

  /** The neighbours of g's old parent are not among the six roles. */
  lemma ZigzagBeside(a: WfArena, n: int, P: int, g: int, d: Dir)
    requires Case2Pre(a, n, P, g, d) && a.parent[g] != Nil
    ensures var B, C, gg := Child(a, n, d), Child(a, n, Flip(d)), a.parent[g];
      IsNode(a, n) && IsNode(a, g) && InTree(a, gg) && NodeShape(a, gg) && BalancedAt(a, gg) &&
      var o := if a.left[gg] == g then a.right[gg] else a.left[gg];
      NodeOrNil(a, o) && (o != Nil ==> o != n && o != P && o != g && o != B && o != C && o != gg) &&
      (a.color[gg] == Red ==> IsBlack(a, o)) &&
      (a.parent[gg] != Nil ==> a.parent[gg] != n && a.parent[gg] != P && a.parent[gg] != g &&
                               a.parent[gg] != B && a.parent[gg] != C && a.parent[gg] != gg)
  {
    ParentSpan(a, n);
    ParentSpan(a, P);
    ParentSpan(a, g);
    ChildSpan(a, g, d);
    ChildSpan(a, P, Flip(d));
    var B, C, gg := Child(a, n, d), Child(a, n, Flip(d)), a.parent[g];
    if B != Nil { ChildSpan(a, n, d); }
    if C != Nil { ChildSpan(a, n, Flip(d)); }
    assert NodeShape(a, gg) && BalancedAt(a, gg) && RedOkAt(a, n, gg);
    if a.left[gg] == g {
      if a.right[gg] != Nil { ChildSpan(a, gg, Right); }
    } else {
      if a.left[gg] != Nil { ChildSpan(a, gg, Left); }
    }
    if a.parent[gg] != Nil { ParentSpan(a, gg); }
  }

  /** After both rotations the root word names a black root that covers every position. */
  lemma ZigzagRoot(a: Arena, b: Arena, n: int, P: int, g: int, d: Dir)
    requires ZigzagDistinct(a, n, P, g, d) && ZigzagEffect(a, b, n, P, g, d)
    requires RootOk(a) && a.root != Nil && IsBlack(a, a.root) && InTree(a, n)
    requires a.parent[n] == P && a.parent[P] == g
    requires Child(a, n, d) != Nil ==> a.parent[Child(a, n, d)] == n
    requires Child(a, n, Flip(d)) != Nil ==> a.parent[Child(a, n, Flip(d))] == n
    requires a.parent[g] == Nil ==> a.root == g
    ensures RootOk(b) && IsBlack(b, b.root)
  {
    var r := a.root;
    if a.parent[g] != Nil && r != a.parent[g] {
      assert Same(a, b, r);
    }
  }

  /** Case 2 followed by Case 3 rewrites only the six roles. */
  lemma ZigzagLocal(a: Arena, b: Arena, n: int, P: int, g: int, d: Dir)
    requires ZigzagDistinct(a, n, P, g, d) && ZigzagEffect(a, b, n, P, g, d)
    requires a.parent[n] == P && a.parent[P] == g && Child(a, P, Flip(d)) == n && Child(a, g, d) == P
    requires Child(a, n, d) != Nil ==> a.parent[Child(a, n, d)] == n
    requires Child(a, n, Flip(d)) != Nil ==> a.parent[Child(a, n, Flip(d))] == n
    requires a.parent[g] != Nil ==> a.left[a.parent[g]] == g || a.right[a.parent[g]] == g
    requires a.parent[g] == Nil ==> a.root == g
    ensures Local(a, b, {n, P, g, Child(a, n, d), Child(a, n, Flip(d)), a.parent[g]}, n)
  {
    var B, C, gg := Child(a, n, d), Child(a, n, Flip(d)), a.parent[g];
    var S := {n, P, g, B, C, gg};
    forall q | IsNode(a, q) && q !in S
      ensures b.left[q] == a.left[q] && b.right[q] == a.right[q]
    {
      assert Same(a, b, q);
    }
  }

  /** n, P and g satisfy the invariants after both rotations. */
  lemma ZigzagGoodTop(a: WfArena, b: Arena, n: int, P: int, g: int, d: Dir)
    requires Case2Pre(a, n, P, g, d) && ZigzagDistinct(a, n, P, g, d) && ZigzagEffect(a, b, n, P, g, d)
    ensures IsNode(b, n) && GoodAt(b, Nil, n) && IsNode(b, P) && GoodAt(b, Nil, P) && IsNode(b, g) && GoodAt(b, Nil, g)
  {
    ZigzagShape(a, n, P, g, d);
    ZigzagColors(a, n, P, g, d);
    ZigzagBelow(a, n, P, g, d);
    var A, U := Child(a, P, d), Child(a, g, Flip(d));
    if A != Nil { assert Same(a, b, A); }
    if U != Nil { assert Same(a, b, U); }
    ZigzagAtN(a, b, n, P, g, d);
    ZigzagAtP(a, b, n, P, g, d);
    ZigzagAtG(a, b, n, P, g, d);
  }

  /** n's old child on side e, if any, hangs black below P or g after both rotations. */
  lemma ZigzagGoodMoved(a: WfArena, b: Arena, n: int, P: int, g: int, d: Dir, e: Dir)
    requires Case2Pre(a, n, P, g, d) && ZigzagDistinct(a, n, P, g, d) && ZigzagEffect(a, b, n, P, g, d)
    requires Child(a, n, e) != Nil
    ensures IsNode(b, Child(a, n, e)) && GoodAt(b, Nil, Child(a, n, e))
  {
    ZigzagShape(a, n, P, g, d);
    ZigzagMoved(a, n, P, g, d, e);
    var t := Child(a, n, e);
    if a.left[t] != Nil { assert Same(a, b, a.left[t]); }
    if a.right[t] != Nil { assert Same(a, b, a.right[t]); }
    if e == d {
      Reattached(a, b, t, P, Nil);
    } else {
      Reattached(a, b, t, g, Nil);
    }
  }

  /** g's old parent, if any, holds n in g's place after both rotations. */
  lemma ZigzagGoodAbove(a: WfArena, b: Arena, n: int, P: int, g: int, d: Dir)
    requires Case2Pre(a, n, P, g, d) && ZigzagDistinct(a, n, P, g, d) && ZigzagEffect(a, b, n, P, g, d)
    requires a.parent[g] != Nil
    ensures IsNode(b, a.parent[g]) && GoodAt(b, Nil, a.parent[g])
  {
    ZigzagShape(a, n, P, g, d);
    ZigzagColors(a, n, P, g, d);
    ZigzagBeside(a, n, P, g, d);
    var gg := a.parent[g];
    var o := if a.left[gg] == g then a.right[gg] else a.left[gg];
    if o != Nil { assert Same(a, b, o); }
    if a.parent[gg] != Nil { assert Same(a, b, a.parent[gg]); }
    Replaced(a, b, gg, g, n, o, Nil);
  }

  /** Every node the two rotations rewrite satisfies the invariants afterwards. */
  lemma ZigzagGood(a: WfArena, b: Arena, n: int, P: int, g: int, d: Dir)
    requires Case2Pre(a, n, P, g, d) && ZigzagDistinct(a, n, P, g, d) && ZigzagEffect(a, b, n, P, g, d)
    ensures var B, C, gg := Child(a, n, d), Child(a, n, Flip(d)), a.parent[g];
      forall s {:trigger GoodAt(b, Nil, s)} :: s in {n, P, g, B, C, gg} && InTree(b, s) ==> GoodAt(b, Nil, s)
  {
    var B, C, gg := Child(a, n, d), Child(a, n, Flip(d)), a.parent[g];
    ZigzagGoodTop(a, b, n, P, g, d);
    if B != Nil { ZigzagGoodMoved(a, b, n, P, g, d, d); }
    if C != Nil { ZigzagGoodMoved(a, b, n, P, g, d, Flip(d)); }
    if gg != Nil { ZigzagGoodAbove(a, b, n, P, g, d); }
    GoodOn6(b, Nil, n, P, g, B, C, gg);
  }

  /** Any state related to the one before by `ZigzagEffect` is a red-black tree. */
  lemma ZigzagFinish(a: WfArena, b: Arena, n: int, P: int, g: int, d: Dir)
    requires Case2Pre(a, n, P, g, d) && ZigzagDistinct(a, n, P, g, d) && ZigzagEffect(a, b, n, P, g, d)
    ensures RBTree(b) && b.inorder == a.inorder
  {
    ZigzagShape(a, n, P, g, d);
    ZigzagGood(a, b, n, P, g, d);
    var B, C := Child(a, n, d), Child(a, n, Flip(d));
    if B != Nil { ChildSpan(a, n, d); }
    if C != Nil { ChildSpan(a, n, Flip(d)); }
    ZigzagRoot(a, b, n, P, g, d);
    ZigzagLocal(a, b, n, P, g, d);
    LocalRewrite(a, b, {n, P, g, B, C, a.parent[g]}, n, Nil);
  }

  /**
   * Case 2 followed by Case 3 (lib/phtree.c, the rotation at the parent and
   * then at the grandparent) turns the fix-up state into a red-black tree.
   */
  lemma ZigzagRestores(a: WfArena, n: int, P: int, g: int, d: Dir)
    requires Case2Pre(a, n, P, g, d) && ZigzagDistinct(a, n, P, g, d) && Case2Distinct(a, n, P, d)
    ensures var a1 := Case2(a, n, P, d);
      Case3Distinct(a1, g, n, Child(a1, n, Flip(d)), d) &&
      var b := Case3(a1, g, n, Child(a1, n, Flip(d)), d);
      RBTree(b) && b.inorder == a.inorder && b.parent[P] == n && b.parent[g] == n
  {
    Case2Effects(a, n, P, d);
    var a1 := Case2(a, n, P, d);
    Case2Then3(a, a1, n, P, g, d);
    var C := Child(a1, n, Flip(d));
    Case3Effects(a1, g, n, C, d);
    var b := Case3(a1, g, n, C, d);
    ZigzagCompose(a, a1, b, n, P, g, d);
    ZigzagFinish(a, b, n, P, g, d);
  }
}
