/**
 * The pointer surgery of the insertion fix-up, as functions on arena values,
 * and the proofs that each case of the fix-up keeps or restores the
 * red-black invariants.
 *
 * The primitive functions follow the helpers the fix-up calls:
 * `ph_set_parent_color`, a `WRITE_ONCE` of one child word,
 * `__ph_change_child` and `__ph_rotate_set_parents`.  The cases are written
 * once for both mirror images: `d` is the side of the parent under the
 * grandparent (`Left` for the branch `parent != gparent->ph_right`).
 */
module PhFixup {
  import opened PhArena
  import opened PhRewrite

  /** `WRITE_ONCE(n->ph_left, c)` or `WRITE_ONCE(n->ph_right, c)`. */
  function SetChild(a: Arena, n: int, d: Dir, c: int): (b: Arena)
    requires Sized(a) && IsNode(a, n)
    ensures Congruent(a, b) && Child(b, n, d) == c && Child(b, n, Flip(d)) == Child(a, n, Flip(d))
    ensures forall i {:trigger Child(b, i, Left)} :: IsNode(a, i) && i != n ==> Child(b, i, Left) == Child(a, i, Left)
    ensures forall i {:trigger Child(b, i, Right)} :: IsNode(a, i) && i != n ==> Child(b, i, Right) == Child(a, i, Right)
    ensures b.parent == a.parent && b.color == a.color && b.root == a.root
    ensures b.lo == a.lo && b.hi == a.hi && b.bh == a.bh
  {
    if d == Left then a.(left := a.left[n := c]) else a.(right := a.right[n := c])
  }

  /** `ph_set_parent_color(n, p, c)`: one word holds both, so both are written. */
  function SetParentColor(a: Arena, n: int, p: int, c: Color): (b: Arena)
    requires Sized(a) && IsNode(a, n)
    ensures Congruent(a, b) && b.parent[n] == p && b.color[n] == c
    ensures forall i {:trigger b.parent[i]} :: IsNode(a, i) && i != n ==> b.parent[i] == a.parent[i]
    ensures forall i {:trigger b.color[i]} :: IsNode(a, i) && i != n ==> b.color[i] == a.color[i]
    ensures b.left == a.left && b.right == a.right && b.root == a.root
    ensures b.lo == a.lo && b.hi == a.hi && b.bh == a.bh
  {
    a.(parent := a.parent[n := p], color := a.color[n := c])
  }

  /** `__ph_change_child(x, y, p, root)`: the slot of p that held x, or the root, now holds y. */
  function ChangeChild(a: Arena, x: int, y: int, p: int): (b: Arena)
    requires Sized(a) && NodeOrNil(a, p)
    ensures Congruent(a, b)
    ensures b.parent == a.parent && b.color == a.color
    ensures b.lo == a.lo && b.hi == a.hi && b.bh == a.bh
    ensures p == Nil ==> b.root == y && b.left == a.left && b.right == a.right
    ensures p != Nil ==> b.root == a.root
    ensures p != Nil && a.left[p] == x ==> b.left == a.left[p := y] && b.right == a.right
    ensures p != Nil && a.left[p] != x ==> b.right == a.right[p := y] && b.left == a.left
  {
    if p == Nil then a.(root := y)
    else if a.left[p] == x then SetChild(a, p, Left, y)
    else SetChild(a, p, Right, y)
  }

  /**
   * `__ph_rotate_set_parents(x, y, root, c)`: y takes over x's
   * parent/colour word and x's place under that parent; x hangs below y
   * with colour c.
   */
  function RotateSetParents(a: Arena, x: int, y: int, c: Color): (b: Arena)
    requires Sized(a) && IsNode(a, x) && IsNode(a, y) && NodeOrNil(a, a.parent[x])
    ensures Congruent(a, b)
  {
    var p := a.parent[x];
    var a1 := a.(parent := a.parent[y := p], color := a.color[y := a.color[x]]);
    var a2 := SetParentColor(a1, x, y, c);
    ChangeChild(a2, x, y, p)
  }

  /**
   * The ghost relabelling of a rotation: y, a child of x, moves up into x's
   * place and takes over x's interval; x becomes y's child on side e and
   * keeps only its part of the interval.
   */
  function Rotated(a: Arena, x: int, y: int, e: Dir): (b: Arena)
    requires Sized(a) && IsNode(a, x) && IsNode(a, y)
    ensures Congruent(a, b)
    ensures b.left == a.left && b.right == a.right && b.parent == a.parent && b.root == a.root
    ensures b.color == a.color && b.bh == a.bh
    ensures x != y ==> b.lo[y] == a.lo[x] && b.hi[y] == a.hi[x]
    ensures x != y && e == Left ==> b.lo[x] == a.lo[x] && b.hi[x] == a.ord[y] - 1
    ensures x != y && e == Right ==> b.lo[x] == a.ord[y] + 1 && b.hi[x] == a.hi[x]
    ensures forall i {:trigger b.lo[i]} :: IsNode(a, i) && i != x && i != y ==> b.lo[i] == a.lo[i]
    ensures forall i {:trigger b.hi[i]} :: IsNode(a, i) && i != x && i != y ==> b.hi[i] == a.hi[i]
  {
    var a1 := a.(lo := a.lo[y := a.lo[x]], hi := a.hi[y := a.hi[x]]);
    if e == Left then a1.(hi := a1.hi[x := a.ord[y] - 1])
    else a1.(lo := a1.lo[x := a.ord[y] + 1])
  }

  /** Case 3: rotate at the grandparent g; P is the parent, t the child of P that moves to g. */
  function Case3(a: Arena, g: int, P: int, t: int, d: Dir): (b: Arena)
    requires Sized(a) && IsNode(a, g) && IsNode(a, P) && NodeOrNil(a, t) && NodeOrNil(a, a.parent[g])
    ensures Congruent(a, b)
  {
    var a1 := SetChild(a, g, d, t);
    var a2 := SetChild(a1, P, Flip(d), g);
    var a3 := if t != Nil then SetParentColor(a2, t, g, Black) else a2;
    var a4 := RotateSetParents(a3, g, P, Red);
    Rotated(a4, g, P, Flip(d))
  }

  /** The nodes Case 3 writes to are distinct; t and g's parent may be NULL. */
  ghost predicate Case3Distinct(a: Arena, g: int, P: int, t: int, d: Dir)
  {
    Sized(a) && IsNode(a, g) && IsNode(a, P) && NodeOrNil(a, t) && NodeOrNil(a, a.parent[g]) &&
    g != P && t != g && t != P && g != a.parent[g] && P != a.parent[g] &&
    (t != Nil ==> t != a.parent[g])
  }

  /** The roles of Case 3: P is g's child on side d, t is P's child on the other side. */
  ghost predicate Case3Roles(a: Arena, g: int, P: int, t: int, d: Dir)
  {
    Case3Distinct(a, g, P, t, d) &&
    Child(a, g, d) == P && Child(a, P, Flip(d)) == t && a.parent[P] == g &&
    (t != Nil ==> a.parent[t] == P)
  }

  /** What Case 3 writes, word by word. */
  lemma Case3Words(a: Arena, g: int, P: int, t: int, d: Dir)
    requires Case3Distinct(a, g, P, t, d)
    ensures var b, gg := Case3(a, g, P, t, d), a.parent[g];
      Congruent(a, b) && b.bh == a.bh &&
      Child(b, g, d) == t && Child(b, g, Flip(d)) == Child(a, g, Flip(d)) &&
      Child(b, P, Flip(d)) == g && Child(b, P, d) == Child(a, P, d) &&
      b.parent[g] == P && b.parent[P] == gg && b.color[g] == Red && b.color[P] == a.color[g] &&
      b.lo[P] == a.lo[g] && b.hi[P] == a.hi[g] &&
      (d == Left ==> b.lo[g] == a.ord[P] + 1 && b.hi[g] == a.hi[g]) &&
      (d == Right ==> b.lo[g] == a.lo[g] && b.hi[g] == a.ord[P] - 1)
  {
    if d == Left {
    } else {
    }
  }

  /** The nodes Case 3 does not touch keep every word and label. */
  lemma Case3Same(a: Arena, g: int, P: int, t: int, d: Dir)
    requires Case3Distinct(a, g, P, t, d)
    ensures var b, gg := Case3(a, g, P, t, d), a.parent[g];
      Congruent(a, b) &&
      forall i {:trigger Same(a, b, i)} :: IsNode(a, i) && i != g && i != P && i != t && i != gg ==> Same(a, b, i)
  {
    var b, gg := Case3(a, g, P, t, d), a.parent[g];
    forall i | IsNode(a, i) && i != g && i != P && i != t && i != gg
      ensures Same(a, b, i)
    {
    }
  }

  /** Only g, P and g's old parent change a child word. */
  lemma Case3Slots(a: Arena, g: int, P: int, t: int, d: Dir)
    requires Case3Distinct(a, g, P, t, d)
    ensures var b, gg := Case3(a, g, P, t, d), a.parent[g];
      Congruent(a, b) &&
      (forall q {:trigger b.left[q]} :: IsNode(a, q) && q != g && q != P && q != gg ==> b.left[q] == a.left[q]) &&
      (forall q {:trigger b.right[q]} :: IsNode(a, q) && q != g && q != P && q != gg ==> b.right[q] == a.right[q])
  {
  }

  /** The subtree t moves under g and turns black. */
  lemma Case3Moved(a: Arena, g: int, P: int, t: int, d: Dir)
    requires Case3Distinct(a, g, P, t, d) && t != Nil
    ensures var b := Case3(a, g, P, t, d);
      Congruent(a, b) &&
      b.left[t] == a.left[t] && b.right[t] == a.right[t] && b.parent[t] == g &&
      b.color[t] == Black && b.lo[t] == a.lo[t] && b.hi[t] == a.hi[t] && b.bh[t] == a.bh[t]
  {
  }

  /** g's old parent, or the root word, now refers to P. */
  lemma Case3Above(a: Arena, g: int, P: int, t: int, d: Dir)
    requires Case3Distinct(a, g, P, t, d)
    ensures var b, gg := Case3(a, g, P, t, d), a.parent[g];
      Congruent(a, b) &&
      (gg != Nil ==> Seen(a, b, gg) && b.root == a.root &&
                     (a.left[gg] == g ==> b.left[gg] == P && b.right[gg] == a.right[gg]) &&
                     (a.left[gg] != g ==> b.right[gg] == P && b.left[gg] == a.left[gg])) &&
      (gg == Nil ==> b.root == P)
  {
  }

  /** A child's interval lies strictly on its own side of its parent's position. */
  lemma ChildBelow(a: WfArena, p: int, e: Dir)
    requires InTree(a, p) && Child(a, p, e) != Nil
    ensures var c := Child(a, p, e);
      NodeShape(a, p) && InTree(a, c) && NodeShape(a, c) && a.parent[c] == p &&
      a.lo[p] <= a.lo[c] <= a.ord[c] <= a.hi[c] <= a.hi[p] &&
      (e == Left ==> a.hi[c] < a.ord[p]) && (e == Right ==> a.ord[p] < a.lo[c])
  {
    assert NodeShape(a, p);
    assert NodeShape(a, Child(a, p, e));
  }

  /** A parent's position lies outside its child's interval, and its interval contains the child's. */
  lemma ParentAbove(a: WfArena, c: int)
    requires InTree(a, c) && a.parent[c] != Nil
    ensures var p := a.parent[c];
      NodeShape(a, c) && InTree(a, p) && NodeShape(a, p) && (a.left[p] == c || a.right[p] == c) &&
      a.lo[p] <= a.lo[c] <= a.hi[c] <= a.hi[p] && (a.hi[c] < a.ord[p] || a.ord[p] < a.lo[c])
  {
    assert NodeShape(a, c);
    var p := a.parent[c];
    assert NodeShape(a, p);
    if a.left[p] == c { ChildBelow(a, p, Left); } else { ChildBelow(a, p, Right); }
  }

  /**
   * The state at the top of the loop when there is work to do: n is red
   * below the red parent P, and P is g's child on side d.
   */
  ghost predicate RedParent(a: Arena, n: int, P: int, g: int, d: Dir)
  {
    FixupInv(a, n) && IsNode(a, P) && IsNode(a, g) &&
    a.parent[n] == P && a.parent[P] == g && Child(a, g, d) == P && a.color[P] == Red &&
    NodeOrNil(a, Child(a, g, Flip(d)))
  }

  /**
   * The state in which the fix-up reaches Case 3 after any Case 2 rotation:
   * n is on the same side d of P as P of g, and the uncle on the other side
   * of g is black.
   */
  ghost predicate Case3Pre(a: Arena, n: int, P: int, g: int, d: Dir)
  {
    RedParent(a, n, P, g, d) && Child(a, P, d) == n && IsBlack(a, Child(a, g, Flip(d)))
  }

  /** Where the nodes of Case 3 sit before it: the roles are distinct tree nodes. */
  lemma Case3Shape(a: WfArena, n: int, P: int, g: int, d: Dir)
    requires Case3Pre(a, n, P, g, d)
    ensures var t := Child(a, P, Flip(d));
      Case3Roles(a, g, P, t, d) && InTree(a, g) && InTree(a, P) && InTree(a, n) &&
      NodeShape(a, g) && NodeShape(a, P) && NodeShape(a, n) &&
      n != g && n != t && n != a.parent[g] &&
      (t != Nil ==> InTree(a, t) && NodeShape(a, t)) &&
      (a.parent[g] == Nil ==> a.root == g)
  {
    ParentAbove(a, n);
    ParentAbove(a, P);
    if Child(a, P, Flip(d)) != Nil { ChildBelow(a, P, Flip(d)); }
    if a.parent[g] != Nil { ParentAbove(a, g); }
  }

  /** The colours and black counts around Case 3: g is black, and t and n are its black count lower. */
  lemma Case3Colors(a: WfArena, n: int, P: int, g: int, d: Dir)
    requires Case3Pre(a, n, P, g, d)
    ensures var t := Child(a, P, Flip(d));
      NodeOrNil(a, t) && a.color[g] == Black && IsBlack(a, t) &&
      a.bh[g] == a.bh[P] && Contrib(a, t) == a.bh[P] && Contrib(a, n) == a.bh[P] &&
      Contrib(a, Child(a, g, Flip(d))) == a.bh[g]
  {
    ParentAbove(a, n);
    ParentAbove(a, P);
    assert BalancedAt(a, g) && BalancedAt(a, P) && RedOkAt(a, n, g) && RedOkAt(a, n, P);
  }

  /** Everything Case 3 writes and everything it leaves alone, as a relation between the two states. */
  ghost predicate Case3Effect(a: Arena, b: Arena, g: int, P: int, t: int, d: Dir)
    requires Case3Distinct(a, g, P, t, d)
  {
    var gg := a.parent[g];
    Congruent(a, b) && b.bh == a.bh &&
    Child(b, g, d) == t && Child(b, g, Flip(d)) == Child(a, g, Flip(d)) &&
    Child(b, P, Flip(d)) == g && Child(b, P, d) == Child(a, P, d) &&
    b.parent[g] == P && b.parent[P] == gg && b.color[g] == Red && b.color[P] == a.color[g] &&
    b.lo[P] == a.lo[g] && b.hi[P] == a.hi[g] &&
    (d == Left ==> b.lo[g] == a.ord[P] + 1 && b.hi[g] == a.hi[g]) &&
    (d == Right ==> b.lo[g] == a.lo[g] && b.hi[g] == a.ord[P] - 1) &&
    (t != Nil ==> b.left[t] == a.left[t] && b.right[t] == a.right[t] && b.parent[t] == g &&
                  b.color[t] == Black && b.lo[t] == a.lo[t] && b.hi[t] == a.hi[t]) &&
    (gg != Nil ==> Seen(a, b, gg) && b.root == a.root &&
                   (a.left[gg] == g ==> b.left[gg] == P && b.right[gg] == a.right[gg]) &&
                   (a.left[gg] != g ==> b.right[gg] == P && b.left[gg] == a.left[gg])) &&
    (gg == Nil ==> b.root == P) &&
    (forall i {:trigger Same(a, b, i)} :: IsNode(a, i) && i != g && i != P && i != t && i != gg ==> Same(a, b, i)) &&
    (forall q {:trigger b.left[q]} :: IsNode(a, q) && q != g && q != P && q != gg ==> b.left[q] == a.left[q]) &&
    (forall q {:trigger b.right[q]} :: IsNode(a, q) && q != g && q != P && q != gg ==> b.right[q] == a.right[q])
  }

  lemma Case3Effects(a: Arena, g: int, P: int, t: int, d: Dir)
    requires Case3Distinct(a, g, P, t, d)
    ensures Case3Effect(a, Case3(a, g, P, t, d), g, P, t, d)
  {
    Case3Words(a, g, P, t, d);
    Case3Same(a, g, P, t, d);
    Case3Slots(a, g, P, t, d);
    if t != Nil { Case3Moved(a, g, P, t, d); }
    Case3Above(a, g, P, t, d);
  }

  /** After Case 3, P is the black top of the rotated subtree. */
  lemma Case3AtP(a: Arena, b: Arena, n: int, P: int, g: int, t: int, d: Dir)
    requires Case3Roles(a, g, P, t, d) && Case3Effect(a, b, g, P, t, d)
    requires InTree(a, n) && InTree(a, P) && InTree(a, g) && NodeShape(a, P) && NodeShape(a, g)
    requires Child(a, P, d) == n && Same(a, b, n)
    requires a.parent[g] != Nil ==> InTree(a, a.parent[g])
    requires a.color[g] == Black && BalancedAt(a, P) && a.bh[g] == a.bh[P]
    ensures IsNode(b, P) && GoodAt(b, Nil, P)
  {
    if d == Left {
    } else {
    }
  }

  /** After Case 3, g is a red child of P over t and the uncle, both black. */
  lemma Case3AtG(a: Arena, b: Arena, P: int, g: int, t: int, d: Dir)
    requires Case3Roles(a, g, P, t, d) && Case3Effect(a, b, g, P, t, d)
    requires InTree(a, P) && InTree(a, g) && NodeShape(a, P) && NodeShape(a, g)
    requires Child(a, g, Flip(d)) != Nil ==> Same(a, b, Child(a, g, Flip(d)))
    requires NodeOrNil(a, Child(a, g, Flip(d))) && IsBlack(a, Child(a, g, Flip(d))) && IsBlack(a, t)
    requires BalancedAt(a, g) && BalancedAt(a, P) && a.bh[g] == a.bh[P]
    ensures IsNode(b, g) && GoodAt(b, Nil, g)
  {
    if d == Left {
    } else {
    }
  }

  /** After Case 3, t hangs black below g with its own subtree unchanged. */
  lemma Case3AtT(a: Arena, b: Arena, P: int, g: int, t: int, d: Dir)
    requires Case3Roles(a, g, P, t, d) && Case3Effect(a, b, g, P, t, d) && t != Nil
    requires InTree(a, t) && NodeShape(a, t) && InTree(a, g) && BalancedAt(a, t)
    requires a.left[t] != Nil ==> Same(a, b, a.left[t])
    requires a.right[t] != Nil ==> Same(a, b, a.right[t])
    ensures IsNode(b, t) && GoodAt(b, Nil, t)
  {
  }

  /** After Case 3, g's old parent holds P, black and with g's old black count, in g's place. */
  lemma Case3AtAbove(a: Arena, b: Arena, P: int, g: int, t: int, d: Dir, o: int)
    requires Case3Roles(a, g, P, t, d) && Case3Effect(a, b, g, P, t, d) && a.parent[g] != Nil
    requires var gg := a.parent[g];
      InTree(a, gg) && NodeShape(a, gg) && NodeShape(a, g) && InTree(a, P) && BalancedAt(a, gg) &&
      o == (if a.left[gg] == g then a.right[gg] else a.left[gg]) &&
      (o != Nil ==> Same(a, b, o)) && (a.color[gg] == Red ==> IsBlack(a, o)) &&
      (a.parent[gg] != Nil ==> a.parent[gg] != g && a.parent[gg] != P && a.parent[gg] != gg)
    requires a.color[g] == Black && a.bh[g] == a.bh[P]
    ensures IsNode(b, a.parent[g]) && GoodAt(b, Nil, a.parent[g])
  {
  }

  /** After Case 3 the root word still names a black root that covers every position. */
  lemma Case3Root(a: Arena, b: Arena, P: int, g: int, t: int, d: Dir)
    requires Case3Roles(a, g, P, t, d) && Case3Effect(a, b, g, P, t, d)
    requires RootOk(a) && a.root != Nil && IsBlack(a, a.root) && InTree(a, P)
    requires a.parent[g] == Nil ==> a.root == g
    ensures RootOk(b) && IsBlack(b, b.root)
  {
    var r := a.root;
    if a.parent[g] != Nil && r != a.parent[g] {
      assert Same(a, b, r);
    }
  }

  /** Case 3 rewrites only g, P, t and g's old parent. */
  lemma Case3Local(a: Arena, b: Arena, n: int, P: int, g: int, t: int, d: Dir)
    requires Case3Roles(a, g, P, t, d) && Case3Effect(a, b, g, P, t, d)
    requires IsNode(a, n) && a.parent[n] == P
    requires a.parent[g] != Nil ==> a.left[a.parent[g]] == g || a.right[a.parent[g]] == g
    requires a.parent[g] == Nil ==> a.root == g
    ensures Local(a, b, {g, P, t, a.parent[g]}, n)
  {
    if d == Left {
    } else {
    }
  }

  /** `ChildBelow` without the shapes: only the positions. */
  lemma ChildSpan(a: WfArena, p: int, e: Dir)
    requires InTree(a, p) && Child(a, p, e) != Nil
    ensures var c := Child(a, p, e);
      InTree(a, c) && a.parent[c] == p &&
      a.lo[p] <= a.lo[c] <= a.ord[c] <= a.hi[c] <= a.hi[p] &&
      (e == Left ==> a.hi[c] < a.ord[p]) && (e == Right ==> a.ord[p] < a.lo[c])
  {
    ChildBelow(a, p, e);
  }

  /** `ParentAbove` without the shapes: only the positions. */
  lemma ParentSpan(a: WfArena, c: int)
    requires InTree(a, c) && a.parent[c] != Nil
    ensures var p := a.parent[c];
      InTree(a, p) && (a.left[p] == c || a.right[p] == c) && a.lo[c] <= a.ord[c] <= a.hi[c] &&
      a.lo[p] <= a.lo[c] <= a.hi[c] <= a.hi[p] && (a.hi[c] < a.ord[p] || a.ord[p] < a.lo[c])
  {
    ParentAbove(a, c);
  }

  /** The neighbours below the rewritten nodes are not among them. */
  lemma Case3Below(a: WfArena, n: int, P: int, g: int, d: Dir)
    requires Case3Pre(a, n, P, g, d)
    ensures var t, u, gg := Child(a, P, Flip(d)), Child(a, g, Flip(d)), a.parent[g];
      IsNode(a, P) && InTree(a, g) && NodeOrNil(a, t) && NodeOrNil(a, u) &&
      n != g && n != P && n != t && n != gg &&
      (u != Nil ==> u != g && u != P && u != t && u != gg) &&
      (t != Nil ==> IsNode(a, t) && NodeOrNil(a, a.left[t]) && NodeOrNil(a, a.right[t])) &&
      (t != Nil && a.left[t] != Nil ==> a.left[t] != g && a.left[t] != P && a.left[t] != t && a.left[t] != gg) &&
      (t != Nil && a.right[t] != Nil ==> a.right[t] != g && a.right[t] != P && a.right[t] != t && a.right[t] != gg)
  {
    ParentSpan(a, n);
    ParentSpan(a, P);
    var t, u, gg := Child(a, P, Flip(d)), Child(a, g, Flip(d)), a.parent[g];
    if gg != Nil { ParentSpan(a, g); }
    if u != Nil { ChildSpan(a, g, Flip(d)); }
    ChildSpan(a, g, d);
    ChildSpan(a, P, d);
    if t != Nil {
      ChildSpan(a, P, Flip(d));
      assert NodeShape(a, t);
      if a.left[t] != Nil { ChildSpan(a, t, Left); }
      if a.right[t] != Nil { ChildSpan(a, t, Right); }
    }
  }

  /** The neighbours of g's old parent are not among the rewritten nodes. */
  lemma Case3Beside(a: WfArena, n: int, P: int, g: int, d: Dir)
    requires Case3Pre(a, n, P, g, d) && a.parent[g] != Nil
    ensures var t, gg := Child(a, P, Flip(d)), a.parent[g];
      IsNode(a, P) && InTree(a, g) && InTree(a, gg) && NodeShape(a, gg) && BalancedAt(a, gg) &&
      var o := if a.left[gg] == g then a.right[gg] else a.left[gg];
      NodeOrNil(a, o) && (o != Nil ==> o != g && o != P && o != t && o != gg) &&
      (a.color[gg] == Red ==> IsBlack(a, o)) &&
      (a.parent[gg] != Nil ==> a.parent[gg] != g && a.parent[gg] != P && a.parent[gg] != t && a.parent[gg] != gg)
  {
    ParentSpan(a, n);
    ParentSpan(a, P);
    ParentSpan(a, g);
    ChildSpan(a, g, d);
    var t, gg := Child(a, P, Flip(d)), a.parent[g];
    if t != Nil { ChildSpan(a, P, Flip(d)); }
    assert NodeShape(a, gg) && BalancedAt(a, gg) && RedOkAt(a, n, gg);
    if a.left[gg] == g {
      if a.right[gg] != Nil { ChildSpan(a, gg, Right); }
    } else {
      if a.left[gg] != Nil { ChildSpan(a, gg, Left); }
    }
    if a.parent[gg] != Nil { ParentSpan(a, gg); }
  }

  /** P and g satisfy the invariants after Case 3. */
  lemma Case3GoodPG(a: WfArena, b: Arena, n: int, P: int, g: int, t: int, d: Dir)
    requires Case3Pre(a, n, P, g, d) && Case3Roles(a, g, P, t, d) && t == Child(a, P, Flip(d))
    requires Case3Effect(a, b, g, P, t, d)
    ensures IsNode(b, P) && GoodAt(b, Nil, P) && IsNode(b, g) && GoodAt(b, Nil, g)
  {
    Case3Shape(a, n, P, g, d);
    Case3Colors(a, n, P, g, d);
    Case3Below(a, n, P, g, d);
    var gg, u := a.parent[g], Child(a, g, Flip(d));
    assert Same(a, b, n);
    if u != Nil { assert Same(a, b, u); }
    if gg != Nil { ParentSpan(a, g); }
    Case3AtP(a, b, n, P, g, t, d);
    Case3AtG(a, b, P, g, t, d);
  }

  /** t and g's old parent satisfy the invariants after Case 3. */
  lemma Case3GoodRest(a: WfArena, b: Arena, n: int, P: int, g: int, t: int, d: Dir)
    requires Case3Pre(a, n, P, g, d) && Case3Roles(a, g, P, t, d) && t == Child(a, P, Flip(d))
    requires Case3Effect(a, b, g, P, t, d)
    ensures t != Nil ==> IsNode(b, t) && GoodAt(b, Nil, t)
    ensures a.parent[g] != Nil ==> IsNode(b, a.parent[g]) && GoodAt(b, Nil, a.parent[g])
  {
    Case3Shape(a, n, P, g, d);
    Case3Colors(a, n, P, g, d);
    var gg := a.parent[g];
    if t != Nil {
      Case3Below(a, n, P, g, d);
      assert BalancedAt(a, t);
      if a.left[t] != Nil { assert Same(a, b, a.left[t]); }
      if a.right[t] != Nil { assert Same(a, b, a.right[t]); }
      Case3AtT(a, b, P, g, t, d);
    }
    if gg != Nil {
      Case3Beside(a, n, P, g, d);
      var o := if a.left[gg] == g then a.right[gg] else a.left[gg];
      if o != Nil { assert Same(a, b, o); }
      Case3AtAbove(a, b, P, g, t, d, o);
    }
  }

  /** Any state related to the one before by `Case3Effect` is a red-black tree. */
  lemma Case3Finish(a: WfArena, b: Arena, n: int, P: int, g: int, t: int, d: Dir)
    requires Case3Pre(a, n, P, g, d) && Case3Roles(a, g, P, t, d) && t == Child(a, P, Flip(d))
    requires Case3Effect(a, b, g, P, t, d)
    ensures RBTree(b) && b.inorder == a.inorder
  {
    Case3Shape(a, n, P, g, d);
    Case3GoodPG(a, b, n, P, g, t, d);
    Case3GoodRest(a, b, n, P, g, t, d);
    GoodOn4(b, Nil, g, P, t, a.parent[g]);
    Case3Colors(a, n, P, g, d);
    Case3Root(a, b, P, g, t, d);
    Case3Local(a, b, n, P, g, t, d);
    LocalRewrite(a, b, {g, P, t, a.parent[g]}, n, Nil);
  }

  /** Case 3 (lib/phtree.c, the rotation at the grandparent) turns the fix-up state into a red-black tree. */
  lemma Case3Restores(a: WfArena, n: int, P: int, g: int, d: Dir)
    requires Case3Pre(a, n, P, g, d) && Case3Roles(a, g, P, Child(a, P, Flip(d)), d)
    ensures var b := Case3(a, g, P, Child(a, P, Flip(d)), d);
      RBTree(b) && b.inorder == a.inorder && b.parent[g] == P
  {
    var t := Child(a, P, Flip(d));
    Case3Effects(a, g, P, t, d);
    Case3Finish(a, Case3(a, g, P, t, d), n, P, g, t, d);
  }
}
