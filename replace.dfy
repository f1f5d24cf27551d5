/**
 * `ph_replace_node`: a node that is not in the tree takes the place of one
 * that is, by copying all of the victim's words and pointing the victim's
 * neighbours at the copy.  Nothing is rebalanced, so the caller must give the
 * replacement the victim's place in the sort order; the tree then holds the
 * same sequence with the victim swapped for the replacement.
 */
module PhReplace {
  import opened PhArena
  import opened PhRewrite
  import opened PhFixup
  import opened PhLoop

  /** `ph_set_parent(c, p)`: the parent part of c's parent/colour word; the colour stays. */
  function SetParent(a: Arena, c: int, p: int): (b: Arena)
    requires Sized(a) && IsNode(a, c)
    ensures Sized(b) && b.parent == a.parent[c := p]
  {
    a.(parent := a.parent[c := p])
  }

  /** `*new = *victim`: w gets all of v's words. */
  function CopyWords(a: Arena, v: int, w: int): (b: Arena)
    requires Sized(a) && IsNode(a, v) && IsNode(a, w)
    ensures Sized(b) && |b.left| == |a.left|
  {
    a.(left := a.left[w := a.left[v]], right := a.right[w := a.right[v]],
       parent := a.parent[w := a.parent[v]], color := a.color[w := a.color[v]])
  }

  /** The ghost side of the copy: w takes v's place in the labelling. */
  function PassLabels(a: Arena, v: int, w: int): (b: Arena)
    requires Sized(a) && InTree(a, v) && IsNode(a, w)
    ensures Sized(b) && |b.left| == |a.left|
  {
    a.(inorder := a.inorder[a.ord[v] := w], ord := a.ord[w := a.ord[v]],
       lo := a.lo[w := a.lo[v]], hi := a.hi[w := a.hi[v]], bh := a.bh[w := a.bh[v]])
  }

  /**
   * The words after `ph_replace_node(v, w)`: `*new = *victim`, then
   * `ph_set_parent` on each child of v, then `__ph_change_child(v, w,
   * parent)`.
   */
  function Substitute(a: Arena, v: int, w: int): (b: Arena)
    requires Sized(a) && InTree(a, v) && NodeShape(a, v) && IsNode(a, w)
  {
    var p, l, r := a.parent[v], a.left[v], a.right[v];
    var b1 := PassLabels(CopyWords(a, v, w), v, w);
    var b2 := if l != Nil then SetParent(b1, l, w) else b1;
    var b3 := if r != Nil then SetParent(b2, r, w) else b2;
    ChangeChild(b3, v, w, p)
  }

  /** What `Substitute` does to the labels and colours: w takes over those of v. */
  ghost predicate SubstLabels(a: Arena, b: Arena, v: int, w: int)
    requires Sized(a) && InTree(a, v) && IsNode(a, w)
  {
    Sized(b) && |b.left| == |a.left| &&
    b.inorder == a.inorder[a.ord[v] := w] && b.ord == a.ord[w := a.ord[v]] &&
    b.lo == a.lo[w := a.lo[v]] && b.hi == a.hi[w := a.hi[v]] && b.bh == a.bh[w := a.bh[v]] &&
    b.color == a.color[w := a.color[v]]
  }

  /** What `Substitute` does to the child, parent and root words. */
  ghost predicate SubstWords(a: Arena, b: Arena, v: int, w: int)
    requires Sized(a) && InTree(a, v) && NodeShape(a, v) && IsNode(a, w) && Sized(b) && |b.left| == |a.left|
  {
    var p, l, r := a.parent[v], a.left[v], a.right[v];
    b.left[w] == l && b.right[w] == r && b.parent[w] == p &&
    (l != Nil ==> b.parent[l] == w) && (r != Nil ==> b.parent[r] == w) &&
    (p == Nil ==> b.root == w) && (p != Nil ==> b.root == a.root) &&
    (p != Nil && a.left[p] == v ==> b.left[p] == w && b.right[p] == a.right[p]) &&
    (p != Nil && a.left[p] != v ==> b.right[p] == w && b.left[p] == a.left[p]) &&
    (forall i {:trigger b.left[i]} {:trigger b.right[i]} :: IsNode(a, i) && i != w && i != p ==>
      b.left[i] == a.left[i] && b.right[i] == a.right[i]) &&
    (forall i {:trigger b.parent[i]} :: IsNode(a, i) && i != w && i != l && i != r ==> b.parent[i] == a.parent[i])
  }

  ghost predicate SubstEffect(a: Arena, b: Arena, v: int, w: int)
    requires Sized(a) && InTree(a, v) && NodeShape(a, v) && IsNode(a, w)
  {
    SubstLabels(a, b, v, w) && SubstWords(a, b, v, w)
  }

  lemma SubstEffects(a: Arena, v: int, w: int)
    requires SpliceOk(a, v, w)
    ensures SubstEffect(a, Substitute(a, v, w), v, w)
  {
    var b := Substitute(a, v, w);
    assert SubstLabels(a, b, v, w);
    SubstWordsHold(a, v, w);
  }

  lemma SubstWordsHold(a: Arena, v: int, w: int)
    requires SpliceOk(a, v, w)
    ensures var b := Substitute(a, v, w); Sized(b) && |b.left| == |a.left| && SubstWords(a, b, v, w)
  {
  }

  /** What the pointer surgery needs: v is a tree node, and w is none of v and its neighbours. */
  ghost predicate SpliceOk(a: Arena, v: int, w: int)
  {
    Sized(a) && InTree(a, v) && NodeShape(a, v) && IsNode(a, w) && v != w &&
    a.parent[v] != w && a.left[v] != w && a.right[v] != w &&
    a.parent[v] != v && a.left[v] != v && a.right[v] != v
  }

  /** The caller's side of the contract: v is in a red-black tree, w is a node outside it. */
  ghost predicate SubstPre(a: Arena, v: int, w: int)
  {
    RBTree(a) && InTree(a, v) && NodeShape(a, v) && IsNode(a, w) && !InTree(a, w)
  }

  /** The neighbours of v are tree nodes or NULL, and none of them is w or v. */
  lemma SubstNeighbours(a: WfArena, v: int, w: int)
    requires SubstPre(a, v, w)
    ensures SpliceOk(a, v, w)
    ensures v != w
    ensures NodeOrNil(a, a.parent[v]) && NodeOrNil(a, a.left[v]) && NodeOrNil(a, a.right[v])
    ensures a.parent[v] != w && a.left[v] != w && a.right[v] != w
    ensures a.parent[v] != v && a.left[v] != v && a.right[v] != v
    ensures a.parent[v] != Nil ==> InTree(a, a.parent[v])
    ensures a.left[v] != Nil ==> InTree(a, a.left[v])
    ensures a.right[v] != Nil ==> InTree(a, a.right[v])
  {
  }

  /** After the substitution, the tree nodes are w and the old ones but v. */
  lemma SubstMembers(a: WfArena, b: Arena, v: int, w: int, i: int)
    requires InTree(a, v) && IsNode(a, w) && !InTree(a, w) && SubstLabels(a, b, v, w) && IsNode(a, i)
    ensures InTree(b, i) <==> i == w || (InTree(a, i) && i != v)
  {
  }

  /** Each tree node of b keeps the invariants. */
  lemma SubstAt(a: WfArena, b: Arena, v: int, w: int, i: int)
    requires SubstPre(a, v, w) && SubstEffect(a, b, v, w) && InTree(b, i)
    ensures GoodAt(b, Nil, i)
  {
    SubstNeighbours(a, v, w);
    SubstMembers(a, b, v, w, i);
    var j := if i == w then v else i;
    assert NodeShape(a, j) && BalancedAt(a, j) && RedOkAt(a, Nil, j);
    if i == w {
      SubstAtNew(a, b, v, w);
    } else if i == a.parent[v] {
      SubstParentWords(a, b, v, w);
      SubstAtParent(a, b, v, w, i, if a.left[i] == v then a.right[i] else a.left[i]);
    } else if i == a.left[v] || i == a.right[v] {
      assert NodeShape(a, v);
      SubstAtChild(a, b, v, w, i);
    } else {
      SubstFarWords(a, b, v, w, i);
      SubstAtFar(a, b, v, w, i);
    }
  }

  /** The words a node away from v and its neighbours read are those of a. */
  lemma SubstFarWords(a: WfArena, b: Arena, v: int, w: int, i: int)
    requires InTree(a, v) && NodeShape(a, v) && IsNode(a, w) && !InTree(a, w) && SubstEffect(a, b, v, w)
    requires InTree(a, i) && NodeShape(a, i) && i != v && i != w && i != a.parent[v] && i != a.left[v] && i != a.right[v]
    ensures b.parent[i] == a.parent[i] && b.left[i] == a.left[i] && b.right[i] == a.right[i]
    ensures a.left[i] != v && a.right[i] != v && a.parent[i] != v
    ensures a.left[i] != Nil ==> b.parent[a.left[i]] == a.parent[a.left[i]]
    ensures a.right[i] != Nil ==> b.parent[a.right[i]] == a.parent[a.right[i]]
    ensures a.parent[i] != Nil ==> b.left[a.parent[i]] == i || b.right[a.parent[i]] == i
    ensures a.parent[i] == Nil ==> b.root == a.root
  {
    var l, r, q := a.left[i], a.right[i], a.parent[i];
    if l != Nil { SubstNeighbour(a, b, v, w, l); }
    if r != Nil { SubstNeighbour(a, b, v, w, r); }
    if q != Nil { SubstNeighbour(a, b, v, w, q); }
    if q == Nil { NilParentIsRoot(a, i); }
  }

  /** Neighbour c of a tree node stays in the tree unless it is v, and keeps its labels. */
  lemma SubstNeighbour(a: WfArena, b: Arena, v: int, w: int, c: int)
    requires InTree(a, v) && IsNode(a, w) && !InTree(a, w) && SubstLabels(a, b, v, w)
    requires c != Nil && Linked(a, c)
    ensures InTree(a, c) && c != w && (c != v ==> InTree(b, c))
    ensures c != v ==> b.lo[c] == a.lo[c] && b.hi[c] == a.hi[c] && b.ord[c] == a.ord[c]
    ensures c != v ==> b.color[c] == a.color[c] && b.bh[c] == a.bh[c]
  {
    SubstMembers(a, b, v, w, c);
  }

  /** The replacement w looks to its neighbours as v did. */
  lemma SubstAtNew(a: WfArena, b: Arena, v: int, w: int)
    requires InTree(a, v) && NodeShape(a, v) && IsNode(a, w) && !InTree(a, w) && SubstEffect(a, b, v, w)
    requires BalancedAt(a, v) && RedOkAt(a, Nil, v)
    requires a.parent[v] != v && a.left[v] != v && a.right[v] != v
    ensures IsNode(b, w) && GoodAt(b, Nil, w)
  {
    var p, l, r := a.parent[v], a.left[v], a.right[v];
    if l != Nil { SubstNeighbour(a, b, v, w, l); }
    if r != Nil { SubstNeighbour(a, b, v, w, r); }
    if p != Nil { SubstNeighbour(a, b, v, w, p); }
  }

  /** The words the parent of v and its neighbours read after the substitution. */
  lemma SubstParentWords(a: WfArena, b: Arena, v: int, w: int)
    requires InTree(a, v) && NodeShape(a, v) && IsNode(a, w) && !InTree(a, w) && SubstEffect(a, b, v, w)
    requires a.parent[v] != Nil && a.parent[v] != v && a.parent[v] != w && NodeShape(a, a.parent[v])
    ensures var p := a.parent[v]; var o := if a.left[p] == v then a.right[p] else a.left[p];
      (a.left[p] == v ==> b.left[p] == w && b.right[p] == o) &&
      (a.left[p] != v ==> b.right[p] == w && b.left[p] == o) &&
      b.parent[p] == a.parent[p] && (o != Nil ==> b.parent[o] == a.parent[o] && o != v) &&
      (a.parent[p] != Nil ==> b.left[a.parent[p]] == p || b.right[a.parent[p]] == p) &&
      (a.parent[p] == Nil ==> b.root == a.root) && a.parent[p] != v
  {
    var p := a.parent[v];
    ParentSpan(a, v);
    if a.parent[p] != Nil {
      ParentSpan(a, p);
    }
    SubstNeighbour(a, b, v, w, p);
    var o := if a.left[p] == v then a.right[p] else a.left[p];
    if o != Nil {
      SubstNeighbour(a, b, v, w, o);
    }
    var q := a.parent[p];
    if q != Nil {
      SubstNeighbour(a, b, v, w, q);
    }
  }

  /** The parent of v now has w where it had v. */
  lemma SubstAtParent(a: WfArena, b: Arena, v: int, w: int, p: int, o: int)
    requires InTree(a, v) && IsNode(a, w) && !InTree(a, w) && SubstLabels(a, b, v, w)
    requires p == a.parent[v] && p != Nil && p != v && p != w && Linked(a, p) && (a.left[p] == v || a.right[p] == v)
    requires NodeShape(a, p) && BalancedAt(a, p) && RedOkAt(a, Nil, p)
    requires o == if a.left[p] == v then a.right[p] else a.left[p]
    requires a.left[p] == v ==> b.left[p] == w && b.right[p] == o
    requires a.left[p] != v ==> b.right[p] == w && b.left[p] == o
    requires b.parent[p] == a.parent[p] && (o != Nil ==> b.parent[o] == a.parent[o] && o != v)
    requires b.parent[w] == p
    requires a.parent[p] != Nil ==> b.left[a.parent[p]] == p || b.right[a.parent[p]] == p
    requires a.parent[p] == Nil ==> b.root == a.root
    requires a.parent[p] != v
    ensures GoodAt(b, Nil, p)
  {
    SubstNeighbour(a, b, v, w, p);
    SubstNew(a, b, v, w);
    if o != Nil {
      SubstNeighbour(a, b, v, w, o);
    }
    var q := a.parent[p];
    if q != Nil {
      SubstNeighbour(a, b, v, w, q);
    }
  }

  /** w is in the tree of b where v was in a, and its parent sees it as it saw v. */
  lemma SubstNew(a: WfArena, b: Arena, v: int, w: int)
    requires InTree(a, v) && IsNode(a, w) && !InTree(a, w) && SubstLabels(a, b, v, w)
    ensures Linked(b, w) && b.lo[w] == a.lo[v] && b.hi[w] == a.hi[v] && b.ord[w] == a.ord[v]
    ensures b.color[w] == a.color[v] && b.bh[w] == a.bh[v] && Contrib(b, w) == Contrib(a, v)
  {
  }

  /** A child of v keeps its words but for its parent word, which now refers to w. */
  lemma SubstAtChild(a: WfArena, b: Arena, v: int, w: int, i: int)
    requires InTree(a, v) && NodeShape(a, v) && IsNode(a, w) && !InTree(a, w) && SubstLabels(a, b, v, w)
    requires InTree(a, i) && i != v && i != w && (i == a.left[v] || i == a.right[v]) && a.parent[i] == v
    requires NodeShape(a, i) && BalancedAt(a, i) && RedOkAt(a, Nil, i)
    requires b.parent[i] == w && b.left[i] == a.left[i] && b.right[i] == a.right[i]
    requires b.left[w] == a.left[v] && b.right[w] == a.right[v]
    requires a.left[i] != Nil ==> b.parent[a.left[i]] == a.parent[a.left[i]]
    requires a.right[i] != Nil ==> b.parent[a.right[i]] == a.parent[a.right[i]]
    ensures GoodAt(b, Nil, i)
  {
    SubstMembers(a, b, v, w, i);
    SubstNew(a, b, v, w);
    var l, r := a.left[i], a.right[i];
    if l != Nil { SubstNeighbour(a, b, v, w, l); }
    if r != Nil { SubstNeighbour(a, b, v, w, r); }
  }

  /** A tree node away from v keeps its words and so do its neighbours. */
  lemma SubstAtFar(a: WfArena, b: Arena, v: int, w: int, i: int)
    requires InTree(a, v) && IsNode(a, w) && !InTree(a, w) && SubstLabels(a, b, v, w)
    requires InTree(a, i) && NodeShape(a, i) && i != v && i != w
    requires NodeShape(a, i) && BalancedAt(a, i) && RedOkAt(a, Nil, i)
    requires b.parent[i] == a.parent[i] && b.left[i] == a.left[i] && b.right[i] == a.right[i]
    requires a.left[i] != v && a.right[i] != v && a.parent[i] != v
    requires a.left[i] != Nil ==> b.parent[a.left[i]] == a.parent[a.left[i]]
    requires a.right[i] != Nil ==> b.parent[a.right[i]] == a.parent[a.right[i]]
    requires a.parent[i] != Nil ==> b.left[a.parent[i]] == i || b.right[a.parent[i]] == i
    requires a.parent[i] == Nil ==> b.root == a.root
    ensures GoodAt(b, Nil, i)
  {
    SubstMembers(a, b, v, w, i);
    var l, r, q := a.left[i], a.right[i], a.parent[i];
    if l != Nil { SubstNeighbour(a, b, v, w, l); }
    if r != Nil { SubstNeighbour(a, b, v, w, r); }
    if q != Nil { SubstNeighbour(a, b, v, w, q); }
  }

  /**
   * `ph_replace_node` keeps a red-black tree, and the in-order sequence
   * holds w where it held v.
   */
  lemma SubstituteKeepsTree(a: WfArena, v: int, w: int)
    requires SubstPre(a, v, w)
    ensures var b := Substitute(a, v, w);
      RBTree(b) && b.inorder == a.inorder[a.ord[v] := w] && InTree(b, w) && !InTree(b, v)
  {
    var b := Substitute(a, v, w);
    SubstEffects(a, v, w);
    SubstFinish(a, b, v, w);
  }

  lemma SubstFinish(a: WfArena, b: Arena, v: int, w: int)
    requires SubstPre(a, v, w) && SubstEffect(a, b, v, w)
    ensures RBTree(b) && InTree(b, w) && !InTree(b, v)
  {
    SubstNeighbours(a, v, w);
    SubstMembers(a, b, v, w, w);
    SubstMembers(a, b, v, w, v);
    forall i | InTree(b, i)
      ensures GoodAt(b, Nil, i)
    {
      SubstAt(a, b, v, w, i);
    }
    forall k | 0 <= k < |b.inorder|
      ensures IsNode(b, b.inorder[k]) && b.ord[b.inorder[k]] == k
    {
      if k != a.ord[v] {
        SubstMembers(a, b, v, w, a.inorder[k]);
      }
    }
    if a.parent[v] != Nil {
      assert InTree(a, a.root);
      SubstMembers(a, b, v, w, a.root);
    }
  }
}
