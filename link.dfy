/**
 * `ph_link_node(node, parent, link)` of tools/include/linux/phtree.h: the
 * first half of an insertion, which hangs node as a leaf into the empty
 * slot `*link` the caller found by its own search.  The slot is named by
 * the pair (p, d): the root word when p is NULL, otherwise child d of p.
 *
 * The header's `ph_link_node` writes only the two child words and the link;
 * the fix-up `__ph_insert` then reads node's parent word and colour.  The
 * corrected `LinkWords` also writes the parent word `p` and the colour red,
 * as one word would hold both, and `LinkEffects` shows that the result
 * meets the fix-up's precondition `FixupInv`.
 */
module PhLink {
  import opened PhArena
  import opened PhRewrite
  import opened PhFixup

  /** Position x after a new position was opened at t: positions from t on move up by one. */
  function Shift(x: int, t: int): int
  {
    if x >= t then x + 1 else x
  }

  /** Where node goes in sort order: just before p for a left link, just after it for a right link. */
  ghost function LinkPos(a: Arena, p: int, d: Dir): int
    requires Sized(a) && NodeOrNil(a, p)
  {
    if p == Nil then 0 else if d == Left then a.ord[p] else a.ord[p] + 1
  }

  /** The lowest position a subtree interval may start at and still move up. */
  function LoCut(k: int, d: Dir): int
  {
    if d == Left then k + 1 else k
  }

  /** The lowest position a subtree interval may end at and still move up. */
  function HiCut(k: int, d: Dir): int
  {
    if d == Left then k else k - 1
  }

  /**
   * The shifted labels of a node whose own position is not the cut keep the
   * relations `NodeShape` asks for.
   */
  lemma ShiftLabels(lo: int, o: int, hi: int, k: int, d: Dir)
    requires lo <= o <= hi && o != HiCut(k, d)
    ensures Shift(lo, LoCut(k, d)) <= Shift(o, k) <= Shift(hi, HiCut(k, d))
    ensures lo == o ==> Shift(lo, LoCut(k, d)) == Shift(o, k)
    ensures hi == o ==> Shift(hi, HiCut(k, d)) == Shift(o, k)
    ensures Shift(o - 1, HiCut(k, d)) == Shift(o, k) - 1 && Shift(o + 1, LoCut(k, d)) == Shift(o, k) + 1
  {
  }

  /** `*ph_link = node`. */
  function WriteLink(a: Arena, node: int, p: int, d: Dir): (b: Arena)
    requires Sized(a) && NodeOrNil(a, p)
    ensures Congruent(a, b) && b.parent == a.parent && b.color == a.color
    ensures b.lo == a.lo && b.hi == a.hi && b.bh == a.bh
    ensures p == Nil ==> b.root == node && b.left == a.left && b.right == a.right
    ensures p != Nil ==> b.root == a.root && Child(b, p, d) == node && Child(b, p, Flip(d)) == Child(a, p, Flip(d))
    ensures forall i {:trigger b.left[i]} {:trigger b.right[i]} :: IsNode(a, i) && i != p ==> b.left[i] == a.left[i] && b.right[i] == a.right[i]
  {
    if p == Nil then a.(root := node) else SetChild(a, p, d, node)
  }

  /** The words the header's `ph_link_node` writes: node's child words and the link, nothing else. */
  function LinkWordsAsWritten(a: Arena, node: int, p: int, d: Dir): (b: Arena)
    requires Sized(a) && IsNode(a, node) && NodeOrNil(a, p) && p != node
    ensures Congruent(a, b) && b.parent == a.parent && b.color == a.color
    ensures b.lo == a.lo && b.hi == a.hi && b.bh == a.bh
    ensures b.left[node] == Nil && b.right[node] == Nil
    ensures p == Nil ==> b.root == node
    ensures p != Nil ==> b.root == a.root && Child(b, p, d) == node && Child(b, p, Flip(d)) == Child(a, p, Flip(d))
    ensures forall i {:trigger b.left[i]} {:trigger b.right[i]} :: IsNode(a, i) && i != node && i != p ==>
      b.left[i] == a.left[i] && b.right[i] == a.right[i]
  {
    WriteLink(a.(left := a.left[node := Nil], right := a.right[node := Nil]), node, p, d)
  }

  /** The words a working `ph_link_node` writes: also node's parent word, p, and its colour, red. */
  function LinkWords(a: Arena, node: int, p: int, d: Dir): (b: Arena)
    requires Sized(a) && IsNode(a, node) && NodeOrNil(a, p) && p != node
    ensures Sized(b) && |b.left| == |a.left| && b.inorder == a.inorder && b.ord == a.ord
    ensures b.lo == a.lo && b.hi == a.hi && b.bh == a.bh
    ensures b.left[node] == Nil && b.right[node] == Nil && b.parent[node] == p && b.color[node] == Red
    ensures p == Nil ==> b.root == node
    ensures p != Nil ==> b.root == a.root && Child(b, p, d) == node && Child(b, p, Flip(d)) == Child(a, p, Flip(d))
    ensures forall i {:trigger b.left[i]} {:trigger b.right[i]} :: IsNode(a, i) && i != node && i != p ==>
      b.left[i] == a.left[i] && b.right[i] == a.right[i]
    ensures forall i {:trigger b.parent[i]} :: IsNode(a, i) && i != node ==>
      b.parent[i] == a.parent[i] && b.color[i] == a.color[i]
  {
    var c := a.(left := a.left[node := Nil], right := a.right[node := Nil],
                parent := a.parent[node := p], color := a.color[node := Red]);
    if p == Nil then c.(root := node)
    else if d == Left then c.(left := c.left[p := node])
    else c.(right := c.right[p := node])
  }

  /**
   * The labels after node took position k: the sort order gains node at k,
   * every other position and interval bound moves up past the cut, and node
   * is a red leaf with one black NULL below it.
   */
  ghost function Relabel(a: Arena, node: int, k: int, d: Dir): (b: Arena)
    requires Sized(a) && IsNode(a, node) && 0 <= k <= |a.inorder|
    ensures Sized(b) && |b.left| == |a.left|
    ensures b.left == a.left && b.right == a.right && b.parent == a.parent && b.color == a.color && b.root == a.root
    ensures b.inorder == a.inorder[..k] + [node] + a.inorder[k..] && b.bh == a.bh[node := 1]
    ensures forall i {:trigger b.ord[i]} :: 0 <= i < |a.left| ==>
      b.ord[i] == (if i == node then k else Shift(a.ord[i], k)) &&
      b.lo[i] == (if i == node then k else Shift(a.lo[i], LoCut(k, d))) &&
      b.hi[i] == (if i == node then k else Shift(a.hi[i], HiCut(k, d)))
  {
    var n := |a.left|;
    a.(inorder := a.inorder[..k] + [node] + a.inorder[k..],
       ord := seq(n, i requires 0 <= i < n => if i == node then k else Shift(a.ord[i], k)),
       lo := seq(n, i requires 0 <= i < n => if i == node then k else Shift(a.lo[i], LoCut(k, d))),
       hi := seq(n, i requires 0 <= i < n => if i == node then k else Shift(a.hi[i], HiCut(k, d))),
       bh := a.bh[node := 1])
  }

  /** What `LinkEffects` needs of the slot and of node. */
  ghost predicate LinkPre(a: Arena, node: int, p: int, d: Dir)
  {
    RBTree(a) && IsNode(a, node) && !InTree(a, node) && NodeOrNil(a, p) &&
    (if p == Nil then a.root == Nil else InTree(a, p) && Child(a, p, d) == Nil)
  }

  /** The corrected `ph_link_node` with the labels of the grown tree. */
  ghost function Link(a: Arena, node: int, p: int, d: Dir): (b: Arena)
    requires LinkPre(a, node, p, d)
  {
    Relabel(LinkWords(a, node, p, d), node, LinkPos(a, p, d), d)
  }

  /** The new state of a link of node into slot (p, d), node by node. */
  ghost predicate LinkEffect(a: Arena, b: Arena, node: int, p: int, d: Dir, k: int)
    requires Sized(a) && IsNode(a, node) && NodeOrNil(a, p) && 0 <= k <= |a.inorder|
  {
    Sized(b) && |b.left| == |a.left| && b.inorder == a.inorder[..k] + [node] + a.inorder[k..] &&
    b.left[node] == Nil && b.right[node] == Nil && b.parent[node] == p && b.color[node] == Red &&
    b.ord[node] == k && b.lo[node] == k && b.hi[node] == k && b.bh[node] == 1 &&
    (p == Nil ==> b.root == node) &&
    (p != Nil ==> b.root == a.root && Child(b, p, d) == node && Child(b, p, Flip(d)) == Child(a, p, Flip(d))) &&
    (forall i {:trigger b.left[i]} {:trigger b.right[i]} :: IsNode(a, i) && i != node && i != p ==>
       b.left[i] == a.left[i] && b.right[i] == a.right[i]) &&
    (forall i {:trigger b.parent[i]} :: IsNode(a, i) && i != node ==>
       b.parent[i] == a.parent[i] && b.color[i] == a.color[i] && b.bh[i] == a.bh[i]) &&
    (forall i {:trigger b.ord[i]} :: IsNode(a, i) && i != node ==>
       b.ord[i] == Shift(a.ord[i], k) && b.lo[i] == Shift(a.lo[i], LoCut(k, d)) && b.hi[i] == Shift(a.hi[i], HiCut(k, d)))
  }

  /** `Link` has the effect `LinkEffect` describes. */
  lemma LinkEffects(a: Arena, node: int, p: int, d: Dir)
    requires LinkPre(a, node, p, d)
    ensures 0 <= LinkPos(a, p, d) <= |a.inorder|
    ensures LinkEffect(a, Link(a, node, p, d), node, p, d, LinkPos(a, p, d))
  {
    var w := LinkWords(a, node, p, d);
    var k := LinkPos(a, p, d);
    var b := Relabel(w, node, k, d);
    assert b == Link(a, node, p, d);
    forall i | IsNode(a, i) && i != node
      ensures b.ord[i] == Shift(a.ord[i], k) && b.lo[i] == Shift(a.lo[i], LoCut(k, d)) && b.hi[i] == Shift(a.hi[i], HiCut(k, d))
    {
      assert b.ord[i] == Shift(w.ord[i], k);
    }
  }

  /** A tree node of a other than node keeps its membership, at its shifted position. */
  lemma LinkMember(a: Arena, b: Arena, node: int, k: int, i: int)
    requires Sized(a) && Sized(b) && |b.left| == |a.left| && IsNode(a, node) && 0 <= k <= |a.inorder|
    requires b.inorder == a.inorder[..k] + [node] + a.inorder[k..]
    requires IsNode(a, i) && i != node && b.ord[i] == Shift(a.ord[i], k)
    ensures InTree(b, i) <==> InTree(a, i)
  {
    if 0 <= a.ord[i] < |a.inorder| {
      if a.ord[i] < k {
        assert b.inorder[a.ord[i]] == a.inorder[a.ord[i]];
      } else {
        assert b.inorder[a.ord[i] + 1] == a.inorder[a.ord[i]];
      }
    }
  }

  /** Every position of the grown sort order holds a node that knows it. */
  lemma LinkOrder(a: WfArena, b: Arena, node: int, p: int, d: Dir, k: int)
    requires IsNode(a, node) && !InTree(a, node) && NodeOrNil(a, p) && 0 <= k <= |a.inorder|
    requires LinkEffect(a, b, node, p, d, k)
    ensures forall j :: 0 <= j < |b.inorder| ==> IsNode(b, b.inorder[j]) && b.ord[b.inorder[j]] == j
  {
    forall j | 0 <= j < |b.inorder|
      ensures IsNode(b, b.inorder[j]) && b.ord[b.inorder[j]] == j
    {
      if j < k {
        var x := a.inorder[j];
        assert b.inorder[j] == x && a.ord[x] == j && x != node;
        assert b.ord[x] == Shift(j, k);
      } else if j > k {
        var x := a.inorder[j - 1];
        assert b.inorder[j] == x && a.ord[x] == j - 1 && x != node;
        assert b.ord[x] == Shift(j - 1, k);
      }
    }
  }

  /** A tree node other than p keeps its invariants, with node as the one red node exempted. */
  lemma LinkAtOld(a: Arena, b: Arena, node: int, p: int, d: Dir, k: int, i: int)
    requires Sized(a) && IsNode(a, node) && !InTree(a, node) && InTree(a, p) && Child(a, p, d) == Nil
    requires k == LinkPos(a, p, d) && k <= |a.inorder|
    requires LinkEffect(a, b, node, p, d, k)
    requires InTree(a, i) && i != p && NodeShape(a, i) && BalancedAt(a, i) && RedOkAt(a, Nil, i)
    ensures InTree(b, i) && GoodAt(b, node, i)
  {
    LinkMember(a, b, node, k, i);
    LinkDown(a, b, node, p, d, k, i);
    LinkUp(a, b, node, p, d, k, i);
  }

  /** The parts of `NodeShape` below a tree node other than p, with its balance and colours. */
  lemma LinkDown(a: Arena, b: Arena, node: int, p: int, d: Dir, k: int, i: int)
    requires Sized(a) && IsNode(a, node) && !InTree(a, node) && InTree(a, p) && Child(a, p, d) == Nil
    requires k == LinkPos(a, p, d) && k <= |a.inorder|
    requires LinkEffect(a, b, node, p, d, k)
    requires InTree(a, i) && i != p && NodeShape(a, i) && BalancedAt(a, i) && RedOkAt(a, Nil, i)
    ensures var l, r := b.left[i], b.right[i];
      0 <= b.lo[i] <= b.ord[i] <= b.hi[i] < |b.inorder| &&
      (if l == Nil then b.lo[i] == b.ord[i]
       else Linked(b, l) && b.parent[l] == i && b.lo[l] == b.lo[i] && b.hi[l] == b.ord[i] - 1) &&
      (if r == Nil then b.hi[i] == b.ord[i]
       else Linked(b, r) && b.parent[r] == i && b.lo[r] == b.ord[i] + 1 && b.hi[r] == b.hi[i]) &&
      NodeOrNil(b, l) && NodeOrNil(b, r) && BalancedAt(b, i) && RedOkAt(b, node, i)
  {
    assert i != node && a.ord[i] != a.ord[p];
    assert b.parent[i] == a.parent[i] && b.ord[i] == Shift(a.ord[i], k);
    assert |b.inorder| == |a.inorder| + 1;
    ShiftLabels(a.lo[i], a.ord[i], a.hi[i], k, d);
    var l, r := a.left[i], a.right[i];
    if l != Nil {
      assert InTree(a, l);
      LinkMember(a, b, node, k, l);
    }
    if r != Nil {
      assert InTree(a, r);
      LinkMember(a, b, node, k, r);
    }
  }

  /** The part of `NodeShape` above a tree node: its parent still holds it. */
  lemma LinkUp(a: Arena, b: Arena, node: int, p: int, d: Dir, k: int, i: int)
    requires Sized(a) && IsNode(a, node) && !InTree(a, node) && InTree(a, p) && Child(a, p, d) == Nil
    requires k == LinkPos(a, p, d) && k <= |a.inorder|
    requires LinkEffect(a, b, node, p, d, k)
    requires InTree(a, i) && NodeShape(a, i)
    ensures var q := b.parent[i];
      if q == Nil then b.root == i else Linked(b, q) && (b.left[q] == i || b.right[q] == i)
  {
    assert i != node && b.parent[i] == a.parent[i];
    var q := a.parent[i];
    if q != Nil {
      assert InTree(a, q);
      LinkMember(a, b, node, k, q);
    }
  }

  /** p, whose empty slot d now holds node, keeps its invariants. */
  lemma LinkAtParent(a: Arena, b: Arena, node: int, p: int, d: Dir, k: int)
    requires Sized(a) && IsNode(a, node) && !InTree(a, node) && InTree(a, p) && Child(a, p, d) == Nil
    requires k == LinkPos(a, p, d) && k <= |a.inorder|
    requires LinkEffect(a, b, node, p, d, k)
    requires NodeShape(a, p) && BalancedAt(a, p) && RedOkAt(a, Nil, p)
    ensures InTree(b, p) && GoodAt(b, node, p)
  {
    LinkMember(a, b, node, k, p);
    LinkBelowParent(a, b, node, p, d, k);
    LinkUp(a, b, node, p, d, k, p);
  }

  /** The parts of `NodeShape` below p, with its balance and colours: node fills slot d. */
  lemma LinkBelowParent(a: Arena, b: Arena, node: int, p: int, d: Dir, k: int)
    requires Sized(a) && IsNode(a, node) && !InTree(a, node) && InTree(a, p) && Child(a, p, d) == Nil
    requires k == LinkPos(a, p, d) && k <= |a.inorder|
    requires LinkEffect(a, b, node, p, d, k)
    requires NodeShape(a, p) && BalancedAt(a, p) && RedOkAt(a, Nil, p)
    ensures var l, r := b.left[p], b.right[p];
      0 <= b.lo[p] <= b.ord[p] <= b.hi[p] < |b.inorder| &&
      (if l == Nil then b.lo[p] == b.ord[p]
       else Linked(b, l) && b.parent[l] == p && b.lo[l] == b.lo[p] && b.hi[l] == b.ord[p] - 1) &&
      (if r == Nil then b.hi[p] == b.ord[p]
       else Linked(b, r) && b.parent[r] == p && b.lo[r] == b.ord[p] + 1 && b.hi[r] == b.hi[p]) &&
      NodeOrNil(b, l) && NodeOrNil(b, r) && BalancedAt(b, p) && RedOkAt(b, node, p)
  {
    assert p != node && b.parent[p] == a.parent[p] && b.ord[p] == Shift(a.ord[p], k);
    assert |b.inorder| == |a.inorder| + 1 && b.inorder[k] == node;
    assert b.lo[p] == Shift(a.lo[p], LoCut(k, d)) && b.hi[p] == Shift(a.hi[p], HiCut(k, d));
    if d == Left {
      assert a.lo[p] == a.ord[p] == k;
    } else {
      assert a.hi[p] == a.ord[p] == k - 1;
    }
    var l, r := a.left[p], a.right[p];
    if l != Nil {
      assert InTree(a, l);
      LinkMember(a, b, node, k, l);
    }
    if r != Nil {
      assert InTree(a, r);
      LinkMember(a, b, node, k, r);
    }
  }

  /** node itself is a red leaf at position k, below p or at the root. */
  lemma LinkAtNew(a: WfArena, b: Arena, node: int, p: int, d: Dir, k: int)
    requires IsNode(a, node) && !InTree(a, node) && NodeOrNil(a, p) && 0 <= k <= |a.inorder|
    requires p != Nil ==> InTree(a, p) && Child(a, p, d) == Nil && k == LinkPos(a, p, d)
    requires p == Nil ==> a.root == Nil && k == 0
    requires LinkEffect(a, b, node, p, d, k)
    ensures InTree(b, node) && GoodAt(b, node, node)
  {
    assert b.inorder[k] == node;
    if p != Nil {
      LinkMember(a, b, node, k, p);
    }
  }

  /**
   * After the corrected link, the tree is what the fix-up loop of
   * `__ph_insert` expects: a red-black tree but for the red leaf node, whose
   * parent may be red.
   */
  lemma LinkFinish(a: Arena, b: Arena, node: int, p: int, d: Dir)
    requires LinkPre(a, node, p, d) && 0 <= LinkPos(a, p, d) <= |a.inorder|
    requires LinkEffect(a, b, node, p, d, LinkPos(a, p, d))
    ensures FixupInv(b, node)
  {
    var k := LinkPos(a, p, d);
    LinkOrder(a, b, node, p, d, k);
    forall i | InTree(b, i)
      ensures GoodAt(b, node, i)
    {
      if i == node {
        LinkAtNew(a, b, node, p, d, k);
      } else if i == p {
        assert NodeShape(a, p) && BalancedAt(a, p) && RedOkAt(a, Nil, p);
        LinkAtParent(a, b, node, p, d, k);
      } else {
        LinkMember(a, b, node, k, i);
        assert NodeShape(a, i) && BalancedAt(a, i) && RedOkAt(a, Nil, i);
        LinkAtOld(a, b, node, p, d, k, i);
      }
    }
    LinkAtNew(a, b, node, p, d, k);
    if p != Nil {
      var t := a.root;
      assert InTree(a, t) && t != node;
      LinkMember(a, b, node, k, t);
      assert LoCut(k, d) >= 1 && HiCut(k, d) == a.ord[p] < |a.inorder|;
      assert b.lo[t] == Shift(a.lo[t], LoCut(k, d)) == 0;
      assert b.hi[t] == Shift(a.hi[t], HiCut(k, d)) == |b.inorder| - 1;
    } else {
      assert |b.inorder| == 1;
    }
    assert WellFormed(b);
  }

  /** A tree of one black node, 0, beside a fresh node 1 whose parent word refers to itself. */
  function OneNode(): (a: Arena)
    ensures Sized(a) && |a.left| == 2
  {
    Arena([Nil, Nil], [Nil, Nil], [Nil, 1], [Black, Black], 0, [0], [0, Nil], [0, 0], [0, 0], [1, 1])
  }

  /** Linking node 1 as the left child of 0 meets every condition `LinkFinish` asks for. */
  lemma OneNodeLinkable()
    ensures LinkPre(OneNode(), 1, 0, Left) && EmptyNode(OneNode().parent, 1)
  {
    var a := OneNode();
    assert InTree(a, 0) && NodeShape(a, 0);
    assert forall i :: InTree(a, i) ==> i == 0;
  }

  /**
   * The same link as the header writes it: node 1's parent word still refers
   * to node 1, so no labelling of those words is well formed, and the fix-up
   * starts outside `FixupInv`.
   */
  lemma LinkAsWrittenBreaksTree(b: Arena)
    requires b.left == LinkWordsAsWritten(OneNode(), 1, 0, Left).left
    requires b.parent == LinkWordsAsWritten(OneNode(), 1, 0, Left).parent
    requires b.root == LinkWordsAsWritten(OneNode(), 1, 0, Left).root
    ensures !WellFormed(b)
  {
    assert Sized(b) && IsNode(b, 0) ==> !NodeShape(b, 0);
  }
}
