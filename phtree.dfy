/**
 * The tree as the C code sees it: one object whose child, parent and colour
 * words are rewritten in place.  Node ids index the word sequences; the
 * ghost fields carry the labelling of `PhArena` and the log of the
 * `augment_rotate` callback.  Every state-changing method says which
 * arena-level function (`PhFixup`, `PhRecolor`, `PhZigzag`) it performs, and
 * the proofs about those functions carry over.
 */
module PhTree {
  import opened PhArena
  import opened PhRewrite
  import opened PhFixup
  import opened PhRecolor
  import opened PhZigzag
  import opened PhLoop
  import opened PhOrders
  import opened PhReplace
  import opened PhLink
  import opened PhHeader

  /** One `augment_rotate(old, new)` call: `old` moved down below `new`. */
  datatype Rotation = Rotation(down: int, up: int)

  /** After the calls in `log`, every node that moved down hangs directly below the node that moved up. */
  ghost predicate RotationsHold(a: Arena, log: seq<Rotation>)
  {
    Sized(a) && forall k :: 0 <= k < |log| ==> IsNode(a, log[k].down) && a.parent[log[k].down] == log[k].up
  }

  /** Two rotations whose nodes that moved down both hang below z. */
  lemma RotationsHold2(a: Arena, x: int, y: int, z: int)
    requires Sized(a) && IsNode(a, x) && IsNode(a, y) && a.parent[x] == z && a.parent[y] == z
    ensures RotationsHold(a, [Rotation(x, z), Rotation(y, z)])
  {
  }

  lemma RotationsHold1(a: Arena, x: int, z: int)
    requires Sized(a) && IsNode(a, x) && a.parent[x] == z
    ensures RotationsHold(a, [Rotation(x, z)])
  {
  }

  lemma AppendTwo(s: seq<Rotation>, x: Rotation, y: Rotation)
    ensures s + [x] + [y] == s + [x, y]
  {
  }

  /** Extending a prefix of s by the next element of s. */
  lemma PrefixStep(s: seq<int>, v: seq<int>, x: int)
    requires |v| < |s| && v == s[..|v|] && s[|v|] == x
    ensures v + [x] == s[..|v| + 1]
  {
  }

  /**
   * The frame of an insertion: the arena keeps its size, and every node
   * outside a's tree other than x stays outside the tree with the child,
   * parent and colour words it had.
   */
  ghost predicate FreeKept(a: Arena, b: Arena, x: int)
    requires Sized(a)
  {
    Sized(b) && |b.left| == |a.left| &&
    forall i :: IsNode(a, i) && i != x && !InTree(a, i) ==>
      !InTree(b, i) && b.left[i] == a.left[i] && b.right[i] == a.right[i] &&
      b.parent[i] == a.parent[i] && b.color[i] == a.color[i]
  }

  lemma FreeKeptTrans(a: Arena, b: Arena, c: Arena, x: int)
    requires Sized(a) && FreeKept(a, b, x) && FreeKept(b, c, Nil)
    ensures FreeKept(a, c, x)
  {
    forall i | IsNode(a, i) && i != x && !InTree(a, i)
      ensures !InTree(c, i) && c.left[i] == a.left[i] && c.right[i] == a.right[i] &&
        c.parent[i] == a.parent[i] && c.color[i] == a.color[i]
    {
      assert !InTree(b, i) && IsNode(b, i) && i != Nil;
    }
  }

  /** A rewrite that keeps every node outside S, and whose S holds only tree nodes, keeps the free nodes. */
  lemma KeptOutside(a: Arena, b: Arena, S: set<int>)
    requires Congruent(a, b)
    requires forall i :: i in S ==> i == Nil || InTree(a, i)
    requires forall i {:trigger Same(a, b, i)} :: IsNode(a, i) && i !in S ==> Same(a, b, i)
    ensures FreeKept(a, b, Nil)
  {
    forall i | IsNode(a, i) && i != Nil && !InTree(a, i)
      ensures !InTree(b, i) && b.left[i] == a.left[i] && b.right[i] == a.right[i] &&
        b.parent[i] == a.parent[i] && b.color[i] == a.color[i]
    {
      assert i !in S;
      assert Same(a, b, i);
    }
  }

  /** Blackening the root touches the root only. */
  lemma RootKeepsFree(a: Arena, n: int)
    requires Sized(a) && InTree(a, n)
    ensures FreeKept(a, PhFixup.SetParentColor(a, n, Nil, Black), Nil)
  {
    var b := PhFixup.SetParentColor(a, n, Nil, Black);
    forall i | IsNode(a, i) && i != Nil && !InTree(a, i)
      ensures !InTree(b, i) && b.parent[i] == a.parent[i] && b.color[i] == a.color[i]
    {
      assert i != n;
    }
  }

  /** Case 1 recolours the parent, the uncle and the grandparent, all of them tree nodes. */
  lemma Case1KeepsFree(a: WfArena, b: Arena, n: int, P: int, g: int, d: Dir)
    requires Case1Pre(a, n, P, g, d) && Case1Effect(a, b, P, g, Child(a, g, Flip(d)))
    ensures FreeKept(a, b, Nil)
  {
    var u := Child(a, g, Flip(d));
    assert NodeShape(a, n);
    assert NodeShape(a, P);
    assert NodeShape(a, g);
    forall i | IsNode(a, i) && i != P && i != g && i != u
      ensures Same(a, b, i)
    {
      assert b.color[i] == a.color[i] && b.bh[i] == a.bh[i];
    }
    KeptOutside(a, b, {P, g, u});
  }

  /** Case 2 followed by Case 3 rewrites six nodes of the tree, NULLs aside. */
  lemma ZigzagKeepsFree(a: WfArena, b: Arena, n: int, P: int, g: int, d: Dir)
    requires Case2Pre(a, n, P, g, d) && ZigzagDistinct(a, n, P, g, d) && ZigzagEffect(a, b, n, P, g, d)
    ensures FreeKept(a, b, Nil)
  {
    ZigzagShape(a, n, P, g, d);
    KeptOutside(a, b, {n, P, g, Child(a, n, d), Child(a, n, Flip(d)), a.parent[g]});
  }

  /** Case 3 rewrites four nodes of the tree, NULLs aside. */
  lemma Case3KeepsFree(a: WfArena, b: Arena, n: int, P: int, g: int, t: int, d: Dir)
    requires Case3Pre(a, n, P, g, d) && t == Child(a, P, Flip(d)) && Case3Roles(a, g, P, t, d)
    requires Case3Effect(a, b, g, P, t, d)
    ensures FreeKept(a, b, Nil)
  {
    Case3Shape(a, n, P, g, d);
    KeptOutside(a, b, {g, P, t, a.parent[g]});
  }

  /** Linking writes node and the slot's owner p, a tree node. */
  lemma LinkKeepsFree(a: Arena, node: int, p: int, d: Dir)
    requires LinkPre(a, node, p, d)
    ensures FreeKept(a, Link(a, node, p, d), node)
  {
    LinkEffects(a, node, p, d);
    var b := Link(a, node, p, d);
    var k := LinkPos(a, p, d);
    forall i | IsNode(a, i) && i != node && !InTree(a, i)
      ensures !InTree(b, i) && b.left[i] == a.left[i] && b.right[i] == a.right[i] &&
        b.parent[i] == a.parent[i] && b.color[i] == a.color[i]
    {
      assert i != p;
      assert b.parent[i] == a.parent[i] && b.ord[i] == Shift(a.ord[i], k);
      LinkMember(a, b, node, k, i);
    }
  }

  class Tree {
    var left: seq<int>
    var right: seq<int>
    var parent: seq<int>
    var color: seq<Color>
    /** `root->ph_node` */
    var root: int
    ghost var inorder: seq<int>
    ghost var ord: seq<int>
    ghost var lo: seq<int>
    ghost var hi: seq<int>
    ghost var bh: seq<int>
    /** The `augment_rotate` calls made so far, oldest first. */
    ghost var rotations: seq<Rotation>

    /** The current words and labels as an arena value. */
    ghost function Snap(): (a: Arena)
      reads this
      ensures a.left == left && a.right == right && a.parent == parent && a.color == color && a.root == root
    {
      Arena(left, right, parent, color, root, inorder, ord, lo, hi, bh)
    }

    /**
     * `PH_ROOT` over the caller's node slots: only the root word is set,
     * to NULL, so the tree is empty. The slots' left, right, parent and
     * colour words are whatever the caller left in them.
     */
    constructor (l: seq<int>, r: seq<int>, p: seq<int>, c: seq<Color>)
      requires |r| == |l| && |p| == |l| && |c| == |l|
      ensures RBTree(Snap()) && root == Nil && inorder == [] && rotations == []
      ensures left == l && right == r && parent == p && color == c
    {
      var size := |l|;
      left := l;
      right := r;
      parent := p;
      color := c;
      root := Nil;
      inorder := [];
      ord := seq(size, i => Nil);
      lo := seq(size, i => 0);
      hi := seq(size, i => 0);
      bh := seq(size, i => 1);
      rotations := [];
    }

    /** `node->ph_left` or `node->ph_right`. */
    function ChildAt(n: int, d: Dir): (c: int)
      reads this
      requires Sized(Snap()) && IsNode(Snap(), n)
      ensures c == Child(Snap(), n, d)
    {
      if d == Left then left[n] else right[n]
    }

    /** `WRITE_ONCE(n->ph_left, c)` or `WRITE_ONCE(n->ph_right, c)`. */
    method WriteChild(n: int, d: Dir, c: int)
      requires Sized(Snap()) && IsNode(Snap(), n)
      modifies this
      ensures Snap() == SetChild(old(Snap()), n, d, c) && rotations == old(rotations)
    {
      if d == Left {
        left := left[n := c];
      } else {
        right := right[n := c];
      }
    }

    /** `ph_set_parent_color(n, p, c)`. */
    method SetParentColor(n: int, p: int, c: Color)
      requires Sized(Snap()) && IsNode(Snap(), n)
      modifies this
      ensures Snap() == PhFixup.SetParentColor(old(Snap()), n, p, c) && rotations == old(rotations)
    {
      parent := parent[n := p];
      color := color[n := c];
    }

    /** `__ph_change_child(x, y, p, root)`. */
    method ChangeChild(x: int, y: int, p: int)
      requires Sized(Snap()) && NodeOrNil(Snap(), p)
      modifies this
      ensures Snap() == PhFixup.ChangeChild(old(Snap()), x, y, p) && rotations == old(rotations)
    {
      if p == Nil {
        root := y;
      } else if left[p] == x {
        WriteChild(p, Left, y);
      } else {
        WriteChild(p, Right, y);
      }
    }

    /** `__ph_rotate_set_parents(x, y, root, c)`. */
    method RotateSetParents(x: int, y: int, c: Color)
      requires Sized(Snap()) && IsNode(Snap(), x) && IsNode(Snap(), y) && NodeOrNil(Snap(), parent[x])
      modifies this
      ensures Snap() == PhFixup.RotateSetParents(old(Snap()), x, y, c) && rotations == old(rotations)
    {
      var p := parent[x];
      parent := parent[y := p];
      color := color[y := color[x]];
      SetParentColor(x, y, c);
      ChangeChild(x, y, p);
    }

    /** The ghost relabelling of a rotation in which y moves up over x, and the `augment_rotate(x, y)` call. */
    ghost method Rotate(x: int, y: int, e: Dir)
      requires Sized(Snap()) && IsNode(Snap(), x) && IsNode(Snap(), y)
      modifies this
      ensures Snap() == Rotated(old(Snap()), x, y, e) && rotations == old(rotations) + [Rotation(x, y)]
    {
      lo := lo[y := lo[x]];
      hi := hi[y := hi[x]];
      if e == Left {
        hi := hi[x := ord[y] - 1];
      } else {
        lo := lo[x := ord[y] + 1];
      }
      rotations := rotations + [Rotation(x, y)];
    }

    /**
     * The colour flip of Case 1 of `__ph_insert`: the red uncle u and the
     * parent P turn black, the grandparent g turns red; returns g's parent.
     */
    method FlipColors(P: int, g: int, u: int) returns (gp: int)
      requires Sized(Snap()) && IsNode(Snap(), P) && IsNode(Snap(), g) && IsNode(Snap(), u)
      requires parent[P] == g && parent[u] == g && P != g && u != g && P != u
      modifies this
      ensures Case1Effect(old(Snap()), Snap(), P, g, u) && rotations == old(rotations)
      ensures gp == parent[g]
    {
      ghost var a := Snap();
      SetParentColor(u, g, Black);
      SetParentColor(P, g, Black);
      gp := parent[g];
      SetParentColor(g, gp, Red);
      bh := bh[g := a.bh[g] + 1];
      assert Snap() == Case1(a, P, g, u);
      Case1Effects(a, P, g, u);
    }

    /** Case 1 of `__ph_insert`: after the colour flip the loop goes on with g in place of n. */
    method Recolor(ghost n: int, P: int, g: int, u: int, ghost d: Dir) returns (gp: int)
      requires Case1Pre(Snap(), n, P, g, d) && u == Child(Snap(), g, Flip(d))
      modifies this
      ensures Case1Effect(old(Snap()), Snap(), P, g, u) && rotations == old(rotations)
      ensures FixupInv(Snap(), g) && inorder == old(inorder) && SizeAt(old(Snap()), n) < SizeAt(Snap(), g)
      ensures gp == parent[g]
      ensures FreeKept(old(Snap()), Snap(), Nil)
    {
      ghost var a: WfArena := Snap();
      Case1Shape(a, n, P, g, d);
      gp := FlipColors(P, g, u);
      Case1Advances(a, Snap(), n, P, g, d);
      Case1KeepsFree(a, Snap(), n, P, g, d);
    }

    /** The first exit of `__ph_insert`: node has no parent, so it is the root, and turns black. */
    method BlackenRoot(n: int)
      requires FixupInv(Snap(), n) && parent[n] == Nil
      modifies this
      ensures Snap() == PhFixup.SetParentColor(old(Snap()), n, Nil, Black) && rotations == old(rotations)
      ensures RBTree(Snap()) && FreeKept(old(Snap()), Snap(), Nil)
    {
      ghost var a: WfArena := Snap();
      RootBlackened(a, n);
      SetParentColor(n, Nil, Black);
      RootKeepsFree(a, n);
    }

    /** Case 2 of `__ph_insert`: rotate at the parent P, so that its inner child n moves up. */
    method RotateAtParent(n: int, P: int, d: Dir)
      requires Case2Distinct(Snap(), n, P, d)
      modifies this
      ensures Case2Effect(old(Snap()), Snap(), n, P, d) && rotations == old(rotations) + [Rotation(P, n)]
    {
      ghost var a := Snap();
      var tmp := ChildAt(n, d);
      WriteChild(P, Flip(d), tmp);
      WriteChild(n, d, P);
      if tmp != Nil {
        SetParentColor(tmp, P, Black);
      }
      SetParentColor(P, n, Red);
      Rotate(P, n, d);
      assert Snap() == Case2(a, n, P, d);
      Case2Effects(a, n, P, d);
    }

    /** Case 3 of `__ph_insert`: rotate at the grandparent g, so that the parent P moves up. */
    method RotateAtGrandparent(g: int, P: int, tmp: int, d: Dir)
      requires Case3Distinct(Snap(), g, P, tmp, d)
      modifies this
      ensures Case3Effect(old(Snap()), Snap(), g, P, tmp, d) && rotations == old(rotations) + [Rotation(g, P)]
    {
      ghost var a := Snap();
      WriteChild(g, d, tmp);
      WriteChild(P, Flip(d), g);
      if tmp != Nil {
        SetParentColor(tmp, g, Black);
      }
      RotateSetParents(g, P, Red);
      Rotate(g, P, Flip(d));
      assert Snap() == Case3(a, g, P, tmp, d);
      Case3Effects(a, g, P, tmp, d);
    }

    /**
     * `__ph_insert`: the fix-up after node was linked as a red leaf.  The
     * loop keeps `FixupInv` (a red-black tree but for one red node that may
     * sit below a red parent) and moves node two levels up per Case 1, so
     * that its subtree grows; it ends in a red-black tree with the same
     * in-order sequence, after at most two rotations.
     */
    method Insert(node: int) returns (ghost added: seq<Rotation>)
      requires FixupInv(Snap(), node)
      modifies this
      ensures RBTree(Snap()) && inorder == old(inorder)
      ensures rotations == old(rotations) + added && |added| <= 2 && RotationsHold(Snap(), added)
      ensures |added| == 2 ==> added[0].up == added[1].up
      ensures FreeKept(old(Snap()), Snap(), Nil)
    {
      ghost var a0 := Snap();
      added := [];
      var n := node;
      var par := parent[n];
      while true
        invariant FixupInv(Snap(), n) && par == parent[n]
        invariant inorder == old(inorder) && rotations == old(rotations)
        invariant FreeKept(a0, Snap(), Nil)
        decreases |inorder| - SizeAt(Snap(), n)
      {
        if par == Nil {
          ghost var a := Snap();
          BlackenRoot(n);
          FreeKeptTrans(a0, a, Snap(), Nil);
          break;
        }
        if color[par] == Black {
          BlackParentDone(Snap(), n);
          break;
        }
        ghost var a := Snap();
        var next, nextPar, add, _, _ := RedParentCase(n, par);
        FreeKeptTrans(a0, a, Snap(), Nil);
        if next == Nil {
          added := add;
          break;
        }
        n, par := next, nextPar;
      }
    }

    /**
     * The loop body of `__ph_insert` below a red parent.  With a red uncle
     * (Case 1) it returns the grandparent, whose subtree is larger, to go on
     * with; otherwise Cases 2 and 3 finish the fix-up and it returns NULL.
     */
    method RedParentCase(n: int, par: int) returns (next: int, nextPar: int, ghost added: seq<Rotation>, ghost g: int, ghost u: int)
      requires FixupInv(Snap(), n) && par == parent[n] && par != Nil && IsNode(Snap(), par) && color[par] == Red
      modifies this
      ensures g == old(parent[par]) && IsNode(old(Snap()), g) && u == Child(old(Snap()), g, Flip(SideOf(old(Snap()), g, par)))
      ensures NodeOrNil(old(Snap()), u) && u != g && u != par
      ensures (next != Nil) <==> (u != Nil && old(color[u]) == Red)
      ensures next != Nil ==> next == g && Case1Effect(old(Snap()), Snap(), par, g, u)
      ensures inorder == old(inorder) && rotations == old(rotations) + added && FreeKept(old(Snap()), Snap(), Nil)
      ensures next != Nil ==>
        added == [] && FixupInv(Snap(), next) && nextPar == parent[next] && SizeAt(old(Snap()), n) < SizeAt(Snap(), next)
      ensures next == Nil ==>
        RBTree(Snap()) && |added| <= 2 && RotationsHold(Snap(), added) && (|added| == 2 ==> added[0].up == added[1].up)
    {
      var gpar, d, tmp := Uncle(n, par);
      g, u := gpar, tmp;
      if tmp != Nil && color[tmp] == Red {
        nextPar := Recolor(n, par, gpar, tmp, d);
        next := gpar;
        added := [];
        return;
      }
      added := Rebalance(n, par, gpar, d);
      next, nextPar := Nil, Nil;
    }

    /**
     * The reads at the top of that loop body: the grandparent, the side of
     * it on which the parent hangs, read as "not the right child means the
     * left", and the uncle on the other side.
     */
    method Uncle(n: int, par: int) returns (gpar: int, d: Dir, tmp: int)
      requires FixupInv(Snap(), n) && par == parent[n] && par != Nil && IsNode(Snap(), par) && color[par] == Red
      ensures gpar == parent[par] && RedParent(Snap(), n, par, gpar, d) && d == SideOf(Snap(), gpar, par)
      ensures Child(Snap(), par, Left) == n || Child(Snap(), par, Right) == n
      ensures tmp == Child(Snap(), gpar, Flip(d)) && tmp != gpar && tmp != par
    {
      ghost var a: WfArena := Snap();
      RedParentAbove(a, n);
      gpar := parent[par];
      d := if par != right[gpar] then Left else Right;
      tmp := ChildAt(gpar, Flip(d));
      ParentAbove(a, n);
      ParentAbove(a, par);
      if tmp != Nil {
        NotOwnParent(a, tmp);
      }
    }

    /**
     * Cases 2 and 3 of `__ph_insert`, reached when the uncle is black: an
     * optional rotation at the parent, then the rotation at the grandparent,
     * after which the tree is a red-black tree again.
     */
    method Rebalance(n: int, par: int, gpar: int, d: Dir) returns (ghost added: seq<Rotation>)
      requires RedParent(Snap(), n, par, gpar, d) && IsBlack(Snap(), Child(Snap(), gpar, Flip(d)))
      requires Child(Snap(), par, Left) == n || Child(Snap(), par, Right) == n
      modifies this
      ensures RBTree(Snap()) && inorder == old(inorder) && rotations == old(rotations) + added
      ensures n == Child(old(Snap()), par, Flip(d)) ==> added == [Rotation(par, n), Rotation(gpar, n)]
      ensures n != Child(old(Snap()), par, Flip(d)) ==> added == [Rotation(gpar, par)]
      ensures RotationsHold(Snap(), added)
      ensures FreeKept(old(Snap()), Snap(), Nil)
    {
      ghost var a: WfArena := Snap();
      var p := par;
      var tmp := ChildAt(p, Flip(d));
      if n == tmp {
        ZigzagShape(a, n, p, gpar, d);
        RotateAtParent(n, p, d);
        ghost var a1 := Snap();
        Case2Then3(a, a1, n, par, gpar, d);
        p := n;
        tmp := ChildAt(n, Flip(d));
        RotateAtGrandparent(gpar, p, tmp, d);
        ZigzagCompose(a, a1, Snap(), n, par, gpar, d);
        ZigzagFinish(a, Snap(), n, par, gpar, d);
        ZigzagKeepsFree(a, Snap(), n, par, gpar, d);
        added := [Rotation(par, n), Rotation(gpar, n)];
        AppendTwo(old(rotations), Rotation(par, n), Rotation(gpar, n));
        RotationsHold2(Snap(), par, gpar, n);
      } else {
        Case3Shape(a, n, p, gpar, d);
        RotateAtGrandparent(gpar, p, tmp, d);
        Case3Finish(a, Snap(), n, p, gpar, tmp, d);
        Case3KeepsFree(a, Snap(), n, p, gpar, tmp, d);
        added := [Rotation(gpar, par)];
        RotationsHold1(Snap(), gpar, par);
      }
    }

    /** `ph_insert_color`: the fix-up with the no-op `dummy_rotate` callback. */
    method InsertColor(node: int)
      requires FixupInv(Snap(), node)
      modifies this
      ensures RBTree(Snap()) && inorder == old(inorder)
      ensures FreeKept(old(Snap()), Snap(), Nil)
    {
      var _ := Insert(node);
    }

    /** `__ph_insert_augmented`: the fix-up with the caller's `augment_rotate`, called once per rotation. */
    method InsertAugmented(node: int) returns (ghost added: seq<Rotation>)
      requires FixupInv(Snap(), node)
      modifies this
      ensures RBTree(Snap()) && inorder == old(inorder)
      ensures rotations == old(rotations) + added && |added| <= 2 && RotationsHold(Snap(), added)
      ensures FreeKept(old(Snap()), Snap(), Nil)
    {
      added := Insert(node);
    }
 
    /** `ph_first`: the first node in sort order, NULL for an empty tree. */
    method First() returns (n: int)
      requires WellFormed(Snap())
      ensures n == Nil <==> inorder == []
      ensures inorder != [] ==> n == inorder[0]
    {
      ghost var a: WfArena := Snap();
      n := root;
      if n == Nil {
        return;
      }
      while left[n] != Nil
        invariant InTree(a, n) && a.lo[n] == 0
        decreases SizeAt(a, n)
      {
        assert NodeShape(a, n);
        n := left[n];
      }
      assert NodeShape(a, n);
    }

    /** `ph_last`: the last node in sort order, NULL for an empty tree. */
    method Last() returns (n: int)
      requires WellFormed(Snap())
      ensures n == Nil <==> inorder == []
      ensures inorder != [] ==> n == inorder[|inorder| - 1]
    {
      ghost var a: WfArena := Snap();
      n := root;
      if n == Nil {
        return;
      }
      while right[n] != Nil
        invariant InTree(a, n) && a.hi[n] == |a.inorder| - 1
        decreases SizeAt(a, n)
      {
        assert NodeShape(a, n);
        n := right[n];
      }
      assert NodeShape(a, n);
    }

    /**
     * `ph_next`: the in-order successor of node, NULL after the last node
     * and for an empty node.  Down the right subtree's left spine if there
     * is a right child, else up to the first ancestor reached from its left.
     */
    method Next(node: int) returns (r: int)
      requires WellFormed(Snap()) && IsNode(Snap(), node) && (InTree(Snap(), node) || EmptyNode(parent, node))
      ensures EmptyNode(parent, node) ==> r == Nil
      ensures InTree(Snap(), node) ==> r == Succ(Snap(), node)
    {
      ghost var a: WfArena := Snap();
      EmptyNotInTree(a, node);
      if parent[node] == node {
        return Nil;
      }
      assert NodeShape(a, node);
      if right[node] != Nil {
        r := Leftmost(right[node]);
      } else {
        r := ClimbFromRight(node);
      }
    }

    /**
     * `ph_prev`: the in-order predecessor of node, NULL before the first
     * node and for an empty node; the mirror image of `Next`.
     */
    method Prev(node: int) returns (r: int)
      requires WellFormed(Snap()) && IsNode(Snap(), node) && (InTree(Snap(), node) || EmptyNode(parent, node))
      ensures EmptyNode(parent, node) ==> r == Nil
      ensures InTree(Snap(), node) ==> r == Pred(Snap(), node)
    {
      ghost var a: WfArena := Snap();
      EmptyNotInTree(a, node);
      if parent[node] == node {
        return Nil;
      }
      assert NodeShape(a, node);
      if left[node] != Nil {
        r := Rightmost(left[node]);
      } else {
        r := ClimbFromLeft(node);
      }
    }

    /** The left spine of m's subtree ends at the first node of that subtree. */
    method Leftmost(m: int) returns (r: int)
      requires WellFormed(Snap()) && InTree(Snap(), m)
      ensures InTree(Snap(), r) && ord[r] == lo[m]
    {
      ghost var a: WfArena := Snap();
      r := m;
      while left[r] != Nil
        invariant InTree(a, r) && a.lo[r] == a.lo[m]
        decreases SizeAt(a, r)
      {
        assert NodeShape(a, r);
        r := left[r];
      }
      assert NodeShape(a, r);
    }

    /** The right spine of m's subtree ends at the last node of that subtree. */
    method Rightmost(m: int) returns (r: int)
      requires WellFormed(Snap()) && InTree(Snap(), m)
      ensures InTree(Snap(), r) && ord[r] == hi[m]
    {
      ghost var a: WfArena := Snap();
      r := m;
      while right[r] != Nil
        invariant InTree(a, r) && a.hi[r] == a.hi[m]
        decreases SizeAt(a, r)
      {
        assert NodeShape(a, r);
        r := right[r];
      }
      assert NodeShape(a, r);
    }

    /**
     * The upward half of `ph_next`: with no right subtree, the successor is
     * the first ancestor reached from its left, NULL if there is none.
     */
    method ClimbFromRight(node: int) returns (r: int)
      requires WellFormed(Snap()) && InTree(Snap(), node) && right[node] == Nil
      ensures r == Succ(Snap(), node)
    {
      ghost var a: WfArena := Snap();
      assert NodeShape(a, node);
      var m := node;
      var p := parent[m];
      while p != Nil && m == right[p]
        invariant InTree(a, m) && a.hi[m] == a.ord[node] && p == a.parent[m]
        invariant p != Nil ==> InTree(a, p) && (a.left[p] == m || a.right[p] == m)
        decreases |a.inorder| - SizeAt(a, m)
      {
        assert NodeShape(a, m) && NodeShape(a, p);
        m := p;
        p := parent[m];
        assert NodeShape(a, m);
      }
      if p != Nil {
        assert NodeShape(a, p);
      } else {
        assert NodeShape(a, m);
      }
      r := p;
    }

    /** The upward half of `ph_prev`: the first ancestor reached from its right, NULL if there is none. */
    method ClimbFromLeft(node: int) returns (r: int)
      requires WellFormed(Snap()) && InTree(Snap(), node) && left[node] == Nil
      ensures r == Pred(Snap(), node)
    {
      ghost var a: WfArena := Snap();
      assert NodeShape(a, node);
      var m := node;
      var p := parent[m];
      while p != Nil && m == left[p]
        invariant InTree(a, m) && a.lo[m] == a.ord[node] && p == a.parent[m]
        invariant p != Nil ==> InTree(a, p) && (a.left[p] == m || a.right[p] == m)
        decreases |a.inorder| - SizeAt(a, m)
      {
        assert NodeShape(a, m) && NodeShape(a, p);
        m := p;
        p := parent[m];
        assert NodeShape(a, m);
      }
      if p != Nil {
        assert NodeShape(a, p);
      } else {
        assert NodeShape(a, m);
      }
      r := p;
    }
 
    /**
     * Every node from position k of a0's post-order on still has the child
     * and parent words it has in a0; the rest may have been overwritten.
     */
    ghost predicate IntactFrom(a0: WfArena, k: int)
      reads this
    {
      Sized(Snap()) && |left| == |a0.left| &&
      forall j :: InTree(a0, j) && Post(a0, j) >= k ==>
        left[j] == a0.left[j] && right[j] == a0.right[j] && parent[j] == a0.parent[j]
    }

    /**
     * `ph_left_deepest_node`: from node, go left where possible and right
     * otherwise, down to a leaf, which is the first node of node's subtree
     * in post-order.  It reads only node's subtree, so the words of nodes
     * earlier in post-order (a0 being the tree as it was) may be garbage.
     */
    method LeftDeepestNode(ghost a0: WfArena, node: int) returns (r: int)
      requires InTree(a0, node) && IntactFrom(a0, PostLo(a0, node))
      ensures InTree(a0, r) && a0.left[r] == Nil && a0.right[r] == Nil
      ensures a0.lo[node] <= a0.ord[r] <= a0.hi[node]
      ensures Post(a0, r) == PostLo(a0, node)
    {
      r := node;
      while true
        invariant InTree(a0, r) && PostLo(a0, r) == PostLo(a0, node)
        invariant a0.lo[node] <= a0.lo[r] && a0.hi[r] <= a0.hi[node]
        decreases SizeAt(a0, r)
      {
        assert NodeShape(a0, r);
        assert left[r] == a0.left[r] && right[r] == a0.right[r];
        if left[r] != Nil {
          r := left[r];
        } else if right[r] != Nil {
          r := right[r];
        } else {
          return;
        }
      }
    }

    /** `ph_first_postorder`: the first node in post-order, NULL for an empty tree. */
    method FirstPostorder() returns (r: int)
      requires WellFormed(Snap())
      ensures r == Nil <==> inorder == []
      ensures r != Nil ==> InTree(Snap(), r) && Post(Snap(), r) == 0 && PostOrder(Snap())[0] == r
    {
      ghost var a: WfArena := Snap();
      if root == Nil {
        return Nil;
      }
      r := LeftDeepestNode(a, root);
      PostAt(a, r);
    }

    /**
     * `ph_next_postorder`: the node after node in post-order, NULL after the
     * last one and for a NULL node.  The parent comes next unless node is a
     * left child with a right sibling, whose subtree comes first.  It reads
     * only node and nodes later in post-order, so it works on a tree whose
     * earlier nodes (a0 being the tree as it was) have been overwritten.
     */
    method NextPostorder(ghost a0: WfArena, node: int) returns (r: int)
      requires node == Nil || (InTree(a0, node) && IntactFrom(a0, Post(a0, node)))
      ensures node == Nil ==> r == Nil
      ensures node != Nil ==> r == PostNext(a0, node)
      ensures node != Nil && r != Nil ==> InTree(a0, r) && Post(a0, r) == Post(a0, node) + 1
      ensures node != Nil && r == Nil ==> Post(a0, node) == |a0.inorder| - 1
    {
      if node == Nil {
        return Nil;
      }
      PostNextCases(a0, node);
      var p := parent[node];
      if p != Nil && node == left[p] && right[p] != Nil {
        r := LeftDeepestNode(a0, right[p]);
      } else {
        r := p;
      }
      if r != Nil {
        PostNextIs(a0, node, r);
      } else {
        PostOrderLength(a0);
      }
    }

    /**
     * `phtree_postorder_for_each_entry_safe`, with a body that frees pos:
     * its left, right, parent and colour words become `jl[pos]`, `jr[pos]`,
     * `jp[pos]` and `jc[pos]`, four unrelated values.  Because the next node
     * is fetched before the body runs, the loop still visits the original
     * tree in post-order, each node once and every child before its parent.
     */
    method PostorderForEachSafe(jl: seq<int>, jr: seq<int>, jp: seq<int>, jc: seq<Color>) returns (ghost visited: seq<int>)
      requires WellFormed(Snap()) && |jl| == |left| && |jr| == |left| && |jp| == |left| && |jc| == |left|
      modifies this
      ensures visited == PostOrder(old(Snap()))
      ensures root == old(root) && inorder == old(inorder) && ord == old(ord) && lo == old(lo) && hi == old(hi) && bh == old(bh)
      ensures rotations == old(rotations)
      ensures |left| == |old(left)| && |right| == |old(left)| && |parent| == |old(left)| && |color| == |old(left)|
      ensures forall i :: 0 <= i < |old(left)| && InTree(old(Snap()), i) ==>
        left[i] == jl[i] && right[i] == jr[i] && parent[i] == jp[i] && color[i] == jc[i]
      ensures forall i :: 0 <= i < |old(left)| && !InTree(old(Snap()), i) ==>
        left[i] == old(left)[i] && right[i] == old(right)[i] && parent[i] == old(parent)[i] && color[i] == old(color)[i]
    {
      ghost var a0: WfArena := Snap();
      PostOrderLength(a0);
      visited := [];
      forall i | 0 <= i < |left| && InTree(a0, i)
        ensures 0 <= Post(a0, i)
      {
        PostAt(a0, i);
      }
      var pos := FirstPostorder();
      while pos != Nil
        invariant IntactFrom(a0, |visited|) && FreedBefore(a0, jl, jr, jp, jc, |visited|)
        invariant root == a0.root && inorder == a0.inorder && ord == a0.ord && lo == a0.lo && hi == a0.hi && bh == a0.bh
        invariant rotations == old(rotations)
        invariant |visited| <= |a0.inorder| && visited == PostOrder(a0)[..|visited|]
        invariant pos == Nil ==> |visited| == |a0.inorder|
        invariant pos != Nil ==> InTree(a0, pos) && Post(a0, pos) == |visited|
        decreases |a0.inorder| - |visited|
      {
        var n := NextPostorder(a0, pos);
        PostAt(a0, pos);
        Overwrite(a0, pos, jl, jr, jp, jc);
        PrefixStep(PostOrder(a0), visited, pos);
        visited := visited + [pos];
        pos := n;
      }
      forall i | 0 <= i < |left| && InTree(a0, i)
        ensures Post(a0, i) < |visited|
      {
        PostAt(a0, i);
      }
    }

    /**
     * The tree nodes before position k of a0's post-order have been freed,
     * holding the words `jl[i]`, `jr[i]`, `jp[i]` and `jc[i]`; every other
     * slot keeps its words from a0.
     */
    ghost predicate FreedBefore(a0: WfArena, jl: seq<int>, jr: seq<int>, jp: seq<int>, jc: seq<Color>, k: int)
      reads this
    {
      |left| == |a0.left| && |right| == |a0.left| && |parent| == |a0.left| && |color| == |a0.left| &&
      |jl| == |a0.left| && |jr| == |a0.left| && |jp| == |a0.left| && |jc| == |a0.left| &&
      forall i :: 0 <= i < |left| ==>
        if InTree(a0, i) && Post(a0, i) < k
        then left[i] == jl[i] && right[i] == jr[i] && parent[i] == jp[i] && color[i] == jc[i]
        else left[i] == a0.left[i] && right[i] == a0.right[i] && parent[i] == a0.parent[i] && color[i] == a0.color[i]
    }

    /** The loop body of `PostorderForEachSafe`: the freed entry pos gets the four unrelated words `jl[pos]`, `jr[pos]`, `jp[pos]`, `jc[pos]`. */
    method Overwrite(ghost a0: WfArena, pos: int, jl: seq<int>, jr: seq<int>, jp: seq<int>, jc: seq<Color>)
      requires InTree(a0, pos) && IntactFrom(a0, Post(a0, pos)) && FreedBefore(a0, jl, jr, jp, jc, Post(a0, pos))
      modifies this
      ensures IntactFrom(a0, Post(a0, pos) + 1) && FreedBefore(a0, jl, jr, jp, jc, Post(a0, pos) + 1)
      ensures left == old(left)[pos := jl[pos]] && right == old(right)[pos := jr[pos]] && parent == old(parent)[pos := jp[pos]]
      ensures color == old(color)[pos := jc[pos]]
      ensures root == old(root) && inorder == old(inorder) && ord == old(ord) && lo == old(lo) && hi == old(hi) && bh == old(bh)
      ensures rotations == old(rotations)
    {
      PostAt(a0, pos);
      forall i | 0 <= i < |left| && i != pos && InTree(a0, i)
        ensures Post(a0, i) != Post(a0, pos)
      {
        PostAt(a0, i);
      }
      left := left[pos := jl[pos]];
      right := right[pos := jr[pos]];
      parent := parent[pos := jp[pos]];
      color := color[pos := jc[pos]];
    }
 
    /** `ph_set_parent(c, p)`. */
    method SetParent(c: int, p: int)
      requires Sized(Snap()) && IsNode(Snap(), c)
      modifies this
      ensures Snap() == PhReplace.SetParent(old(Snap()), c, p) && rotations == old(rotations)
    {
      parent := parent[c := p];
    }

    /** `*new = *victim`. */
    method CopyNode(v: int, w: int)
      requires Sized(Snap()) && IsNode(Snap(), v) && IsNode(Snap(), w)
      modifies this
      ensures Snap() == CopyWords(old(Snap()), v, w) && rotations == old(rotations)
    {
      left := left[w := left[v]];
      right := right[w := right[v]];
      parent := parent[w := parent[v]];
      color := color[w := color[v]];
    }

    /** The ghost relabelling of `ph_replace_node`: w takes v's place in the sort order. */
    ghost method TakePlace(v: int, w: int)
      requires Sized(Snap()) && InTree(Snap(), v) && IsNode(Snap(), w)
      modifies this
      ensures Snap() == PassLabels(old(Snap()), v, w) && rotations == old(rotations)
    {
      inorder := inorder[ord[v] := w];
      ord := ord[w := ord[v]];
      lo := lo[w := lo[v]];
      hi := hi[w := hi[v]];
      bh := bh[w := bh[v]];
    }

    /** The pointer surgery of `ph_replace_node`. */
    method Splice(victim: int, replacement: int)
      requires SpliceOk(Snap(), victim, replacement)
      modifies this
      ensures Snap() == Substitute(old(Snap()), victim, replacement) && rotations == old(rotations)
    {
      var p := parent[victim];
      CopyNode(victim, replacement);
      TakePlace(victim, replacement);
      if left[victim] != Nil {
        SetParent(left[victim], replacement);
      }
      if right[victim] != Nil {
        SetParent(right[victim], replacement);
      }
      ChangeChild(victim, replacement, p);
    }

    /**
     * `ph_replace_node`: replacement, a node outside the tree, takes
     * victim's place without any rebalancing.  The tree stays a red-black
     * tree and its in-order sequence holds replacement where it held victim.
     */
    method ReplaceNode(victim: int, replacement: int)
      requires SubstPre(Snap(), victim, replacement)
      modifies this
      ensures SubstEffect(old(Snap()), Snap(), victim, replacement) && rotations == old(rotations)
      ensures RBTree(Snap()) && InTree(Snap(), replacement) && !InTree(Snap(), victim)
      ensures inorder == old(inorder)[old(ord[victim]) := replacement]
    {
      ghost var a: WfArena := Snap();
      SubstNeighbours(a, victim, replacement);
      Splice(victim, replacement);
      SubstEffects(a, victim, replacement);
      SubstFinish(a, Snap(), victim, replacement);
    }

    /** `PH_EMPTY_ROOT(root)`: the root word is NULL exactly when the tree has no nodes. */
    function IsEmpty(): (e: bool)
      reads this
      requires WellFormed(Snap())
      ensures e <==> inorder == []
    {
      root == Nil
    }

    /** `PH_CLEAR_NODE(n)`, with the body `PH_EMPTY_NODE` needs; a node outside the tree may be cleared without harm. */
    method ClearNode(n: int)
      requires Sized(Snap()) && IsNode(Snap(), n)
      modifies this
      ensures Snap() == old(Snap()).(parent := Clear(old(parent), n)) && rotations == old(rotations)
      ensures EmptyNode(parent, n)
      ensures RBTree(old(Snap())) && !InTree(old(Snap()), n) ==> RBTree(Snap())
    {
      ghost var a := Snap();
      parent := parent[n := n];
      if RBTree(a) && !InTree(a, n) {
        ClearKeepsTree(a, n);
      }
    }

    /** The words of the corrected `ph_link_node`. */
    method WriteLinkWords(node: int, p: int, d: Dir)
      requires Sized(Snap()) && IsNode(Snap(), node) && NodeOrNil(Snap(), p) && p != node
      modifies this
      ensures Snap() == LinkWords(old(Snap()), node, p, d) && rotations == old(rotations)
    {
      left := left[node := Nil];
      right := right[node := Nil];
      parent := parent[node := p];
      color := color[node := Red];
      if p == Nil {
        root := node;
      } else {
        WriteChild(p, d, node);
      }
    }

    /** The labels of the grown tree: node takes position k. */
    ghost method TakePosition(node: int, k: int, d: Dir)
      requires Sized(Snap()) && IsNode(Snap(), node) && 0 <= k <= |inorder|
      modifies this
      ensures Snap() == Relabel(old(Snap()), node, k, d) && rotations == old(rotations)
    {
      var b := Relabel(Snap(), node, k, d);
      inorder, ord, lo, hi, bh := b.inorder, b.ord, b.lo, b.hi, b.bh;
    }

    /**
     * `ph_link_node(node, p, link)` with node's parent word and colour
     * written, where link is the root word (p NULL) or child d of p, an
     * empty slot: node becomes a red leaf at its place in sort order, and
     * the tree is ready for the fix-up.
     */
    method LinkNode(node: int, p: int, d: Dir)
      requires LinkPre(Snap(), node, p, d)
      modifies this
      ensures Snap() == Link(old(Snap()), node, p, d) && rotations == old(rotations)
      ensures FixupInv(Snap(), node)
      ensures inorder == old(inorder[..LinkPos(Snap(), p, d)] + [node] + inorder[LinkPos(Snap(), p, d)..])
      ensures FreeKept(old(Snap()), Snap(), node)
    {
      ghost var a := Snap();
      LinkEffects(a, node, p, d);
      LinkKeepsFree(a, node, p, d);
      ghost var k := LinkPos(a, p, d);
      WriteLinkWords(node, p, d);
      TakePosition(node, k, d);
      LinkFinish(a, Snap(), node, p, d);
    }

    /**
     * The insertion the header leaves to its users: link node into the empty
     * slot the search found, then `ph_insert_color`.  The result is a
     * red-black tree whose sort order gained node at that slot.
     */
    method InsertAt(node: int, p: int, d: Dir)
      requires LinkPre(Snap(), node, p, d)
      modifies this
      ensures RBTree(Snap())
      ensures inorder == old(inorder[..LinkPos(Snap(), p, d)] + [node] + inorder[LinkPos(Snap(), p, d)..])
      ensures FreeKept(old(Snap()), Snap(), node)
    {
      ghost var a := Snap();
      LinkNode(node, p, d);
      ghost var b := Snap();
      InsertColor(node);
      FreeKeptTrans(a, b, Snap(), node);
    }

    /**
     * Two insertions in a row into a fresh tree of two slots whose words
     * hold stale values: the frame of the first insertion leaves the second
     * node outside the tree, so it can be linked.
     */
    static method InsertTwo() returns (t: Tree)
      ensures fresh(t) && RBTree(t.Snap()) && t.inorder == [0, 1]
    {
      t := new Tree([1, 0], [1, 1], [Nil, 0], [Red, Black]);
      t.InsertAt(0, Nil, Left);
      assert t.ord[0] == 0 && NodeShape(t.Snap(), 0);
      t.InsertAt(1, 0, Right);
    }
  }
}
