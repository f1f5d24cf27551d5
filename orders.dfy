/**
 * The traversal orders of a well-formed arena, defined by recursion over the
 * child words, and the lemmas that tie them to the ghost labelling: the
 * recursive in-order walk is exactly `inorder`, the post-order walk is a
 * permutation of it in which every child precedes its parent, and every path
 * to NULL below a node of a balanced arena meets the same number of black
 * nodes.
 */
module PhOrders {
  import opened PhArena

  ghost predicate NilOrInTree(a: WfArena, c: int)
    requires Sized(a)
  {
    c == Nil || InTree(a, c)
  }

  /** The children of a tree node are NULL or tree nodes with smaller subtrees. */
  lemma ChildrenSmaller(a: WfArena, i: int)
    requires InTree(a, i)
    ensures NilOrInTree(a, a.left[i]) && NilOrInTree(a, a.right[i])
    ensures SizeAt(a, i) == SizeAt(a, a.left[i]) + SizeAt(a, a.right[i]) + 1
    ensures 1 <= SizeAt(a, i) <= |a.inorder|
    ensures NodeShape(a, i)
  {
    assert NodeShape(a, i);
  }

  /** The in-order walk of the subtree hanging from child word c. */
  ghost function InSeqAt(a: WfArena, c: int): seq<int>
    requires NilOrInTree(a, c)
    decreases SizeAt(a, c)
  {
    if c == Nil then []
    else
      ChildrenSmaller(a, c);
      InSeqAt(a, a.left[c]) + [c] + InSeqAt(a, a.right[c])
  }

  /** The post-order walk of the subtree hanging from child word c. */
  ghost function PostSeqAt(a: WfArena, c: int): seq<int>
    requires NilOrInTree(a, c)
    decreases SizeAt(a, c)
  {
    if c == Nil then []
    else
      ChildrenSmaller(a, c);
      PostSeqAt(a, a.left[c]) + PostSeqAt(a, a.right[c]) + [c]
  }

  /** The post-order of the whole tree. */
  ghost function PostOrder(a: WfArena): seq<int>
  {
    PostSeqAt(a, a.root)
  }

  /** The subtree hanging from c, read in order, is the slice `inorder[lo[c] .. hi[c]]`. */
  lemma {:induction false} InSeqSlice(a: WfArena, c: int)
    requires InTree(a, c)
    ensures 0 <= a.lo[c] <= a.hi[c] < |a.inorder|
    ensures InSeqAt(a, c) == a.inorder[a.lo[c] .. a.hi[c] + 1]
    decreases SizeAt(a, c), 1
  {
    ChildrenSmaller(a, c);
    LeftSlice(a, c);
    RightSlice(a, c);
    SplitSlice(a.inorder, a.lo[c], a.ord[c], a.hi[c] + 1, InSeqAt(a, a.left[c]), c, InSeqAt(a, a.right[c]));
  }

  /** The left subtree of c covers the positions before c. */
  lemma {:induction false} LeftSlice(a: WfArena, c: int)
    requires InTree(a, c)
    ensures NilOrInTree(a, a.left[c]) && 0 <= a.lo[c] <= a.ord[c] < |a.inorder|
    ensures InSeqAt(a, a.left[c]) == a.inorder[a.lo[c] .. a.ord[c]]
    decreases SizeAt(a, c), 0
  {
    ChildrenSmaller(a, c);
    if a.left[c] != Nil {
      InSeqSlice(a, a.left[c]);
    }
  }

  /** The right subtree of c covers the positions after c. */
  lemma {:induction false} RightSlice(a: WfArena, c: int)
    requires InTree(a, c)
    ensures NilOrInTree(a, a.right[c]) && 0 <= a.ord[c] <= a.hi[c] < |a.inorder|
    ensures InSeqAt(a, a.right[c]) == a.inorder[a.ord[c] + 1 .. a.hi[c] + 1]
    decreases SizeAt(a, c), 0
  {
    ChildrenSmaller(a, c);
    if a.right[c] != Nil {
      InSeqSlice(a, a.right[c]);
    }
  }

  lemma SplitSlice(s: seq<int>, i: int, k: int, j: int, u: seq<int>, x: int, v: seq<int>)
    requires 0 <= i <= k < j <= |s| && s[k] == x
    requires u == s[i .. k] && v == s[k + 1 .. j]
    ensures s[i .. j] == u + [x] + v
  {
    assert s[i .. j] == s[i .. k] + s[k .. j];
    assert s[k .. j] == [s[k]] + s[k + 1 .. j];
  }

  /** The ghost `inorder` is the in-order walk of the child words from the root. */
  lemma InorderIsWalk(a: WfArena)
    ensures InSeqAt(a, a.root) == a.inorder
  {
    if a.root != Nil {
      InSeqSlice(a, a.root);
    }
  }

  /** A post-order walk has the subtree's size. */
  lemma {:induction false} PostSeqLength(a: WfArena, c: int)
    requires NilOrInTree(a, c)
    ensures |PostSeqAt(a, c)| == SizeAt(a, c)
    decreases SizeAt(a, c)
  {
    if c != Nil {
      ChildrenSmaller(a, c);
      PostSeqLength(a, a.left[c]);
      PostSeqLength(a, a.right[c]);
    }
  }

  /** A post-order walk holds the same nodes as the in-order walk. */
  lemma {:induction false} PostSeqPermutes(a: WfArena, c: int)
    requires NilOrInTree(a, c)
    ensures multiset(PostSeqAt(a, c)) == multiset(InSeqAt(a, c))
    decreases SizeAt(a, c)
  {
    if c != Nil {
      ChildrenSmaller(a, c);
      var l, r := a.left[c], a.right[c];
      PostSeqPermutes(a, l);
      PostSeqPermutes(a, r);
      SwapMiddle(PostSeqAt(a, l), PostSeqAt(a, r), InSeqAt(a, l), InSeqAt(a, r), c);
    }
  }

  lemma SwapMiddle(pl: seq<int>, pr: seq<int>, il: seq<int>, ir: seq<int>, c: int)
    requires multiset(pl) == multiset(il) && multiset(pr) == multiset(ir)
    ensures multiset(pl + pr + [c]) == multiset(il + [c] + ir)
  {
    calc {
      multiset(pl + pr + [c]);
      multiset(pl) + multiset(pr) + multiset{c};
      multiset(il) + multiset(ir) + multiset{c};
      multiset(il + [c] + ir);
    }
  }

  /** No node occurs twice in `inorder`. */
  lemma InorderDistinct(a: WfArena)
    ensures forall j, k :: 0 <= j < k < |a.inorder| ==> a.inorder[j] != a.inorder[k]
  {
    forall j, k | 0 <= j < k < |a.inorder|
      ensures a.inorder[j] != a.inorder[k]
    {
      assert a.ord[a.inorder[j]] == j && a.ord[a.inorder[k]] == k;
    }
  }

  lemma {:induction false} CountDistinct(s: seq<int>, x: int)
    requires forall j, k :: 0 <= j < k < |s| ==> s[j] != s[k]
    ensures multiset(s)[x] == if x in s then 1 else 0
  {
    if s != [] {
      var t := s[1..];
      assert s == [s[0]] + t;
      CountDistinct(t, x);
      assert x == s[0] ==> x !in t;
    }
  }

  /** Post-order visits every tree node exactly once, and nothing else. */
  lemma PostOrderOnce(a: WfArena, i: int)
    ensures multiset(PostOrder(a))[i] == if InTree(a, i) then 1 else 0
  {
    PostOrderPermutes(a);
    InorderOnce(a, i);
  }

  lemma PostOrderPermutes(a: WfArena)
    ensures multiset(PostOrder(a)) == multiset(a.inorder)
  {
    PostSeqPermutes(a, a.root);
    InorderIsWalk(a);
  }

  lemma InorderOnce(a: WfArena, i: int)
    ensures multiset(a.inorder)[i] == if InTree(a, i) then 1 else 0
  {
    InorderDistinct(a);
    CountDistinct(a.inorder, i);
    if i in a.inorder {
      var k :| 0 <= k < |a.inorder| && a.inorder[k] == i;
      assert a.ord[i] == k;
    }
  }

  /** Where the post-order walk of the subtree at i starts within the whole post-order. */
  ghost function PostLo(a: WfArena, i: int): int
    requires InTree(a, i)
    decreases |a.inorder| - SizeAt(a, i)
  {
    ChildrenSmaller(a, i);
    var p := a.parent[i];
    if p == Nil then 0
    else
      ChildrenSmaller(a, p);
      if a.left[p] == i then PostLo(a, p) else PostLo(a, p) + SizeAt(a, a.left[p])
  }

  /** The position of node i in the post-order. */
  ghost function Post(a: WfArena, i: int): int
    requires InTree(a, i)
  {
    PostLo(a, i) + SizeAt(a, i) - 1
  }

  /** Position k of the post-order walk of the subtree at i is position j == PostLo(a, i) + k of the whole walk. */
  lemma {:induction false} PostIndex(a: WfArena, i: int, k: int, j: int)
    requires InTree(a, i)
    requires 0 <= k < SizeAt(a, i) && j == PostLo(a, i) + k
    ensures |PostSeqAt(a, i)| == SizeAt(a, i)
    ensures 0 <= j < |PostOrder(a)| && PostOrder(a)[j] == PostSeqAt(a, i)[k]
    decreases |a.inorder| - SizeAt(a, i)
  {
    ChildrenSmaller(a, i);
    PostSeqLength(a, i);
    var p := a.parent[i];
    if p == Nil {
      assert i == a.root;
    } else {
      ChildrenSmaller(a, p);
      var l := a.left[p];
      if l == i {
        PostSeqLeft(a, p, k);
        PostIndex(a, p, k, j);
      } else {
        PostSeqRight(a, p, k);
        PostIndex(a, p, SizeAt(a, l) + k, j);
      }
    }
  }

  lemma PostSeqLeft(a: WfArena, p: int, k: int)
    requires InTree(a, p)
    requires NilOrInTree(a, a.left[p]) && 0 <= k < SizeAt(a, a.left[p])
    ensures |PostSeqAt(a, a.left[p])| == SizeAt(a, a.left[p])
    ensures k < |PostSeqAt(a, p)| && PostSeqAt(a, p)[k] == PostSeqAt(a, a.left[p])[k]
  {
    PostSeqSplit(a, p);
    IndexAppend(PostSeqAt(a, a.left[p]), PostSeqAt(a, a.right[p]), p, k);
  }

  lemma PostSeqRight(a: WfArena, p: int, k: int)
    requires InTree(a, p)
    requires NilOrInTree(a, a.right[p]) && 0 <= k < SizeAt(a, a.right[p])
    ensures NilOrInTree(a, a.left[p]) && 0 <= SizeAt(a, a.left[p])
    ensures |PostSeqAt(a, a.right[p])| == SizeAt(a, a.right[p])
    ensures SizeAt(a, a.left[p]) + k < |PostSeqAt(a, p)|
    ensures PostSeqAt(a, p)[SizeAt(a, a.left[p]) + k] == PostSeqAt(a, a.right[p])[k]
  {
    PostSeqSplit(a, p);
    var u := PostSeqAt(a, a.left[p]);
    IndexAppend(u, PostSeqAt(a, a.right[p]), p, |u| + k);
  }

  /** One step of the post-order walk, with the lengths of its parts. */
  lemma PostSeqSplit(a: WfArena, p: int)
    requires InTree(a, p)
    ensures NilOrInTree(a, a.left[p]) && NilOrInTree(a, a.right[p])
    ensures |PostSeqAt(a, a.left[p])| == SizeAt(a, a.left[p])
    ensures |PostSeqAt(a, a.right[p])| == SizeAt(a, a.right[p])
    ensures PostSeqAt(a, p) == PostSeqAt(a, a.left[p]) + PostSeqAt(a, a.right[p]) + [p]
  {
    ChildrenSmaller(a, p);
    PostSeqLength(a, a.left[p]);
    PostSeqLength(a, a.right[p]);
  }

  lemma IndexAppend(u: seq<int>, v: seq<int>, x: int, k: int)
    requires 0 <= k < |u| + |v|
    ensures k < |u| ==> (u + v + [x])[k] == u[k]
    ensures |u| <= k ==> (u + v + [x])[k] == v[k - |u|]
  {
  }

  /** The node at post-order position Post(a, i) is i. */
  lemma PostAt(a: WfArena, i: int)
    requires InTree(a, i)
    ensures 0 <= Post(a, i) < |PostOrder(a)| && PostOrder(a)[Post(a, i)] == i
  {
    ChildrenSmaller(a, i);
    PostIndex(a, i, SizeAt(a, i) - 1, Post(a, i));
  }

  /** Both children of a node come before it in post-order. */
  lemma ChildrenFirst(a: WfArena, i: int)
    requires InTree(a, i)
    ensures a.left[i] != Nil ==> InTree(a, a.left[i]) && Post(a, a.left[i]) < Post(a, i)
    ensures a.right[i] != Nil ==> InTree(a, a.right[i]) && Post(a, a.right[i]) < Post(a, i)
  {
    ChildrenSmaller(a, i);
  }

  /** In-order successor and predecessor of a tree node, NULL past either end. */
  ghost function Succ(a: WfArena, x: int): int
    requires InTree(a, x)
  {
    if a.ord[x] + 1 < |a.inorder| then a.inorder[a.ord[x] + 1] else Nil
  }

  ghost function Pred(a: WfArena, x: int): int
    requires InTree(a, x)
  {
    if a.ord[x] > 0 then a.inorder[a.ord[x] - 1] else Nil
  }

  /** `next(prev(x)) == x` for every non-minimum x, and `prev(next(x)) == x` for every non-maximum x. */
  lemma SuccPred(a: WfArena, x: int)
    requires InTree(a, x)
    ensures Pred(a, x) != Nil ==> InTree(a, Pred(a, x)) && Succ(a, Pred(a, x)) == x
    ensures Succ(a, x) != Nil ==> InTree(a, Succ(a, x)) && Pred(a, Succ(a, x)) == x
  {
  }

  /** The fewest and the most black nodes on a path from child word c down to NULL. */
  ghost function MinBlack(a: WfArena, c: int): int
    requires NilOrInTree(a, c)
    decreases SizeAt(a, c)
  {
    if c == Nil then 1
    else
      ChildrenSmaller(a, c);
      var l, r := MinBlack(a, a.left[c]), MinBlack(a, a.right[c]);
      (if a.color[c] == Black then 1 else 0) + (if l <= r then l else r)
  }

  ghost function MaxBlack(a: WfArena, c: int): int
    requires NilOrInTree(a, c)
    decreases SizeAt(a, c)
  {
    if c == Nil then 1
    else
      ChildrenSmaller(a, c);
      var l, r := MaxBlack(a, a.left[c]), MaxBlack(a, a.right[c]);
      (if a.color[c] == Black then 1 else 0) + (if l <= r then r else l)
  }

  /** The equal-black-count rule: in a balanced arena every path below c meets the same number of black nodes. */
  lemma {:induction false} BalancedPaths(a: WfArena, c: int)
    requires Balanced(a) && NilOrInTree(a, c)
    ensures MinBlack(a, c) == MaxBlack(a, c) == Contrib(a, c)
    decreases SizeAt(a, c)
  {
    if c != Nil {
      ChildrenSmaller(a, c);
      assert BalancedAt(a, c);
      BalancedPaths(a, a.left[c]);
      BalancedPaths(a, a.right[c]);
    }
  }

  /** The post-order holds as many nodes as the tree. */
  lemma PostOrderLength(a: WfArena)
    ensures |PostOrder(a)| == |a.inorder|
  {
    PostSeqLength(a, a.root);
  }

  /** The node after x in post-order, NULL after the last. */
  ghost function PostNext(a: WfArena, x: int): int
    requires InTree(a, x)
  {
    PostOrderLength(a);
    if 0 <= Post(a, x) && Post(a, x) + 1 < |a.inorder| then PostOrder(a)[Post(a, x) + 1] else Nil
  }

  /**
   * The three cases of the next node in post-order: after the root comes
   * nothing; after a left child with a right sibling comes the first node
   * of the sibling's subtree; otherwise the parent.
   */
  lemma PostNextCases(a: WfArena, x: int)
    requires InTree(a, x)
    ensures 0 <= Post(a, x) < |a.inorder|
    ensures a.parent[x] == Nil ==> Post(a, x) == |a.inorder| - 1
    ensures a.parent[x] != Nil ==> InTree(a, a.parent[x]) && Post(a, x) < Post(a, a.parent[x])
    ensures var p := a.parent[x];
      p != Nil && a.left[p] == x && a.right[p] != Nil ==>
        InTree(a, a.right[p]) && PostLo(a, a.right[p]) == Post(a, x) + 1
    ensures var p := a.parent[x];
      p != Nil && !(a.left[p] == x && a.right[p] != Nil) ==> Post(a, p) == Post(a, x) + 1
  {
    ChildrenSmaller(a, x);
    PostOrderLength(a);
    PostAt(a, x);
    var p := a.parent[x];
    if p == Nil {
      assert x == a.root;
    } else {
      assert InTree(a, p);
      ChildrenSmaller(a, p);
      if a.left[p] == x && a.right[p] != Nil {
        assert PostLo(a, a.right[p]) == PostLo(a, p) + SizeAt(a, x);
      }
    }
  }

  /** A tree node at the next post-order position is `PostNext`. */
  lemma PostNextIs(a: WfArena, x: int, r: int)
    requires InTree(a, x) && InTree(a, r) && Post(a, r) == Post(a, x) + 1
    ensures PostNext(a, x) == r
  {
    PostAt(a, x);
    PostAt(a, r);
    PostOrderLength(a);
  }
}
