/**
 * The small helpers of tools/include/linux/phtree.h that are not methods of
 * the tree: `ph_entry_safe` and the two macros on a node's parent word,
 * `PH_EMPTY_NODE` (in `PhArena.EmptyNode`) and `PH_CLEAR_NODE`.
 */
module PhHeader {
  import opened PhArena

  datatype Option<T> = None | Some(value: T)

  /**
   * `ph_entry_safe(ptr, type, member)`: NULL stays NULL, any other node
   * pointer becomes its entry.  Entries are identified with their nodes,
   * since the model has no `container_of`.
   */
  function EntrySafe(ptr: int): (e: Option<int>)
    ensures e == None <==> ptr == Nil
    ensures e != None ==> e.value == ptr
  {
    if ptr == Nil then None else Some(ptr)
  }

  /** `PH_CLEAR_NODE(node)` as the header defines it: the macro has an empty body. */
  function ClearAsWritten(parent: seq<int>, n: int): (q: seq<int>)
    ensures q == parent
  {
    parent
  }

  /** After the empty macro, every node that was not an empty node (a NULL parent word, say) still is not one. */
  lemma ClearAsWrittenNotEmpty(parent: seq<int>, n: int)
    requires 0 <= n < |parent| && parent[n] != n
    ensures !EmptyNode(ClearAsWritten(parent, n), n)
  {
  }

  /** `PH_CLEAR_NODE(node)` as `PH_EMPTY_NODE` needs it: node's parent word refers to node. */
  function Clear(parent: seq<int>, n: int): (q: seq<int>)
    requires 0 <= n < |parent|
    ensures |q| == |parent| && EmptyNode(q, n)
    ensures forall i :: 0 <= i < |parent| && i != n ==> q[i] == parent[i]
  {
    parent[n := n]
  }

  /** Clearing a node that is outside the tree leaves a red-black tree with the same members. */
  lemma ClearKeepsTree(a: Arena, n: int)
    requires RBTree(a) && IsNode(a, n) && !InTree(a, n)
    ensures var b := a.(parent := Clear(a.parent, n));
      RBTree(b) && b.inorder == a.inorder && EmptyNode(b.parent, n)
  {
    var b := a.(parent := Clear(a.parent, n));
    forall i | InTree(b, i)
      ensures NodeShape(b, i) && BalancedAt(b, i) && RedOkAt(b, Nil, i)
    {
      assert NodeShape(a, i) && BalancedAt(a, i) && RedOkAt(a, Nil, i);
      if a.left[i] != Nil {
        assert InTree(a, a.left[i]);
      }
      if a.right[i] != Nil {
        assert InTree(a, a.right[i]);
      }
    }
    if a.root != Nil {
      assert InTree(a, a.root);
    }
  }
}
