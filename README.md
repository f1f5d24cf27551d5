# phtree: a verified model of the red-black tree core

`lib/phtree.c` and `tools/include/linux/phtree.h` implement an intrusive
red-black tree, a renamed copy of the Linux rbtree.  The caller embeds a
`struct ph_node` in each entry, finds the slot for a new entry by its own
search, links the node as a red leaf and then calls the insertion fix-up,
which recolours and rotates until the five red-black invariants hold again.
Besides insertion, the core offers in-order traversal (`ph_first`, `ph_last`,
`ph_next`, `ph_prev`), post-order traversal for teardown
(`ph_first_postorder`, `ph_next_postorder` and a "safe" iteration macro) and
replacement of one node by another in constant time (`ph_replace_node`).

The model is a Dafny class, `PhTree.Tree`, over node slots `0 .. n-1`; `-1`
is NULL.  It has the words the C code rewrites in place: `left`, `right`,
`parent`, `color` (one packed word in C, two fields here) and `root`.  Ghost
fields label the words with what they mean: the in-order sequence of the tree
`inorder`, each node's position `ord`, the interval `lo..hi` its subtree
covers and its black height `bh`.  Every invariant is stated node by node
(`PhArena.NodeShape`, `BalancedAt`, `RedOkAt`), so a rotation that touches
four nodes is checked on those four nodes.  The `augment_rotate` callback is
a ghost log of `(down, up)` pairs.

Each state-changing method is proved against an arena-level function.  For
example, `RotateAtGrandparent` ensures `PhFixup.Case3Effect`, the
word-by-word description of the Case 3 rotation.  The lemmas about those functions
(`Case1Restores`, `ZigzagRestores`, `Case3Restores`, `SubstituteKeepsTree`,
`LinkFinish`) carry the red-black reasoning.

Modules, one per concern:
- `PhArena` (`arena.dfy`): the arena value and the invariants.
- `PhRewrite` (`rewrite.dfy`): the frame lemma for local rewrites.
- `PhFixup` (`fixup.dfy`): the word primitives and Case 3.
- `PhRecolor` (`recolor.dfy`): Case 1.
- `PhZigzag` (`zigzag.dfy`): Case 2 followed by Case 3.
- `PhLoop` (`loop.dfy`): the exits of the fix-up loop.
- `PhOrders` (`orders.dfy`): the in-order and post-order walks, successor and predecessor.
- `PhReplace` (`replace.dfy`): replacement.
- `PhLink` (`link.dfy`): linking a new leaf.
- `PhHeader` (`header.dfy`): `ph_entry_safe` and `PH_CLEAR_NODE`.
- `PhTree` (`phtree.dfy`): the class with every operation.

## Model

| member | source | states |
|---|---|---|
| PhTree.Tree.Insert | lib/phtree.c:22-158 | From a red-black tree that is broken only by one red node, possibly below a red parent, the fix-up ends in a red-black tree with the same in-order sequence. It performs at most two rotations. Each logged rotation leaves the node that moved down directly below the node that moved up, and two rotations share the node that moved up. Nothing else changes: the arena keeps its size, and every node outside the tree stays outside it with its child, parent and colour words (`PhTree.FreeKept`). |
| PhLoop.RootBlackened | lib/phtree.c:32-40 | A NULL parent means node is the root. Painting it black gives a red-black tree with the same words and order. |
| PhLoop.BlackParentDone | lib/phtree.c:48-49 | A black parent means the tree is already a red-black tree. |
| PhLoop.RedParentAbove | lib/phtree.c:51-54 | A red parent is not the root, so the grandparent exists. The parent hangs on the side the source tests (`parent != gparent->ph_right` means left). |
| PhRecolor.Case1Effects | lib/phtree.c:55-74 | Case 1 writes only colours: parent and uncle become black, the grandparent red. No child or parent word changes. |
| PhRecolor.Case1Restores | lib/phtree.c:55-74 | After Case 1 the broken spot is at the grandparent, two levels up. Its subtree is strictly larger, which is why the loop terminates. The in-order sequence is unchanged. |
| PhTree.Tree.BlackenRoot | lib/phtree.c:32-39 | The first exit: node is the root and turns black, the tree is red-black, and only node's parent/colour word is written. |
| PhTree.Tree.RedParentCase | lib/phtree.c:51-155 | One pass below a red parent P. The uncle is the grandparent's child on the side opposite P (found by `SideOf`); it is neither the grandparent nor P. The pass goes on exactly when the uncle is non-NULL and red. It then goes on at the grandparent, with the Case 1 recolouring as its whole effect, with no rotation, and with a strictly larger subtree. Otherwise it finishes in a red-black tree after at most two rotations, both at the same grandparent when there are two. The in-order sequence and every node outside the tree are kept. |
| PhTree.Tree.Uncle | lib/phtree.c:51-122 | The reads at the top of the loop body below a red parent P (lines 51-54, and line 122 on the mirrored side): the grandparent is P's parent and a node of the tree; P hangs on the side reported by `SideOf`; the uncle is the grandparent's other child, and it is neither the grandparent nor P. Nothing is changed. |
| PhTree.Tree.Recolor | lib/phtree.c:69-74 | Case 1 on the tree: only colours change, the broken spot moves to the grandparent, whose subtree is strictly larger, and the returned parent is the grandparent's parent. |
| PhLoop.SideOf | lib/phtree.c:53-54 | The side the source reads from "not the right child" is the side on which P hangs, when P is a child of g. |
| PhTree.Tree.RotateAtParent | lib/phtree.c:92-101 | The Case 2 word writes and one `augment_rotate(parent, node)` record. |
| PhTree.Tree.RotateAtGrandparent | lib/phtree.c:114-119 | The Case 3 word writes and one `augment_rotate(gparent, parent)` record. |
| PhZigzag.ZigzagRestores | lib/phtree.c:77-120 | Case 2 (rotation at the parent) followed by Case 3 (rotation at the grandparent) gives a red-black tree with the same in-order sequence. Parent and grandparent both end below node. |
| PhFixup.Case3Restores | lib/phtree.c:104-120 | Case 3 alone gives a red-black tree with the same in-order sequence, with the grandparent below the parent. |
| PhTree.Tree.Rebalance | lib/phtree.c:76-120 | With a black uncle: an inner node is logged as `(parent, node)` then `(gparent, node)`; an outer node as `(gparent, parent)` only. After that the tree is red-black. Nothing else changes: the arena keeps its size, and every node outside the tree stays outside it with its child, parent and colour words (`PhTree.FreeKept`). |
| PhTree.Tree.InsertColor | lib/phtree.c:177-180 | The fix-up with the no-op rotate callback ends in a red-black tree with the same in-order sequence. Nothing else changes: the arena keeps its size, and every node outside the tree stays outside it with its child, parent and colour words (`PhTree.FreeKept`). |
| PhTree.Tree.InsertAugmented | lib/phtree.c:199-203 | The fix-up with a caller's callback appends at most two correct rotation records to the log and ends in a red-black tree with the same in-order sequence. Nothing else changes: the arena keeps its size, and every node outside the tree stays outside it with its child, parent and colour words (`PhTree.FreeKept`). |
| PhOrders.InorderIsWalk | lib/phtree.c:206-207 | The ghost sort order is exactly the in-order walk of the child words from the root. |
| PhOrders.BalancedPaths | lib/phtree.c:55-74 | The equal-black-count rule that the Case 1 colour flip preserves: in a balanced tree the fewest and the most black nodes on the paths from a node down to NULL are equal. |
| PhTree.Tree.First | lib/phtree.c:209-219 | Returns NULL exactly for an empty tree, otherwise the first node of the sort order. |
| PhTree.Tree.Last | lib/phtree.c:222-232 | Returns NULL exactly for an empty tree, otherwise the last node of the sort order. |
| PhTree.Tree.Next | lib/phtree.c:235-264 | Returns NULL for an empty node, otherwise the in-order successor, which is NULL after the last node. |
| PhTree.Tree.Leftmost | lib/phtree.c:246-251 | The walk down the left spine ends at the first position of that subtree. |
| PhTree.Tree.ClimbFromRight | lib/phtree.c:260-263 | Without a right child, the walk up returns the in-order successor (NULL after the last node). |
| PhTree.Tree.Prev | lib/phtree.c:267-293 | Returns NULL for an empty node, otherwise the in-order predecessor, which is NULL before the first node. |
| PhTree.Tree.Rightmost | lib/phtree.c:278-283 | The walk down the right spine ends at the last position of that subtree. |
| PhTree.Tree.ClimbFromLeft | lib/phtree.c:289-292 | Without a left child, the walk up returns the in-order predecessor (NULL before the first node). |
| PhOrders.SuccPred | lib/phtree.c:235-293 | `Succ` and `Pred` are inverse: the successor of the predecessor is x for every node but the first, and the predecessor of the successor is x for every node but the last. Through the `r == Succ(..)` and `r == Pred(..)` ensures of `PhTree.Tree.Next` and `PhTree.Tree.Prev`, this is `ph_next(ph_prev(x)) == x` and `ph_prev(ph_next(x)) == x`. The lemma itself is about the position-defined `Succ`/`Pred`, and follows directly from their definitions. |
| PhTree.Tree.ReplaceNode | lib/phtree.c:296-310 | The replacement, a node outside the tree, takes the victim's place. The result is still a red-black tree, the in-order sequence holds the replacement where it held the victim, and the victim has left the tree. |
| PhReplace.SubstEffects | lib/phtree.c:299-309 | The replacement gets the victim's children, parent word and colour. Both children's parent words and the parent's slot (or the root) now name the replacement. No other word changes. |
| PhReplace.SubstituteKeepsTree | lib/phtree.c:296-310 | For every red-black tree, every tree node and every node outside the tree, the substitution gives a red-black tree whose in-order sequence has the one substitution. |
| PhTree.Tree.CopyNode | lib/phtree.c:302 | `*new = *victim`: the replacement's four words become the victim's. |
| PhTree.Tree.LeftDeepestNode | lib/phtree.c:335-345 | Returns a leaf of node's subtree: the first node of that subtree in post-order. |
| PhTree.Tree.NextPostorder | lib/phtree.c:347-363 | NULL stays NULL. Otherwise it returns the next node in post-order, and NULL exactly after the root. |
| PhOrders.PostNextCases | lib/phtree.c:354-362 | After a left child with a right sibling comes the first post-order node of the sibling's subtree; otherwise the parent comes next, and nothing after the root. |
| PhTree.Tree.FirstPostorder | lib/phtree.c:366-372 | Returns NULL exactly for an empty tree, otherwise the first node of the post-order. |
| PhOrders.PostOrderOnce | lib/phtree.c:347-372 | The post-order holds every tree node exactly once and nothing else. |
| PhOrders.ChildrenFirst | lib/phtree.c:354-362 | Both children of a node come before it in post-order. |
| PhTree.Tree.PostorderForEachSafe | tools/include/linux/phtree.h:88-92 | The cursor for the next step is taken before the body overwrites `pos`'s words. The loop visits exactly the post-order of the tree it started on. Afterwards every node that was in the tree holds the four words the body wrote, and every other slot keeps its words. The root word, the ghost labels, the rotation log and the arena size are unchanged. |
| PhTree.Tree.constructor | tools/include/linux/phtree.h:31 | `PH_ROOT` sets only the root word to NULL: the tree is empty and red-black, and every node's left, right, parent and colour words are kept as the caller left them. |
| PhTree.Tree.IsEmpty | tools/include/linux/phtree.h:34 | `PH_EMPTY_ROOT` holds exactly when the tree has no nodes. |
| PhLoop.EmptyNotInTree | tools/include/linux/phtree.h:36-38 | A node whose parent word refers to itself is not in the tree. |
| PhHeader.ClearAsWritten | tools/include/linux/phtree.h:39 | The macro as defined changes nothing. |
| PhHeader.ClearAsWrittenNotEmpty | tools/include/linux/phtree.h:39 | For every node that is not an empty node before the macro, a NULL parent word included, it is still not one afterwards. |
| PhHeader.Clear | tools/include/linux/phtree.h:39 | The corrected macro makes the node an empty node and changes no other parent word. |
| PhHeader.ClearKeepsTree | tools/include/linux/phtree.h:39 | Clearing a node outside the tree keeps a red-black tree with the same members. |
| PhTree.Tree.ClearNode | tools/include/linux/phtree.h:39 | The corrected macro on the tree: the node is then an empty node, and a red-black tree stays one when the node was outside it. |
| PhLink.LinkWordsAsWritten | tools/include/linux/phtree.h:58-64 | Writes node's two child words as NULL and stores node in the link slot (the root word or a child of p). Parent words, colours and every other word are untouched. |
| PhLink.LinkAsWrittenBreaksTree | tools/include/linux/phtree.h:58-64 | A fresh node linked as written under a one-node tree keeps a parent word that names itself. No labelling of those words is well formed. |
| PhLink.LinkFinish | tools/include/linux/phtree.h:58-64 | With the corrected link (parent word `p`, colour red) the tree meets the fix-up's precondition: a red-black tree but for the new red leaf. |
| PhLink.LinkEffects | tools/include/linux/phtree.h:58-64 | The corrected link puts node into the sort order at the slot's position: just before p for a left slot, just after it for a right slot. |
| PhTree.Tree.LinkNode | tools/include/linux/phtree.h:58-64 | The corrected `ph_link_node` on the tree: the node is a red leaf, inserted into the in-order sequence at the slot's position, ready for the fix-up. |
| PhTree.Tree.InsertAt | tools/include/linux/phtree.h:8 | The insertion the header leaves to its users (link, then `ph_insert_color`) gives a red-black tree whose sort order gained node at the slot. Every other node outside the tree stays outside it with its words unchanged, so a second insertion can follow. |
| PhTree.Tree.InsertTwo | tools/include/linux/phtree.h:8 | Two user insertions compose: into a fresh tree of two slots, linking 0 at the root and then 1 right of 0 gives a red-black tree with sort order `[0, 1]`. |
| PhHeader.EntrySafe | tools/include/linux/phtree.h:66-69 | NULL maps to no entry and any other node to its entry. `container_of` is the identity in this model, since entries are identified with their nodes. |

## Left out
- `ph_erase` (lib/phtree.c:183-189) and `ph_erase_init` (tools/include/linux/phtree.h:94-98): erase is carried out by `__ph_erase_augmented` and `____ph_erase_color`. Those live in `phtree_augmented.h`, which is not part of this model.
- `ph_replace_node_rcu` (lib/phtree.c:313-332) writes the same words as `ph_replace_node`; `PhTree.Tree.ReplaceNode` models both. The two differ only in the memory ordering of the last store (`__ph_change_child_rcu`), and the model is sequential.
- `WRITE_ONCE` and RCU publication order: the model is sequential, and each store simply happens in program order.
- The helpers `ph_red_parent`, `ph_parent`, `ph_set_parent`, `ph_set_parent_color`, `__ph_change_child` and `__ph_rotate_set_parents` are not shown in these files. They are modelled by their standard rbtree meaning (`PhFixup.SetParentColor`, `ChangeChild`, `RotateSetParents`).
- The `propagate` and `copy` callbacks and the dummy callback bodies: only `rotate` calls are recorded, in the ghost log `rotations`.
- `container_of` / `ph_entry` and the colour bit packed into the parent pointer: entries are identified with their nodes, and colour is a separate field.
- In the tools header, `struct ph_node` has no parent/colour word and the `ph_parent` macro is cut off (tools/include/linux/phtree.h:19-29). The model takes the parent/colour word from its use in lib/phtree.c and in `PH_EMPTY_NODE`.
- `ph_next` and `ph_prev` test `ph_EMPTY_NODE` (lib/phtree.c:239, 271), which the header does not define. The model reads it as the header's `PH_EMPTY_NODE`.
- The stray character after the first `#include` (lib/phtree.c:9), `EXPORT_SYMBOL` and the alignment attribute are build detail.
- The pairing-heap comment (lib/phtree.c:12-19) describes nothing the code does.
- PhTree.Tree.Next, PhTree.Tree.Prev: require node to be a tree node or an empty node. On a node that is neither, the C code follows stale words, and the model says nothing.
- PhTree.Tree.LeftDeepestNode, PhTree.Tree.NextPostorder: take a ghost snapshot of the tree and require only the words of nodes not yet visited to be intact. That is the guarantee the safe iteration relies on; the words of visited nodes are unconstrained.
- PhTree.Tree.PostorderForEachSafe: the user's loop body is modelled as overwriting `pos`'s left, right, parent and colour words with four independent caller-chosen values, which stands for freeing the entry. A body that re-links other nodes is not modelled; the header says such a body is not supported.
- PhTree.Tree.InsertAt, PhTree.Tree.LinkNode: require the slot to be empty and node to be outside the tree. The caller's search guarantees both.
- Node ids and black heights are unbounded integers: pointers do not wrap, and the model has no addresses.

## Findings

| source | as written | input that shows it | evidently intended | confidence | as-written member | corrected member |
|---|---|---|---|---|---|---|
| tools/include/linux/phtree.h:58-64 | `ph_link_node` writes node's child words and `*ph_link` but ignores its `parent` argument. Node's parent word and colour keep their old value. | A fresh node 1, whose parent word is 1 (an empty node), linked as the left child of a tree holding only node 0: node 0's child names 1, but node 1's parent word does not name 0, so no labelling is well formed. `__ph_insert` then reads 1's parent word and takes node 1 as its own parent. | Node's parent/colour word is set to `parent`, which also makes node red, as the fix-up's loop invariant "node is red" assumes. | not executed; high | PhLink.LinkAsWrittenBreaksTree | PhTree.Tree.LinkNode |
| tools/include/linux/phtree.h:39 | `PH_CLEAR_NODE(node)` has an empty body. | A node whose parent word is NULL: after the macro, `PH_EMPTY_NODE` still does not hold, so `ph_erase_init` leaves an erased node that `ph_next` treats as a tree node. | Node's parent word is set to node itself, so that `PH_EMPTY_NODE` holds. | not executed; high | PhHeader.ClearAsWrittenNotEmpty | PhTree.Tree.ClearNode |
