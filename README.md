# Red-black tree insertion with a shared sentinel

This project models and proves correct the insertion algorithm of
`arbolRojinegroProject/Arbol.java`:
- `insertar`;
- its fix-up `arreglarInsert`;
- the two rotations `rotarIzquierda` and `rotarDerecha`;
- the node record `arbolRojinegroProject/utils/Nodo.java` that they rewrite in place.

The model keeps the program's own form: heap objects with fields that the
methods update.

- `Node.dfy` (module `Utils`): class `Node` with the fields of `Nodo`
  (`data`, `father`, `left`, `right`, `color`). It has the three
  constructors, the validated colour setter, and the read-only lookups
  (`esRojo`, `esNegro`, `esHoja`, `tieneDosHijos`, `getAbuelo`, `getTio`,
  `getHermano`, `equals`). An invalid colour is rejected only by `setColor`
  (Nodo.java:136-141); the two-argument constructor stores any colour as
  given (Nodo.java:50-56), and the model does the same.
- `Spec.dfy` (module `RedBlackSpec`): the abstract tree `T`. Every branch
  names the heap node it stands for, with that node's colour and key; `Nil`
  is the sentinel. The module also holds:
  - the red-black invariants and the in-order key sequence;
  - a zipper (`Frame`, `Plug`) that describes the path from a node up to
    the root;
  - the effect of every step of the algorithm, proved on values.
- `Tree.dfy` (module `RedBlack`): class `Tree` with `root` and the shared
  black sentinel `tnull`, plus a ghost abstract tree `abs` and the ghost
  node set `Repr`.
  - `Matches` ties the heap to `abs`: parent links, child links, colours
    and keys. The root's parent is `null`, and every empty child slot
    holds `tnull`.
  - Each method is the Java method's statements, with a contract over the
    heap and `abs`.

How the Java methods map to Dafny methods. The Java statements are kept in
order; a method boundary sits where the proof needs one:
- `insertar` is `Insert`. Its parts are:
  - building the red node (lines 19-24): `NewLeaf`;
  - the descent loop (lines 26-36): `Descend`;
  - the splice (39-46): `Link`;
  - the tail (48-57): `Settle`.
- `arreglarInsert` is `FixInsert`. Its loop body (64-105) is split into:
  - `RepairRight`, when the father is a right child;
  - `RepairLeft`, its mirror.

  Inside them, case 3.1 is `RecolorUncle`. The two colour writes of case
  3.2.1 are `PaintGrandfather`; each half then calls its own rotation of the
  grandfather, as the source does: `RepairRight` rotates left (line 82),
  `RepairLeft` rotates right (line 103). The final `root.color = 0`
  (line 110) is `BlackenRoot`.
- `rotarIzquierda` and `rotarDerecha`:
  - their pointer writes are `RelinkLeft` and `RelinkRight`, specified
    write by write (`RotatedHeap`);
  - `RotateLeft` and `RotateRight` add the lemmas that read each rotation
    on the abstract tree as `Promote`.

The main results:
- `Insert` keeps the tree valid: well linked, red-black, and in-order keys
  sorted.
- The in-order key sequence after `Insert(key)` is the old one with `key`
  placed after every key not greater than it, so duplicates are kept to
  the right.
- Exactly one fresh node is added.
- `FixInsert` terminates: the path above `k` gets strictly shorter on every
  pass.
- `FixInsert` keeps the keys and the node set, and leaves a red-black tree.
- No step of the insertion changes any existing node's key.
- A red-black tree with n keys has height at most 2 log2(n + 1) (`LogarithmicHeight`), so this holds after every `Insert`.

## Model

| member | source | states |
|---|---|---|
| Utils.Node.constructor | arbolRojinegroProject/utils/Nodo.java:25-31 | `Nodo()` gives key 0, colour black and all three links null |
| Utils.Node.WithData | arbolRojinegroProject/utils/Nodo.java:37-43 | `Nodo(data)` gives the key, colour red and null links |
| Utils.Node.WithColor | arbolRojinegroProject/utils/Nodo.java:50-56 | `Nodo(data, color)` stores the colour as given, with no validation, and null links |
| Utils.Node.SetColor | arbolRojinegroProject/utils/Nodo.java:136-141 | Fails with `InvalidColor` exactly when the colour is neither 0 nor 1, and then leaves the colour unchanged; otherwise sets it. Key and links never change. |
| Utils.ColorsExclusive | arbolRojinegroProject/utils/Nodo.java:147-157 | Exactly one of `esRojo`/`esNegro` holds iff the colour is valid; both are false for an unvalidated colour |
| Utils.Node.IsRed | arbolRojinegroProject/utils/Nodo.java:147-149 | `esRojo`: a red node has a valid colour and is not black |
| Utils.Node.IsBlack | arbolRojinegroProject/utils/Nodo.java:155-157 | `esNegro`: a black node has a valid colour and is not red |
| Utils.Node.IsLeaf | arbolRojinegroProject/utils/Nodo.java:163-165 | `esHoja`: a node without child links never has two children |
| Utils.ChildLinks | arbolRojinegroProject/utils/Nodo.java:163-173 | `esHoja` and `tieneDosHijos` never hold together, and a node with exactly one child link satisfies neither; inside a tree `NoNullChildren` gives `tieneDosHijos` for every node |
| Utils.Node.Grandparent | arbolRojinegroProject/utils/Nodo.java:179-184 | `getAbuelo`: null without a father; a non-null result is the father's father |
| Utils.Node.Sibling | arbolRojinegroProject/utils/Nodo.java:206-215 | `getHermano`: null without a father; for one of two distinct children it is the other child, never the node itself |
| Utils.Node.Uncle | arbolRojinegroProject/utils/Nodo.java:190-200 | `getTio` is null without a father, and otherwise equals the father's `getHermano` |
| Utils.Node.Equals | arbolRojinegroProject/utils/Nodo.java:235-241 | `equals` holds exactly when the other node is non-null with the same key and colour; the identity shortcut never changes the answer |
| Utils.EqualsProperties | arbolRojinegroProject/utils/Nodo.java:236-241 | `equals` is reflexive, symmetric and false for null; two distinct nodes are equal iff key and colour agree, whatever their links |
| RedBlack.UncleInTree | arbolRojinegroProject/utils/Nodo.java:179-200 | In the fix-up loop, `getAbuelo` is the grandparent and `getTio` is the top of the uncle subtree (or the sentinel): the slot the loop reads at Arbol.java lines 66 and 86 |
| RedBlack.NoNullChildren | arbolRojinegroProject/utils/Nodo.java:163-173 | In a linked tree, every node has two non-null children (`tieneDosHijos`), so none is a leaf in the sense of `esHoja` |
| RedBlack.Tree.constructor | arbolRojinegroProject/Arbol.java:11-15 | The tree is empty and valid; `root == tnull`; the sentinel is black, with no father and no child links |
| RedBlack.Tree.Insert | arbolRojinegroProject/Arbol.java:18-58 | From a valid tree: the tree is valid again, its keys are `InsertSorted(old keys, key)`, and exactly one fresh node is added; every old node keeps its key |
| RedBlack.Tree.Descend | arbolRojinegroProject/Arbol.java:26-36 | The loop reaches the sentinel slot where `Ins` places the key. Strictly smaller keys go left and the rest go right. `y` is null exactly when the tree is empty; otherwise `y` is a tree node whose child slot on the key's side holds the sentinel. |
| RedBlack.Tree.NewLeaf | arbolRojinegroProject/Arbol.java:19-24 | The new node is fresh, distinct from the sentinel, red, holds the key, has no father and has the sentinel in both child slots |
| RedBlack.Tree.Link | arbolRojinegroProject/Arbol.java:39-46 | After the splice, the heap holds the old tree with a red leaf at the descent's slot, or as the root when `y` is null. The new node's father is `y`, `y`'s own father is unchanged, and every old node keeps its key. |
| RedBlack.Spliced | arbolRojinegroProject/Arbol.java:42-46 | Redirecting the sentinel slot of the lowest path node to a new node, with nothing else on the path changed, keeps the path linked above it |
| RedBlack.Tree.Settle | arbolRojinegroProject/Arbol.java:48-57 | A new root is painted black. Below a grandparent, `arreglarInsert` runs. A child of the root needs nothing. In every case the tree ends red-black with the same keys and nodes, and every node keeps its key. |
| RedBlackSpec.InsertStart | arbolRojinegroProject/Arbol.java:19-24 | A red leaf linked at a sentinel slot of a red-black tree establishes the fix-up invariant `AlmostRB` |
| RedBlackSpec.BelowRoot | arbolRojinegroProject/Arbol.java:55-57 | When the parent is the root, the tree is already red-black, so skipping the fix-up is correct |
| RedBlackSpec.InsKeys | arbolRojinegroProject/Arbol.java:29-46 | Linking at the descent's slot inserts the key into the sorted in-order sequence after every key not greater than it |
| RedBlackSpec.InsNodes | arbolRojinegroProject/Arbol.java:39-46 | The splice adds exactly the new node |
| RedBlackSpec.InsertSortedSorted | arbolRojinegroProject/Arbol.java:29-46 | The in-order sequence stays sorted after an insertion |
| RedBlackSpec.InsertSortedMultiset | arbolRojinegroProject/Arbol.java:29-46 | The in-order sequence gains exactly the inserted key; duplicates are kept |
| RedBlack.Tree.FixInsert | arbolRojinegroProject/Arbol.java:61-111 | Starting from the invariant left by the splice, the loop ends (the path above `k` shrinks on every pass). The tree is then red-black with the same keys and the same node set, and no node's key changes. |
| RedBlack.Tree.RepairRight | arbolRojinegroProject/Arbol.java:64-83 | One pass with the father a right child: the invariant holds again for the new `k`; keys and nodes are kept and no node's key changes; the path above `k` is shorter; case 3.2.1 rotates the grandfather left; `k` is the root iff that path is empty |
| RedBlack.Tree.RepairLeft | arbolRojinegroProject/Arbol.java:84-105 | The same for the mirrored half, where the father is a left child; case 3.2.1 rotates the grandfather right |
| RedBlack.Around | arbolRojinegroProject/Arbol.java:63-66 | When `k`'s father is red, the father and grandfather exist (the father is not the root), each hangs on the side the path records, and the uncle slot is red iff the uncle subtree is |
| RedBlack.KState | arbolRojinegroProject/Arbol.java:106-108 | `k == root` iff the path above `k` is empty; otherwise `k.father` is the path's first node and its heap colour is the recorded one |
| RedBlack.Tree.RecolorUncle | arbolRojinegroProject/Arbol.java:67-72 | Case 3.1: father and uncle turn black and the grandfather red; the grandfather is the new `k`, two levels up; invariant, keys and nodes are kept, and no node's key changes |
| RedBlack.RecolorCase | arbolRojinegroProject/Arbol.java:88-93 | The three colour writes of case 3.1 leave the heap matching the recoloured tree, which satisfies the invariant |
| RedBlackSpec.RecolorStep | arbolRojinegroProject/Arbol.java:67-72 | On the abstract tree, case 3.1 preserves `AlmostRB` two levels up and keeps keys and nodes |
| RedBlackSpec.InnerStep | arbolRojinegroProject/Arbol.java:74-78 | Case 3.2.2: the rotation at the father turns the inner configuration into the outer one, with the old father as `k` and the invariant kept |
| RedBlack.InnerCase | arbolRojinegroProject/Arbol.java:95-99 | After the rotation of case 3.2.2, the heap holds the same tree read with the old father as `k`; its father is red and on the same side as the grandparent |
| RedBlack.Tree.PaintGrandfather | arbolRojinegroProject/Arbol.java:80-81 | Case 3.2.1 before its rotation (and its mirror at lines 101-102): the father turns black and the grandfather red; the heap then holds the painted subtree at the grandfather, with the same nodes and keys, ready for the rotation |
| RedBlack.PaintCase | arbolRojinegroProject/Arbol.java:101-102 | The two colour writes of case 3.2.1 leave the heap matching the painted tree |
| RedBlack.OuterCase | arbolRojinegroProject/Arbol.java:101-103 | After the rotation of case 3.2.1, the heap holds the tree with the black former father above `k`, and the invariant holds |
| RedBlackSpec.OuterStep | arbolRojinegroProject/Arbol.java:80-82 | On the abstract tree, case 3.2.1 gives a black parent above `k` and keeps `AlmostRB`, keys and nodes |
| RedBlack.Tree.BlackenRoot | arbolRojinegroProject/Arbol.java:110 | Once the father is black or `k` is the root, painting the root black gives a red-black tree with the same keys and nodes; no node's key changes |
| RedBlack.FinishCase | arbolRojinegroProject/Arbol.java:110 | Writing black into the root's colour leaves the heap matching the blackened tree, which is red-black |
| RedBlackSpec.FixDone | arbolRojinegroProject/Arbol.java:106-110 | When the loop stops, blackening the root gives a red-black tree |
| RedBlackSpec.Blacken | arbolRojinegroProject/Arbol.java:110 | Blackening the root keeps keys and nodes and leaves the root not red |
| RedBlackSpec.BlackenRedBlack | arbolRojinegroProject/Arbol.java:110 | A tree that is red-black except for its root's colour becomes red-black when the root is blackened |
| RedBlackSpec.BalancedPaths | arbolRojinegroProject/Arbol.java:61-111 | The local balance condition means every root-to-sentinel path meets the same number of black nodes |
| RedBlackSpec.HeightBlackHeight | arbolRojinegroProject/Arbol.java:61-111 | In a tree satisfying the invariants `arreglarInsert` restores, the height is at most twice the black height, plus one for a red top |
| RedBlackSpec.KeysBlackHeight | arbolRojinegroProject/Arbol.java:61-111 | A balanced tree of black height h holds at least 2^h - 1 keys |
| RedBlackSpec.LogarithmicHeight | arbolRojinegroProject/Arbol.java:61-111 | A red-black tree with n keys has height at most 2 log2(n + 1), stated as 2^height <= (n + 1)^2; so every valid tree `Insert` leaves is this shallow |
| RedBlack.Tree.RelinkLeft | arbolRojinegroProject/Arbol.java:114-130 | The writes of `rotarIzquierda`. The right child `y` takes `x`'s place (as root when `x.father` was null, else in the same slot of the old parent). `x` becomes `y`'s left child and takes `y`'s former left subtree, whose top gets `x` as father. Keys, colours and every other node are unchanged; the sentinel is never written. |
| RedBlack.Tree.RelinkRight | arbolRojinegroProject/Arbol.java:133-149 | The mirror of `RelinkLeft` for `rotarDerecha`: the left child rises |
| RedBlack.Tree.RotateLeft | arbolRojinegroProject/Arbol.java:114-130 | A heap holding the tree `Plug(ctx, s)` holds `Plug(ctx, Promote(s, Right))` afterwards, over the same nodes; the root pointer is the rising node exactly when `x` was the root; no node's key changes |
| RedBlack.Tree.RotateRight | arbolRojinegroProject/Arbol.java:133-149 | The same for `Promote(s, Left)` |
| RedBlack.RotateDone | arbolRojinegroProject/Arbol.java:114-149 | The pointer writes of a rotation turn a heap linking `Plug(ctx, s)` into one linking `Plug(ctx, Promote(s, side))`, with distinct nodes and the same node set; every node keeps its key |
| RedBlackSpec.Promote | arbolRojinegroProject/Arbol.java:114-149 | A rotation keeps the in-order key sequence and the node set; the promoted child becomes the subtree's top, with the old top on its other side |

## Left out

- `toString` and `hashCode` of `Nodo`: string formatting, and hashing with 32-bit wrap-around, play no part in the tree.
- The getters and setters `getData` … `setRight` of `Nodo`: `Arbol.java` reads and writes the fields directly, and so does the model.
- Search, `isEmpty` and an in-order listing: `Arbol.java` has none of them. The in-order sequence `Keys` exists only as a ghost function for stating order.
- Deletion: not implemented in the source.
- Java `int` keys are modelled as unbounded integers. The algorithm only compares keys, so no wrap-around can arise.
- Sorted order is stated as a non-decreasing in-order sequence, not as "left keys < node <= right keys". After a rotation, a key equal to its parent's can sit in the left subtree, so the stricter form is not an invariant of the source.
- RedBlack.Tree.FixInsert: requires the state `insertar` leaves behind (a red node below a grandparent, the tree red-black apart from that one red-red pair). It says nothing about other callers, because `arreglarInsert` is private and called only from there.
- RedBlack.Tree.Insert: states that exactly one fresh node is added, without naming that node in the postcondition.
- RedBlack.Tree.Insert: fixes the resulting keys and the red-black invariants, not the shape or the colours of the result. Several trees satisfy the contract, for example a black root with two black children instead of two red ones.
