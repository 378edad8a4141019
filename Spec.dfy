/** The abstract view of the tree held by arbolRojinegroProject/Arbol.java.
    A value of type T mirrors the linked structure: every branch names the heap
    node it stands for, together with that node's colour and key; Nil stands for
    the shared black sentinel. The red-black invariants, the in-order key
    sequence and the effect of each step of the insertion algorithm are stated
    and proved here on values; module RedBlack ties them to the heap. */
module RedBlackSpec {
  import opened Utils

  datatype T = Nil | Br(n: Node, c: int, k: int, l: T, r: T)

  datatype Side = Left | Right

  function Opposite(s: Side): Side {
    if s == Left then Right else Left
  }

  /** One step of a path from a subtree up to the root: node n, with colour c and
      key k, has the subtree in focus on `side` and `sib` on the other side. */
  datatype Frame = Frame(side: Side, n: Node, c: int, k: int, sib: T)

  // ---------------------------------------------------------------------------
  // Observations of a tree
  // ---------------------------------------------------------------------------

  ghost function Nodes(t: T): set<Node> {
    match t
    case Nil => {}
    case Br(n, _, _, l, r) => {n} + Nodes(l) + Nodes(r)
  }

  /** No node occurs twice: the structure is a tree, not a DAG or a cycle. */
  ghost predicate Distinct(t: T) {
    match t
    case Nil => true
    case Br(n, _, _, l, r) =>
      n !in Nodes(l) && n !in Nodes(r) && Nodes(l) !! Nodes(r) && Distinct(l) && Distinct(r)
  }

  /** The in-order key sequence (left subtree, node, right subtree). */
  ghost function Keys(t: T): seq<int> {
    match t
    case Nil => []
    case Br(_, _, k, l, r) => Keys(l) + [k] + Keys(r)
  }

  ghost predicate Sorted(s: seq<int>) {
    forall i, j :: 0 <= i < j < |s| ==> s[i] <= s[j]
  }

  function Child(t: T, side: Side): T
    requires t.Br?
  {
    if side == Left then t.l else t.r
  }

  // ---------------------------------------------------------------------------
  // Red-black invariants
  // ---------------------------------------------------------------------------

  /** The sentinel (Nil) is black. */
  predicate Red(t: T) {
    t.Br? && t.c == RED
  }

  /** Every node is RED or BLACK. */
  ghost predicate ColorsOK(t: T) {
    match t
    case Nil => true
    case Br(_, c, _, l, r) => ValidColor(c) && ColorsOK(l) && ColorsOK(r)
  }

  /** No red node has a red child. */
  ghost predicate RedOK(t: T) {
    match t
    case Nil => true
    case Br(_, c, _, l, r) => RedOK(l) && RedOK(r) && (c == RED ==> !Red(l) && !Red(r))
  }

  /** Black nodes on the leftmost path, not counting the sentinel. */
  ghost function BH(t: T): nat {
    match t
    case Nil => 0
    case Br(_, c, _, l, _) => BH(l) + (if c == BLACK then 1 else 0)
  }

  /** Both children of every node have the same black height. */
  ghost predicate Balanced(t: T) {
    match t
    case Nil => true
    case Br(_, _, _, l, r) => Balanced(l) && Balanced(r) && BH(l) == BH(r)
  }

  ghost predicate IsRedBlack(t: T) {
    ColorsOK(t) && !Red(t) && RedOK(t) && Balanced(t)
  }

  /** A root-to-sentinel path, given as the sequence of turns it takes. */
  ghost predicate ReachesNil(t: T, turns: seq<Side>)
    decreases turns
  {
    match t
    case Nil => turns == []
    case Br(_, _, _, _, _) => turns != [] && ReachesNil(Child(t, turns[0]), turns[1..])
  }

  /** Black nodes met along a path of turns. */
  ghost function BlackOnPath(t: T, turns: seq<Side>): nat
    decreases turns
  {
    match t
    case Nil => 0
    case Br(_, c, _, _, _) =>
      (if c == BLACK then 1 else 0) + (if turns == [] then 0 else BlackOnPath(Child(t, turns[0]), turns[1..]))
  }

  /** Balanced is the local form of "every path to the sentinel meets the same
      number of black nodes". */
  lemma {:induction false} BalancedPaths(t: T, turns: seq<Side>)
    requires Balanced(t) && ReachesNil(t, turns)
    ensures BlackOnPath(t, turns) == BH(t)
    decreases turns
  {
    match t
    case Nil =>
    case Br(_, c, _, l, r) =>
      BalancedPaths(Child(t, turns[0]), turns[1..]);
  }

  /** The number of nodes on a longest root-to-sentinel path. */
  ghost function Height(t: T): nat {
    match t
    case Nil => 0
    case Br(_, _, _, l, r) => 1 + (if Height(l) < Height(r) then Height(r) else Height(l))
  }

  function Pow2(e: nat): (p: nat)
    ensures p >= 1
  {
    if e == 0 then 1 else 2 * Pow2(e - 1)
  }

  lemma {:induction false} Pow2Add(a: nat, b: nat)
    ensures Pow2(a + b) == Pow2(a) * Pow2(b)
    decreases a
  {
    if a > 0 {
      Pow2Add(a - 1, b);
    }
  }

  lemma {:induction false} Pow2Monotone(a: nat, b: nat)
    requires a <= b
    ensures Pow2(a) <= Pow2(b)
    decreases b
  {
    if a < b {
      Pow2Monotone(a, b - 1);
    }
  }

  /** No path is more than twice as long as the black height, plus one for a
      red top: red nodes never follow each other. */
  lemma {:induction false} HeightBlackHeight(t: T)
    requires ColorsOK(t) && RedOK(t) && Balanced(t)
    ensures Height(t) <= 2 * BH(t) + (if Red(t) then 1 else 0)
    decreases t
  {
    if t.Br? {
      HeightBlackHeight(t.l);
      HeightBlackHeight(t.r);
    }
  }

  /** A balanced tree of black height h holds at least 2^h - 1 keys. */
  lemma {:induction false} KeysBlackHeight(t: T)
    requires Balanced(t)
    ensures Pow2(BH(t)) <= |Keys(t)| + 1
    decreases t
  {
    if t.Br? {
      KeysBlackHeight(t.l);
      KeysBlackHeight(t.r);
      Pow2Monotone(BH(t), BH(t.l) + 1);
    }
  }

  /** The height bound of a red-black tree with n keys: height <= 2 log2(n + 1),
      stated without logarithms as 2^height <= (n + 1)^2. */
  lemma LogarithmicHeight(t: T)
    requires IsRedBlack(t)
    ensures Height(t) <= 2 * BH(t) && Pow2(BH(t)) <= |Keys(t)| + 1
    ensures Pow2(Height(t)) <= (|Keys(t)| + 1) * (|Keys(t)| + 1)
  {
    HeightBlackHeight(t);
    KeysBlackHeight(t);
    var h := BH(t);
    Pow2Monotone(Height(t), h + h);
    Pow2Add(h, h);
    SquareMonotone(Pow2(h), |Keys(t)| + 1);
  }

  lemma SquareMonotone(x: nat, y: nat)
    requires x <= y
    ensures x * x <= y * y
  {
    assert x * x <= x * y by { MulLeft(x, x, y); }
    assert x * y <= y * y by { MulLeft(y, x, y); }
  }

  lemma MulLeft(c: nat, a: nat, b: nat)
    requires a <= b
    ensures c * a <= c * b
  {
    assert c * b == c * a + c * (b - a);
  }

  /** Recolouring the root black (the last statement of arreglarInsert). */
  function Blacken(t: T): (r: T)
    ensures Nodes(r) == Nodes(t) && Keys(r) == Keys(t) && !Red(r)
  {
    if t.Br? then t.(c := BLACK) else t
  }

  lemma BlackenRedBlack(t: T)
    requires ColorsOK(t) && RedOK(t) && Balanced(t)
    ensures IsRedBlack(Blacken(t))
  {
    if t.Br? {
      assert BH(t.l) == BH(t.r);
    }
  }

  // ---------------------------------------------------------------------------
  // Paths (zippers)
  // ---------------------------------------------------------------------------

  function Fill(f: Frame, t: T): T {
    if f.side == Left then Br(f.n, f.c, f.k, t, f.sib) else Br(f.n, f.c, f.k, f.sib, t)
  }

  /** Rebuild the whole tree from a subtree and the path above it; ctx[0] is the
      frame of the subtree's parent. */
  function Plug(ctx: seq<Frame>, t: T): T
    decreases |ctx|
  {
    if ctx == [] then t else Plug(ctx[1..], Fill(ctx[0], t))
  }

  ghost function PathNodes(ctx: seq<Frame>): set<Node>
    decreases |ctx|
  {
    if ctx == [] then {} else {ctx[0].n} + Nodes(ctx[0].sib) + PathNodes(ctx[1..])
  }

  ghost predicate PathDistinct(ctx: seq<Frame>)
    decreases |ctx|
  {
    ctx != [] ==>
      ctx[0].n !in Nodes(ctx[0].sib) && ({ctx[0].n} + Nodes(ctx[0].sib)) !! PathNodes(ctx[1..]) &&
      Distinct(ctx[0].sib) && PathDistinct(ctx[1..])
  }

  ghost predicate PathColorsOK(ctx: seq<Frame>)
    decreases |ctx|
  {
    ctx != [] ==> ValidColor(ctx[0].c) && ColorsOK(ctx[0].sib) && PathColorsOK(ctx[1..])
  }

  /** No red-red pair along the path, given whether the plugged subtree is red. */
  ghost predicate PathRedOK(ctx: seq<Frame>, childRed: bool)
    decreases |ctx|
  {
    ctx != [] ==>
      RedOK(ctx[0].sib) && (ctx[0].c == RED ==> !Red(ctx[0].sib) && !childRed) &&
      PathRedOK(ctx[1..], ctx[0].c == RED)
  }

  /** Balance along the path, given the black height of the plugged subtree. */
  ghost predicate PathBalanced(ctx: seq<Frame>, h: nat)
    decreases |ctx|
  {
    ctx != [] ==>
      Balanced(ctx[0].sib) && BH(ctx[0].sib) == h &&
      PathBalanced(ctx[1..], h + if ctx[0].c == BLACK then 1 else 0)
  }

  lemma {:induction false} PlugNodes(ctx: seq<Frame>, t: T)
    ensures Nodes(Plug(ctx, t)) == Nodes(t) + PathNodes(ctx)
    decreases |ctx|
  {
    if ctx != [] {
      PlugNodes(ctx[1..], Fill(ctx[0], t));
    }
  }

  lemma {:induction false} PlugDistinct(ctx: seq<Frame>, t: T)
    ensures Distinct(Plug(ctx, t)) <==> Distinct(t) && PathDistinct(ctx) && Nodes(t) !! PathNodes(ctx)
    decreases |ctx|
  {
    if ctx != [] {
      PlugDistinct(ctx[1..], Fill(ctx[0], t));
    }
  }

  lemma {:induction false} PlugColorsOK(ctx: seq<Frame>, t: T)
    ensures ColorsOK(Plug(ctx, t)) <==> ColorsOK(t) && PathColorsOK(ctx)
    decreases |ctx|
  {
    if ctx != [] {
      PlugColorsOK(ctx[1..], Fill(ctx[0], t));
    }
  }

  lemma {:induction false} PlugRedOK(ctx: seq<Frame>, t: T)
    ensures RedOK(Plug(ctx, t)) <==> RedOK(t) && PathRedOK(ctx, Red(t))
    decreases |ctx|
  {
    if ctx != [] {
      PlugRedOK(ctx[1..], Fill(ctx[0], t));
    }
  }

  lemma {:induction false} PlugBalanced(ctx: seq<Frame>, t: T)
    ensures Balanced(Plug(ctx, t)) <==> Balanced(t) && PathBalanced(ctx, BH(t))
    decreases |ctx|
  {
    if ctx != [] {
      var f := ctx[0];
      PlugBalanced(ctx[1..], Fill(f, t));
      if Balanced(Fill(f, t)) {
        assert BH(Fill(f, t)) == BH(t) + if f.c == BLACK then 1 else 0;
      }
    }
  }

  /** Replacing the plugged subtree by one with the same keys keeps the keys of the whole tree. */
  lemma {:induction false} PlugKeys(ctx: seq<Frame>, t: T, t': T)
    requires Keys(t) == Keys(t')
    ensures Keys(Plug(ctx, t)) == Keys(Plug(ctx, t'))
    decreases |ctx|
  {
    if ctx != [] {
      PlugKeys(ctx[1..], Fill(ctx[0], t), Fill(ctx[0], t'));
    }
  }

  /** With a non-empty path the root is the last frame's node. */
  lemma {:induction false} PlugRoot(ctx: seq<Frame>, t: T)
    requires ctx != []
    ensures Plug(ctx, t).Br? && Plug(ctx, t).n == ctx[|ctx| - 1].n && Plug(ctx, t).c == ctx[|ctx| - 1].c
    decreases |ctx|
  {
    if |ctx| > 1 {
      PlugRoot(ctx[1..], Fill(ctx[0], t));
    }
  }

  // ---------------------------------------------------------------------------
  // Rotations
  // ---------------------------------------------------------------------------

  /** Promote the child on `side` of the root: rotarIzquierda promotes the right
      child, rotarDerecha the left one. */
  function Promote(t: T, side: Side): (r: T)
    requires t.Br? && Child(t, side).Br?
    ensures Keys(r) == Keys(t) && Nodes(r) == Nodes(t)
    ensures r.Br? && r.n == Child(t, side).n && Child(r, Opposite(side)).Br? && Child(r, Opposite(side)).n == t.n
  {
    var y := Child(t, side);
    if side == Right then
      Br(y.n, y.c, y.k, Br(t.n, t.c, t.k, t.l, y.l), y.r)
    else
      Br(y.n, y.c, y.k, y.l, Br(t.n, t.c, t.k, y.r, t.r))
  }

  lemma PromoteDistinct(t: T, side: Side)
    requires t.Br? && Child(t, side).Br? && Distinct(t)
    ensures Distinct(Promote(t, side))
  {
  }

  // ---------------------------------------------------------------------------
  // Recolouring
  // ---------------------------------------------------------------------------

  /** The tree with the colour of every node in the domain of m replaced by m's value. */
  ghost function Repaint(t: T, m: map<Node, int>): (r: T)
    ensures Nodes(r) == Nodes(t) && Keys(r) == Keys(t)
  {
    match t
    case Nil => Nil
    case Br(n, c, k, l, r) => Br(n, if n in m then m[n] else c, k, Repaint(l, m), Repaint(r, m))
  }

  ghost function RepaintPath(ctx: seq<Frame>, m: map<Node, int>): (r: seq<Frame>)
    ensures |r| == |ctx|
    decreases |ctx|
  {
    if ctx == [] then []
    else [ctx[0].(c := if ctx[0].n in m then m[ctx[0].n] else ctx[0].c, sib := Repaint(ctx[0].sib, m))]
         + RepaintPath(ctx[1..], m)
  }

  lemma {:induction false} RepaintPlug(ctx: seq<Frame>, t: T, m: map<Node, int>)
    ensures Repaint(Plug(ctx, t), m) == Plug(RepaintPath(ctx, m), Repaint(t, m))
    decreases |ctx|
  {
    if ctx != [] {
      RepaintPlug(ctx[1..], Fill(ctx[0], t), m);
      assert RepaintPath(ctx, m)[1..] == RepaintPath(ctx[1..], m);
    }
  }

  lemma {:induction false} RepaintUntouched(t: T, m: map<Node, int>)
    requires Nodes(t) !! m.Keys
    ensures Repaint(t, m) == t
  {
    match t
    case Nil =>
    case Br(n, c, k, l, r) =>
      RepaintUntouched(l, m);
      RepaintUntouched(r, m);
  }

  lemma {:induction false} RepaintPathUntouched(ctx: seq<Frame>, m: map<Node, int>)
    requires PathNodes(ctx) !! m.Keys
    ensures RepaintPath(ctx, m) == ctx
    decreases |ctx|
  {
    if ctx != [] {
      RepaintUntouched(ctx[0].sib, m);
      RepaintPathUntouched(ctx[1..], m);
    }
  }

  /** The three writes of case 3.1 turn the tree into Recolored at the grandparent. */
  lemma RecolorIsRepaint(ctx: seq<Frame>, t: T)
    requires |ctx| >= 2 && Distinct(Plug(ctx, t)) && ctx[1].sib.Br?
    ensures Repaint(Plug(ctx, t), map[ctx[1].sib.n := BLACK, ctx[0].n := BLACK, ctx[1].n := RED])
         == Plug(ctx[2..], Recolored(ctx[0], ctx[1], t))
  {
    var fp, fg, rest := ctx[0], ctx[1], ctx[2..];
    var u := fg.sib;
    var m := map[u.n := BLACK, fp.n := BLACK, fg.n := RED];
    assert ctx[1..][1..] == rest;
    assert Plug(ctx, t) == Plug(rest, Fill(fg, Fill(fp, t)));
    PlugDistinct(ctx, t);
    PlugDistinct(ctx[1..], Fill(fp, t));
    RepaintPlug(ctx, t, m);
    RepaintUntouched(t, m);
    RepaintUntouched(fp.sib, m);
    RepaintUntouched(u.l, m);
    RepaintUntouched(u.r, m);
    RepaintPathUntouched(rest, m);
    assert RepaintPath(ctx, m) == [fp.(c := BLACK), fg.(c := RED, sib := Blacken(u))] + rest;
  }

  /** The two writes of case 3.2.1 turn the tree into Painted at the grandparent. */
  lemma PaintedIsRepaint(ctx: seq<Frame>, t: T)
    requires |ctx| >= 2 && Distinct(Plug(ctx, t))
    ensures Repaint(Plug(ctx, t), map[ctx[0].n := BLACK, ctx[1].n := RED])
         == Plug(ctx[2..], Painted(ctx[0], ctx[1], t))
  {
    var fp, fg, rest := ctx[0], ctx[1], ctx[2..];
    var m := map[fp.n := BLACK, fg.n := RED];
    assert ctx[1..][1..] == rest;
    PlugDistinct(ctx, t);
    PlugDistinct(ctx[1..], Fill(fp, t));
    RepaintPlug(ctx, t, m);
    RepaintUntouched(t, m);
    RepaintUntouched(fp.sib, m);
    RepaintUntouched(fg.sib, m);
    RepaintPathUntouched(rest, m);
    assert RepaintPath(ctx, m) == [fp.(c := BLACK), fg.(c := RED)] + rest;
  }

  /** The final write of arreglarInsert blackens the root. */
  lemma BlackenIsRepaint(t: T)
    requires t.Br? && Distinct(t)
    ensures Repaint(t, map[t.n := BLACK]) == Blacken(t)
  {
    RepaintUntouched(t.l, map[t.n := BLACK]);
    RepaintUntouched(t.r, map[t.n := BLACK]);
  }

  lemma {:induction false} RepaintDistinct(t: T, m: map<Node, int>)
    requires Distinct(t)
    ensures Distinct(Repaint(t, m))
  {
    match t
    case Nil =>
    case Br(n, c, k, l, r) =>
      RepaintDistinct(l, m);
      RepaintDistinct(r, m);
  }

  // ---------------------------------------------------------------------------
  // The state of the fix-up loop
  // ---------------------------------------------------------------------------

  /** The invariant of arreglarInsert with k the root of t and ctx the path above
      it: the only possible red-red pair is k with its parent, black heights are
      balanced everywhere and, unless k is the root, the root is black. */
  ghost predicate AlmostRB(ctx: seq<Frame>, t: T) {
    t.Br? && t.c == RED && RedOK(t) &&
    ColorsOK(Plug(ctx, t)) && Balanced(Plug(ctx, t)) &&
    (ctx != [] ==>
      RedOK(ctx[0].sib) && (ctx[0].c == RED ==> !Red(ctx[0].sib)) &&
      PathRedOK(ctx[1..], ctx[0].c == RED) &&
      ctx[|ctx| - 1].c == BLACK)
  }

  /** The subtree at the grandparent after case 3.1: parent and uncle black, grandparent red. */
  function Recolored(fp: Frame, fg: Frame, t: T): T {
    Fill(fg.(c := RED, sib := Blacken(fg.sib)), Fill(fp.(c := BLACK), t))
  }

  /** Case 3.1 (red uncle): after recolouring, the grandparent is the new k. */
  lemma RecolorStep(ctx: seq<Frame>, t: T)
    requires |ctx| >= 2 && AlmostRB(ctx, t)
    requires ctx[0].c == RED && Red(ctx[1].sib)
    ensures AlmostRB(ctx[2..], Recolored(ctx[0], ctx[1], t))
    ensures Keys(Plug(ctx[2..], Recolored(ctx[0], ctx[1], t))) == Keys(Plug(ctx, t))
    ensures Nodes(Plug(ctx[2..], Recolored(ctx[0], ctx[1], t))) == Nodes(Plug(ctx, t))
  {
    var fp, fg, rest := ctx[0], ctx[1], ctx[2..];
    var s := Fill(fg, Fill(fp, t));
    var s' := Recolored(fp, fg, t);
    assert ctx[1..][1..] == rest;
    assert Plug(ctx, t) == Plug(rest, s);
    PlugBalanced(rest, s);
    PlugBalanced(rest, s');
    PlugColorsOK(rest, s);
    PlugColorsOK(rest, s');
    assert BH(s') == BH(s);
    PlugKeys(rest, s, s');
    PlugNodes(rest, s);
    PlugNodes(rest, s');
    assert PathRedOK(ctx[1..], true);
    assert RedOK(fg.sib) && fg.c == BLACK && PathRedOK(rest, false);
    var pp, uu := Fill(fp.(c := BLACK), t), Blacken(fg.sib);
    assert RedOK(fg.sib.l) && RedOK(fg.sib.r);
    assert RedOK(pp) && RedOK(uu) && !Red(pp) && !Red(uu);
    assert RedOK(s');
    if rest != [] {
      assert rest[|rest| - 1] == ctx[|ctx| - 1];
    }
  }

  /** The frame above the new k after case 3.2.2 (the inner rotation at the parent). */
  function InnerFrame(fp: Frame, fg: Frame, t: T): Frame
    requires t.Br?
  {
    Frame(fg.side, t.n, t.c, t.k, Child(t, fp.side))
  }

  /** The subtree at the new k (the old parent) after case 3.2.2. */
  function InnerTree(fp: Frame, fg: Frame, t: T): T
    requires t.Br?
  {
    Fill(fp, Child(t, fg.side))
  }

  /** Case 3.2.2 (black uncle, k on the inner side): the rotation at the parent
      moves k up and the parent down, turning the configuration into the outer one. */
  lemma InnerStep(ctx: seq<Frame>, t: T)
    requires |ctx| >= 2 && AlmostRB(ctx, t)
    requires ctx[0].c == RED && !Red(ctx[1].sib) && ctx[0].side != ctx[1].side
    ensures Promote(Fill(ctx[0], t), ctx[0].side) == Fill(InnerFrame(ctx[0], ctx[1], t), InnerTree(ctx[0], ctx[1], t))
    ensures AlmostRB([InnerFrame(ctx[0], ctx[1], t)] + ctx[1..], InnerTree(ctx[0], ctx[1], t))
    ensures InnerFrame(ctx[0], ctx[1], t).c == RED && InnerFrame(ctx[0], ctx[1], t).side == ctx[1].side
  {
    var fp, fg, rest := ctx[0], ctx[1], ctx[2..];
    var f' := InnerFrame(fp, fg, t);
    var t' := InnerTree(fp, fg, t);
    var ctx' := [f'] + ctx[1..];
    var s := Fill(fg, Fill(fp, t));
    var s' := Fill(fg, Fill(f', t'));
    assert ctx[1..][1..] == rest && ctx'[1..] == ctx[1..];
    assert Plug(ctx, t) == Plug(rest, s);
    assert Plug(ctx', t') == Plug(rest, s');
    PlugBalanced(rest, s);
    PlugBalanced(rest, s');
    PlugColorsOK(rest, s);
    PlugColorsOK(rest, s');
    var a, b := Child(t, fg.side), Child(t, fp.side);
    assert Balanced(s) && Balanced(Fill(fp, t)) && Balanced(t);
    assert ColorsOK(s) && ColorsOK(Fill(fp, t)) && ColorsOK(t) && ColorsOK(a) && ColorsOK(b);
    assert ColorsOK(t') && ColorsOK(Fill(f', t')) && ColorsOK(s');
    assert Balanced(a) && Balanced(b) && BH(a) == BH(b) && BH(t) == BH(a);
    assert Balanced(fp.sib) && BH(fp.sib) == BH(t);
    assert Balanced(t') && BH(t') == BH(t);
    assert Balanced(Fill(f', t'));
    assert BH(s') == BH(s);
    assert PathRedOK(ctx[1..], true);
    assert !Red(a) && !Red(b) && RedOK(a) && RedOK(b);
    assert RedOK(t');
  }

  /** The frame above k after case 3.2.1: the parent, now black, heads the subtree
      and the grandparent, now red, hangs on the side away from k. */
  function OuterFrame(fp: Frame, fg: Frame): Frame {
    Frame(fp.side, fp.n, BLACK, fp.k, Fill(Frame(fp.side, fg.n, RED, fg.k, fg.sib), fp.sib))
  }

  /** The subtree at the grandparent after the two recolourings of case 3.2.1, before its rotation. */
  function Painted(fp: Frame, fg: Frame, t: T): T {
    Fill(fg.(c := RED), Fill(fp.(c := BLACK), t))
  }

  /** Case 3.2.1 (black uncle, k on the outer side): recolour, rotate at the
      grandparent; the parent of k is now black, so the loop ends. */
  lemma OuterStep(ctx: seq<Frame>, t: T)
    requires |ctx| >= 2 && AlmostRB(ctx, t)
    requires ctx[0].c == RED && !Red(ctx[1].sib) && ctx[0].side == ctx[1].side
    ensures Promote(Painted(ctx[0], ctx[1], t), ctx[1].side) == Fill(OuterFrame(ctx[0], ctx[1]), t)
    ensures AlmostRB([OuterFrame(ctx[0], ctx[1])] + ctx[2..], t)
    ensures Keys(Plug(ctx[2..], Painted(ctx[0], ctx[1], t))) == Keys(Plug(ctx, t))
    ensures Nodes(Plug(ctx[2..], Painted(ctx[0], ctx[1], t))) == Nodes(Plug(ctx, t))
  {
    var fp, fg, rest := ctx[0], ctx[1], ctx[2..];
    var f' := OuterFrame(fp, fg);
    var ctx' := [f'] + rest;
    var s := Fill(fg, Fill(fp, t));
    var s' := Fill(f', t);
    assert ctx[1..][1..] == rest && ctx'[1..] == rest;
    assert Plug(ctx, t) == Plug(rest, s);
    assert Plug(ctx', t) == Plug(rest, s');
    PlugBalanced(rest, s);
    PlugBalanced(rest, s');
    PlugColorsOK(rest, s);
    PlugColorsOK(rest, s');
    assert BH(s') == BH(s);
    PlugKeys(rest, s, Painted(fp, fg, t));
    PlugNodes(rest, s);
    PlugNodes(rest, Painted(fp, fg, t));
    if rest != [] {
      assert ctx'[|ctx'| - 1] == ctx[|ctx| - 1];
    }
  }

  /** When the loop stops (k's parent black, or k the root) the only red-red
      candidate is gone; blackening the root then gives a red-black tree. */
  lemma FixDone(ctx: seq<Frame>, t: T)
    requires AlmostRB(ctx, t)
    requires ctx == [] || ctx[0].c != RED
    ensures IsRedBlack(Blacken(Plug(ctx, t)))
  {
    PlugRedOK(ctx, t);
    BlackenRedBlack(Plug(ctx, t));
  }

  /** When k's parent is the root (insertar then skips arreglarInsert), the
      black root already separates the red pair, and the tree is red-black as it
      stands. */
  lemma BelowRoot(ctx: seq<Frame>, t: T)
    requires |ctx| == 1 && AlmostRB(ctx, t)
    ensures IsRedBlack(Plug(ctx, t))
  {
    FixDone(ctx, t);
    assert Blacken(Plug(ctx, t)) == Plug(ctx, t);
  }

  // ---------------------------------------------------------------------------
  // Insertion
  // ---------------------------------------------------------------------------

  /** The tree after the descent of insertar links a red node n with the key at
      the sentinel it reaches: strictly smaller keys go left, the rest go right. */
  ghost function Ins(t: T, key: int, n: Node): T {
    match t
    case Nil => Br(n, RED, key, Nil, Nil)
    case Br(m, c, k, l, r) =>
      if key < k then Br(m, c, k, Ins(l, key, n), r) else Br(m, c, k, l, Ins(r, key, n))
  }

  /** The number of leading elements not greater than key. */
  function PlaceOf(s: seq<int>, key: int): (i: nat)
    ensures i <= |s|
  {
    if s == [] || key < s[0] then 0 else 1 + PlaceOf(s[1..], key)
  }

  /** s with key inserted after every element not greater than it. */
  function InsertSorted(s: seq<int>, key: int): seq<int> {
    s[..PlaceOf(s, key)] + [key] + s[PlaceOf(s, key)..]
  }

  lemma {:induction false} PlaceOfBounds(s: seq<int>, key: int)
    requires Sorted(s)
    ensures forall j :: 0 <= j < PlaceOf(s, key) ==> s[j] <= key
    ensures forall j :: PlaceOf(s, key) <= j < |s| ==> key < s[j]
    decreases |s|
  {
    if s != [] && !(key < s[0]) {
      PlaceOfBounds(s[1..], key);
    }
  }

  /** InsertSorted keeps the sequence sorted. */
  lemma InsertSortedSorted(s: seq<int>, key: int)
    requires Sorted(s)
    ensures Sorted(InsertSorted(s, key))
  {
    var i := PlaceOf(s, key);
    PlaceOfBounds(s, key);
    var r := InsertSorted(s, key);
    assert |r| == |s| + 1;
    assert forall a :: 0 <= a < i ==> r[a] == s[a];
    assert r[i] == key;
    assert forall a :: i < a < |r| ==> r[a] == s[a - 1];
  }

  /** InsertSorted adds exactly the key. */
  lemma InsertSortedMultiset(s: seq<int>, key: int)
    ensures multiset(InsertSorted(s, key)) == multiset(s) + multiset{key}
  {
    var i := PlaceOf(s, key);
    assert s[..i] + s[i..] == s;
  }

  lemma {:induction false} PlaceOfAllLE(a: seq<int>, key: int)
    requires forall j :: 0 <= j < |a| ==> a[j] <= key
    ensures PlaceOf(a, key) == |a|
    decreases |a|
  {
    if a != [] {
      PlaceOfAllLE(a[1..], key);
    }
  }

  lemma {:induction false} PlaceOfConcat(a: seq<int>, b: seq<int>, key: int)
    ensures PlaceOf(a + b, key) == if PlaceOf(a, key) < |a| then PlaceOf(a, key) else |a| + PlaceOf(b, key)
    decreases |a|
  {
    if a != [] {
      assert (a + b)[1..] == a[1..] + b;
      PlaceOfConcat(a[1..], b, key);
    } else {
      assert a + b == b;
    }
  }

  /** The parts of a sorted in-order sequence around a node. */
  lemma SortedParts(sl: seq<int>, k: int, sr: seq<int>)
    requires Sorted(sl + [k] + sr)
    ensures Sorted(sl) && Sorted(sr)
    ensures forall j :: 0 <= j < |sl| ==> sl[j] <= k
    ensures forall j :: 0 <= j < |sr| ==> k <= sr[j]
  {
    var s := sl + [k] + sr;
    assert forall j :: 0 <= j < |sl| ==> s[j] == sl[j];
    assert forall j :: 0 <= j < |sr| ==> s[|sl| + 1 + j] == sr[j];
    assert s[|sl|] == k;
  }

  /** A key smaller than the node's lands in the left part. */
  lemma InsertSortedLeft(sl: seq<int>, k: int, sr: seq<int>, key: int)
    requires key < k
    ensures InsertSorted(sl + [k] + sr, key) == InsertSorted(sl, key) + [k] + sr
  {
    var s, tail := sl + [k] + sr, [k] + sr;
    assert s == sl + tail;
    assert PlaceOf(tail, key) == 0 by {
      assert tail[0] == k;
    }
    PlaceOfConcat(sl, tail, key);
    var i := PlaceOf(sl, key);
    assert PlaceOf(s, key) == i;
    assert s[..i] == sl[..i];
    assert s[i..] == sl[i..] + tail;
    calc {
      InsertSorted(s, key);
      sl[..i] + [key] + (sl[i..] + tail);
      (sl[..i] + [key] + sl[i..]) + tail;
    }
  }

  /** Past a prefix of elements not greater than the key, insertion happens in the rest. */
  lemma InsertSortedAfter(a: seq<int>, b: seq<int>, key: int)
    requires forall j :: 0 <= j < |a| ==> a[j] <= key
    ensures InsertSorted(a + b, key) == a + InsertSorted(b, key)
  {
    PlaceOfConcat(a, b, key);
    PlaceOfAllLE(a, key);
    var i := PlaceOf(b, key);
    assert (a + b)[..|a| + i] == a + b[..i];
    assert (a + b)[|a| + i..] == b[i..];
  }

  /** A key not smaller than the node's lands in the right part. */
  lemma InsertSortedRight(sl: seq<int>, k: int, sr: seq<int>, key: int)
    requires k <= key && forall j :: 0 <= j < |sl| ==> sl[j] <= key
    ensures InsertSorted(sl + [k] + sr, key) == sl + [k] + InsertSorted(sr, key)
  {
    var a := sl + [k];
    assert forall j :: 0 <= j < |a| ==> a[j] <= key by {
      forall j | 0 <= j < |a| ensures a[j] <= key {
        if j < |sl| { assert a[j] == sl[j]; }
      }
    }
    InsertSortedAfter(a, sr, key);
  }

  /** The descent of insertar realises InsertSorted on the in-order keys. */
  lemma {:induction false} InsKeys(t: T, key: int, n: Node)
    requires Sorted(Keys(t))
    ensures Keys(Ins(t, key, n)) == InsertSorted(Keys(t), key)
  {
    match t
    case Nil =>
    case Br(m, c, k, l, r) =>
      SortedParts(Keys(l), k, Keys(r));
      if key < k {
        InsKeys(l, key, n);
        InsertSortedLeft(Keys(l), k, Keys(r), key);
      } else {
        InsKeys(r, key, n);
        InsertSortedRight(Keys(l), k, Keys(r), key);
      }
  }

  /** Ins adds exactly the new node. */
  lemma {:induction false} InsNodes(t: T, key: int, n: Node)
    ensures Nodes(Ins(t, key, n)) == Nodes(t) + {n}
  {
    match t
    case Nil =>
    case Br(m, c, k, l, r) =>
      if key < k { InsNodes(l, key, n); } else { InsNodes(r, key, n); }
  }

  /** Linking a red node at a sentinel of a red-black tree sets up the loop state. */
  lemma InsertStart(ctx: seq<Frame>, n: Node, key: int)
    requires ctx != [] && IsRedBlack(Plug(ctx, Nil))
    ensures AlmostRB(ctx, Br(n, RED, key, Nil, Nil))
  {
    var leaf := Br(n, RED, key, Nil, Nil);
    PlugBalanced(ctx, Nil);
    PlugBalanced(ctx, leaf);
    PlugColorsOK(ctx, Nil);
    PlugColorsOK(ctx, leaf);
    PlugRedOK(ctx, Nil);
    PlugRoot(ctx, Nil);
  }
}
