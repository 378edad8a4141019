/** The red-black tree of arbolRojinegroProject/Arbol.java: a root pointer and a
    shared black sentinel `tnull` that fills every empty child slot. The root's
    parent is null; a child slot is never null. Insertion descends, links a red
    node, and arreglarInsert restores the invariants with recolourings and the
    two rotations. */
module RedBlack {
  import opened Utils
  import opened RedBlackSpec

  /** The heap node a subtree starts at: the sentinel for an empty subtree. */
  function Ptr(t: T, tnull: Node): Node {
    if t.Nil? then tnull else t.n
  }

  /** The parent of the subtree a path leads to (null at the root). */
  function Up(ctx: seq<Frame>): Node? {
    if ctx == [] then null else ctx[0].n
  }

  /** The heap below p agrees with t: every branch's node carries the branch's
      colour and key, points back to its parent par and to the nodes of its
      subtrees; every empty subtree is the sentinel. */
  ghost predicate Matches(t: T, p: Node?, par: Node?, tnull: Node)
    reads Nodes(t)
  {
    match t
    case Nil => p == tnull
    case Br(n, c, k, l, r) =>
      p == n && n.father == par && n.color == c && n.data == k &&
      Matches(l, n.left, n, tnull) && Matches(r, n.right, n, tnull)
  }

  /** The heap agrees with the path above a subtree whose top node is fp. */
  ghost predicate MatchesPath(ctx: seq<Frame>, fp: Node, root: Node?, tnull: Node)
    reads PathNodes(ctx)
    decreases |ctx|
  {
    if ctx == [] then fp == root
    else
      var f := ctx[0];
      f.n.color == f.c && f.n.data == f.k && f.n.father == Up(ctx[1..]) &&
      (if f.side == Left then f.n.left == fp && Matches(f.sib, f.n.right, f.n, tnull)
       else f.n.right == fp && Matches(f.sib, f.n.left, f.n, tnull)) &&
      MatchesPath(ctx[1..], f.n, root, tnull)
  }

  lemma MatchesPtr(t: T, p: Node?, par: Node?, tnull: Node)
    requires Matches(t, p, par, tnull)
    ensures p == Ptr(t, tnull)
  {
  }

  /** A whole tree matches the heap exactly when the path above a subtree and
      the subtree itself do. */
  lemma {:induction false} Decompose(ctx: seq<Frame>, t: T, root: Node?, tnull: Node)
    ensures Matches(Plug(ctx, t), root, null, tnull) <==>
            MatchesPath(ctx, Ptr(t, tnull), root, tnull) && Matches(t, Ptr(t, tnull), Up(ctx), tnull)
    decreases |ctx|
  {
    if ctx != [] {
      var f := ctx[0];
      Decompose(ctx[1..], Fill(f, t), root, tnull);
      if Matches(t, if f.side == Left then f.n.left else f.n.right, f.n, tnull) {
        MatchesPtr(t, if f.side == Left then f.n.left else f.n.right, f.n, tnull);
      }
    } else {
      if Matches(t, root, null, tnull) {
        MatchesPtr(t, root, null, tnull);
      }
    }
  }

  /** Every child slot of a node in the tree is filled, by a node or by the
      sentinel: esHoja never holds for a tree node and tieneDosHijos always does. */
  lemma {:induction false} NoNullChildren(t: T, p: Node?, par: Node?, tnull: Node)
    requires Matches(t, p, par, tnull)
    ensures forall n :: n in Nodes(t) ==> n.HasTwoChildren() && !n.IsLeaf()
    decreases t
  {
    if t.Br? {
      NoNullChildren(t.l, t.n.left, t.n, tnull);
      NoNullChildren(t.r, t.n.right, t.n, tnull);
      MatchesPtr(t.l, t.n.left, t.n, tnull);
      MatchesPtr(t.r, t.n.right, t.n, tnull);
    }
  }

  // Every twostate lemma below takes its arguments bundled in one record (Site,
  // PathSite, Painting, Fix, Rotation): Dafny 4.11 fails on twostate lemmas
  // with several parameters when contradictory assumptions are checked.

  /** Where a subtree hangs in the heap: the tree, the pointer to its top, the
      parent that pointer belongs to, and the sentinel. */
  datatype Site = Site(t: T, p: Node?, par: Node?, tnull: Node)

  /** Where a path hangs: the frames, the node the path leads down to, the root
      pointer and the sentinel. */
  datatype PathSite = PathSite(ctx: seq<Frame>, fp: Node, root: Node?, tnull: Node)

  /** Node o existed before and none of its fields changed. */
  twostate predicate Untouched(new o: Node)
    reads o
  {
    old(allocated(o)) &&
    o.data == old(o.data) && o.father == old(o.father) && o.left == old(o.left) && o.right == old(o.right) &&
    o.color == old(o.color)
  }

  /** A subtree none of whose nodes changed still matches the heap. */
  twostate lemma {:induction false} MatchesFrame(s: Site)
    requires old(Matches(s.t, s.p, s.par, s.tnull))
    requires forall o :: o in Nodes(s.t) ==> Untouched(o)
    ensures Matches(s.t, s.p, s.par, s.tnull)
    decreases s.t
  {
    if s.t.Br? {
      var n := s.t.n;
      assert Untouched(n);
      MatchesFrame(Site(s.t.l, n.left, n, s.tnull));
      MatchesFrame(Site(s.t.r, n.right, n, s.tnull));
    }
  }

  /** A path none of whose nodes changed still matches the heap. */
  twostate lemma {:induction false} PathFrame(s: PathSite)
    requires old(MatchesPath(s.ctx, s.fp, s.root, s.tnull))
    requires forall o :: o in PathNodes(s.ctx) ==> Untouched(o)
    ensures MatchesPath(s.ctx, s.fp, s.root, s.tnull)
    decreases |s.ctx|
  {
    if s.ctx != [] {
      var f := s.ctx[0];
      assert Untouched(f.n);
      MatchesFrame(Site(f.sib, Slot(f.n, Opposite(f.side)), f.n, s.tnull));
      PathFrame(PathSite(s.ctx[1..], f.n, s.root, s.tnull));
    }
  }

  /** Redirecting the sentinel slot at the end of a path towards a new node fp,
      with nothing else on the path changed, leaves the path matched above fp. */
  twostate lemma Spliced(s: PathSite)
    requires s.ctx != [] && PathDistinct(s.ctx)
    requires old(MatchesPath(s.ctx, s.tnull, s.root, s.tnull))
    requires var n, side := s.ctx[0].n, s.ctx[0].side;
      old(allocated(n)) && Slot(n, side) == s.fp && Slot(n, Opposite(side)) == old(Slot(n, Opposite(side))) &&
      n.data == old(n.data) && n.color == old(n.color) && n.father == old(n.father)
    requires forall o :: o in PathNodes(s.ctx) && o != s.ctx[0].n ==> Untouched(o)
    ensures MatchesPath(s.ctx, s.fp, s.root, s.tnull)
  {
    var f := s.ctx[0];
    forall o | o in Nodes(f.sib) + PathNodes(s.ctx[1..]) ensures Untouched(o) {
      assert o in PathNodes(s.ctx) && o != f.n;
    }
    assert old(Matches(f.sib, Slot(f.n, Opposite(f.side)), f.n, s.tnull));
    MatchesFrame(Site(f.sib, Slot(f.n, Opposite(f.side)), f.n, s.tnull));
    PathFrame(PathSite(s.ctx[1..], f.n, s.root, s.tnull));
  }

  /** The child pointer of n on one side. */
  function Slot(n: Node, side: Side): Node?
    reads n
  {
    if side == Left then n.left else n.right
  }

  /** A rotation at s.n inside the path ctx: the child on `side` rises. root0 is
      the tree's root pointer before. */
  datatype Rotation = Rotation(ctx: seq<Frame>, s: T, side: Side, root0: Node?, tnull: Node)

  /** The tree's root pointer after the rotation: the rising node if s was the
      whole tree. */
  function NewRoot(r: Rotation): Node?
    requires r.s.Br? && Child(r.s, r.side).Br?
  {
    if r.ctx == [] then Child(r.s, r.side).n else r.root0
  }

  /** The heap around s.n as a rotation finds it: s.n hangs from the path's last
      node on the path's side, its `side` child is the rising node y, whose inner
      child is the top of b; these nodes and the sentinel are pairwise distinct. */
  ghost predicate Ready(r: Rotation)
    reads if r.s.Br? then {r.s.n} else {}
    reads if r.s.Br? && Child(r.s, r.side).Br? then {Child(r.s, r.side).n} else {}
    reads if r.ctx != [] then {r.ctx[0].n} else {}
  {
    r.s.Br? && Child(r.s, r.side).Br? &&
    var x, y, b := r.s.n, Child(r.s, r.side).n, Child(Child(r.s, r.side), Opposite(r.side));
    x.father == Up(r.ctx) && Slot(x, r.side) == y && Slot(y, Opposite(r.side)) == Ptr(b, r.tnull) &&
    (r.ctx != [] ==>
      Slot(r.ctx[0].n, r.ctx[0].side) == x && Slot(r.ctx[0].n, Opposite(r.ctx[0].side)) != x) &&
    x != y && Up(r.ctx) != x && Up(r.ctx) != y && x != r.tnull && y != r.tnull &&
    (b.Br? ==> b.n != x && b.n != y && b.n != Up(r.ctx) && b.n != r.tnull)
  }

  /** The pointer writes of a rotation, relative to the heap before it: x's
      `side` slot takes over the rising node y's inner subtree b, whose top now
      points back to x; y hangs from x's former parent and holds x on its other
      side; keys and colours stay, and every other node is untouched. */
  twostate predicate RotatedHeap(r: Rotation)
    requires r.s.Br? && Child(r.s, r.side).Br?
    requires forall o :: o in Nodes(r.s) + PathNodes(r.ctx) ==> old(allocated(o))
    reads {r.s.n, Child(r.s, r.side).n} + Nodes(Child(Child(r.s, r.side), Opposite(r.side)))
    reads Nodes(r.s) + PathNodes(r.ctx)
  {
    var side, opp := r.side, Opposite(r.side);
    var x, yt := r.s.n, Child(r.s, r.side);
    var y, b := yt.n, Child(yt, opp);
    x.data == old(x.data) && x.color == old(x.color) && x.father == y &&
    Slot(x, side) == Ptr(b, r.tnull) && Slot(x, opp) == old(Slot(x, opp)) &&
    y.data == old(y.data) && y.color == old(y.color) && y.father == Up(r.ctx) &&
    Slot(y, opp) == x && Slot(y, side) == old(Slot(y, side)) &&
    (b.Br? ==>
      b.n.father == x && b.n.data == old(b.n.data) && b.n.color == old(b.n.color) &&
      b.n.left == old(b.n.left) && b.n.right == old(b.n.right)) &&
    (r.ctx != [] ==>
      var f := r.ctx[0];
      f.n.data == old(f.n.data) && f.n.color == old(f.n.color) && f.n.father == old(f.n.father) &&
      Slot(f.n, f.side) == y && Slot(f.n, Opposite(f.side)) == old(Slot(f.n, Opposite(f.side)))) &&
    forall o :: o in Nodes(r.s) + PathNodes(r.ctx) && o != x && o != y && (b.Nil? || o != b.n) && o != Up(r.ctx) ==>
      Untouched(o)
  }

  /** Below the rising node, the rotated heap matches the promoted subtree. */
  twostate lemma RotatedBelow(r: Rotation)
    requires r.s.Br? && Child(r.s, r.side).Br?
    requires Distinct(r.s) && Nodes(r.s) !! PathNodes(r.ctx) && r.tnull !in Nodes(r.s)
    requires old(Matches(r.s, r.s.n, Up(r.ctx), r.tnull))
    requires forall o :: o in Nodes(r.s) + PathNodes(r.ctx) ==> old(allocated(o))
    requires RotatedHeap(r)
    ensures Matches(Promote(r.s, r.side), Child(r.s, r.side).n, Up(r.ctx), r.tnull)
  {
    var side, opp, s, tnull := r.side, Opposite(r.side), r.s, r.tnull;
    var x, yt := s.n, Child(s, side);
    var y, a, b, c := yt.n, Child(s, opp), Child(yt, opp), Child(yt, side);
    assert Nodes(s) == {x} + Nodes(a) + Nodes(yt) && x !in Nodes(a) + Nodes(yt) && Nodes(a) !! Nodes(yt);
    assert Nodes(yt) == {y} + Nodes(b) + Nodes(c) && y !in Nodes(b) + Nodes(c) && Nodes(b) !! Nodes(c);
    assert Distinct(yt) && Distinct(b);
    assert old(Matches(a, Slot(x, opp), x, tnull) && Matches(yt, Slot(x, side), x, tnull));
    assert old(Matches(b, Slot(y, opp), y, tnull) && Matches(c, Slot(y, side), y, tnull));
    assert Up(r.ctx) == null || Up(r.ctx) in PathNodes(r.ctx);
    forall o | o in Nodes(a) + Nodes(c) ensures Untouched(o) {
      assert o in Nodes(s) && o != x && o != y && (b.Nil? || o != b.n) && o != Up(r.ctx);
    }
    MatchesFrame(Site(a, Slot(x, opp), x, tnull));
    MatchesFrame(Site(c, Slot(y, side), y, tnull));
    if b.Br? {
      assert Nodes(b.l) + Nodes(b.r) <= Nodes(b) && b.n !in Nodes(b.l) + Nodes(b.r);
      forall o | o in Nodes(b.l) + Nodes(b.r) ensures Untouched(o) {
        assert o in Nodes(s) && o != x && o != y && o != b.n && o != Up(r.ctx);
      }
      assert old(Matches(b.l, b.n.left, b.n, tnull) && Matches(b.r, b.n.right, b.n, tnull));
      MatchesFrame(Site(b.l, b.n.left, b.n, tnull));
      MatchesFrame(Site(b.r, b.n.right, b.n, tnull));
    }
    assert Matches(b, Slot(x, side), x, tnull);
    assert Matches(Child(Promote(s, side), opp), x, y, tnull);
  }

  /** Above the rotated subtree, the path matches with the rising node in place of
      the old top. */
  twostate lemma RotatedAbove(r: Rotation)
    requires r.s.Br? && Child(r.s, r.side).Br?
    requires PathDistinct(r.ctx) && Nodes(r.s) !! PathNodes(r.ctx)
    requires old(MatchesPath(r.ctx, r.s.n, r.root0, r.tnull))
    requires forall o :: o in Nodes(r.s) + PathNodes(r.ctx) ==> old(allocated(o))
    requires RotatedHeap(r)
    ensures MatchesPath(r.ctx, Child(r.s, r.side).n, NewRoot(r), r.tnull)
  {
    var ctx, tnull := r.ctx, r.tnull;
    if ctx != [] {
      var f := ctx[0];
      var x, yt := r.s.n, Child(r.s, r.side);
      var b := Child(yt, Opposite(r.side));
      assert Nodes(yt) <= Nodes(r.s) && Nodes(b) <= Nodes(yt);
      assert x in Nodes(r.s) && yt.n in Nodes(r.s) && (b.Br? ==> b.n in Nodes(r.s));
      forall o | o in Nodes(f.sib) + PathNodes(ctx[1..]) ensures Untouched(o) {
        assert o in PathNodes(ctx) && o != f.n;
      }
      assert old(Matches(f.sib, Slot(f.n, Opposite(f.side)), f.n, tnull));
      MatchesFrame(Site(f.sib, Slot(f.n, Opposite(f.side)), f.n, tnull));
      PathFrame(PathSite(ctx[1..], f.n, r.root0, tnull));
    }
  }

  /** The heap matches s below s.n and the path above it, over distinct nodes. */
  ghost predicate Split(r: Rotation)
    reads Nodes(r.s) + PathNodes(r.ctx)
  {
    r.s.Br? && MatchesPath(r.ctx, r.s.n, r.root0, r.tnull) && Matches(r.s, r.s.n, Up(r.ctx), r.tnull) &&
    Distinct(r.s) && PathDistinct(r.ctx) && Nodes(r.s) !! PathNodes(r.ctx) && r.tnull !in Nodes(r.s)
  }

  /** A heap that matches the whole tree Plug(ctx, s) is ready for a rotation at
      s.n, and the tree splits into s and the path above it. */
  lemma RotateSetup(r: Rotation)
    requires r.s.Br? && Child(r.s, r.side).Br?
    requires Matches(Plug(r.ctx, r.s), r.root0, null, r.tnull)
    requires Distinct(Plug(r.ctx, r.s)) && r.tnull !in Nodes(Plug(r.ctx, r.s))
    ensures Ready(r) && Split(r)
    ensures Nodes(Plug(r.ctx, r.s)) == Nodes(r.s) + PathNodes(r.ctx)
    ensures r.s.n in Nodes(r.s) && Child(r.s, r.side).n in Nodes(r.s)
    ensures Child(Child(r.s, r.side), Opposite(r.side)).Br? ==> Child(Child(r.s, r.side), Opposite(r.side)).n in Nodes(r.s)
    ensures r.ctx != [] ==> r.ctx[0].n in PathNodes(r.ctx)
  {
    var ctx, s, side, tnull := r.ctx, r.s, r.side, r.tnull;
    var yt := Child(s, side);
    var b := Child(yt, Opposite(side));
    Decompose(ctx, s, r.root0, tnull);
    PlugDistinct(ctx, s);
    PlugNodes(ctx, s);
    if ctx != [] {
      MatchesPtr(ctx[0].sib, Slot(ctx[0].n, Opposite(ctx[0].side)), ctx[0].n, tnull);
    }
    assert Matches(yt, Slot(s.n, side), s.n, tnull);
    MatchesPtr(b, Slot(yt.n, Opposite(side)), yt.n, tnull);
    assert Nodes(yt) <= Nodes(s) && Nodes(b) <= Nodes(yt);
  }

  /** The pointer writes of a rotation turn a heap that matched Plug(ctx, s) into
      one that matches Plug(ctx, Promote(s, side)), over the same nodes. */
  twostate lemma RotateDone(r: Rotation)
    requires r.s.Br? && Child(r.s, r.side).Br?
    requires old(Split(r))
    requires forall o :: o in Nodes(r.s) + PathNodes(r.ctx) ==> old(allocated(o))
    requires RotatedHeap(r)
    requires r.tnull.color == BLACK && r.tnull !in Nodes(r.s) + PathNodes(r.ctx)
    ensures Holds(Fix(r.ctx, Promote(r.s, r.side), NewRoot(r), r.tnull))
    ensures Nodes(Plug(r.ctx, Promote(r.s, r.side))) == Nodes(r.s) + PathNodes(r.ctx)
    ensures forall o :: o in Nodes(r.s) + PathNodes(r.ctx) ==> o.data == old(o.data)
  {
    assert Distinct(r.s) && PathDistinct(r.ctx) && Nodes(r.s) !! PathNodes(r.ctx) && r.tnull !in Nodes(r.s);
    RotatedBelow(r);
    RotatedAbove(r);
    var t := Promote(r.s, r.side);
    Decompose(r.ctx, t, NewRoot(r), r.tnull);
    PromoteDistinct(r.s, r.side);
    PlugDistinct(r.ctx, t);
    PlugNodes(r.ctx, t);
  }

  /** Node o existed before, its key and links are as they were, and its colour is
      m's value for it if m has one and the old colour otherwise. */
  twostate predicate Repainted(new o: Node, m: map<Node, int>)
    reads o
  {
    old(allocated(o)) && o.data == old(o.data) && o.father == old(o.father) &&
    o.left == old(o.left) && o.right == old(o.right) &&
    o.color == (if o in m then m[o] else old(o.color))
  }

  /** A subtree with where it hangs, and the colours written into its nodes. */
  datatype Painting = Painting(t: T, m: map<Node, int>, p: Node?, par: Node?, tnull: Node)

  /** Writing colours only keeps the heap in agreement with the repainted tree. */
  twostate lemma {:induction false} MatchesRepaint(w: Painting)
    requires old(Matches(w.t, w.p, w.par, w.tnull))
    requires forall o :: o in Nodes(w.t) ==> Repainted(o, w.m)
    ensures Matches(Repaint(w.t, w.m), w.p, w.par, w.tnull)
    decreases w.t
  {
    if w.t.Br? {
      var n := w.t.n;
      assert Repainted(n, w.m);
      MatchesRepaint(Painting(w.t.l, w.m, n.left, n, w.tnull));
      MatchesRepaint(Painting(w.t.r, w.m, n.right, n, w.tnull));
    }
  }

  /** The state of the loop of arreglarInsert: the tree is Plug(ctx, t), k is the
      top node of t, and root is the tree's root pointer. */
  datatype Fix = Fix(ctx: seq<Frame>, t: T, root: Node?, tnull: Node)

  /** The heap matches the whole tree, every node occurs once, and the black
      sentinel is outside the tree. */
  ghost predicate Holds(w: Fix)
    reads Nodes(Plug(w.ctx, w.t)), w.tnull
  {
    Matches(Plug(w.ctx, w.t), w.root, null, w.tnull) && Distinct(Plug(w.ctx, w.t)) &&
    w.tnull !in Nodes(Plug(w.ctx, w.t)) && w.tnull.color == BLACK
  }

  /** The root of a path that leads somewhere is its last node. */
  lemma {:induction false} PathRoot(ctx: seq<Frame>, fp: Node, root: Node?, tnull: Node)
    requires ctx != [] && MatchesPath(ctx, fp, root, tnull)
    ensures root == ctx[|ctx| - 1].n && root in PathNodes(ctx)
    decreases |ctx|
  {
    if |ctx| > 1 {
      PathRoot(ctx[1..], ctx[0].n, root, tnull);
    }
  }

  /** Where k sits: it is the root exactly when the path above it is empty, and
      otherwise its father is the path's first node, coloured as the path says. */
  lemma KState(w: Fix)
    requires w.t.Br? && Holds(w)
    ensures w.t.n == w.root <==> w.ctx == []
    ensures w.ctx != [] ==> w.t.n.father == w.ctx[0].n && w.ctx[0].n.color == w.ctx[0].c
    ensures w.root != null && w.root in Nodes(Plug(w.ctx, w.t))
  {
    Decompose(w.ctx, w.t, w.root, w.tnull);
    PlugDistinct(w.ctx, w.t);
    PlugNodes(w.ctx, w.t);
    if w.ctx != [] {
      PathRoot(w.ctx, w.t.n, w.root, w.tnull);
    }
  }

  /** What the loop body of arreglarInsert reads when k's father is red: the
      father p and grandfather g exist, each hangs on the side the path says, and
      the uncle slot of g holds the sentinel or the uncle, red exactly when the
      uncle subtree is. */
  lemma Around(w: Fix)
    requires w.t.Br? && AlmostRB(w.ctx, w.t) && w.ctx != [] && w.ctx[0].n.color == RED
    requires Holds(w)
    ensures |w.ctx| >= 2 && w.ctx[0].c == RED
    ensures var k, p, g := w.t.n, w.ctx[0].n, w.ctx[1].n;
      k.father == p && p.father == g &&
      Slot(p, w.ctx[0].side) == k && Slot(p, Opposite(w.ctx[0].side)) != k &&
      Slot(g, w.ctx[1].side) == p && Slot(g, Opposite(w.ctx[1].side)) != p &&
      Slot(g, Opposite(w.ctx[1].side)) == Ptr(w.ctx[1].sib, w.tnull) &&
      (Ptr(w.ctx[1].sib, w.tnull).color == RED <==> Red(w.ctx[1].sib)) &&
      {k, p, g} <= Nodes(Plug(w.ctx, w.t)) &&
      (w.ctx[1].sib.Br? ==> w.ctx[1].sib.n in Nodes(Plug(w.ctx, w.t)))
  {
    var ctx, t, tnull := w.ctx, w.t, w.tnull;
    Decompose(ctx, t, w.root, tnull);
    PlugDistinct(ctx, t);
    PlugNodes(ctx, t);
    var fp, fg := ctx[0], ctx[1];
    assert MatchesPath(ctx[1..], fp.n, w.root, tnull);
    assert ctx[1..][1..] == ctx[2..];
    MatchesPtr(fp.sib, Slot(fp.n, Opposite(fp.side)), fp.n, tnull);
    MatchesPtr(fg.sib, Slot(fg.n, Opposite(fg.side)), fg.n, tnull);
    assert fp.n in PathNodes(ctx) && fg.n in PathNodes(ctx[1..]) && Nodes(fg.sib) <= PathNodes(ctx[1..]);
  }

  /** In the loop of arreglarInsert, Nodo's getAbuelo and getTio name the
      grandparent frame's node and the top of the uncle subtree, the same node
      the loop reads as k.father.father.left or .right. */
  lemma UncleInTree(w: Fix)
    requires w.t.Br? && AlmostRB(w.ctx, w.t) && w.ctx != [] && w.ctx[0].n.color == RED
    requires Holds(w)
    ensures |w.ctx| >= 2
    ensures w.t.n.Grandparent() == w.ctx[1].n
    ensures w.t.n.Uncle() == Ptr(w.ctx[1].sib, w.tnull)
    ensures w.t.n.Uncle() == (if w.ctx[1].side == Right then w.ctx[1].n.left else w.ctx[1].n.right)
  {
    Around(w);
  }

  /** Colours written by case 3.1: uncle and father black, grandfather red. */
  ghost function RecolorMap(ctx: seq<Frame>): map<Node, int>
    requires |ctx| >= 2 && ctx[1].sib.Br?
  {
    map[ctx[1].sib.n := BLACK, ctx[0].n := BLACK, ctx[1].n := RED]
  }

  /** Case 3.1 on the heap: after the three colour writes the heap matches the
      recoloured tree and the loop invariant holds with k at the grandfather. */
  twostate lemma RecolorCase(w: Fix)
    requires |w.ctx| >= 2 && AlmostRB(w.ctx, w.t) && w.ctx[0].c == RED && Red(w.ctx[1].sib)
    requires old(Holds(w)) && w.tnull.color == BLACK
    requires forall o :: o in Nodes(Plug(w.ctx, w.t)) ==> Repainted(o, RecolorMap(w.ctx))
    ensures Holds(Fix(w.ctx[2..], Recolored(w.ctx[0], w.ctx[1], w.t), w.root, w.tnull))
    ensures AlmostRB(w.ctx[2..], Recolored(w.ctx[0], w.ctx[1], w.t))
    ensures Keys(Plug(w.ctx[2..], Recolored(w.ctx[0], w.ctx[1], w.t))) == Keys(Plug(w.ctx, w.t))
    ensures Nodes(Plug(w.ctx[2..], Recolored(w.ctx[0], w.ctx[1], w.t))) == Nodes(Plug(w.ctx, w.t))
  {
    var whole, m := Plug(w.ctx, w.t), RecolorMap(w.ctx);
    MatchesRepaint(Painting(whole, m, w.root, null, w.tnull));
    RecolorIsRepaint(w.ctx, w.t);
    RepaintDistinct(whole, m);
    RecolorStep(w.ctx, w.t);
  }

  /** The rotation of case 3.2.2, at the father: k rises. */
  function InnerRotation(w: Fix): Rotation
    requires w.ctx != []
  {
    Rotation(w.ctx[1..], Fill(w.ctx[0], w.t), w.ctx[0].side, w.root, w.tnull)
  }

  /** Case 3.2.2 after its rotation at the father: the same tree read with the
      old father as k, now on the outer side. */
  lemma InnerCase(w: Fix)
    requires |w.ctx| >= 2 && AlmostRB(w.ctx, w.t)
    requires w.ctx[0].c == RED && !Red(w.ctx[1].sib) && w.ctx[0].side != w.ctx[1].side
    requires Holds(Fix(w.ctx[1..], Promote(Fill(w.ctx[0], w.t), w.ctx[0].side), w.root, w.tnull))
    ensures var ctx', t' := [InnerFrame(w.ctx[0], w.ctx[1], w.t)] + w.ctx[1..], InnerTree(w.ctx[0], w.ctx[1], w.t);
      Holds(Fix(ctx', t', w.root, w.tnull)) && AlmostRB(ctx', t') &&
      ctx'[0].c == RED && ctx'[0].side == ctx'[1].side && t'.n == w.ctx[0].n &&
      t'.n.father == ctx'[0].n && ctx'[0].n.color == RED &&
      Keys(Plug(ctx', t')) == Keys(Plug(w.ctx, w.t)) && Nodes(Plug(ctx', t')) == Nodes(Plug(w.ctx, w.t))
  {
    var s := Fill(w.ctx[0], w.t);
    var t' := InnerTree(w.ctx[0], w.ctx[1], w.t);
    var ctx' := [InnerFrame(w.ctx[0], w.ctx[1], w.t)] + w.ctx[1..];
    InnerStep(w.ctx, w.t);
    assert ctx'[1..] == w.ctx[1..];
    assert Plug(ctx', t') == Plug(w.ctx[1..], Promote(s, w.ctx[0].side));
    assert Plug(w.ctx, w.t) == Plug(w.ctx[1..], s);
    PlugKeys(w.ctx[1..], s, Promote(s, w.ctx[0].side));
    PlugNodes(w.ctx[1..], s);
    PlugNodes(w.ctx[1..], Promote(s, w.ctx[0].side));
    KState(Fix(ctx', t', w.root, w.tnull));
  }

  /** Colours written by case 3.2.1 before its rotation: father black, grandfather red. */
  ghost function PaintMap(ctx: seq<Frame>): map<Node, int>
    requires |ctx| >= 2
  {
    map[ctx[0].n := BLACK, ctx[1].n := RED]
  }

  /** The two colour writes of case 3.2.1 on the heap. */
  twostate lemma PaintCase(w: Fix)
    requires |w.ctx| >= 2
    requires old(Holds(w)) && w.tnull.color == BLACK
    requires forall o :: o in Nodes(Plug(w.ctx, w.t)) ==> Repainted(o, PaintMap(w.ctx))
    ensures Holds(Fix(w.ctx[2..], Painted(w.ctx[0], w.ctx[1], w.t), w.root, w.tnull))
    ensures Nodes(Plug(w.ctx[2..], Painted(w.ctx[0], w.ctx[1], w.t))) == Nodes(Plug(w.ctx, w.t))
  {
    var whole, m := Plug(w.ctx, w.t), PaintMap(w.ctx);
    MatchesRepaint(Painting(whole, m, w.root, null, w.tnull));
    PaintedIsRepaint(w.ctx, w.t);
    RepaintDistinct(whole, m);
  }

  /** The rotation of case 3.2.1, at the grandfather: the father rises. */
  function OuterRotation(w: Fix): Rotation
    requires |w.ctx| >= 2
  {
    Rotation(w.ctx[2..], Painted(w.ctx[0], w.ctx[1], w.t), w.ctx[1].side, w.root, w.tnull)
  }

  /** Case 3.2.1 after its rotation at the grandfather: the same tree read with
      k's father, now black, on top of k's old grandfather. */
  lemma OuterCase(w: Fix)
    requires |w.ctx| >= 2 && AlmostRB(w.ctx, w.t)
    requires w.ctx[0].c == RED && !Red(w.ctx[1].sib) && w.ctx[0].side == w.ctx[1].side
    requires Holds(Fix(w.ctx[2..], Promote(Painted(w.ctx[0], w.ctx[1], w.t), w.ctx[1].side), w.root, w.tnull))
    ensures var ctx' := [OuterFrame(w.ctx[0], w.ctx[1])] + w.ctx[2..];
      Holds(Fix(ctx', w.t, w.root, w.tnull)) && AlmostRB(ctx', w.t) && ctx'[0].c == BLACK &&
      Keys(Plug(ctx', w.t)) == Keys(Plug(w.ctx, w.t)) && Nodes(Plug(ctx', w.t)) == Nodes(Plug(w.ctx, w.t))
  {
    var s := Painted(w.ctx[0], w.ctx[1], w.t);
    var ctx' := [OuterFrame(w.ctx[0], w.ctx[1])] + w.ctx[2..];
    OuterStep(w.ctx, w.t);
    assert ctx'[1..] == w.ctx[2..];
    assert Plug(ctx', w.t) == Plug(w.ctx[2..], Promote(s, w.ctx[1].side));
    PlugKeys(w.ctx[2..], s, Promote(s, w.ctx[1].side));
    PlugNodes(w.ctx[2..], s);
    PlugNodes(w.ctx[2..], Promote(s, w.ctx[1].side));
  }

  /** The last write of arreglarInsert: blackening the root leaves a red-black tree. */
  twostate lemma FinishCase(w: Fix)
    requires w.t.Br? && AlmostRB(w.ctx, w.t) && (w.ctx == [] || w.ctx[0].c != RED)
    requires old(Holds(w)) && w.tnull.color == BLACK
    requires forall o :: o in Nodes(Plug(w.ctx, w.t)) ==> Repainted(o, map[w.root := BLACK])
    ensures Holds(Fix([], Blacken(Plug(w.ctx, w.t)), w.root, w.tnull))
    ensures IsRedBlack(Blacken(Plug(w.ctx, w.t)))
  {
    var whole := Plug(w.ctx, w.t);
    var m := map[w.root := BLACK];
    if w.ctx != [] {
      PlugRoot(w.ctx, w.t);
    }
    assert whole.Br? && old(Matches(whole, w.root, null, w.tnull));
    MatchesRepaint(Painting(whole, m, w.root, null, w.tnull));
    BlackenIsRepaint(whole);
    RepaintDistinct(whole, m);
    FixDone(w.ctx, w.t);
  }

  class Tree {
    var root: Node
    const tnull: Node
    /** The abstract tree the heap currently represents. */
    ghost var abs: T
    /** The nodes of the tree, the sentinel excluded. */
    ghost var Repr: set<Node>

    /** Structural well-formedness: the heap is the tree abs, every node once,
        the sentinel black and outside the tree. */
    ghost predicate Wf()
      reads this, Repr, tnull
    {
      Repr == Nodes(abs) && tnull !in Repr && tnull.color == BLACK &&
      Distinct(abs) && Matches(abs, root, null, tnull)
    }

    /** Well-formed, red-black and ordered. */
    ghost predicate Valid()
      reads this, Repr, tnull
    {
      Wf() && IsRedBlack(abs) && Sorted(Keys(abs))
    }

    /** Arbol(): an empty tree whose root is the black sentinel. */
    constructor ()
      ensures Valid()
      ensures root == tnull && tnull.color == BLACK && tnull.IsLeaf() && tnull.father == null
      ensures abs == Nil && Repr == {}
    {
      var sentinel := new Node();
      sentinel.color := BLACK;
      tnull := sentinel;
      root := sentinel;
      abs := Nil;
      Repr := {};
    }

    /** The node insertar builds: the key, red, no father, and the sentinel in
        both child slots. It is new, so nothing in the tree changes. */
    method NewLeaf(key: int) returns (node: Node)
      ensures fresh(node) && node != tnull
      ensures node.data == key && node.color == RED && node.father == null
      ensures node.left == tnull && node.right == tnull
    {
      node := new Node();
      node.father := null;
      node.data := key;
      node.left := tnull;
      node.right := tnull;
      node.color := RED;
    }

    /** The descent of insertar: starting at the root, go left while the new key
        is smaller than the node's and right otherwise, until the sentinel. The
        last node passed, y, is the new node's parent, and ctx is the path from
        the reached sentinel slot up to the root: linking a red leaf there is
        Ins on the abstract tree. */
    method Descend(node: Node) returns (y: Node?, ghost ctx: seq<Frame>)
      requires Wf()
      ensures Plug(ctx, Nil) == abs && y == Up(ctx) && MatchesPath(ctx, tnull, root, tnull)
      ensures Ins(abs, node.data, node) == Plug(ctx, Br(node, RED, node.data, Nil, Nil))
      ensures ctx != [] ==> (ctx[0].side == Left <==> node.data < ctx[0].k)
      ensures y == null <==> abs == Nil
      ensures y != null ==> y in Repr && (if node.data < y.data then y.left else y.right) == tnull
    {
      ghost var sub := abs;
      ctx := [];
      y := null;
      var x := root;
      while x != tnull
        invariant Plug(ctx, sub) == abs && Nodes(sub) <= Repr
        invariant x == Ptr(sub, tnull) && y == Up(ctx) && Matches(sub, x, y, tnull)
        invariant Ins(abs, node.data, node) == Plug(ctx, Ins(sub, node.data, node))
        invariant ctx != [] ==> (ctx[0].side == Left <==> node.data < ctx[0].k)
        decreases sub
      {
        ghost var above := ctx;
        y := x;
        if node.data < x.data {
          x := x.left;
          ctx, sub := [Frame(Left, sub.n, sub.c, sub.k, sub.r)] + ctx, sub.l;
        } else {
          x := x.right;
          ctx, sub := [Frame(Right, sub.n, sub.c, sub.k, sub.l)] + ctx, sub.r;
        }
        assert ctx[1..] == above;
      }
      Decompose(ctx, sub, root, tnull);
      PlugNodes(ctx, Nil);
      if ctx != [] {
        PlugRoot(ctx, Nil);
      }
    }

    /** The pointer writes of rotarIzquierda: x's right child y takes x's place
        under x's parent (or as the root), x becomes y's left child and y's former
        left subtree becomes x's right subtree; nothing else changes. */
    method RelinkLeft(x: Node, ghost r: Rotation)
      requires r.side == Right && r.s.Br? && Child(r.s, r.side).Br? && r.s.n == x
      requires r.root0 == root && r.tnull == tnull && Ready(r)
      requires Repr == Nodes(r.s) + PathNodes(r.ctx) && tnull !in Repr
      requires x in Nodes(r.s) && Child(r.s, r.side).n in Nodes(r.s)
      requires Child(Child(r.s, r.side), Opposite(r.side)).Br? ==>
        Child(Child(r.s, r.side), Opposite(r.side)).n in Nodes(r.s)
      requires r.ctx != [] ==> r.ctx[0].n in PathNodes(r.ctx)
      modifies this, Repr
      ensures RotatedHeap(r) && root == NewRoot(r) && unchanged(tnull)
      ensures abs == old(abs) && Repr == old(Repr)
    {
      var y := x.right;
      x.right := y.left;
      if y.left != tnull {
        y.left.father := x;
      }
      y.father := x.father;
      if x.father == null {
        root := y;
      } else if x == x.father.left {
        x.father.left := y;
      } else {
        x.father.right := y;
      }
      y.left := x;
      x.father := y;
    }

    /** The pointer writes of rotarDerecha, the mirror image of RelinkLeft: x's
        left child rises. */
    method RelinkRight(x: Node, ghost r: Rotation)
      requires r.side == Left && r.s.Br? && Child(r.s, r.side).Br? && r.s.n == x
      requires r.root0 == root && r.tnull == tnull && Ready(r)
      requires Repr == Nodes(r.s) + PathNodes(r.ctx) && tnull !in Repr
      requires x in Nodes(r.s) && Child(r.s, r.side).n in Nodes(r.s)
      requires Child(Child(r.s, r.side), Opposite(r.side)).Br? ==>
        Child(Child(r.s, r.side), Opposite(r.side)).n in Nodes(r.s)
      requires r.ctx != [] ==> r.ctx[0].n in PathNodes(r.ctx)
      modifies this, Repr
      ensures RotatedHeap(r) && root == NewRoot(r) && unchanged(tnull)
      ensures abs == old(abs) && Repr == old(Repr)
    {
      var y := x.left;
      x.left := y.right;
      if y.right != tnull {
        y.right.father := x;
      }
      y.father := x.father;
      if x.father == null {
        root := y;
      } else if x == x.father.right {
        x.father.right := y;
      } else {
        x.father.left := y;
      }
      y.right := x;
      x.father := y;
    }

    /** rotarIzquierda read on the tree: a heap holding Plug(ctx, s) holds
        Plug(ctx, Promote(s, Right)) afterwards, over the same nodes. */
    method RotateLeft(x: Node, ghost r: Rotation)
      requires r.side == Right && r.s.Br? && Child(r.s, r.side).Br? && r.s.n == x
      requires r.root0 == root && r.tnull == tnull
      requires Holds(Fix(r.ctx, r.s, root, tnull)) && Repr == Nodes(Plug(r.ctx, r.s))
      modifies this, Repr
      ensures root == NewRoot(r) && Holds(Fix(r.ctx, Promote(r.s, r.side), root, tnull))
      ensures abs == old(abs) && Repr == old(Repr) && Repr == Nodes(Plug(r.ctx, Promote(r.s, r.side)))
      ensures forall n :: n in old(Repr) ==> n.data == old(n.data)
    {
      RotateSetup(r);
      RelinkLeft(x, r);
      RotateDone(r);
    }

    /** rotarDerecha read on the tree: a heap holding Plug(ctx, s) holds
        Plug(ctx, Promote(s, Left)) afterwards, over the same nodes. */
    method RotateRight(x: Node, ghost r: Rotation)
      requires r.side == Left && r.s.Br? && Child(r.s, r.side).Br? && r.s.n == x
      requires r.root0 == root && r.tnull == tnull
      requires Holds(Fix(r.ctx, r.s, root, tnull)) && Repr == Nodes(Plug(r.ctx, r.s))
      modifies this, Repr
      ensures root == NewRoot(r) && Holds(Fix(r.ctx, Promote(r.s, r.side), root, tnull))
      ensures abs == old(abs) && Repr == old(Repr) && Repr == Nodes(Plug(r.ctx, Promote(r.s, r.side)))
      ensures forall n :: n in old(Repr) ==> n.data == old(n.data)
    {
      RotateSetup(r);
      RelinkRight(x, r);
      RotateDone(r);
    }

    /** Case 3.1 of arreglarInsert (k's uncle u is red): father and uncle turn
        black, the grandfather red, and the grandfather is the next k. */
    method RecolorUncle(k: Node, u: Node, ghost w: Fix) returns (g: Node)
      requires w.root == root && w.tnull == tnull && Repr == Nodes(Plug(w.ctx, w.t))
      requires Holds(w) && w.t.Br? && w.t.n == k && AlmostRB(w.ctx, w.t)
      requires |w.ctx| >= 2 && w.ctx[0].n.color == RED && u == Slot(w.ctx[1].n, Opposite(w.ctx[1].side)) && u.color == RED
      modifies Repr
      ensures var ctx', t' := w.ctx[2..], Recolored(w.ctx[0], w.ctx[1], w.t);
        t'.n == g && Holds(Fix(ctx', t', root, tnull)) && AlmostRB(ctx', t') &&
        Keys(Plug(ctx', t')) == Keys(Plug(w.ctx, w.t)) && Repr == Nodes(Plug(ctx', t'))
      ensures forall n :: n in old(Repr) ==> n.data == old(n.data)
    {
      Around(w);
      label L:
      u.color := BLACK;
      k.father.color := BLACK;
      k.father.father.color := RED;
      g := k.father.father;
      forall o | o in Repr ensures Repainted@L(o, RecolorMap(w.ctx)) {}
      RecolorCase@L(w);
    }

    /** The two colour writes of case 3.2.1 of arreglarInsert (black uncle, k on
        the outer side): the father turns black and the grandfather red. The heap
        then holds the painted subtree at the grandfather, ready for its rotation
        away from the father's side. */
    method PaintGrandfather(k: Node, ghost w: Fix)
      requires w.root == root && w.tnull == tnull && Repr == Nodes(Plug(w.ctx, w.t))
      requires Holds(w) && w.t.Br? && w.t.n == k && |w.ctx| >= 2 && AlmostRB(w.ctx, w.t)
      requires w.ctx[0].n.color == RED
      modifies Repr
      ensures Holds(Fix(w.ctx[2..], Painted(w.ctx[0], w.ctx[1], w.t), root, tnull))
      ensures Repr == Nodes(Plug(w.ctx[2..], Painted(w.ctx[0], w.ctx[1], w.t)))
      ensures k.father == w.ctx[0].n && k.father.father == w.ctx[1].n
      ensures forall n :: n in old(Repr) ==> n.data == old(n.data)
    {
      Around(w);
      label P:
      k.father.color := BLACK;
      k.father.father.color := RED;
      forall o | o in Repr ensures Repainted@P(o, PaintMap(w.ctx)) {}
      PaintCase@P(w);
    }

    /** One pass of the loop of arreglarInsert when k's father is a right child:
        case 3.1 (red uncle) recolours and moves k to the grandfather; otherwise
        case 3.2.2 (k an inner, left child) rotates the father right and takes it
        as k, and case 3.2.1 repaints and rotates the grandfather left. The tree
        keeps its keys and nodes, stays red-black but for one red-red edge above
        k, and the path above k gets shorter. */
    method RepairRight(k0: Node, ghost ctx: seq<Frame>, ghost t: T) returns (k: Node, ghost ctx': seq<Frame>, ghost t': T)
      requires Holds(Fix(ctx, t, root, tnull)) && Repr == Nodes(Plug(ctx, t))
      requires t.Br? && t.n == k0 && AlmostRB(ctx, t) && ctx != []
      requires k0.father == ctx[0].n && ctx[0].n.color == RED
      requires k0.father.father != null && k0.father == k0.father.father.right
      modifies this, Repr
      ensures Holds(Fix(ctx', t', root, tnull)) && Repr == Nodes(Plug(ctx', t')) && Repr == old(Repr)
      ensures t'.Br? && t'.n == k && AlmostRB(ctx', t') && |ctx'| < |ctx|
      ensures k == root <==> ctx' == []
      ensures ctx' != [] ==> k.father == ctx'[0].n && ctx'[0].n.color == ctx'[0].c
      ensures Keys(Plug(ctx', t')) == Keys(Plug(ctx, t))
      ensures forall n :: n in old(Repr) ==> n.data == old(n.data)
    {
      ghost var w := Fix(ctx, t, root, tnull);
      Around(w);
      k := k0;
      var u := k.father.father.left;
      if u.color == RED {
        k := RecolorUncle(k, u, w);
        ctx', t' := ctx[2..], Recolored(ctx[0], ctx[1], t);
      } else {
        ctx', t' := ctx, t;
        if k == k.father.left {
          k := k.father;
          RotateRight(k, InnerRotation(w));
          InnerCase(Fix(ctx, t, root, tnull));
          ctx', t' := [InnerFrame(ctx[0], ctx[1], t)] + ctx[1..], InnerTree(ctx[0], ctx[1], t);
        }
        PaintGrandfather(k, Fix(ctx', t', root, tnull));
        RotateLeft(k.father.father, OuterRotation(Fix(ctx', t', root, tnull)));
        OuterCase(Fix(ctx', t', root, tnull));
        ctx' := [OuterFrame(ctx'[0], ctx'[1])] + ctx'[2..];
      }
      KState(Fix(ctx', t', root, tnull));
    }

    /** The mirror image of RepairRight, when k's father is a left child. */
    method RepairLeft(k0: Node, ghost ctx: seq<Frame>, ghost t: T) returns (k: Node, ghost ctx': seq<Frame>, ghost t': T)
      requires Holds(Fix(ctx, t, root, tnull)) && Repr == Nodes(Plug(ctx, t))
      requires t.Br? && t.n == k0 && AlmostRB(ctx, t) && ctx != []
      requires k0.father == ctx[0].n && ctx[0].n.color == RED
      requires k0.father.father != null && k0.father != k0.father.father.right
      modifies this, Repr
      ensures Holds(Fix(ctx', t', root, tnull)) && Repr == Nodes(Plug(ctx', t')) && Repr == old(Repr)
      ensures t'.Br? && t'.n == k && AlmostRB(ctx', t') && |ctx'| < |ctx|
      ensures k == root <==> ctx' == []
      ensures ctx' != [] ==> k.father == ctx'[0].n && ctx'[0].n.color == ctx'[0].c
      ensures Keys(Plug(ctx', t')) == Keys(Plug(ctx, t))
      ensures forall n :: n in old(Repr) ==> n.data == old(n.data)
    {
      ghost var w := Fix(ctx, t, root, tnull);
      Around(w);
      k := k0;
      var u := k.father.father.right;
      if u.color == RED {
        k := RecolorUncle(k, u, w);
        ctx', t' := ctx[2..], Recolored(ctx[0], ctx[1], t);
      } else {
        ctx', t' := ctx, t;
        if k == k.father.right {
          k := k.father;
          RotateLeft(k, InnerRotation(w));
          InnerCase(Fix(ctx, t, root, tnull));
          ctx', t' := [InnerFrame(ctx[0], ctx[1], t)] + ctx[1..], InnerTree(ctx[0], ctx[1], t);
        }
        PaintGrandfather(k, Fix(ctx', t', root, tnull));
        RotateRight(k.father.father, OuterRotation(Fix(ctx', t', root, tnull)));
        OuterCase(Fix(ctx', t', root, tnull));
        ctx' := [OuterFrame(ctx'[0], ctx'[1])] + ctx'[2..];
      }
      KState(Fix(ctx', t', root, tnull));
    }

    /** The last statement of arreglarInsert: once k's father is black, or k has
        reached the root, painting the root black leaves a red-black tree with
        the same keys and nodes. */
    method BlackenRoot(ghost ctx: seq<Frame>, ghost t: T)
      requires Holds(Fix(ctx, t, root, tnull)) && Repr == Nodes(Plug(ctx, t))
      requires t.Br? && AlmostRB(ctx, t) && (ctx == [] || ctx[0].c != RED)
      modifies this, Repr
      ensures Wf() && abs == Blacken(Plug(ctx, t)) && IsRedBlack(abs)
      ensures Keys(abs) == Keys(Plug(ctx, t)) && Repr == old(Repr)
      ensures forall n :: n in old(Repr) ==> n.data == old(n.data)
    {
      KState(Fix(ctx, t, root, tnull));
      abs := Blacken(Plug(ctx, t));
      label F:
      root.color := BLACK;
      forall o | o in Repr ensures Repainted@F(o, map[root := BLACK]) {}
      FinishCase@F(Fix(ctx, t, root, tnull));
    }

    /** arreglarInsert: k is red and hangs below a father; while the father is
        red, repair by recolouring (red uncle) or by one or two rotations (black
        uncle), moving k up; finally blacken the root. The tree keeps its keys
        and its nodes and becomes red-black. */
    method FixInsert(k0: Node, ghost ctx0: seq<Frame>, ghost t0: T)
      requires Wf() && abs == Plug(ctx0, t0) && t0.Br? && t0.n == k0
      requires AlmostRB(ctx0, t0) && ctx0 != []
      modifies this, Repr
      ensures Wf() && IsRedBlack(abs)
      ensures Keys(abs) == old(Keys(abs)) && Repr == old(Repr)
      ensures forall n :: n in old(Repr) ==> n.data == old(n.data)
    {
      var k := k0;
      ghost var ctx, t := ctx0, t0;
      KState(Fix(ctx, t, root, tnull));
      while k.father.color == RED
        invariant Holds(Fix(ctx, t, root, tnull)) && Repr == Nodes(Plug(ctx, t)) && Repr == old(Repr)
        invariant t.Br? && t.n == k && AlmostRB(ctx, t) && ctx != []
        invariant k.father == ctx[0].n && ctx[0].n.color == ctx[0].c
        invariant Keys(Plug(ctx, t)) == old(Keys(abs))
        invariant forall n :: n in old(Repr) ==> n.data == old(n.data)
        decreases |ctx|
      {
        Around(Fix(ctx, t, root, tnull));
        if k.father == k.father.father.right {
          k, ctx, t := RepairRight(k, ctx, t);
        } else {
          k, ctx, t := RepairLeft(k, ctx, t);
        }
        if k == root {
          break;
        }
      }
      BlackenRoot(ctx, t);
    }

    /** The splice of insertar: the new node takes y as its father and hangs
        from y on the side its key calls for, or becomes the root when y is null;
        the tree read from the heap is the old one with a red leaf at the end of
        ctx. */
    method Link(node: Node, y: Node?, ghost ctx: seq<Frame>)
      requires Wf() && abs == Plug(ctx, Nil) && y == Up(ctx) && MatchesPath(ctx, tnull, root, tnull)
      requires ctx != [] ==> (ctx[0].side == Left <==> node.data < ctx[0].k)
      requires node !in Repr && node != tnull
      requires node.left == tnull && node.right == tnull && node.color == RED
      modifies this, node, Repr
      ensures Wf() && abs == Plug(ctx, Br(node, RED, node.data, Nil, Nil)) && Repr == old(Repr) + {node}
      ensures node.father == y && node.data == old(node.data) && (y != null ==> y.father == old(y.father))
      ensures forall n :: n in old(Repr) ==> n.data == old(n.data)
    {
      ghost var leaf := Br(node, RED, node.data, Nil, Nil);
      PlugNodes(ctx, Nil);
      PlugDistinct(ctx, Nil);
      PlugNodes(ctx, leaf);
      PlugDistinct(ctx, leaf);
      abs := Plug(ctx, leaf);
      Repr := Repr + {node};
      label S:
      node.father := y;
      if y == null {
        root := node;
      } else if node.data < y.data {
        y.left := node;
      } else {
        y.right := node;
      }
      if ctx != [] {
        forall o | o in PathNodes(ctx) && o != ctx[0].n ensures Untouched@S(o) {}
        Spliced@S(PathSite(ctx, node, root, tnull));
      }
      Decompose(ctx, leaf, root, tnull);
    }

    /** The end of insertar, once the new red leaf is linked: a new root is
        painted black; a node with a grandparent goes to arreglarInsert; a
        child of the (black) root needs nothing. The tree ends red-black with
        the same keys and nodes. */
    method Settle(node: Node, ghost ctx: seq<Frame>)
      requires Wf() && abs == Plug(ctx, Br(node, RED, node.data, Nil, Nil)) && node.father == Up(ctx)
      requires ctx != [] ==> AlmostRB(ctx, Br(node, RED, node.data, Nil, Nil))
      requires ctx != [] ==> (ctx[0].n.father == null <==> |ctx| == 1)
      modifies this, Repr
      ensures Wf() && IsRedBlack(abs)
      ensures Keys(abs) == old(Keys(abs)) && Repr == old(Repr)
      ensures forall n :: n in old(Repr) ==> n.data == old(n.data)
    {
      if node.father == null {
        abs := Blacken(abs);
        node.color := BLACK;
        return;
      }

      if node.father != null && node.father.father != null {
        FixInsert(node, ctx, Br(node, RED, node.data, Nil, Nil));
      } else {
        BelowRoot(ctx, Br(node, RED, node.data, Nil, Nil));
      }
    }

    /** insertar: a new red node with the key descends from the root to a
        sentinel slot and is linked there; a new root is painted black, and
        below a grandparent arreglarInsert repairs the tree. The tree stays
        valid, its keys gain the key at its sorted place, and the new node is
        the only node added. */
    method Insert(key: int)
      requires Valid()
      modifies this, Repr
      ensures Valid()
      ensures Keys(abs) == InsertSorted(old(Keys(abs)), key)
      ensures old(Repr) < Repr && |Repr - old(Repr)| == 1 && fresh(Repr - old(Repr))
      ensures forall n :: n in old(Repr) ==> n.data == old(n.data)
    {
      var node := NewLeaf(key);

      var y;
      ghost var ctx;
      y, ctx := Descend(node);
      ghost var leaf := Br(node, RED, key, Nil, Nil);
      InsNodes(abs, key, node);
      InsKeys(abs, key, node);
      InsertSortedSorted(Keys(abs), key);
      if ctx != [] {
        InsertStart(ctx, node, key);
        assert y.father == null <==> |ctx| == 1;
      }
      Link(node, y, ctx);
      Settle(node, ctx);
    }
  }
}
