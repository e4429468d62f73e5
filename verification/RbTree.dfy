/**
 Red-black tree with sentinels (lib/rb_tree.c).
 */
module RbTree {
  import opened Arithmetic
  import D = Dyadic

  datatype Side = Left | Right {
    function Other(): Side { if Left? then Right else Left }
  }

  // Nodes are named by their addresses; a cell is a struct rb_node.
  type Ref = nat

  datatype Cell = Cell(red: bool, parent: Ref, left: Ref, right: Ref) {
    function Child(d: Side): Ref { if d.Left? then left else right }
    function WithChild(d: Side, v: Ref): Cell { if d.Left? then this.(left := v) else this.(right := v) }
  }

  type Mem = map<Ref, Cell>

  // ---------- the mathematical tree and its zipper ----------

  datatype Tree = Leaf | Fork(red: bool, l: Tree, node: Ref, r: Tree)

  datatype Ctx = Whole | Step(side: Side, red: bool, node: Ref, sib: Tree, up: Ctx)

  ghost function Mk(d: Side, c: bool, near: Tree, n: Ref, far: Tree): Tree {
    if d.Left? then Fork(c, near, n, far) else Fork(c, far, n, near)
  }

  ghost function Kid(t: Tree, d: Side): Tree
    requires t.Fork?
  {
    if d.Left? then t.l else t.r
  }

  ghost function Nodes(t: Tree): set<Ref> {
    match t
    case Leaf => {}
    case Fork(_, l, n, r) => Nodes(l) + {n} + Nodes(r)
  }

  ghost function CtxNodes(ctx: Ctx): set<Ref> {
    match ctx
    case Whole => {}
    case Step(_, _, n, s, up) => {n} + Nodes(s) + CtxNodes(up)
  }

  ghost function InOrder(t: Tree): seq<Ref> {
    match t
    case Leaf => []
    case Fork(_, l, n, r) => InOrder(l) + [n] + InOrder(r)
  }

  ghost function Before(ctx: Ctx): seq<Ref> {
    match ctx
    case Whole => []
    case Step(Left, _, _, _, up) => Before(up)
    case Step(Right, _, n, s, up) => Before(up) + InOrder(s) + [n]
  }

  ghost function After(ctx: Ctx): seq<Ref> {
    match ctx
    case Whole => []
    case Step(Left, _, n, s, up) => [n] + InOrder(s) + After(up)
    case Step(Right, _, _, _, up) => After(up)
  }

  ghost function Plug(ctx: Ctx, t: Tree): Tree {
    match ctx
    case Whole => t
    case Step(d, c, n, s, up) => Plug(up, Mk(d, c, t, n, s))
  }

  ghost function Depth(ctx: Ctx): nat {
    match ctx
    case Whole => 0
    case Step(_, _, _, _, up) => 1 + Depth(up)
  }

  lemma Regroup<X>(a: seq<X>, b: seq<X>, c: seq<X>, d: seq<X>, e: seq<X>)
    ensures a + (b + c + d) + e == a + b + (c + d + e)
    ensures a + (b + c + d) + e == (a + b + c) + d + e
  {
  }

  lemma {:induction false} PlugInOrder(ctx: Ctx, t: Tree)
    ensures InOrder(Plug(ctx, t)) == Before(ctx) + InOrder(t) + After(ctx)
    decreases ctx
  {
    match ctx
    case Whole =>
      assert [] + InOrder(t) + [] == InOrder(t);
    case Step(d, c, n, s, up) =>
      PlugInOrder(up, Mk(d, c, t, n, s));
      if d.Left? {
        Regroup(Before(up), InOrder(t), [n], InOrder(s), After(up));
      } else {
        Regroup(Before(up), InOrder(s), [n], InOrder(t), After(up));
      }
  }

  // ---------- red-black invariants ----------

  ghost predicate IsRed(t: Tree) { t.Fork? && t.red }

  // check_tree returns one more than this: it counts the sentinel.
  ghost function BlackHeight(t: Tree): nat {
    match t
    case Leaf => 0
    case Fork(c, l, _, _) => BlackHeight(l) + if c then 0 else 1
  }

  ghost predicate Balanced(t: Tree) {
    match t
    case Leaf => true
    case Fork(_, l, _, r) => Balanced(l) && Balanced(r) && BlackHeight(l) == BlackHeight(r)
  }

  ghost predicate NoRedRed(t: Tree) {
    match t
    case Leaf => true
    case Fork(c, l, _, r) => (c ==> !IsRed(l) && !IsRed(r)) && NoRedRed(l) && NoRedRed(r)
  }

  ghost predicate RedBlack(t: Tree) { !IsRed(t) && Balanced(t) && NoRedRed(t) }

  // The context is balanced around a hole of black height h.
  ghost predicate CtxBalanced(ctx: Ctx, h: nat) {
    match ctx
    case Whole => true
    case Step(_, c, _, s, up) =>
      Balanced(s) && BlackHeight(s) == h && CtxBalanced(up, if c then h else h + 1)
  }

  // No red node of the context has a red parent or a red child outside the hole; the topmost node is black.
  ghost predicate CtxNoRedRed(ctx: Ctx) {
    match ctx
    case Whole => true
    case Step(_, c, _, s, up) =>
      NoRedRed(s) && (c ==> !IsRed(s) && up.Step? && !up.red) && CtxNoRedRed(up)
  }

  ghost predicate HoleIsRed(ctx: Ctx) { ctx.Step? && ctx.red }

  lemma {:induction false} PlugRedBlack(ctx: Ctx, t: Tree)
    requires Balanced(t) && NoRedRed(t) && CtxBalanced(ctx, BlackHeight(t)) && CtxNoRedRed(ctx)
    requires IsRed(t) ==> ctx.Step? && !ctx.red
    ensures RedBlack(Plug(ctx, t))
    decreases ctx
  {
    match ctx
    case Whole =>
    case Step(d, c, n, s, up) => PlugRedBlack(up, Mk(d, c, t, n, s));
  }

  // A red-black tree gives red-black contexts.
  lemma {:induction false} PlugInv(ctx: Ctx, t: Tree)
    requires Balanced(Plug(ctx, t)) && NoRedRed(Plug(ctx, t))
    ensures Balanced(t) && NoRedRed(t) && CtxBalanced(ctx, BlackHeight(t))
    ensures !IsRed(Plug(ctx, t)) ==> CtxNoRedRed(ctx) && (IsRed(t) ==> ctx.Step? && !ctx.red)
    decreases ctx
  {
    match ctx
    case Whole =>
    case Step(d, c, n, s, up) => PlugInv(up, Mk(d, c, t, n, s));
  }

  // ---------- separation ----------

  ghost predicate Sep(t: Tree) {
    match t
    case Leaf => true
    case Fork(_, l, n, r) =>
      n !in Nodes(l) && n !in Nodes(r) && Nodes(l) !! Nodes(r) && Sep(l) && Sep(r)
  }

  ghost predicate CtxSep(ctx: Ctx) {
    match ctx
    case Whole => true
    case Step(_, _, n, s, up) =>
      n !in Nodes(s) && n !in CtxNodes(up) && Nodes(s) !! CtxNodes(up) && Sep(s) && CtxSep(up)
  }

  lemma {:induction false} PlugSep(ctx: Ctx, t: Tree)
    ensures Nodes(Plug(ctx, t)) == CtxNodes(ctx) + Nodes(t)
    ensures Sep(Plug(ctx, t)) <==> CtxSep(ctx) && Sep(t) && Nodes(t) !! CtxNodes(ctx)
    decreases ctx
  {
    match ctx
    case Whole =>
    case Step(d, c, n, s, up) => PlugSep(up, Mk(d, c, t, n, s));
  }

  // ---------- what the links in memory say ----------

  ghost function Top(t: Tree, nil: Ref): Ref {
    if t.Leaf? then nil else t.node
  }

  ghost function Above(ctx: Ctx, root: Ref): Ref {
    if ctx.Whole? then root else ctx.node
  }

  ghost predicate Rep(m: Mem, t: Tree, nil: Ref, p: Ref) {
    match t
    case Leaf => true
    case Fork(c, l, n, r) =>
      n in m && m[n] == Cell(c, p, Top(l, nil), Top(r, nil)) && Rep(m, l, nil, n) && Rep(m, r, nil, n)
  }

  ghost predicate CtxRep(m: Mem, ctx: Ctx, nil: Ref, root: Ref, child: Ref) {
    match ctx
    case Whole => root in m && m[root].left == child && m[root].right == nil && !m[root].red
    case Step(d, c, n, s, up) =>
      n in m && m[n].red == c && m[n].Child(d) == child && m[n].Child(d.Other()) == Top(s, nil)
      && m[n].parent == Above(up, root) && Rep(m, s, nil, n) && CtxRep(m, up, nil, root, n)
  }

  ghost function Foot(ctx: Ctx, t: Tree): set<Ref> { Nodes(t) + CtxNodes(ctx) }

  ghost predicate Apart(ctx: Ctx, t: Tree, nil: Ref, root: Ref) {
    Sep(t) && CtxSep(ctx) && Nodes(t) !! CtxNodes(ctx)
    && nil != root && nil !in Foot(ctx, t) && root !in Foot(ctx, t)
  }

  // Memory holds the tree Plug(ctx, t), seen from the position of t.
  ghost predicate Shape(m: Mem, ctx: Ctx, t: Tree, nil: Ref, root: Ref) {
    Apart(ctx, t, nil, root) && Rep(m, t, nil, Above(ctx, root)) && CtxRep(m, ctx, nil, root, Top(t, nil))
    && nil in m && !m[nil].red
  }

  // A subtree whose cells are untouched, except that its top hangs from p' instead of p.
  lemma {:induction false} RepMove(m: Mem, m': Mem, t: Tree, nil: Ref, p: Ref, p': Ref)
    requires Rep(m, t, nil, p) && Sep(t)
    requires forall n :: n in Nodes(t) && n in m ==>
               n in m' && m'[n] == if n == Top(t, nil) then m[n].(parent := p') else m[n]
    ensures Rep(m', t, nil, p')
  {
    match t
    case Leaf =>
    case Fork(_, l, n, r) =>
      RepMove(m, m', l, nil, n, n);
      RepMove(m, m', r, nil, n, n);
  }

  // A context whose cells are untouched, except that its hole now holds child'.
  lemma {:induction false} CtxRepMove(m: Mem, m': Mem, ctx: Ctx, nil: Ref, root: Ref, child: Ref, child': Ref)
    requires CtxRep(m, ctx, nil, root, child) && CtxSep(ctx) && root !in CtxNodes(ctx)
    requires forall n :: n in CtxNodes(ctx) + {root} && n in m ==>
               n in m' && m'[n] == if n != Above(ctx, root) then m[n]
                                   else m[n].WithChild(if ctx.Whole? then Left else ctx.side, child')
    ensures CtxRep(m', ctx, nil, root, child')
  {
    match ctx
    case Whole =>
    case Step(d, c, n, s, up) =>
      RepMove(m, m', s, nil, n, n);
      assert Above(up, root) != n;
      CtxRepMove(m, m', up, nil, root, n, n);
  }

  // FUNC_ROTATE(_left, _right): the _right child of x takes x's place and x becomes its _left child.
  ghost function Rotated(d: Side, t: Tree): Tree
    requires t.Fork? && Kid(t, d.Other()).Fork?
  {
    var y := Kid(t, d.Other());
    Mk(d, y.red, Mk(d, t.red, Kid(t, d), t.node, Kid(y, d)), y.node, Kid(y, d.Other()))
  }

  lemma RotatedInOrder(d: Side, t: Tree)
    requires t.Fork? && Kid(t, d.Other()).Fork?
    ensures InOrder(Rotated(d, t)) == InOrder(t)
  {
    var y := Kid(t, d.Other());
    var a, b, c := InOrder(Kid(t, d)), InOrder(Kid(y, d)), InOrder(Kid(y, d.Other()));
    if d.Left? {
      assert (a + [t.node] + b) + [y.node] + c == a + [t.node] + (b + [y.node] + c);
    } else {
      assert c + [y.node] + (b + [t.node] + a) == (c + [y.node] + b) + [t.node] + a;
    }
  }

  lemma RotatedSep(d: Side, t: Tree)
    requires t.Fork? && Kid(t, d.Other()).Fork?
    ensures Nodes(Rotated(d, t)) == Nodes(t)
    ensures Sep(t) ==> Sep(Rotated(d, t))
  {
    var y := Kid(t, d.Other());
    var A, B, C := Kid(t, d), Kid(y, d), Kid(y, d.Other());
    var x' := Mk(d, t.red, A, t.node, B);
    MkNodes(d, t.red, A, t.node, B);
    MkNodes(d, y.red, B, y.node, C);
    MkNodes(d, y.red, x', y.node, C);
    MkNodes(d, t.red, A, t.node, y);
    assert Mk(d, y.red, B, y.node, C) == y && Mk(d, t.red, A, t.node, y) == t;
  }

  lemma MkNodes(d: Side, c: bool, a: Tree, n: Ref, b: Tree)
    ensures Nodes(Mk(d, c, a, n, b)) == Nodes(a) + {n} + Nodes(b)
    ensures Sep(Mk(d, c, a, n, b)) <==> n !in Nodes(a) + Nodes(b) && Nodes(a) !! Nodes(b) && Sep(a) && Sep(b)
  {
  }

  ghost function HoleSide(ctx: Ctx): Side { if ctx.Whole? then Left else ctx.side }

  // The cells that FUNC_ROTATE writes, b being nil or the subtree that changes sides.
  ghost predicate RotateWrites(m: Mem, m': Mem, d: Side, e: Side, x: Ref, y: Ref, b: Ref, p: Ref, nil: Ref) {
    {x, y, p} <= m.Keys == m'.Keys
    && m'[x] == m[x].WithChild(d.Other(), b).(parent := y)
    && m'[y] == m[y].WithChild(d, x).(parent := p)
    && (b != nil ==> b in m && m'[b] == m[b].(parent := x))
    && m'[p] == m[p].WithChild(e, y)
    && forall n :: n in m && n !in {x, y, p} && (n == b ==> b == nil) ==> m'[n] == m[n]
  }

  lemma RotateDistinct(m: Mem, d: Side, ctx: Ctx, t: Tree, nil: Ref, root: Ref)
    requires Shape(m, ctx, t, nil, root)
    requires t.Fork? && Kid(t, d.Other()).Fork?
    ensures t.node in m && m[t.node].Child(d.Other()) in m && m[t.node].parent in m
    ensures var x := t.node; var y := m[x].Child(d.Other()); var b := m[y].Child(d); var p := m[x].parent;
            var e := HoleSide(ctx); var Y := Kid(t, d.Other());
            p == Above(ctx, root) && y == Y.node && b == Top(Kid(Y, d), nil)
            && x != root && x != nil && y != nil && x != y && x != p && y != p && b !in {x, y, p}
            && (b != nil ==> b in m) && m[p].Child(e) == x && m[p].Child(e.Other()) != x
            && nil !in {x, y, p}
  {
    var Y := Kid(t, d.Other());
    var B := Kid(Y, d);
    assert Rep(m, Y, nil, t.node) && Rep(m, B, nil, Y.node);
    MkNodes(d, t.red, Kid(t, d), t.node, Y);
    MkNodes(d, Y.red, B, Y.node, Kid(Y, d.Other()));
    assert Mk(d, Y.red, B, Y.node, Kid(Y, d.Other())) == Y && Mk(d, t.red, Kid(t, d), t.node, Y) == t;
    assert B.Fork? ==> B.node in Nodes(B);
    assert ctx.Step? && ctx.sib.Fork? ==> ctx.sib.node in Nodes(ctx.sib);
  }

  lemma RotateRep(m: Mem, m': Mem, d: Side, e: Side, t: Tree, nil: Ref, x: Ref, y: Ref, b: Ref, p: Ref)
    requires Rep(m, t, nil, p) && Sep(t) && nil !in Nodes(t) && p !in Nodes(t)
    requires t.Fork? && t.node == x && Kid(t, d.Other()).Fork? && Kid(t, d.Other()).node == y
    requires b == Top(Kid(Kid(t, d.Other()), d), nil)
    requires RotateWrites(m, m', d, e, x, y, b, p, nil)
    ensures Rep(m', Rotated(d, t), nil, p)
  {
    var A, Y := Kid(t, d), Kid(t, d.Other());
    var B, C := Kid(Y, d), Kid(Y, d.Other());
    assert Rep(m, Y, nil, x) && Rep(m, B, nil, y) && Rep(m, C, nil, y) && Rep(m, A, nil, x);
    MkNodes(d, Y.red, B, y, C);
    assert Mk(d, Y.red, B, y, C) == Y && Sep(Y);
    assert Rep(m', A, nil, x) by { RepMove(m, m', A, nil, x, x); }
    assert Rep(m', B, nil, x) by { RepMove(m, m', B, nil, y, x); }
    assert Rep(m', C, nil, y) by { RepMove(m, m', C, nil, y, y); }
    assert Rep(m', Mk(d, t.red, A, x, B), nil, y);
  }

  lemma RotateShape(m: Mem, m': Mem, d: Side, ctx: Ctx, t: Tree, nil: Ref, root: Ref, x: Ref, y: Ref, b: Ref, p: Ref)
    requires Shape(m, ctx, t, nil, root)
    requires t.Fork? && t.node == x && Kid(t, d.Other()).Fork? && Kid(t, d.Other()).node == y
    requires b == Top(Kid(Kid(t, d.Other()), d), nil) && p == Above(ctx, root)
    requires RotateWrites(m, m', d, HoleSide(ctx), x, y, b, p, nil)
    ensures Shape(m', ctx, Rotated(d, t), nil, root)
  {
    RotatedSep(d, t);
    assert p !in Nodes(t);
    assert x in Nodes(t) && y in Nodes(t) && (b != nil ==> b in Nodes(t)) by {
      var Y := Kid(t, d.Other());
      assert y in Nodes(Y) && Nodes(Kid(Y, d)) <= Nodes(Y);
    }
    RotateRep(m, m', d, HoleSide(ctx), t, nil, x, y, b, p);
    CtxRepMove(m, m', ctx, nil, root, x, y);
  }

  // ---------- moving the zipper ----------

  lemma ShapeUp(m: Mem, ctx: Ctx, t: Tree, nil: Ref, root: Ref)
    requires ctx.Step? && Shape(m, ctx, t, nil, root)
    ensures Shape(m, ctx.up, Mk(ctx.side, ctx.red, t, ctx.node, ctx.sib), nil, root)
  {
    MkNodes(ctx.side, ctx.red, t, ctx.node, ctx.sib);
  }

  lemma ShapeDown(m: Mem, ctx: Ctx, t: Tree, nil: Ref, root: Ref, d: Side)
    requires t.Fork? && Shape(m, ctx, t, nil, root)
    ensures Shape(m, Step(d, t.red, t.node, Kid(t, d.Other()), ctx), Kid(t, d), nil, root)
  {
  }

  lemma {:induction false} ShapePlug(m: Mem, ctx: Ctx, t: Tree, nil: Ref, root: Ref)
    requires Shape(m, ctx, t, nil, root)
    ensures Shape(m, Whole, Plug(ctx, t), nil, root)
    decreases ctx
  {
    if ctx.Step? {
      ShapeUp(m, ctx, t, nil, root);
      ShapePlug(m, ctx.up, Mk(ctx.side, ctx.red, t, ctx.node, ctx.sib), nil, root);
    }
  }

  ghost function Painted(t: Tree, c: bool): Tree { if t.Leaf? then t else t.(red := c) }

  lemma PaintShape(m: Mem, ctx: Ctx, t: Tree, nil: Ref, root: Ref, c: bool)
    requires Shape(m, ctx, t, nil, root) && t.Fork?
    ensures t.node in m && t.node != nil
    ensures Shape(m[t.node := m[t.node].(red := c)], ctx, Painted(t, c), nil, root)
  {
    var m' := m[t.node := m[t.node].(red := c)];
    RepMove(m, m', t.l, nil, t.node, t.node);
    RepMove(m, m', t.r, nil, t.node, t.node);
    CtxRepMove(m, m', ctx, nil, root, t.node, t.node);
  }

  // ---------- insertion ----------

  ghost function Total(ctx: Ctx, t: Tree): seq<Ref> { Before(ctx) + InOrder(t) + After(ctx) }

  lemma TotalUp(ctx: Ctx, t: Tree)
    requires ctx.Step?
    ensures Total(ctx, t) == Total(ctx.up, Mk(ctx.side, ctx.red, t, ctx.node, ctx.sib))
  {
    if ctx.side.Left? {
      Regroup(Before(ctx.up), InOrder(t), [ctx.node], InOrder(ctx.sib), After(ctx.up));
    } else {
      Regroup(Before(ctx.up), InOrder(ctx.sib), [ctx.node], InOrder(t), After(ctx.up));
    }
  }

  // What rb_insert's loop keeps about the subtree at x and what surrounds it: the only possible
  // fault is that x and its parent are both red.
  ghost predicate InsertInv(ctx: Ctx, t: Tree) {
    IsRed(t) && Balanced(t) && NoRedRed(t) && CtxBalanced(ctx, BlackHeight(t)) && CtxNoRedRed(ctx)
  }

  ghost function Parent(ctx: Ctx, t: Tree): Tree
    requires ctx.Step?
  {
    Mk(ctx.side, ctx.red, t, ctx.node, ctx.sib)
  }

  // RB_INSERT_SUB with a red uncle
  ghost function Recoloured(ctx: Ctx, t: Tree): Tree
    requires ctx.Step? && ctx.up.Step?
  {
    var g := ctx.up;
    Mk(g.side, true, Painted(Parent(ctx, t), false), g.node, Painted(g.sib, false))
  }

  lemma RecolourKeeps(ctx: Ctx, t: Tree)
    requires InsertInv(ctx, t) && HoleIsRed(ctx) && ctx.up.Step? && IsRed(ctx.up.sib)
    ensures InsertInv(ctx.up.up, Recoloured(ctx, t))
    ensures Total(ctx.up.up, Recoloured(ctx, t)) == Total(ctx, t)
  {
    TotalUp(ctx, t);
    TotalUp(ctx.up, Parent(ctx, t));
    var g, h := ctx.up, BlackHeight(t);
    assert CtxBalanced(g, h) && CtxBalanced(g.up, h + 1) && CtxNoRedRed(g);
    assert Balanced(Parent(ctx, t)) && NoRedRed(Painted(Parent(ctx, t), false));
    assert InOrder(Recoloured(ctx, t)) == InOrder(Parent(g, Parent(ctx, t)));
  }

  // RB_INSERT_SUB with a black uncle: p is the (outer) red parent of the red node x
  ghost function Straightened(ctx: Ctx, t: Tree): Tree
    requires ctx.Step? && ctx.up.Step? && t.Fork?
  {
    if ctx.side == ctx.up.side then Parent(ctx, t) else Rotated(ctx.up.side, Parent(ctx, t))
  }

  lemma StraightenKeeps(ctx: Ctx, t: Tree)
    requires InsertInv(ctx, t) && HoleIsRed(ctx)
    ensures var P, d := Straightened(ctx, t), ctx.up.side;
            IsRed(P) && InsertInv(Step(d, true, P.node, Kid(P, d.Other()), ctx.up), Kid(P, d))
            && Total(ctx.up, P) == Total(ctx, t) && BlackHeight(P) == BlackHeight(t)
  {
    TotalUp(ctx, t);
    if ctx.side != ctx.up.side {
      RotatedInOrder(ctx.up.side, Parent(ctx, t));
    }
  }

  // The subtree at the grandparent after p is painted black, g red, and g rotated away from p's side
  ghost function InsertRotated(ctx: Ctx, P: Tree): Tree
    requires ctx.Step? && P.Fork?
  {
    Rotated(ctx.side.Other(), Mk(ctx.side, true, Painted(P, false), ctx.node, ctx.sib))
  }

  lemma InsertRotateKeeps(ctx: Ctx, P: Tree)
    requires ctx.Step? && !ctx.red && IsRed(P) && !IsRed(ctx.sib) && CtxNoRedRed(ctx)
    requires InsertInv(Step(ctx.side, true, P.node, Kid(P, ctx.side.Other()), ctx), Kid(P, ctx.side))
    ensures var G, d := InsertRotated(ctx, P), ctx.side;
            !G.red && G.node == P.node && Kid(G, d) == Kid(P, d)
            && InsertInv(Step(d, false, G.node, Kid(G, d.Other()), ctx.up), Kid(G, d))
            && Total(ctx.up, G) == Total(ctx, P)
  {
    var d := ctx.side;
    var G0 := Mk(d, true, Painted(P, false), ctx.node, ctx.sib);
    RotatedInOrder(d.Other(), G0);
    TotalUp(ctx, P);
    assert InOrder(G0) == InOrder(Parent(ctx, P));
    assert CtxBalanced(ctx, BlackHeight(P));
  }

  // ---------- order ----------

  ghost predicate Sorted(s: seq<Ref>, key: map<Ref, int>) {
    (forall i :: 0 <= i < |s| ==> s[i] in key)
    && forall i, j :: 0 <= i < j < |s| ==> key[s[i]] <= key[s[j]]
  }

  lemma {:induction false} InOrderNodes(t: Tree)
    ensures forall n :: n in InOrder(t) <==> n in Nodes(t)
  {
    if t.Fork? {
      InOrderNodes(t.l);
      InOrderNodes(t.r);
    }
  }

  // Everything left of the hole is at most k, everything right of it is greater.
  ghost predicate Fits(ctx: Ctx, key: map<Ref, int>, k: int) {
    (forall n :: n in Before(ctx) ==> n in key && key[n] <= k)
    && (forall n :: n in After(ctx) ==> n in key && key[n] > k)
  }

  lemma SortedAround(a: seq<Ref>, l: seq<Ref>, n: Ref, r: seq<Ref>, b: seq<Ref>, key: map<Ref, int>)
    requires Sorted(a + (l + [n] + r) + b, key)
    ensures n in key
    ensures forall e :: e in l ==> e in key && key[e] <= key[n]
    ensures forall e :: e in r ==> e in key && key[n] <= key[e]
  {
    var s := a + (l + [n] + r) + b;
    var i := |a| + |l|;
    assert s[i] == n;
    forall e | e in l ensures e in key && key[e] <= key[n] {
      var j :| 0 <= j < |l| && l[j] == e;
      assert s[|a| + j] == e;
    }
    forall e | e in r ensures e in key && key[n] <= key[e] {
      var j :| 0 <= j < |r| && r[j] == e;
      assert s[i + 1 + j] == e;
    }
  }

  lemma FitsDown(ctx: Ctx, t: Tree, key: map<Ref, int>, k: int)
    requires t.Fork? && Sorted(Total(ctx, t), key) && Fits(ctx, key, k)
    ensures t.node in key
    ensures var d := if key[t.node] > k then Left else Right;
            var ctx' := Step(d, t.red, t.node, Kid(t, d.Other()), ctx);
            Fits(ctx', key, k) && Total(ctx', Kid(t, d)) == Total(ctx, t)
  {
    SortedAround(Before(ctx), InOrder(t.l), t.node, InOrder(t.r), After(ctx), key);
    var d := if key[t.node] > k then Left else Right;
    TotalUp(Step(d, t.red, t.node, Kid(t, d.Other()), ctx), Kid(t, d));
  }

  lemma AttachShape(m: Mem, m': Mem, ctx: Ctx, nil: Ref, root: Ref, z: Ref, y: Ref)
    requires Shape(m, ctx, Leaf, nil, root) && z !in CtxNodes(ctx) + {nil, root} && y == Above(ctx, root) && y in m
    requires z in m && m'.Keys == m.Keys && m'[z] == Cell(true, y, nil, nil)
    requires m'[y] == m[y].WithChild(HoleSide(ctx), z)
    requires forall n :: n in m && n != z && n != y ==> m'[n] == m[n]
    ensures Shape(m', ctx, Fork(true, Leaf, z, Leaf), nil, root)
  {
    assert y != nil;
    CtxRepMove(m, m', ctx, nil, root, nil, z);
  }

  // s' is s with n inserted at position i, after every element not greater than it and before the others.
  ghost predicate StablyInserted(s: seq<Ref>, s': seq<Ref>, n: Ref, i: nat, key: map<Ref, int>)
  {
    i <= |s| && s' == s[..i] + [n] + s[i..] && n in key
    && (forall j :: 0 <= j < i ==> s[j] in key && key[s[j]] <= key[n])
    && (forall j :: i <= j < |s| ==> s[j] in key && key[s[j]] > key[n])
  }

  lemma StableBetween(a: seq<Ref>, b: seq<Ref>, z: Ref, key: map<Ref, int>)
    requires z in key
    requires forall n :: n in a ==> n in key && key[n] <= key[z]
    requires forall n :: n in b ==> n in key && key[n] > key[z]
    ensures StablyInserted(a + [] + b, a + ([] + [z] + []) + b, z, |a|, key)
  {
    var s := a + [] + b;
    assert s[..|a|] == a && s[|a|..] == b;
    assert forall j :: |a| <= j < |s| ==> s[j] == b[j - |a|];
  }

  lemma FitsIsStable(ctx: Ctx, z: Ref, key: map<Ref, int>)
    requires z in key && Fits(ctx, key, key[z])
    ensures StablyInserted(Total(ctx, Leaf), Total(ctx, Fork(true, Leaf, z, Leaf)), z, |Before(ctx)|, key)
  {
    StableBetween(Before(ctx), After(ctx), z, key);
  }

  // Once x's parent is black, painting the root black yields a red-black tree.
  lemma InsertDone(ctx: Ctx, t: Tree)
    requires InsertInv(ctx, t) && !HoleIsRed(ctx)
    ensures RedBlack(Painted(Plug(ctx, t), false)) && InOrder(Painted(Plug(ctx, t), false)) == Total(ctx, t)
    ensures Plug(ctx, t).Fork?
  {
    PlugInOrder(ctx, t);
    if ctx.Step? {
      PlugRedBlack(ctx, t);
      assert InOrder(Plug(ctx, t)) != [];
    }
  }

  ghost function Fuel(ctx: Ctx): nat { if HoleIsRed(ctx) then Depth(ctx) else 0 }

  // ---------- deletion ----------

  // What rb_delete_fixup's loop keeps: the subtree at x is one black node short, and x itself may be
  // red under a red parent or over a red child.
  ghost predicate DeleteInv(ctx: Ctx, t: Tree) {
    Balanced(t) && NoRedRed(Painted(t, false)) && CtxBalanced(ctx, BlackHeight(t) + 1) && CtxNoRedRed(ctx)
  }

  // Painting x black pays the debt when x is red or is the whole tree.
  lemma DeleteDone(ctx: Ctx, t: Tree)
    requires DeleteInv(ctx, t) && (ctx.Whole? || IsRed(t))
    ensures RedBlack(Plug(ctx, Painted(t, false))) && Total(ctx, Painted(t, false)) == Total(ctx, t)
  {
    PlugRedBlack(ctx, Painted(t, false));
  }

  // A black sibling is what a missing black node guarantees.
  lemma SiblingIsFork(ctx: Ctx, t: Tree)
    requires ctx.Step? && DeleteInv(ctx, t)
    ensures ctx.sib.Fork?
    ensures IsRed(ctx.sib) ==> !ctx.red && Kid(ctx.sib, ctx.side).Fork? && !IsRed(Kid(ctx.sib, ctx.side))
  {
  }

  // Case 1, red sibling w: w black, x's parent red, rotate
  ghost function Case1(ctx: Ctx): Ctx
    requires ctx.Step? && ctx.sib.Fork?
  {
    var d, w := ctx.side, ctx.sib;
    Step(d, true, ctx.node, Kid(w, d), Step(d, false, w.node, Kid(w, d.Other()), ctx.up))
  }

  lemma Case1Keeps(ctx: Ctx, t: Tree)
    requires ctx.Step? && DeleteInv(ctx, t) && IsRed(ctx.sib)
    ensures DeleteInv(Case1(ctx), t) && Total(Case1(ctx), t) == Total(ctx, t)
    ensures Rotated(ctx.side, Mk(ctx.side, true, t, ctx.node, Painted(ctx.sib, false)))
         == Parent(Case1(ctx).up, Parent(Case1(ctx), t))
  {
    SiblingIsFork(ctx, t);
    var P := Mk(ctx.side, true, t, ctx.node, Painted(ctx.sib, false));
    RotatedInOrder(ctx.side, P);
    TotalUp(ctx, t);
    TotalUp(Case1(ctx), t);
    TotalUp(Case1(ctx).up, Parent(Case1(ctx), t));
    assert InOrder(P) == InOrder(Parent(ctx, t));
    assert CtxBalanced(ctx, BlackHeight(t) + 1);
  }

  // Case 2, black sibling with two black children: the sibling red, x's parent becomes x
  lemma Case2Keeps(ctx: Ctx, t: Tree)
    requires ctx.Step? && DeleteInv(ctx, t) && !IsRed(t) && ctx.sib.Fork? && !ctx.sib.red
    requires !IsRed(ctx.sib.l) && !IsRed(ctx.sib.r)
    ensures var P := Mk(ctx.side, ctx.red, t, ctx.node, Painted(ctx.sib, true));
            DeleteInv(ctx.up, P) && Total(ctx.up, P) == Total(ctx, t)
  {
    TotalUp(ctx, t);
    var P := Mk(ctx.side, ctx.red, t, ctx.node, Painted(ctx.sib, true));
    assert InOrder(P) == InOrder(Parent(ctx, t));
  }

  // Case 3, only the sibling's near child is red: it becomes the sibling, black over a red far child
  ghost function Case3(ctx: Ctx): Tree
    requires ctx.Step? && ctx.sib.Fork? && Kid(ctx.sib, ctx.side).Fork?
  {
    var d, w := ctx.side, ctx.sib;
    Rotated(d.Other(), Mk(d, true, Painted(Kid(w, d), false), w.node, Kid(w, d.Other())))
  }

  lemma Case3Keeps(ctx: Ctx, t: Tree)
    requires ctx.Step? && DeleteInv(ctx, t) && !IsRed(t) && ctx.sib.Fork? && !ctx.sib.red
    requires IsRed(Kid(ctx.sib, ctx.side)) && !IsRed(Kid(ctx.sib, ctx.side.Other()))
    ensures var ctx' := ctx.(sib := Case3(ctx));
            DeleteInv(ctx', t) && Total(ctx', t) == Total(ctx, t)
            && !IsRed(ctx'.sib) && IsRed(Kid(ctx'.sib, ctx.side.Other()))
  {
    var d, w := ctx.side, ctx.sib;
    RotatedInOrder(d.Other(), Mk(d, true, Painted(Kid(w, d), false), w.node, Kid(w, d.Other())));
    assert InOrder(Case3(ctx)) == InOrder(w);
    assert Balanced(Kid(w, d)) && NoRedRed(Kid(w, d));
    TotalUp(ctx, t);
    TotalUp(ctx.(sib := Case3(ctx)), t);
  }

  // Case 4, the sibling's far child is red: one rotation restores everything
  ghost function Case4(ctx: Ctx, t: Tree): Tree
    requires ctx.Step? && ctx.sib.Fork? && Kid(ctx.sib, ctx.side.Other()).Fork?
  {
    var d, w := ctx.side, ctx.sib;
    Mk(d, ctx.red, Mk(d, false, t, ctx.node, Kid(w, d)), w.node, Painted(Kid(w, d.Other()), false))
  }

  // The sibling as it is painted before the last rotation
  ghost function FinalSibling(ctx: Ctx): Tree
    requires ctx.Step? && ctx.sib.Fork? && Kid(ctx.sib, ctx.side.Other()).Fork?
  {
    var d, w := ctx.side, ctx.sib;
    Mk(d, ctx.red, Kid(w, d), w.node, Painted(Kid(w, d.Other()), false))
  }

  lemma Case4Keeps(ctx: Ctx, t: Tree)
    requires ctx.Step? && DeleteInv(ctx, t) && !IsRed(t) && ctx.sib.Fork? && !ctx.sib.red
    requires IsRed(Kid(ctx.sib, ctx.side.Other()))
    ensures RedBlack(Plug(ctx.up, Case4(ctx, t))) && Total(ctx.up, Case4(ctx, t)) == Total(ctx, t)
  {
    var d, w := ctx.side, ctx.sib;
    RotatedInOrder(d, Parent(ctx, t));
    TotalUp(ctx, t);
    assert InOrder(Case4(ctx, t)) == InOrder(Rotated(d, Parent(ctx, t)));
    assert Balanced(Kid(w, d)) && NoRedRed(Kid(w, d)) && NoRedRed(Kid(w, d.Other()));
    assert Balanced(Mk(d, false, t, ctx.node, Kid(w, d))) && Balanced(Kid(w, d.Other()));
    PlugRedBlack(ctx.up, Case4(ctx, t));
  }

  // The topmost node of a context stays outside the hole.
  lemma {:induction false} TopOfPlug(ctx: Ctx, t: Tree, nil: Ref)
    requires ctx.Step?
    ensures Top(Plug(ctx, t), nil) in CtxNodes(ctx)
    ensures ctx.up.Whole? ==> Top(Plug(ctx, t), nil) == ctx.node
    ensures ctx.up.Step? ==> forall t' :: Top(Plug(ctx.up, t'), nil) == Top(Plug(ctx, t), nil)
    decreases ctx
  {
    if ctx.up.Step? {
      TopOfPlug(ctx.up, Parent(ctx, t), nil);
      forall t' ensures Top(Plug(ctx.up, t'), nil) == Top(Plug(ctx, t), nil) {
        TopOfPlug(ctx.up, t', nil);
        if ctx.up.up.Step? {
          assert Top(Plug(ctx.up.up, Parent(ctx.up, t')), nil) == Top(Plug(ctx.up, Parent(ctx, t)), nil);
        }
      }
    }
  }

  ghost function DeleteFuel(ctx: Ctx, t: Tree): nat { 2 * Depth(ctx) + if IsRed(t) then 0 else 1 }

  // After the last rotation the node remembered as root is black, although it may no longer be the root.
  lemma FixedTop(m: Mem, ctx: Ctx, t: Tree, nil: Ref, root: Ref, top: Ref)
    requires ctx.Step? && ctx.sib.Fork? && Kid(ctx.sib, ctx.side.Other()).Fork?
    requires Shape(m, ctx.up, Case4(ctx, t), nil, root) && RedBlack(Plug(ctx.up, Case4(ctx, t)))
    requires top == ctx.node || (ctx.up.Step? && top == Top(Plug(ctx, t), nil))
    ensures Shape(m, Whole, Plug(ctx.up, Case4(ctx, t)), nil, root) && top in m && !m[top].red
    ensures Total(Whole, Plug(ctx.up, Case4(ctx, t))) == Total(ctx.up, Case4(ctx, t))
  {
    var F := Case4(ctx, t);
    ShapePlug(m, ctx.up, F, nil, root);
    PlugInOrder(ctx.up, F);
    if top == ctx.node {
      assert Rep(m, Kid(F, ctx.side), nil, F.node);
    } else {
      TopOfPlug(ctx, t, nil);
      TopOfPlug(ctx.up, F, nil);
      assert top == Top(Plug(ctx.up, F), nil);
    }
  }

  lemma CaseOneTop(ctx: Ctx, t: Tree, nil: Ref)
    requires ctx.Step? && IsRed(ctx.sib)
    ensures Depth(Case1(ctx)) == Depth(ctx) + 1 && HoleIsRed(Case1(ctx)) && Case1(ctx).up.Step?
    ensures ctx.up.Step? ==> Top(Plug(Case1(ctx), t), nil) == Top(Plug(ctx, t), nil)
    ensures ctx.up.Whole? ==> Top(Plug(ctx, t), nil) == Case1(ctx).node
  {
    TopOfPlug(ctx, t, nil);
    var c := Case1(ctx);
    assert Plug(c, t) == Plug(c.up, Parent(c, t)) == Plug(ctx.up, Parent(c.up, Parent(c, t)));
  }

  lemma FixupEnds(ctx: Ctx, t: Tree, nil: Ref, root: Ref, x: Ref, top: Ref)
    requires Apart(ctx, t, nil, root) && x == Top(t, nil) && (x == top || IsRed(t))
    requires top == Top(Plug(ctx, t), nil) || IsRed(t)
    ensures ctx.Whole? || IsRed(t)
  {
    if ctx.Step? {
      TopOfPlug(ctx, t, nil);
    }
  }

  // ---------- reaching a node ----------

  ghost function Append(inner: Ctx, outer: Ctx): Ctx {
    match inner
    case Whole => outer
    case Step(d, c, n, s, up) => Step(d, c, n, s, Append(up, outer))
  }

  lemma {:induction false} PlugAppend(inner: Ctx, outer: Ctx, t: Tree)
    ensures Plug(Append(inner, outer), t) == Plug(outer, Plug(inner, t))
    decreases inner
  {
    if inner.Step? {
      PlugAppend(inner.up, outer, Parent(inner, t));
    }
  }

  lemma {:induction false} Locate(t: Tree, z: Ref) returns (ctx: Ctx, u: Tree)
    requires z in Nodes(t)
    ensures Plug(ctx, u) == t && u.Fork? && u.node == z
  {
    if z == t.node {
      ctx, u := Whole, t;
    } else {
      var d := if z in Nodes(t.l) then Left else Right;
      ctx, u := Locate(Kid(t, d), z);
      var outer := Step(d, t.red, t.node, Kid(t, d.Other()), Whole);
      PlugAppend(ctx, outer, u);
      ctx := Append(ctx, outer);
    }
  }

  lemma {:induction false} ShapeInto(m: Mem, inner: Ctx, outer: Ctx, t: Tree, nil: Ref, root: Ref)
    requires Shape(m, outer, Plug(inner, t), nil, root)
    ensures Shape(m, Append(inner, outer), t, nil, root)
    decreases inner
  {
    if inner.Step? {
      ShapeInto(m, inner.up, outer, Parent(inner, t), nil, root);
      ShapeDown(m, Append(inner.up, outer), Parent(inner, t), nil, root, inner.side);
    }
  }

  lemma {:induction false} ShapeOutOf(m: Mem, inner: Ctx, outer: Ctx, t: Tree, nil: Ref, root: Ref)
    requires Shape(m, Append(inner, outer), t, nil, root)
    ensures Shape(m, outer, Plug(inner, t), nil, root)
    decreases inner
  {
    if inner.Step? {
      ShapeUp(m, Append(inner, outer), t, nil, root);
      ShapeOutOf(m, inner.up, outer, Parent(inner, t), nil, root);
    }
  }

  lemma {:induction false} AppendWhole(ctx: Ctx)
    ensures Append(ctx, Whole) == ctx
  {
    if ctx.Step? {
      AppendWhole(ctx.up);
    }
  }

  lemma {:induction false} PlugIsFork(ctx: Ctx, t: Tree)
    requires ctx.Step? || t.Fork?
    ensures Plug(ctx, t).Fork?
    decreases ctx
  {
    if ctx.Step? {
      PlugIsFork(ctx.up, Parent(ctx, t));
    }
  }

  ghost function Extreme(ctx: Ctx, d: Side): bool {
    ctx.Step? ==> ctx.side == d && Extreme(ctx.up, d)
  }

  lemma {:induction false} ExtremeEdge(ctx: Ctx, d: Side)
    requires Extreme(ctx, d)
    ensures if d.Left? then Before(ctx) == [] else After(ctx) == []
  {
    if ctx.Step? {
      ExtremeEdge(ctx.up, d);
    }
  }

  // Renaming a node of the context keeps colours and heights.
  lemma {:induction false} RenameCtx(inner: Ctx, c: bool, z: Ref, y: Ref, l: Tree, ctx: Ctx, h: nat)
    requires CtxBalanced(Append(inner, Step(Right, c, z, l, ctx)), h)
    requires CtxNoRedRed(Append(inner, Step(Right, c, z, l, ctx)))
    ensures CtxBalanced(Append(inner, Step(Right, c, y, l, ctx)), h)
    ensures CtxNoRedRed(Append(inner, Step(Right, c, y, l, ctx)))
  {
    if inner.Step? {
      RenameCtx(inner.up, c, z, y, l, ctx, if inner.red then h else h + 1);
    }
  }

  ghost predicate OneChild(t: Tree) { t.Fork? && (t.l.Leaf? || t.r.Leaf?) }

  ghost function OnlyChild(t: Tree): Tree
    requires t.Fork?
  {
    if t.l.Fork? then t.l else t.r
  }

  // Unlinking a node with at most one child: nothing to repair if it was red, one black node short if not.
  lemma SpliceInv(ctx: Ctx, t: Tree)
    requires OneChild(t) && RedBlack(Plug(ctx, t))
    ensures t.red ==> RedBlack(Plug(ctx, OnlyChild(t)))
    ensures !t.red ==> DeleteInv(ctx, OnlyChild(t))
  {
    PlugInv(ctx, t);
    if t.red {
      PlugRedBlack(ctx, OnlyChild(t));
    }
  }

  lemma SpliceShape(m: Mem, m': Mem, ctx: Ctx, t: Tree, nil: Ref, root: Ref)
    requires Shape(m, ctx, t, nil, root) && OneChild(t)
    requires var x, p := Top(OnlyChild(t), nil), Above(ctx, root);
             x in m && p in m && m'.Keys == m.Keys && m'[x] == m[x].(parent := p)
             && m'[p] == m[p].WithChild(HoleSide(ctx), x)
             && forall n :: n in m && n != x && n != p ==> m'[n] == m[n]
    ensures Shape(m', ctx, OnlyChild(t), nil, root)
  {
    var X := OnlyChild(t);
    assert Rep(m, X, nil, t.node) && (X.Fork? ==> X.node in Nodes(X));
    RepMove(m, m', X, nil, t.node, Above(ctx, root));
    CtxRepMove(m, m', ctx, nil, root, t.node, Top(X, nil));
  }

  lemma ReplaceDistinct(m: Mem, ctx: Ctx, t: Tree, nil: Ref, root: Ref, y: Ref)
    requires Shape(m, ctx, t, nil, root) && t.Fork? && y !in Foot(ctx, t) + {nil, root}
    ensures t.node in m
    ensures var z := t.node; var p, a, b := m[z].parent, m[z].left, m[z].right;
            p == Above(ctx, root) && a == Top(t.l, nil) && b == Top(t.r, nil)
            && p in m && a in m && b in m && z !in {p, a, b} && y !in {z, p, a, b} && p != a && p != b
            && (m[p].left == z <==> HoleSide(ctx).Left?) && nil !in {p, y, t.node} && (a == b ==> a == nil)
  {
    assert Rep(m, t.l, nil, t.node) && Rep(m, t.r, nil, t.node);
    assert t.l.Fork? ==> t.l.node in Nodes(t.l);
    assert t.r.Fork? ==> t.r.node in Nodes(t.r);
    assert ctx.Step? && ctx.sib.Fork? ==> ctx.sib.node in Nodes(ctx.sib);
  }

  lemma ReplaceShape(m: Mem, m': Mem, ctx: Ctx, t: Tree, nil: Ref, root: Ref, y: Ref)
    requires Shape(m, ctx, t, nil, root) && t.Fork? && y !in Foot(ctx, t) + {nil, root} && y in m
    requires var p, a, b := Above(ctx, root), Top(t.l, nil), Top(t.r, nil);
             p in m && a in m && b in m && m'.Keys == m.Keys && m'[y] == m[t.node]
             && m'[a] == m[a].(parent := y) && m'[b] == m[b].(parent := y)
             && m'[p] == m[p].WithChild(HoleSide(ctx), y)
             && forall n :: n in m && n !in {y, p, a, b} ==> m'[n] == m[n]
    ensures Shape(m', ctx, t.(node := y), nil, root)
  {
    assert t.l.Fork? ==> t.l.node in Nodes(t.l);
    assert t.r.Fork? ==> t.r.node in Nodes(t.r);
    assert Rep(m', t.l, nil, y) by { RepMove(m, m', t.l, nil, t.node, y); }
    assert Rep(m', t.r, nil, y) by { RepMove(m, m', t.r, nil, t.node, y); }
    CtxRepMove(m, m', ctx, nil, root, t.node, y);
  }

  // Position of the node at t's top in the in-order sequence of the whole tree.
  ghost function Rank(ctx: Ctx, t: Tree): nat
    requires t.Fork?
  {
    |Before(ctx)| + |InOrder(t.l)|
  }

  ghost function Without(s: seq<Ref>, i: nat): seq<Ref>
    requires i < |s|
  {
    s[..i] + s[i + 1..]
  }

  lemma DropMiddle(a: seq<Ref>, l: seq<Ref>, n: Ref, r: seq<Ref>, b: seq<Ref>)
    ensures var s := a + (l + [n] + r) + b;
            |a| + |l| < |s| && s[|a| + |l|] == n && Without(s, |a| + |l|) == a + (l + r) + b
  {
    var s := a + (l + [n] + r) + b;
    assert s[..|a| + |l|] == a + l && s[|a| + |l| + 1..] == r + b;
    assert (a + l) + (r + b) == a + (l + r) + b;
  }

  lemma DropMiddleOf(s: seq<Ref>, i: nat, a: seq<Ref>, l: seq<Ref>, n: Ref, r: seq<Ref>, b: seq<Ref>)
    requires s == a + (l + [n] + r) + b && i == |a| + |l|
    ensures i < |s| && s[i] == n && Without(s, i) == a + (l + r) + b
  {
    DropMiddle(a, l, n, r, b);
  }

  lemma SpliceOrder(ctx: Ctx, t: Tree)
    requires OneChild(t)
    ensures Rank(ctx, t) < |Total(ctx, t)| && Total(ctx, t)[Rank(ctx, t)] == t.node
    ensures Total(ctx, OnlyChild(t)) == Without(Total(ctx, t), Rank(ctx, t))
  {
    DropMiddle(Before(ctx), InOrder(t.l), t.node, InOrder(t.r), After(ctx));
    assert InOrder(t.l) + InOrder(t.r) == InOrder(OnlyChild(t));
  }

  lemma TotalAppend(inner: Ctx, outer: Ctx, t: Tree)
    ensures Total(Append(inner, outer), t) == Total(outer, Plug(inner, t))
  {
    PlugInOrder(Append(inner, outer), t);
    PlugAppend(inner, outer, t);
    PlugInOrder(outer, Plug(inner, t));
  }

  // Deleting z by moving its successor y into its place removes z alone from the sequence.
  lemma ReplaceOrder(ctx: Ctx, t: Tree, inner: Ctx, u: Tree)
    requires t.Fork? && Plug(inner, u) == t.r && u.Fork? && u.l.Leaf? && Extreme(inner, Left)
    ensures Rank(ctx, t) < |Total(ctx, t)|
    ensures Total(Append(inner, Step(Right, t.red, u.node, t.l, ctx)), u.r) == Without(Total(ctx, t), Rank(ctx, t))
  {
    ReplaceTotal(ctx, t, inner, u);
    WithoutTop(ctx, t);
  }

  lemma WithoutTop(ctx: Ctx, t: Tree)
    requires t.Fork?
    ensures Rank(ctx, t) < |Total(ctx, t)|
    ensures Without(Total(ctx, t), Rank(ctx, t)) == Before(ctx) + (InOrder(t.l) + InOrder(t.r)) + After(ctx)
  {
    DropMiddleOf(Total(ctx, t), Rank(ctx, t), Before(ctx), InOrder(t.l), t.node, InOrder(t.r), After(ctx));
  }

  lemma ReplaceTotal(ctx: Ctx, t: Tree, inner: Ctx, u: Tree)
    requires t.Fork? && Plug(inner, u) == t.r && u.Fork? && u.l.Leaf? && Extreme(inner, Left)
    ensures Total(Append(inner, Step(Right, t.red, u.node, t.l, ctx)), u.r)
         == Before(ctx) + (InOrder(t.l) + InOrder(t.r)) + After(ctx)
  {
    var outer := Step(Right, t.red, u.node, t.l, ctx);
    TotalAppend(inner, outer, u.r);
    TotalUp(outer, Plug(inner, u.r));
    MinFirst(inner, u);
    ConsAssoc(InOrder(t.l), u.node, InOrder(Plug(inner, u.r)));
  }

  lemma ConsAssoc(a: seq<Ref>, n: Ref, b: seq<Ref>)
    ensures a + [n] + b == a + ([n] + b)
  {
  }

  lemma {:induction false} MinFirst(inner: Ctx, u: Tree)
    requires u.Fork? && u.l.Leaf? && Extreme(inner, Left)
    ensures InOrder(Plug(inner, u)) == [u.node] + InOrder(Plug(inner, u.r))
  {
    ExtremeEdge(inner, Left);
    PlugInOrder(inner, u);
    PlugInOrder(inner, u.r);
    ConsAppend(u.node, InOrder(u.r), After(inner));
  }

  lemma ConsAppend(n: Ref, x: seq<Ref>, b: seq<Ref>)
    ensures [] + ([] + [n] + x) + b == [n] + ([] + x + b)
  {
  }

  lemma SeqEdges(ctx: Ctx, t: Tree)
    ensures var s, i := Total(ctx, t), |Before(ctx)| + |InOrder(t)|;
            (ctx.Step? && ctx.side.Left? ==> i < |s| && s[i] == ctx.node)
            && (ctx.Whole? ==> i == |s|)
    ensures var s, i := Total(ctx, t), |Before(ctx)|;
            (ctx.Step? && ctx.side.Right? ==> 0 < i <= |s| && s[i - 1] == ctx.node)
            && (ctx.Whole? ==> i == 0)
    ensures var s, i := Total(ctx, t), |Before(ctx)|;
            |InOrder(t)| > 0 ==>
              i + |InOrder(t)| <= |s|
              && s[i] == InOrder(t)[0] && s[i + |InOrder(t)| - 1] == InOrder(t)[|InOrder(t)| - 1]
  {
  }

  lemma ExtremeOrder(inner: Ctx, u: Tree, d: Side)
    requires u.Fork? && Kid(u, d).Leaf? && Extreme(inner, d)
    ensures var s := InOrder(Plug(inner, u)); |s| > 0 && u.node == if d.Left? then s[0] else s[|s| - 1]
  {
    ExtremeEdge(inner, d);
    PlugInOrder(inner, u);
  }

  lemma RankSplits(ctx: Ctx, t: Tree)
    requires t.Fork?
    ensures Rank(ctx, t) < |Total(ctx, t)| && Total(ctx, t)[Rank(ctx, t)] == t.node
    ensures Total(Step(Right, t.red, t.node, t.l, ctx), t.r) == Total(ctx, t)
    ensures Total(Step(Left, t.red, t.node, t.r, ctx), t.l) == Total(ctx, t)
    ensures |Before(Step(Right, t.red, t.node, t.l, ctx))| == Rank(ctx, t) + 1
  {
    TotalUp(Step(Right, t.red, t.node, t.l, ctx), t.r);
    TotalUp(Step(Left, t.red, t.node, t.r, ctx), t.l);
    DropMiddle(Before(ctx), InOrder(t.l), t.node, InOrder(t.r), After(ctx));
  }

  // The same for a node with two children, whose successor is unlinked and then put in its place.
  lemma SwapInv(ctx: Ctx, t: Tree, inner: Ctx, u: Tree)
    requires t.Fork? && u.Fork? && u.l.Leaf? && t.r == Plug(inner, u) && RedBlack(Plug(ctx, t))
    ensures var at := Append(inner, Step(Right, t.red, u.node, t.l, ctx));
            (u.red ==> RedBlack(Plug(at, u.r))) && (!u.red ==> DeleteInv(at, u.r))
  {
    var was := Append(inner, Step(Right, t.red, t.node, t.l, ctx));
    var at := Append(inner, Step(Right, t.red, u.node, t.l, ctx));
    PlugAppend(inner, Step(Right, t.red, t.node, t.l, ctx), u);
    assert Plug(was, u) == Plug(ctx, t);
    SpliceInv(was, u);
    PlugInv(was, u);
    RenameCtx(inner, t.red, t.node, u.node, t.l, ctx, BlackHeight(u));
    if u.red {
      PlugRedBlack(at, u.r);
    }
  }

  // y, unlinked from below z, is nowhere in the tree that remains.
  lemma UnlinkedApart(ctx: Ctx, t: Tree, inner: Ctx, u: Tree, nil: Ref, root: Ref)
    requires t.Fork? && Apart(Append(inner, Step(Right, t.red, t.node, t.l, ctx)), u, nil, root) && OneChild(u)
    ensures u.node !in Foot(ctx, t.(r := Plug(inner, OnlyChild(u)))) + {nil, root}
  {
    var was := Append(inner, Step(Right, t.red, t.node, t.l, ctx));
    PlugSep(was, u);
    PlugSep(was, OnlyChild(u));
    PlugAppend(inner, Step(Right, t.red, t.node, t.l, ctx), OnlyChild(u));
    PlugSep(ctx, t.(r := Plug(inner, OnlyChild(u))));
  }

  lemma {:induction false} NoDuplicates(t: Tree)
    requires Sep(t)
    ensures forall i, j :: 0 <= i < j < |InOrder(t)| ==> InOrder(t)[i] != InOrder(t)[j]
  {
    if t.Fork? {
      NoDuplicates(t.l);
      NoDuplicates(t.r);
      InOrderNodes(t.l);
      InOrderNodes(t.r);
      var s, k := InOrder(t), |InOrder(t.l)|;
      assert forall i :: 0 <= i < |s| ==>
        s[i] == if i < k then InOrder(t.l)[i] else if i == k then t.node else InOrder(t.r)[i - k - 1];
      assert forall i :: 0 <= i < k ==> s[i] in Nodes(t.l);
      assert forall i :: k < i < |s| ==> s[i] in Nodes(t.r);
    }
  }

  // ---------- height ----------

  ghost function Height(t: Tree): nat {
    match t
    case Leaf => 0
    case Fork(_, l, _, r) => 1 + if Height(l) < Height(r) then Height(r) else Height(l)
  }

  lemma {:induction false} HeightByBlack(t: Tree)
    requires Balanced(t) && NoRedRed(t)
    ensures Height(t) <= 2 * BlackHeight(t) + if IsRed(t) then 1 else 0
    ensures D.Pow2(BlackHeight(t)) <= |InOrder(t)| + 1
  {
    if t.Fork? {
      HeightByBlack(t.l);
      HeightByBlack(t.r);
    }
  }

  lemma {:induction false} Pow2Double(a: nat, b: nat)
    requires a <= 2 * b
    ensures D.Pow2(a) <= D.Pow2(b) * D.Pow2(b)
    decreases b
  {
    if b > 0 {
      Pow2Double(if a < 2 then 0 else a - 2, b - 1);
      TwiceSquare(D.Pow2(b - 1));
      assert a >= 2 ==> D.Pow2(a) == 4 * D.Pow2(a - 2);
    }
  }

  // A tree of n nodes has height at most 2 * log2(n + 1).
  lemma HeightBound(t: Tree)
    requires RedBlack(t)
    ensures D.Pow2(Height(t)) <= (|InOrder(t)| + 1) * (|InOrder(t)| + 1)
  {
    HeightByBlack(t);
    Pow2Double(Height(t), BlackHeight(t));
    SquareMono(D.Pow2(BlackHeight(t)), |InOrder(t)| + 1);
  }

  lemma WalkBound(t: Tree, steps: nat)
    requires RedBlack(t) && steps <= Height(t)
    ensures D.Pow2(steps) <= (|InOrder(t)| + 1) * (|InOrder(t)| + 1)
  {
    HeightBound(t);
    D.Pow2Mono(steps, Height(t));
  }

  lemma SortedParts(a: seq<Ref>, n: Ref, b: seq<Ref>, key: map<Ref, int>)
    requires Sorted(a + [n] + b, key)
    ensures Sorted(a, key) && Sorted(b, key)
  {
    var s := a + [n] + b;
    assert forall i :: 0 <= i < |a| ==> s[i] == a[i];
    assert forall i :: 0 <= i < |b| ==> s[|a| + 1 + i] == b[i];
  }

  // The nodes with key k, all of which lie in t
  ghost predicate Narrowed(s: seq<Ref>, t: Tree, key: map<Ref, int>, k: int)
    requires Sorted(s, key)
  {
    Sorted(InOrder(t), key) && forall n :: n in s && key[n] == k ==> n in InOrder(t)
  }

  lemma SearchDown(s: seq<Ref>, t: Tree, key: map<Ref, int>, k: int)
    requires t.Fork? && Sorted(s, key) && Narrowed(s, t, key, k)
    ensures t.node in key && t.node in InOrder(t)
    ensures key[t.node] != k ==> Narrowed(s, if key[t.node] > k then t.l else t.r, key, k)
  {
    var a, b := InOrder(t.l), InOrder(t.r);
    assert [] + (a + [t.node] + b) + [] == InOrder(t);
    SortedAround([], a, t.node, b, [], key);
    SortedParts(a, t.node, b, key);
  }

  lemma TopInside(t: Tree)
    ensures t.Fork? ==> t.node in InOrder(t)
  {
  }

  lemma AboveInMem(m: Mem, ctx: Ctx, t: Tree, nil: Ref, root: Ref)
    requires Shape(m, ctx, t, nil, root)
    ensures Above(ctx, root) in m
  {
  }

  class RbTree {
    const nil: Ref
    const root: Ref
    var mem: Mem
    ghost var tree: Tree

    method SetParent(n: Ref, p: Ref)
      requires n in mem
      modifies this`mem
      ensures mem == old(mem)[n := old(mem)[n].(parent := p)]
    {
      mem := mem[n := mem[n].(parent := p)];
    }

    method SetChild(n: Ref, d: Side, c: Ref)
      requires n in mem
      modifies this`mem
      ensures mem == old(mem)[n := old(mem)[n].WithChild(d, c)]
    {
      mem := mem[n := mem[n].WithChild(d, c)];
    }

    method SetRed(n: Ref, c: bool)
      requires n in mem
      modifies this`mem
      ensures mem == old(mem)[n := old(mem)[n].(red := c)]
    {
      mem := mem[n := mem[n].(red := c)];
    }

    // FUNC_ROTATE: the writes, on cells known to be distinct
    method RotateCells(d: Side, x: Ref, ghost e: Side)
      requires x in mem && mem[x].Child(d.Other()) in mem && mem[x].parent in mem
      requires var y := mem[x].Child(d.Other()); var b := mem[y].Child(d); var p := mem[x].parent;
               x != root && x != nil && y != nil && x != y && x != p && y != p && b !in {x, y, p}
               && (b != nil ==> b in mem) && mem[p].Child(e) == x && mem[p].Child(e.Other()) != x
      modifies this`mem
      ensures var y := old(mem)[x].Child(d.Other());
              RotateWrites(old(mem), mem, d, e, x, y, old(mem)[y].Child(d), old(mem)[x].parent, nil)
    {
      var y := mem[x].Child(d.Other());
      assert x != root && x != nil && y != nil;
      SetChild(x, d.Other(), mem[y].Child(d));
      if mem[y].Child(d) != nil {
        SetParent(mem[y].Child(d), x);
      }
      SetParent(y, mem[x].parent);
      if x == mem[mem[x].parent].Child(d) {
        SetChild(mem[x].parent, d, y);
      } else {
        SetChild(mem[x].parent, d.Other(), y);
      }
      SetChild(y, d, x);
      SetParent(x, y);
    }

    method Rotate(d: Side, x: Ref, ghost ctx: Ctx, ghost t: Tree)
      requires Shape(mem, ctx, t, nil, root)
      requires t.Fork? && t.node == x && Kid(t, d.Other()).Fork?
      modifies this`mem
      ensures Shape(mem, ctx, Rotated(d, t), nil, root)
      ensures mem.Keys == old(mem.Keys) && mem[nil] == old(mem[nil])
    {
      ghost var m := mem;
      RotateDistinct(m, d, ctx, t, nil, root);
      RotateCells(d, x, HoleSide(ctx));
      ghost var y := m[x].Child(d.Other());
      RotateShape(m, mem, d, ctx, t, nil, root, x, y, m[y].Child(d), m[x].parent);
    }

    // n->red = c, for the node n at the zipper's position
    method Paint(n: Ref, c: bool, ghost ctx: Ctx, ghost t: Tree)
      requires Shape(mem, ctx, t, nil, root) && t.Fork? && n == t.node
      modifies this`mem
      ensures Shape(mem, ctx, Painted(t, c), nil, root)
      ensures mem.Keys == old(mem.Keys) && mem[nil] == old(mem[nil])
    {
      PaintShape(mem, ctx, t, nil, root, c);
      SetRed(n, c);
    }

    // n->red = c, for the child n on side o of the zipper's position
    method PaintKid(o: Side, n: Ref, c: bool, ghost ctx: Ctx, ghost t: Tree)
      requires Shape(mem, ctx, t, nil, root) && t.Fork? && Kid(t, o).Fork? && n == Kid(t, o).node
      modifies this`mem
      ensures Shape(mem, ctx, Mk(o, t.red, Painted(Kid(t, o), c), t.node, Kid(t, o.Other())), nil, root)
      ensures mem.Keys == old(mem.Keys) && mem[nil] == old(mem[nil])
    {
      ShapeDown(mem, ctx, t, nil, root, o);
      ghost var kc := Step(o, t.red, t.node, Kid(t, o.Other()), ctx);
      Paint(n, c, kc, Kid(t, o));
      ShapeUp(mem, kc, Painted(Kid(t, o), c), nil, root);
    }

    // RB_INSERT_SUB(d, d.Other()), red uncle
    method InsertRecolour(d: Side, x: Ref, ghost ctx: Ctx, ghost t: Tree) returns (g: Ref)
      requires Shape(mem, ctx, t, nil, root) && InsertInv(ctx, t) && x == Top(t, nil)
      requires HoleIsRed(ctx) && ctx.up.side == d && IsRed(ctx.up.sib)
      modifies this`mem
      ensures mem.Keys == old(mem.Keys) && mem[nil] == old(mem[nil])
      ensures Shape(mem, ctx.up.up, Recoloured(ctx, t), nil, root) && g == ctx.up.node
    {
      ghost var gc := ctx.up;
      ghost var P := Parent(ctx, t);
      assert CtxRep(mem, gc, nil, root, ctx.node);
      var p := mem[x].parent;
      g := mem[p].parent;
      var y := mem[g].Child(d.Other());
      ShapeUp(mem, ctx, t, nil, root);
      Paint(p, false, gc, P);
      ghost var P' := Painted(P, false);
      ShapeUp(mem, gc, P', nil, root);
      PaintKid(d.Other(), y, false, gc.up, Parent(gc, P'));
      Paint(g, true, gc.up, Mk(d, false, P', g, Painted(gc.sib, false)));
    }

    // RB_INSERT_SUB(d, d.Other()), black uncle
    method InsertRotate(d: Side, x0: Ref, ghost ctx: Ctx, ghost t: Tree) returns (x: Ref)
      requires Shape(mem, ctx, t, nil, root) && InsertInv(ctx, t) && x0 == Top(t, nil)
      requires HoleIsRed(ctx) && ctx.up.side == d && !IsRed(ctx.up.sib)
      modifies this`mem
      ensures mem.Keys == old(mem.Keys) && mem[nil] == old(mem[nil])
      ensures var P := Straightened(ctx, t); var G := InsertRotated(ctx.up, P);
              P.Fork? && x == Top(Kid(P, d), nil) && Kid(P, d).Fork?
              && Shape(mem, ctx.up.up, G, nil, root)
    {
      StraightenKeeps(ctx, t);
      ghost var gc, P := ctx.up, Straightened(ctx, t);
      assert CtxRep(mem, gc, nil, root, ctx.node);
      ShapeUp(mem, ctx, t, nil, root);
      x := x0;
      if x == mem[mem[x].parent].Child(d.Other()) {
        x := mem[x].parent;
        Rotate(d, x, gc, Parent(ctx, t));
      }
      assert Shape(mem, gc, P, nil, root);
      ShapeDown(mem, gc, P, nil, root, d);
      var p := mem[x].parent;
      var g := mem[p].parent;
      Paint(p, false, gc, P);
      ShapeUp(mem, gc, Painted(P, false), nil, root);
      Paint(g, true, gc.up, Parent(gc, Painted(P, false)));
      Rotate(d.Other(), g, gc.up, Mk(d, true, Painted(P, false), g, gc.sib));
    }

    ghost predicate Valid()
      reads this
    {
      Shape(mem, Whole, tree, nil, root) && RedBlack(tree)
    }

    ghost function Contents(): seq<Ref>
      reads this
    {
      InOrder(tree)
    }

    // The descent of rb_insert_binary: x falls to nil, y is the parent to be
    method FindParent(node: Ref, key: map<Ref, int>) returns (y: Ref, ghost ctx: Ctx)
      requires Valid() && Sorted(Contents(), key) && node in key
      ensures Shape(mem, ctx, Leaf, nil, root) && y == Above(ctx, root) && y in mem
      ensures Plug(ctx, Leaf) == tree && Total(ctx, Leaf) == Contents() && Fits(ctx, key, key[node])
      ensures y == root || (y in key && key[y] > key[node]) <==> HoleSide(ctx) == Left
    {
      ctx := Whole;
      ghost var t := tree;
      y := root;
      var x := mem[y].left;
      assert Total(ctx, t) == InOrder(t);
      while x != nil
        invariant Shape(mem, ctx, t, nil, root) && x == Top(t, nil) && y == Above(ctx, root) && y in mem
        invariant Plug(ctx, t) == tree && Total(ctx, t) == Contents()
        invariant Fits(ctx, key, key[node])
        invariant ctx.Step? ==> y in key && (ctx.side == Left <==> key[y] > key[node])
        decreases t
      {
        FitsDown(ctx, t, key, key[node]);
        ghost var d := if key[x] > key[node] then Left else Right;
        ShapeDown(mem, ctx, t, nil, root, d);
        y := x;
        x := if key[x] > key[node] then mem[x].left else mem[x].right;
        ctx, t := Step(d, t.red, t.node, Kid(t, d.Other()), ctx), Kid(t, d);
      }
    }

    // rb_insert_binary, and the colouring of the new node
    method InsertBinary(node: Ref, key: map<Ref, int>) returns (ghost ctx: Ctx)
      requires Valid() && Sorted(Contents(), key)
      requires node in mem && node in key && node !in Nodes(tree) + {nil, root}
      modifies this`mem
      ensures mem.Keys == old(mem.Keys) && mem[nil] == old(mem[nil])
      ensures Plug(ctx, Leaf) == tree && Total(ctx, Leaf) == Contents() && Fits(ctx, key, key[node])
      ensures node !in CtxNodes(ctx)
      ensures Shape(mem, ctx, Fork(true, Leaf, node, Leaf), nil, root)
    {
      ghost var m := mem;
      var y;
      y, ctx := FindParent(node, key);
      PlugSep(ctx, Leaf);
      assert y != node;
      Hang(node, y, if y == root || key[y] > key[node] then Left else Right);
      AttachShape(m, mem, ctx, nil, root, node, y);
    }

    // The node becomes a red leaf below y.
    method Hang(node: Ref, y: Ref, d: Side)
      requires node in mem && y in mem && node != y
      modifies this`mem
      ensures mem.Keys == old(mem.Keys) && mem[node] == Cell(true, y, nil, nil) && mem[y] == old(mem)[y].WithChild(d, node)
      ensures forall n :: n in mem && n != node && n != y ==> mem[n] == old(mem)[n]
    {
      mem := mem[node := mem[node].(left := nil, right := nil)];
      SetParent(node, y);
      SetChild(y, d, node);
      SetRed(node, true);
    }

    // One turn of rb_insert's loop: x's parent is red
    method InsertStep(x0: Ref, ghost ctx0: Ctx, ghost t0: Tree) returns (x: Ref, ghost ctx: Ctx, ghost t: Tree)
      requires Shape(mem, ctx0, t0, nil, root) && InsertInv(ctx0, t0) && x0 == Top(t0, nil) && HoleIsRed(ctx0)
      modifies this`mem
      ensures mem.Keys == old(mem.Keys) && mem[nil] == old(mem[nil])
      ensures Shape(mem, ctx, t, nil, root) && InsertInv(ctx, t) && x == Top(t, nil)
      ensures Total(ctx, t) == Total(ctx0, t0) && Fuel(ctx) < Fuel(ctx0)
    {
      ghost var gc := ctx0.up;
      var p := mem[x0].parent;
      assert CtxRep(mem, gc, nil, root, p);
      var g := mem[p].parent;
      assert gc.sib.Fork? ==> Rep(mem, gc.sib, nil, g) && gc.sib.node in Nodes(gc.sib);
      var d := if p == mem[g].left then Left else Right;
      assert gc.side == d;
      if mem[mem[g].Child(d.Other())].red {
        RecolourKeeps(ctx0, t0);
        assert Depth(ctx0) == 2 + Depth(gc.up);
        x := InsertRecolour(d, x0, ctx0, t0);
        ctx, t := gc.up, Recoloured(ctx0, t0);
      } else {
        StraightenKeeps(ctx0, t0);
        ghost var P := Straightened(ctx0, t0);
        InsertRotateKeeps(gc, P);
        x := InsertRotate(d, x0, ctx0, t0);
        ghost var G := InsertRotated(gc, P);
        ctx, t := Step(d, false, G.node, Kid(G, d.Other()), gc.up), Kid(G, d);
        ShapeDown(mem, gc.up, G, nil, root, d);
        TotalUp(ctx, t);
      }
    }

    // rb_insert
    method Insert(node: Ref, key: map<Ref, int>) returns (ghost pos: nat)
      requires Valid() && Sorted(Contents(), key)
      requires node in mem && node in key && node !in Contents() + [nil, root]
      modifies this
      ensures Valid() && mem.Keys == old(mem.Keys)
      ensures StablyInserted(old(Contents()), Contents(), node, pos, key)
    {
      InOrderNodes(tree);
      ghost var ctx := InsertBinary(node, key);
      ghost var t := Fork(true, Leaf, node, Leaf);
      FitsIsStable(ctx, node, key);
      PlugInv(ctx, Leaf);
      pos := |Before(ctx)|;
      ctx, t := InsertFixup(node, ctx, t);
      PaintRoot(ctx, t);
    }

    // The loop of rb_insert: red parents
    method InsertFixup(node: Ref, ghost ctx0: Ctx, ghost t0: Tree) returns (ghost ctx: Ctx, ghost t: Tree)
      requires Shape(mem, ctx0, t0, nil, root) && InsertInv(ctx0, t0) && node == Top(t0, nil)
      modifies this`mem
      ensures Shape(mem, ctx, t, nil, root) && InsertInv(ctx, t) && !HoleIsRed(ctx) && Total(ctx, t) == Total(ctx0, t0)
      ensures mem.Keys == old(mem.Keys)
    {
      var x := node;
      ctx, t := ctx0, t0;
      AboveInMem(mem, ctx, t, nil, root);
      while mem[mem[x].parent].red
        invariant mem.Keys == old(mem.Keys)
        invariant Shape(mem, ctx, t, nil, root) && InsertInv(ctx, t) && x == Top(t, nil)
        invariant Total(ctx, t) == Total(ctx0, t0) && Above(ctx, root) in mem
        decreases Fuel(ctx)
      {
        x, ctx, t := InsertStep(x, ctx, t);
      }
    }

    // tree->root->left->red = 0
    method PaintRoot(ghost ctx: Ctx, ghost t: Tree)
      requires Shape(mem, ctx, t, nil, root) && InsertInv(ctx, t) && !HoleIsRed(ctx)
      modifies this`mem, this`tree
      ensures Valid() && mem.Keys == old(mem.Keys) && Contents() == Total(ctx, t)
    {
      InsertDone(ctx, t);
      ShapePlug(mem, ctx, t, nil, root);
      tree := Plug(ctx, t);
      Paint(mem[root].left, false, Whole, tree);
      tree := Painted(tree, false);
      assert !mem[nil].red && !mem[root].red;
    }

    // RB_DELETE_FIXUP_SUB: a red sibling is turned into a black one
    method FixRedSibling(d: Side, x: Ref, ghost ctx: Ctx, ghost t: Tree)
      requires Shape(mem, ctx, t, nil, root) && DeleteInv(ctx, t) && x == Top(t, nil)
      requires ctx.Step? && ctx.side == d && mem[x].parent == ctx.node && IsRed(ctx.sib)
      modifies this`mem
      ensures mem.Keys == old(mem.Keys) && mem[nil] == old(mem[nil])
      ensures Shape(mem, Case1(ctx), t, nil, root)
    {
      Case1Keeps(ctx, t);
      var p := mem[x].parent;
      var w := mem[p].Child(d.Other());
      ShapeUp(mem, ctx, t, nil, root);
      PaintKid(d.Other(), w, false, ctx.up, Parent(ctx, t));
      Paint(p, true, ctx.up, Mk(d, ctx.red, t, p, Painted(ctx.sib, false)));
      Rotate(d, p, ctx.up, Mk(d, true, t, p, Painted(ctx.sib, false)));
      ShapeDown(mem, ctx.up, Parent(Case1(ctx).up, Parent(Case1(ctx), t)), nil, root, d);
      ShapeDown(mem, Case1(ctx).up, Parent(Case1(ctx), t), nil, root, d);
    }

    // both children of the black sibling are black
    method FixBlackNephews(d: Side, x: Ref, ghost ctx: Ctx, ghost t: Tree) returns (p: Ref)
      requires Shape(mem, ctx, t, nil, root) && x == Top(t, nil)
      requires ctx.Step? && ctx.side == d && mem[x].parent == ctx.node && ctx.sib.Fork?
      modifies this`mem
      ensures mem.Keys == old(mem.Keys) && mem[nil] == old(mem[nil])
      ensures Shape(mem, ctx.up, Mk(d, ctx.red, t, ctx.node, Painted(ctx.sib, true)), nil, root) && p == ctx.node
    {
      p := mem[x].parent;
      var w := mem[p].Child(d.Other());
      ShapeUp(mem, ctx, t, nil, root);
      PaintKid(d.Other(), w, true, ctx.up, Parent(ctx, t));
    }

    // the far nephew is black: make the near one, red, the sibling
    method FixFarNephew(d: Side, x: Ref, ghost ctx: Ctx, ghost t: Tree)
      requires Shape(mem, ctx, t, nil, root) && x == Top(t, nil)
      requires ctx.Step? && ctx.side == d && mem[x].parent == ctx.node
      requires ctx.sib.Fork? && Kid(ctx.sib, d).Fork?
      modifies this`mem
      ensures mem.Keys == old(mem.Keys) && mem[nil] == old(mem[nil])
      ensures Shape(mem, ctx.(sib := Case3(ctx)), t, nil, root)
    {
      ghost var up, W := ctx.up, ctx.sib;
      var p := mem[x].parent;
      var w := mem[p].Child(d.Other());
      ShapeUp(mem, ctx, t, nil, root);
      ShapeDown(mem, up, Parent(ctx, t), nil, root, d.Other());
      ghost var wc := Step(d.Other(), ctx.red, p, t, up);
      PaintKid(d, mem[w].Child(d), false, wc, W);
      ghost var N := Painted(Kid(W, d), false);
      Paint(w, true, wc, Mk(d, W.red, N, w, Kid(W, d.Other())));
      Rotate(d.Other(), w, wc, Mk(d, true, N, w, Kid(W, d.Other())));
      ShapeUp(mem, wc, Case3(ctx), nil, root);
      ShapeDown(mem, up, Parent(wc, Case3(ctx)), nil, root, d);
    }

    // the far nephew is red: one last rotation
    method FixFinal(d: Side, x: Ref, ghost ctx: Ctx, ghost t: Tree)
      requires Shape(mem, ctx, t, nil, root) && x == Top(t, nil)
      requires ctx.Step? && ctx.side == d && mem[x].parent == ctx.node
      requires ctx.sib.Fork? && Kid(ctx.sib, d.Other()).Fork?
      modifies this`mem
      ensures mem.Keys == old(mem.Keys) && mem[nil] == old(mem[nil])
      ensures Shape(mem, ctx.up, Case4(ctx, t), nil, root)
    {
      var p := mem[x].parent;
      PaintFinal(d, x, ctx, t);
      Rotate(d, p, ctx.up, Mk(d, false, t, p, FinalSibling(ctx)));
    }

    // The colours before that rotation
    method PaintFinal(d: Side, x: Ref, ghost ctx: Ctx, ghost t: Tree)
      requires Shape(mem, ctx, t, nil, root) && x == Top(t, nil)
      requires ctx.Step? && ctx.side == d && mem[x].parent == ctx.node
      requires ctx.sib.Fork? && Kid(ctx.sib, d.Other()).Fork?
      modifies this`mem
      ensures mem.Keys == old(mem.Keys) && mem[nil] == old(mem[nil])
      ensures Shape(mem, ctx.up, Mk(d, false, t, ctx.node, FinalSibling(ctx)), nil, root)
    {
      ghost var o, p := d.Other(), ctx.node;
      var w := PaintPair(d, x, ctx, t);
      ghost var W' := Painted(ctx.sib, ctx.red);
      ShapeDown(mem, ctx.up, Mk(d, false, t, p, W'), nil, root, o);
      ghost var wc := Step(o, false, p, t, ctx.up);
      PaintKid(d.Other(), mem[w].Child(d.Other()), false, wc, W');
      ShapeUp(mem, wc, FinalSibling(ctx), nil, root);
    }

    // The sibling takes the parent's colour and the parent becomes black.
    method PaintPair(d: Side, x: Ref, ghost ctx: Ctx, ghost t: Tree) returns (w: Ref)
      requires Shape(mem, ctx, t, nil, root) && x == Top(t, nil)
      requires ctx.Step? && ctx.side == d && mem[x].parent == ctx.node && ctx.sib.Fork?
      modifies this`mem
      ensures mem.Keys == old(mem.Keys) && mem[nil] == old(mem[nil]) && w == ctx.sib.node
      ensures Shape(mem, ctx.up, Mk(d, false, t, ctx.node, Painted(ctx.sib, ctx.red)), nil, root)
    {
      var p := mem[x].parent;
      w := mem[p].Child(d.Other());
      ShapeUp(mem, ctx, t, nil, root);
      PaintKid(d.Other(), w, mem[p].red, ctx.up, Parent(ctx, t));
      Paint(p, false, ctx.up, Mk(d, ctx.red, t, p, Painted(ctx.sib, ctx.red)));
    }

    // Where the fixup stands: before the end, x is a black node short; at the end the tree is whole and
    // the remembered root is a black node, wherever it now is.
    ghost predicate Fixing(done: bool, x: Ref, top: Ref, ctx: Ctx, t: Tree)
      reads this
    {
      Shape(mem, ctx, t, nil, root) && x in mem
      && if done then x == top && ctx.Whole? && RedBlack(t) && !mem[x].red
         else DeleteInv(ctx, t) && x == Top(t, nil) && mem[x].parent == Above(ctx, root)
              && (top == Top(Plug(ctx, t), nil) || IsRed(t))
    }

    // RB_DELETE_FIXUP_SUB(d, d.Other()) with a black sibling
    method DeleteBlackSibling(d: Side, x0: Ref, top: Ref, ghost ctx0: Ctx, ghost t0: Tree)
        returns (x: Ref, ghost done: bool, ghost ctx: Ctx, ghost t: Tree)
      requires Shape(mem, ctx0, t0, nil, root) && DeleteInv(ctx0, t0) && x0 == Top(t0, nil) && !IsRed(t0)
      requires ctx0.Step? && ctx0.side == d && mem[x0].parent == ctx0.node && !IsRed(ctx0.sib)
      requires top == ctx0.node || (ctx0.up.Step? && top == Top(Plug(ctx0, t0), nil))
      requires HoleIsRed(ctx0) || top == Top(Plug(ctx0, t0), nil)
      modifies this`mem
      ensures mem.Keys == old(mem.Keys)
      ensures Fixing(done, x, top, ctx, t) && Total(ctx, t) == Total(ctx0, t0)
      ensures !done ==> ctx == ctx0.up && (HoleIsRed(ctx0) ==> IsRed(t))
    {
      SiblingIsFork(ctx0, t0);
      TopOfPlug(ctx0, t0, nil);
      ghost var W := ctx0.sib;
      ghost var o := d.Other();
      ctx := ctx0;
      var w := mem[mem[x0].parent].Child(d.Other());
      assert Rep(mem, W, nil, ctx0.node) && Rep(mem, W.l, nil, w) && Rep(mem, W.r, nil, w);
      if !mem[mem[w].Child(d)].red && !mem[mem[w].Child(d.Other())].red {
        Case2Keeps(ctx0, t0);
        x := FixBlackNephews(d, x0, ctx0, t0);
        done, ctx, t := false, ctx0.up, Mk(d, ctx0.red, t0, ctx0.node, Painted(W, true));
        TopOfPlug(ctx0, t0, nil);
      } else {
        if !mem[mem[w].Child(d.Other())].red {
          Case3Keeps(ctx0, t0);
          FixFarNephew(d, x0, ctx0, t0);
          ctx := ctx0.(sib := Case3(ctx0));
        }
        t := FixLast(d, x0, top, ctx, t0);
        x, done, ctx := top, true, Whole;
      }
    }

    // The far nephew is red: the last rotation, after which x = root leaves the loop
    method FixLast(d: Side, x0: Ref, top: Ref, ghost ctx: Ctx, ghost t0: Tree) returns (ghost t: Tree)
      requires Shape(mem, ctx, t0, nil, root) && DeleteInv(ctx, t0) && x0 == Top(t0, nil) && !IsRed(t0)
      requires ctx.Step? && ctx.side == d && mem[x0].parent == ctx.node && ctx.sib.Fork? && !ctx.sib.red
      requires IsRed(Kid(ctx.sib, d.Other()))
      requires top == ctx.node || (ctx.up.Step? && top == Top(Plug(ctx, t0), nil))
      modifies this`mem
      ensures mem.Keys == old(mem.Keys) && Fixing(true, top, top, Whole, t) && Total(Whole, t) == Total(ctx, t0)
    {
      Case4Keeps(ctx, t0);
      FixFinal(d, x0, ctx, t0);
      t := Plug(ctx.up, Case4(ctx, t0));
      FixedTop(mem, ctx, t0, nil, root, top);
    }

    // One turn of rb_delete_fixup's loop: x is black and is not the remembered root
    method DeleteStep(x0: Ref, top: Ref, ghost ctx0: Ctx, ghost t0: Tree)
        returns (x: Ref, ghost done: bool, ghost ctx: Ctx, ghost t: Tree)
      requires Fixing(false, x0, top, ctx0, t0) && x0 != top && !mem[x0].red
      modifies this`mem
      ensures mem.Keys == old(mem.Keys)
      ensures Fixing(done, x, top, ctx, t) && Total(ctx, t) == Total(ctx0, t0)
      ensures !done ==> DeleteFuel(ctx, t) < DeleteFuel(ctx0, t0)
    {
      assert !IsRed(t0) && ctx0.Step?;
      SiblingIsFork(ctx0, t0);
      TopOfPlug(ctx0, t0, nil);
      var p := mem[x0].parent;
      assert Rep(mem, ctx0.sib, nil, p);
      var d := if x0 == mem[p].left then Left else Right;
      assert ctx0.side == d by {
        assert ctx0.sib.node in Nodes(ctx0.sib);
      }
      ctx := ctx0;
      if mem[mem[p].Child(d.Other())].red {
        Case1Keeps(ctx0, t0);
        FixRedSibling(d, x0, ctx0, t0);
        ctx := Case1(ctx0);
        CaseOneTop(ctx0, t0, nil);
      }
      x, done, ctx, t := DeleteBlackSibling(d, x0, top, ctx, t0);
    }

    // rb_delete_fixup
    method DeleteFixup(node: Ref, ghost ctx0: Ctx, ghost t0: Tree)
      requires Shape(mem, ctx0, t0, nil, root) && DeleteInv(ctx0, t0)
      requires node == Top(t0, nil) && node in mem && mem[node].parent == Above(ctx0, root)
      modifies this
      ensures Valid() && mem.Keys == old(mem.Keys) && Contents() == Total(ctx0, t0)
    {
      ShapePlug(mem, ctx0, t0, nil, root);
      var x, top := node, mem[root].left;
      ghost var done, ctx, t := false, ctx0, t0;
      while x != top && !mem[x].red
        invariant mem.Keys == old(mem.Keys)
        invariant Fixing(done, x, top, ctx, t) && Total(ctx, t) == Total(ctx0, t0)
        decreases !done, DeleteFuel(ctx, t)
      {
        x, done, ctx, t := DeleteStep(x, top, ctx, t);
      }
      FixupEnd(x, top, done, ctx, t);
    }

    // rb_set_red(x, 0), after the loop
    method FixupEnd(x: Ref, top: Ref, ghost done: bool, ghost ctx: Ctx, ghost t0: Tree)
      requires Fixing(done, x, top, ctx, t0) && (x == top || mem[x].red)
      modifies this
      ensures Valid() && mem.Keys == old(mem.Keys) && Contents() == Total(ctx, t0)
    {
      ghost var t := t0;
      if !done {
        FixupEnds(ctx, t, nil, root, x, top);
        DeleteDone(ctx, t);
        if t.Fork? {
          PaintShape(mem, ctx, t, nil, root, false);
        } else {
          assert mem[nil := mem[nil].(red := false)] == mem;
        }
        t := Painted(t, false);
      } else {
        assert mem[x := mem[x].(red := false)] == mem;
      }
      SetRed(x, false);
      ShapePlug(mem, ctx, t, nil, root);
      PlugInOrder(ctx, t);
      tree := Plug(ctx, t);
    }

    // The part of rb_delete that unlinks y, which has at most one child
    method SpliceOut(y: Ref, ghost ctx: Ctx, ghost t: Tree) returns (x: Ref)
      requires Shape(mem, ctx, t, nil, root) && OneChild(t) && t.node == y
      modifies this`mem
      ensures mem.Keys == old(mem.Keys) && mem[y] == old(mem[y])
      ensures x == Top(OnlyChild(t), nil) && x in mem && mem[x].parent == Above(ctx, root)
      ensures Shape(mem, ctx, OnlyChild(t), nil, root)
    {
      ghost var m := mem;
      assert Rep(mem, t.l, nil, y) && Rep(mem, t.r, nil, y);
      assert ctx.Step? && ctx.sib.Fork? ==> ctx.sib.node in Nodes(ctx.sib);
      assert OnlyChild(t).Fork? ==> OnlyChild(t).node in Nodes(OnlyChild(t));
      x := if mem[y].left != nil then mem[y].left else mem[y].right;
      assert y != root && y != nil;
      SetParent(x, mem[y].parent);
      var p := mem[y].parent;
      if y == mem[p].left {
        SetChild(p, Left, x);
      } else {
        SetChild(p, Right, x);
      }
      SpliceShape(m, mem, ctx, t, nil, root);
    }

    // The part of rb_delete that puts y in the place of z
    method Replace(z: Ref, y: Ref, ghost ctx: Ctx, ghost t: Tree)
      requires Shape(mem, ctx, t, nil, root) && t.Fork? && t.node == z
      requires y in mem && y !in Foot(ctx, t) + {nil, root}
      modifies this`mem
      ensures mem.Keys == old(mem.Keys)
      ensures Shape(mem, ctx, t.(node := y), nil, root)
      ensures mem[nil].parent == if t.l.Leaf? || t.r.Leaf? then y else old(mem[nil].parent)
    {
      ReplaceDistinct(mem, ctx, t, nil, root, y);
      ReplaceCells(z, y, HoleSide(ctx));
      ReplaceShape(old(mem), mem, ctx, t, nil, root, y);
    }

    method ReplaceCells(z: Ref, y: Ref, ghost d: Side)
      requires z in mem && y in mem
      requires var p, a, b := mem[z].parent, mem[z].left, mem[z].right;
               p in mem && a in mem && b in mem && z !in {p, a, b} && y !in {z, p, a, b} && p != a && p != b
               && (mem[p].left == z <==> d.Left?)
      modifies this`mem
      ensures mem.Keys == old(mem.Keys)
      ensures var m := old(mem); var p, a, b := m[z].parent, m[z].left, m[z].right;
              mem[y] == m[z] && mem[a] == m[a].(parent := y) && mem[b] == m[b].(parent := y)
              && mem[p] == m[p].WithChild(d, y)
              && forall n :: n in m && n !in {y, p, a, b} ==> mem[n] == m[n]
    {
      var p := mem[z].parent;
      if z == mem[p].left {
        SetChild(p, Left, y);
      } else {
        SetChild(p, Right, y);
      }
      SetParent(mem[z].right, y);
      SetParent(mem[z].left, y);
      mem := mem[y := mem[z]];
    }

    // while (y->left != nil) y = y->left, and its mirror image
    method Descend(d: Side, y0: Ref, ghost outer: Ctx, ghost t: Tree) returns (y: Ref, ghost inner: Ctx, ghost u: Tree)
      requires Shape(mem, outer, t, nil, root) && t.Fork? && y0 == t.node
      ensures Plug(inner, u) == t && Extreme(inner, d)
      ensures u.Fork? && Kid(u, d).Leaf? && y == u.node && y != nil
    {
      y, inner, u := y0, Whole, t;
      while mem[y].Child(d) != nil
        invariant Plug(inner, u) == t && Extreme(inner, d) && u.Fork? && y == u.node && y != nil
        invariant Shape(mem, Append(inner, outer), u, nil, root)
        decreases u
      {
        ShapeDown(mem, Append(inner, outer), u, nil, root, d);
        y := mem[y].Child(d);
        inner, u := Step(d, u.red, u.node, Kid(u, d.Other()), inner), Kid(u, d);
      }
      assert Rep(mem, Kid(u, d), nil, y);
    }

    // rb_tree_successor
    method Successor(node: Ref, ghost ctx: Ctx, ghost t: Tree) returns (y: Ref, ghost inner: Ctx, ghost u: Tree)
      requires Shape(mem, ctx, t, nil, root) && t.Fork? && t.node == node
      ensures var s, i := Total(ctx, t), Rank(ctx, t);
              i < |s| && s[i] == node && y == if i + 1 < |s| then s[i + 1] else nil
      ensures t.r.Fork? ==> Plug(inner, u) == t.r && Extreme(inner, Left) && u.Fork? && u.l.Leaf? && y == u.node
    {
      var x := node;
      inner, u := Whole, t;
      ghost var s, i := Total(ctx, t), Rank(ctx, t);
      RankSplits(ctx, t);
      ShapeDown(mem, ctx, t, nil, root, Right);
      y := mem[x].right;
      if y != nil {
        ghost var outer := Step(Right, t.red, t.node, t.l, ctx);
        y, inner, u := Descend(Left, y, outer, t.r);
        ExtremeOrder(inner, u, Left);
        SeqEdges(outer, t.r);
        return;
      }
      y := mem[x].parent;
      assert t.r.Leaf?;
      ghost var c, w := ctx, t;
      while x == mem[y].right
        invariant Shape(mem, c, w, nil, root) && w.Fork? && x == w.node && y == Above(c, root) && y in mem
        invariant Total(c, w) == s && |Before(c)| + |InOrder(w)| == i + 1
        decreases c
      {
        TotalUp(c, w);
        ShapeUp(mem, c, w, nil, root);
        x, y := y, mem[y].parent;
        c, w := c.up, Parent(c, w);
      }
      SeqEdges(c, w);
      if y == root {
        y := nil;
      }
    }

    // rb_tree_predecessor
    method Predecessor(node: Ref, ghost ctx: Ctx, ghost t: Tree) returns (y: Ref)
      requires Shape(mem, ctx, t, nil, root) && t.Fork? && t.node == node
      ensures var s, i := Total(ctx, t), Rank(ctx, t);
              i < |s| && s[i] == node && y == if i > 0 then s[i - 1] else nil
    {
      var x := node;
      ghost var s, i := Total(ctx, t), Rank(ctx, t);
      RankSplits(ctx, t);
      ShapeDown(mem, ctx, t, nil, root, Left);
      y := mem[x].left;
      if y != nil {
        ghost var inner, u;
        ghost var outer := Step(Left, t.red, t.node, t.r, ctx);
        y, inner, u := Descend(Right, y, outer, t.l);
        ExtremeOrder(inner, u, Right);
        SeqEdges(outer, t.l);
        return;
      }
      y := mem[x].parent;
      ghost var c, w := ctx, t;
      while x == mem[y].left
        invariant Shape(mem, c, w, nil, root) && w.Fork? && x == w.node && y == Above(c, root) && y in mem
        invariant Total(c, w) == s && |Before(c)| == i
        decreases c
      {
        SeqEdges(c, w);
        if y == root {
          y := nil;
          return;
        }
        TotalUp(c, w);
        ShapeUp(mem, c, w, nil, root);
        x, y := y, mem[y].parent;
        c, w := c.up, Parent(c, w);
      }
      SeqEdges(c, w);
    }

    // rb_delete when the unlinked node is z itself
    method DeleteHere(z: Ref, ghost ctx: Ctx, ghost t: Tree)
      requires Shape(mem, ctx, t, nil, root) && RedBlack(Plug(ctx, t)) && OneChild(t) && t.node == z
      modifies this
      ensures Valid() && mem.Keys == old(mem.Keys) && Contents() == Total(ctx, OnlyChild(t))
    {
      SpliceInv(ctx, t);
      var x := SpliceOut(z, ctx, t);
      if !mem[z].red {
        DeleteFixup(x, ctx, OnlyChild(t));
      } else {
        ShapePlug(mem, ctx, OnlyChild(t), nil, root);
        PlugInOrder(ctx, OnlyChild(t));
        tree := Plug(ctx, OnlyChild(t));
      }
    }

    // Unlink y, the successor of z, and put it in the place of z
    method Swap(z: Ref, y: Ref, ghost ctx: Ctx, ghost t: Tree, ghost inner: Ctx, ghost u: Tree) returns (x: Ref)
      requires Shape(mem, ctx, t, nil, root) && t.Fork? && t.node == z && t.l.Fork?
      requires t.r == Plug(inner, u) && u.Fork? && u.l.Leaf? && u.node == y
      modifies this`mem
      ensures mem.Keys == old(mem.Keys)
      ensures var at := Append(inner, Step(Right, t.red, y, t.l, ctx));
              Shape(mem, at, u.r, nil, root) && x == Top(u.r, nil) && x in mem && mem[x].parent == Above(at, root)
    {
      ghost var below := Step(Right, t.red, z, t.l, ctx);
      ShapeDown(mem, ctx, t, nil, root, Right);
      ShapeInto(mem, inner, below, u, nil, root);
      UnlinkedApart(ctx, t, inner, u, nil, root);
      x := SpliceOut(y, Append(inner, below), u);
      ShapeOutOf(mem, inner, below, u.r, nil, root);
      ghost var t' := t.(r := Plug(inner, u.r));
      ShapeUp(mem, below, Plug(inner, u.r), nil, root);
      Replace(z, y, ctx, t');
      ShapeDown(mem, ctx, t'.(node := y), nil, root, Right);
      ShapeInto(mem, inner, Step(Right, t.red, y, t.l, ctx), u.r, nil, root);
      if inner.Step? {
        PlugIsFork(inner, u.r);
      }
    }

    // rb_delete when z has two children
    method DeleteSwap(z: Ref, ghost ctx: Ctx, ghost t: Tree)
      requires Shape(mem, ctx, t, nil, root) && RedBlack(Plug(ctx, t)) && t.Fork? && t.node == z
      requires t.l.Fork? && t.r.Fork?
      modifies this
      ensures Valid() && mem.Keys == old(mem.Keys)
      ensures Rank(ctx, t) < |Total(ctx, t)| && Contents() == Without(Total(ctx, t), Rank(ctx, t))
    {
      ghost var inner, u;
      var y;
      y, inner, u := Successor(z, ctx, t);
      SwapInv(ctx, t, inner, u);
      ghost var at := Append(inner, Step(Right, t.red, y, t.l, ctx));
      ShapeDown(mem, ctx, t, nil, root, Right);
      ShapeInto(mem, inner, Step(Right, t.red, z, t.l, ctx), u, nil, root);
      var needFixup := !mem[y].red;
      var x := Swap(z, y, ctx, t, inner, u);
      SwapEnd(x, needFixup, at, u.r);
      ReplaceOrder(ctx, t, inner, u);
    }

    // if (need_fixup) rb_delete_fixup(tree, x)
    method SwapEnd(x: Ref, needFixup: bool, ghost at: Ctx, ghost t: Tree)
      requires Shape(mem, at, t, nil, root) && x == Top(t, nil) && x in mem && mem[x].parent == Above(at, root)
      requires if needFixup then DeleteInv(at, t) else RedBlack(Plug(at, t))
      modifies this
      ensures Valid() && mem.Keys == old(mem.Keys) && Contents() == Total(at, t)
    {
      if needFixup {
        DeleteFixup(x, at, t);
      } else {
        ShapePlug(mem, at, t, nil, root);
        PlugInOrder(at, t);
        tree := Plug(at, t);
      }
    }

    // The position of a node of the tree, as a zipper
    ghost method At(z: Ref) returns (ctx: Ctx, t: Tree)
      requires Valid() && z in Contents()
      ensures Shape(mem, ctx, t, nil, root) && Plug(ctx, t) == tree && t.Fork? && t.node == z
      ensures Total(ctx, t) == Contents()
      ensures Rank(ctx, t) < |Contents()| && Contents()[Rank(ctx, t)] == z
    {
      InOrderNodes(tree);
      ctx, t := Locate(tree, z);
      ShapeInto(mem, ctx, Whole, t, nil, root);
      AppendWhole(ctx);
      PlugInOrder(ctx, t);
      RankSplits(ctx, t);
    }

    // rb_delete
    method Delete(z: Ref) returns (ghost pos: nat)
      requires Valid() && z in Contents()
      modifies this
      ensures Valid() && mem.Keys == old(mem.Keys)
      ensures pos < |old(Contents())| && old(Contents())[pos] == z
      ensures Contents() == Without(old(Contents()), pos)
    {
      ghost var ctx, t := At(z);
      pos := Rank(ctx, t);
      if mem[z].left == nil || mem[z].right == nil {
        assert OneChild(t) by { assert Rep(mem, t.l, nil, z) && Rep(mem, t.r, nil, z); }
        SpliceOrder(ctx, t);
        DeleteHere(z, ctx, t);
      } else {
        DeleteSwap(z, ctx, t);
      }
    }

    // rb_node_prev and rb_node_next; nil stands for NULL
    method Prev(z: Ref) returns (y: Ref, ghost i: nat)
      requires Valid() && z in Contents()
      ensures i < |Contents()| && Contents()[i] == z && y == if i > 0 then Contents()[i - 1] else nil
    {
      ghost var ctx, t := At(z);
      i := Rank(ctx, t);
      y := Predecessor(z, ctx, t);
    }

    method Next(z: Ref) returns (y: Ref, ghost i: nat)
      requires Valid() && z in Contents()
      ensures i < |Contents()| && Contents()[i] == z && y == if i + 1 < |Contents()| then Contents()[i + 1] else nil
    {
      ghost var ctx, t := At(z);
      ghost var inner, u;
      i := Rank(ctx, t);
      y, inner, u := Successor(z, ctx, t);
    }

    // rb_tree_create, on the cells kmalloc returned for the two sentinels
    constructor (m: Mem, nil: Ref, root: Ref)
      requires nil != root
      ensures Valid() && Contents() == [] && this.nil == nil && this.root == root
      ensures mem.Keys == m.Keys + {nil, root}
    {
      this.nil, this.root := nil, root;
      mem := m[nil := Cell(false, nil, nil, nil)][root := Cell(false, nil, nil, nil)];
      tree := Leaf;
    }

    // The rb_link of a node that was allocated after the tree was built, whatever it holds
    method Adopt(node: Ref)
      requires Valid()
      modifies this`mem
      ensures Valid() && tree == old(tree) && node in mem
    {
      if node !in mem {
        ghost var was := mem;
        mem := mem[node := Cell(false, nil, nil, nil)];
        RepMove(was, mem, tree, nil, root, root);
      }
    }

    // rb_search, with nil for NULL: the highest of several nodes with the key, after a walk no longer than the height
    method Search(key: map<Ref, int>, k: int) returns (y: Ref, ghost ctx: Ctx, ghost t: Tree, ghost steps: nat)
      requires Valid() && Sorted(Contents(), key)
      ensures y != nil ==> y in Contents() && key[y] == k
      ensures y == nil <==> forall n :: n in Contents() ==> key[n] != k
      ensures Plug(ctx, t) == tree && y == Top(t, nil) && steps == Depth(ctx)
      ensures y != nil ==> t.Fork? && t.node == y && forall n :: n in Contents() && key[n] == k ==> n in InOrder(t)
      ensures D.Pow2(steps) <= (|Contents()| + 1) * (|Contents()| + 1)
    {
      y := mem[root].left;
      ctx, t, steps := Whole, tree, 0;
      TopInside(t);
      while y != nil && key[y] != k
        invariant Seeking(key, k, y, ctx, t, steps)
        decreases t
      {
        ghost var d := if key[y] > k then Left else Right;
        SeekDown(key, k, y, ctx, t, steps);
        y := if key[y] > k then mem[y].left else mem[y].right;
        ctx, t, steps := Step(d, t.red, t.node, Kid(t, d.Other()), ctx), Kid(t, d), steps + 1;
      }
      SeekEnd(key, k, y, ctx, t, steps);
    }

    // Every node with key k lies below y, where the search has come in so many steps.
    ghost predicate Seeking(key: map<Ref, int>, k: int, y: Ref, ctx: Ctx, t: Tree, steps: nat)
      reads this
    {
      Shape(mem, ctx, t, nil, root) && y == Top(t, nil) && Sorted(Contents(), key) && Narrowed(Contents(), t, key, k)
      && Plug(ctx, t) == tree && steps == Depth(ctx) && steps + Height(t) <= Height(tree) && (t.Fork? ==> t.node in InOrder(t))
    }

    lemma SeekDown(key: map<Ref, int>, k: int, y: Ref, ctx: Ctx, t: Tree, steps: nat)
      requires Valid() && Seeking(key, k, y, ctx, t, steps) && t.Fork? && y in mem && key[t.node] != k
      ensures var d := if key[t.node] > k then Left else Right;
              Seeking(key, k, mem[y].Child(d), Step(d, t.red, t.node, Kid(t, d.Other()), ctx), Kid(t, d), steps + 1)
    {
      var d := if key[t.node] > k then Left else Right;
      SearchDown(Contents(), t, key, k);
      ShapeDown(mem, ctx, t, nil, root, d);
      TopInside(Kid(t, d));
    }

    lemma SeekEnd(key: map<Ref, int>, k: int, y: Ref, ctx: Ctx, t: Tree, steps: nat)
      requires Valid() && Seeking(key, k, y, ctx, t, steps) && (t.Fork? ==> key[t.node] == k)
      ensures t.Fork? ==> t.node in Contents()
      ensures t == Leaf ==> forall n :: n in Contents() ==> key[n] != k
      ensures D.Pow2(steps) <= (|Contents()| + 1) * (|Contents()| + 1)
    {
      WalkBound(tree, steps);
      PlugInOrder(ctx, t);
    }
  }
}
