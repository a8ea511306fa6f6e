/** The node arena of `DictionaryWithRBTree::RBTree`: nodes live in a sequence,
    pointers are indices, and index 0 is the shared sentinel `NIL`. This module
    says when an arena holds a given tree value and proves how the pointer
    writes of the rotations and of the splices in `remove` move that value. */
module RBArena {
  import opened Bytes
  import opened RBTheory

  /** A heap node: the fields of `Node` in main.cpp with pointers as indices. */
  datatype Node = Node(key: Key, value: int, color: Color, parent: nat, left: nat, right: nat)

  const NIL: nat := 0

  function ChildPtr(n: Node, s: Side): nat {
    if s == L then n.left else n.right
  }

  function WithChildPtr(n: Node, s: Side, c: nat): Node {
    if s == L then n.(left := c) else n.(right := c)
  }

  /** The arena holds tree `t` at index `Id(t)`, its root's parent pointer being `p`. */
  ghost predicate Matches(t: Tree, p: nat, h: seq<Node>) {
    match t
    case Empty => true
    case Fork(l, id, k, v, c, r) =>
      0 < id < |h| && h[id].key == k && h[id].value == v && h[id].color == c && h[id].parent == p
      && h[id].left == Id(l) && h[id].right == Id(r) && Matches(l, id, h) && Matches(r, id, h)
  }

  /** The arena holds the path `ctx` above a subtree rooted at index `x`. */
  ghost predicate MatchesCtx(ctx: seq<Frame>, x: nat, h: seq<Node>)
    decreases |ctx|
  {
    |ctx| == 0 ||
    (var f := ctx[0];
     0 < f.id < |h| && h[f.id].key == f.key && h[f.id].value == f.value && h[f.id].color == f.color
     && h[f.id].parent == HoleParent(ctx[1..], NIL)
     && ChildPtr(h[f.id], f.side) == x && ChildPtr(h[f.id], Opp(f.side)) == Id(f.sibling)
     && Matches(f.sibling, f.id, h) && MatchesCtx(ctx[1..], f.id, h))
  }

  /** Arena `h` with root pointer `root` holds `Plug(ctx, t)`, and the fix-up's
      current node is the root of `t` (the sentinel when `t` is empty). */
  ghost predicate Linked(ctx: seq<Frame>, t: Tree, h: seq<Node>, root: nat) {
    |h| > 0 && Matches(t, HoleParent(ctx, NIL), h) && MatchesCtx(ctx, Id(t), h)
    && root == Id(Plug(ctx, t)) && Distinct(Plug(ctx, t))
  }

  /** `h'` agrees with `h` on the indices in `s`. */
  ghost predicate Agree(h: seq<Node>, h': seq<Node>, s: set<nat>) {
    forall i :: i in s ==> i < |h| && i < |h'| && h'[i] == h[i]
  }

  /** Two writes outside `s` leave the nodes of `s` alone. */
  lemma AgreeTwoWrites(h: seq<Node>, s: set<nat>, i: nat, ni: Node, j: nat, nj: Node)
    requires i < |h| && j < |h| && i !in s && j !in s && forall k :: k in s ==> k < |h|
    ensures Agree(h, h[i := ni][j := nj], s)
  {
  }

  // ---------------------------------------------------------------------------
  // Basic facts

  lemma {:induction false} MatchesRange(t: Tree, p: nat, h: seq<Node>)
    requires Matches(t, p, h)
    ensures forall i :: i in Ids(t) ==> 0 < i < |h|
  {
    match t
    case Empty =>
    case Fork(l, id, _, _, _, r) =>
      MatchesRange(l, id, h);
      MatchesRange(r, id, h);
  }

  lemma {:induction false} MatchesCtxRange(ctx: seq<Frame>, x: nat, h: seq<Node>)
    requires MatchesCtx(ctx, x, h)
    ensures forall i :: i in CtxIds(ctx) ==> 0 < i < |h|
    decreases |ctx|
  {
    if |ctx| > 0 {
      MatchesRange(ctx[0].sibling, ctx[0].id, h);
      MatchesCtxRange(ctx[1..], ctx[0].id, h);
    }
  }

  lemma {:induction false} MatchesFrame(t: Tree, p: nat, h: seq<Node>, h': seq<Node>)
    requires Matches(t, p, h) && Agree(h, h', Ids(t))
    ensures Matches(t, p, h')
  {
    match t
    case Empty =>
    case Fork(l, id, _, _, _, r) =>
      MatchesFrame(l, id, h, h');
      MatchesFrame(r, id, h, h');
  }

  lemma {:induction false} MatchesCtxFrame(ctx: seq<Frame>, x: nat, h: seq<Node>, h': seq<Node>)
    requires MatchesCtx(ctx, x, h) && Agree(h, h', CtxIds(ctx))
    ensures MatchesCtx(ctx, x, h')
    decreases |ctx|
  {
    if |ctx| > 0 {
      MatchesFrame(ctx[0].sibling, ctx[0].id, h, h');
      MatchesCtxFrame(ctx[1..], ctx[0].id, h, h');
    }
  }

  /** A subtree whose root node (only) changed its parent pointer. */
  lemma Reparent(t: Tree, p: nat, p': nat, h: seq<Node>, h': seq<Node>)
    requires Matches(t, p, h) && t.Fork? && Distinct(t)
    requires t.id < |h'| && h'[t.id] == h[t.id].(parent := p')
    requires Agree(h, h', Ids(t) - {t.id})
    ensures Matches(t, p', h')
  {
    MatchesFrame(t.left, t.id, h, h');
    MatchesFrame(t.right, t.id, h, h');
  }

  /** The facts about indices that distinctness gives at a zipper. */
  lemma LinkedIds(ctx: seq<Frame>, t: Tree, h: seq<Node>, root: nat)
    requires Linked(ctx, t, h, root)
    ensures Distinct(t) && Ids(t) !! CtxIds(ctx)
    ensures forall i :: i in Ids(t) ==> 0 < i < |h|
    ensures forall i :: i in CtxIds(ctx) ==> 0 < i < |h|
    ensures Id(t) < |h| && (t.Fork? <==> Id(t) != NIL)
    ensures |ctx| > 0 ==> ctx[0].id in CtxIds(ctx) && ctx[0].id !in Ids(ctx[0].sibling) && ctx[0].id != NIL
    ensures |ctx| > 0 ==> Ids(ctx[0].sibling) <= CtxIds(ctx) && Distinct(ctx[0].sibling)
    ensures |ctx| > 0 ==> Id(t) != Id(ctx[0].sibling) || t.Empty?
    ensures |ctx| == 0 <==> HoleParent(ctx, NIL) == NIL
    ensures |ctx| == 0 <==> root == Id(t) || (t.Empty? && root == NIL)
  {
    DistinctPlug(ctx, t);
    DistinctCtxDisjoint(ctx, Ids(t));
    MatchesRange(t, HoleParent(ctx, NIL), h);
    MatchesCtxRange(ctx, Id(t), h);
    IdPlug(ctx, t);
    if |ctx| > 0 {
      assert ctx[|ctx| - 1].id in CtxIds(ctx) by { LastInCtxIds(ctx); }
    }
  }

  lemma {:induction false} LastInCtxIds(ctx: seq<Frame>)
    requires |ctx| > 0
    ensures ctx[|ctx| - 1].id in CtxIds(ctx)
    decreases |ctx|
  {
    if |ctx| > 1 {
      LastInCtxIds(ctx[1..]);
      assert ctx[1..][|ctx[1..]| - 1] == ctx[|ctx| - 1];
    }
  }

  // ---------------------------------------------------------------------------
  // Moving along a zipper

  /** The current node moves up to its parent. */
  lemma LinkedUp(ctx: seq<Frame>, t: Tree, h: seq<Node>, root: nat)
    requires Linked(ctx, t, h, root) && |ctx| > 0
    ensures Linked(ctx[1..], Attach(ctx[0], t), h, root)
  {
  }

  /** The current node moves down to its child on side `s`. */
  lemma LinkedDown(ctx: seq<Frame>, t: Tree, h: seq<Node>, root: nat, s: Side)
    requires Linked(ctx, t, h, root) && t.Fork?
    ensures Linked([Frame(s, t.id, t.key, t.value, t.color, Child(t, Opp(s)))] + ctx, Child(t, s), h, root)
  {
    var f := Frame(s, t.id, t.key, t.value, t.color, Child(t, Opp(s)));
    assert ([f] + ctx)[1..] == ctx;
    assert Attach(f, Child(t, s)) == t;
  }

  /** Down along a path: a subtree plugged into a path below the current node. */
  lemma {:induction false} LinkedDownPath(ctx: seq<Frame>, d: seq<Frame>, t: Tree, h: seq<Node>, root: nat)
    requires Linked(ctx, Plug(d, t), h, root)
    ensures Linked(d + ctx, t, h, root)
    decreases |d|
  {
    if |d| == 0 {
      assert d + ctx == ctx;
    } else {
      var last := d[|d| - 1];
      var init := d[..|d| - 1];
      assert d == init + [last];
      PlugAppend(init, [last], t);
      assert Plug([last], Plug(init, t)) == Attach(last, Plug(init, t));
      var u := Attach(last, Plug(init, t));
      LinkedDown(ctx, u, h, root, last.side);
      assert Frame(last.side, u.id, u.key, u.value, u.color, Child(u, Opp(last.side))) == last;
      assert Child(u, last.side) == Plug(init, t);
      LinkedDownPath([last] + ctx, init, t, h, root);
      assert init + ([last] + ctx) == d + ctx;
    }
  }

  /** Up along a path: the current node climbs all of `d`. */
  lemma {:induction false} LinkedUpPath(ctx: seq<Frame>, d: seq<Frame>, t: Tree, h: seq<Node>, root: nat)
    requires Linked(d + ctx, t, h, root)
    ensures Linked(ctx, Plug(d, t), h, root)
    decreases |d|
  {
    if |d| == 0 {
      assert d + ctx == ctx;
    } else {
      LinkedUp(d + ctx, t, h, root);
      assert (d + ctx)[1..] == d[1..] + ctx && (d + ctx)[0] == d[0];
      LinkedUpPath(ctx, d[1..], Attach(d[0], t), h, root);
    }
  }

  // ---------------------------------------------------------------------------
  // Single-node writes

  /** Writing color `c` and value `v` into the current node. */
  lemma RelabelRoot(ctx: seq<Frame>, t: Tree, h: seq<Node>, root: nat, c: Color, v: int)
    requires Linked(ctx, t, h, root) && t.Fork?
    ensures Linked(ctx, t.(color := c, value := v), h[t.id := h[t.id].(color := c, value := v)], root)
  {
    var h' := h[t.id := h[t.id].(color := c, value := v)];
    LinkedIds(ctx, t, h, root);
    MatchesFrame(t.left, t.id, h, h');
    MatchesFrame(t.right, t.id, h, h');
    MatchesCtxFrame(ctx, t.id, h, h');
    DistinctReplace(ctx, t, t.(color := c, value := v));
    IdPlug(ctx, t);
    IdPlug(ctx, t.(color := c, value := v));
  }

  lemma Recolor(ctx: seq<Frame>, t: Tree, h: seq<Node>, root: nat, c: Color)
    requires Linked(ctx, t, h, root) && t.Fork?
    ensures Linked(ctx, t.(color := c), h[t.id := h[t.id].(color := c)], root)
  {
    RelabelRoot(ctx, t, h, root, c, t.value);
    assert h[t.id].(color := c, value := t.value) == h[t.id].(color := c);
  }

  /** Writing color `c` into the current node's child on side `s`. */
  lemma RecolorChild(ctx: seq<Frame>, t: Tree, h: seq<Node>, root: nat, s: Side, c: Color)
    requires Linked(ctx, t, h, root) && t.Fork? && Child(t, s).Fork?
    ensures var n := Child(t, s);
      n.id < |h| && Linked(ctx, WithChild(t, s, n.(color := c)), h[n.id := h[n.id].(color := c)], root)
  {
    var n := Child(t, s);
    LinkedIds(ctx, t, h, root);
    LinkedDown(ctx, t, h, root, s);
    var f := Frame(s, t.id, t.key, t.value, t.color, Child(t, Opp(s)));
    Recolor([f] + ctx, n, h, root, c);
    LinkedUp([f] + ctx, n.(color := c), h[n.id := h[n.id].(color := c)], root);
    assert ([f] + ctx)[1..] == ctx;
    assert Attach(f, n.(color := c)) == WithChild(t, s, n.(color := c));
  }

  // ---------------------------------------------------------------------------
  // Rotation

  /** The arena after a rotation at `x = t.id` towards side `s` (`leftRotate` for
      `s == L`): `y`, the child on the other side, takes `x`'s place, `b`, the
      inner grandchild, moves under `x`. */
  ghost predicate RotatedAt(h: seq<Node>, h': seq<Node>, x: nat, s: Side, y: nat, b: nat, px: nat, ps: Side) {
    |h'| == |h| && x < |h| && y < |h| && b < |h| && px < |h|
    && h'[x] == WithChildPtr(h[x], Opp(s), b).(parent := y)
    && h'[y] == WithChildPtr(h[y], s, x).(parent := px)
    && (b != NIL ==> h'[b] == h[b].(parent := x))
    && (px != NIL ==> h'[px] == WithChildPtr(h[px], ps, y))
    && (forall i :: 0 <= i < |h| && i != x && i != y && (b == NIL || i != b) && (px == NIL || i != px) ==> h'[i] == h[i])
  }

  /** The writes of `leftRotate(x)` (`s == L`) / `rightRotate(x)` (`s == R`), in
      the order main.cpp performs them. */
  function RotatedArena(h: seq<Node>, x: nat, s: Side): seq<Node> {
    if !(x < |h| && ChildPtr(h[x], Opp(s)) < |h| && ChildPtr(h[ChildPtr(h[x], Opp(s))], s) < |h| && h[x].parent < |h|)
    then h
    else
    var y := ChildPtr(h[x], Opp(s));
    var b := ChildPtr(h[y], s);
    var h1 := h[x := WithChildPtr(h[x], Opp(s), b)];
    var h2 := if b != NIL then h1[b := h1[b].(parent := x)] else h1;
    var px := h2[x].parent;
    var h3 := h2[y := h2[y].(parent := px)];
    var h4 := if px == NIL then h3
              else if x == h3[px].left then h3[px := h3[px].(left := y)]
              else h3[px := h3[px].(right := y)];
    var h5 := h4[y := WithChildPtr(h4[y], s, x)];
    h5[x := h5[x].(parent := y)]
  }

  /** The writes of a rotation at the three nodes it relinks. */
  lemma RotatedArenaNodes(h: seq<Node>, x: nat, s: Side)
    requires x < |h| && ChildPtr(h[x], Opp(s)) < |h| && ChildPtr(h[ChildPtr(h[x], Opp(s))], s) < |h|
    requires h[x].parent < |h|
    requires var y := ChildPtr(h[x], Opp(s)); var b := ChildPtr(h[y], s); var px := h[x].parent;
      x != NIL && y != NIL && x != y && b != x && b != y && px != x && px != y && (b == NIL || b != px)
    ensures var y := ChildPtr(h[x], Opp(s)); var b := ChildPtr(h[y], s); var h' := RotatedArena(h, x, s);
      |h'| == |h| && h'[x] == WithChildPtr(h[x], Opp(s), b).(parent := y)
      && h'[y] == WithChildPtr(h[y], s, x).(parent := h[x].parent)
      && (b != NIL ==> h'[b] == h[b].(parent := x))
  {
    var y := ChildPtr(h[x], Opp(s));
    var b := ChildPtr(h[y], s);
    var h1 := h[x := WithChildPtr(h[x], Opp(s), b)];
    var h2 := if b != NIL then h1[b := h1[b].(parent := x)] else h1;
    assert h2[x].parent == h[x].parent;
  }

  /** The write of a rotation at the parent of `x`. */
  lemma RotatedArenaParent(h: seq<Node>, x: nat, s: Side, ps: Side)
    requires x < |h| && ChildPtr(h[x], Opp(s)) < |h| && ChildPtr(h[ChildPtr(h[x], Opp(s))], s) < |h|
    requires h[x].parent < |h|
    requires var y := ChildPtr(h[x], Opp(s)); var b := ChildPtr(h[y], s); var px := h[x].parent;
      x != NIL && y != NIL && x != y && b != x && b != y && px != x && px != y && (b == NIL || b != px)
    requires var px := h[x].parent; px != NIL ==> ChildPtr(h[px], ps) == x && ChildPtr(h[px], Opp(ps)) != x
    ensures var px := h[x].parent; px != NIL ==> RotatedArena(h, x, s)[px] == WithChildPtr(h[px], ps, ChildPtr(h[x], Opp(s)))
  {
    var y := ChildPtr(h[x], Opp(s));
    var b := ChildPtr(h[y], s);
    var px := h[x].parent;
    var h1 := h[x := WithChildPtr(h[x], Opp(s), b)];
    var h2 := if b != NIL then h1[b := h1[b].(parent := x)] else h1;
    assert h2[x].parent == px;
    var h3 := h2[y := h2[y].(parent := px)];
    if px != NIL {
      assert h3[px] == h[px];
      assert (x == h[px].left) == (ps == L);
    }
  }

  /** A rotation writes no other node. */
  lemma RotatedArenaRest(h: seq<Node>, x: nat, s: Side)
    requires x < |h| && ChildPtr(h[x], Opp(s)) < |h| && ChildPtr(h[ChildPtr(h[x], Opp(s))], s) < |h|
    requires h[x].parent < |h|
    requires var y := ChildPtr(h[x], Opp(s)); var b := ChildPtr(h[y], s); var px := h[x].parent;
      x != NIL && y != NIL && x != y && b != x && b != y && px != x && px != y && (b == NIL || b != px)
    ensures var y := ChildPtr(h[x], Opp(s)); var b := ChildPtr(h[y], s); var px := h[x].parent;
      forall i :: 0 <= i < |h| && i != x && i != y && (b == NIL || i != b) && (px == NIL || i != px) ==> RotatedArena(h, x, s)[i] == h[i]
  {
    var y := ChildPtr(h[x], Opp(s));
    var b := ChildPtr(h[y], s);
    var h1 := h[x := WithChildPtr(h[x], Opp(s), b)];
    var h2 := if b != NIL then h1[b := h1[b].(parent := x)] else h1;
    assert h2[x].parent == h[x].parent;
  }

  lemma RotatedArenaAt(h: seq<Node>, x: nat, s: Side, ps: Side)
    requires x < |h| && ChildPtr(h[x], Opp(s)) < |h| && ChildPtr(h[ChildPtr(h[x], Opp(s))], s) < |h|
    requires h[x].parent < |h|
    requires var y := ChildPtr(h[x], Opp(s)); var b := ChildPtr(h[y], s); var px := h[x].parent;
      x != NIL && y != NIL && x != y && b != x && b != y && px != x && px != y && (b == NIL || b != px)
      && (px != NIL ==> ChildPtr(h[px], ps) == x && ChildPtr(h[px], Opp(ps)) != x)
    ensures var y := ChildPtr(h[x], Opp(s));
      RotatedAt(h, RotatedArena(h, x, s), x, s, y, ChildPtr(h[y], s), h[x].parent, ps)
  {
    RotatedArenaNodes(h, x, s);
    RotatedArenaParent(h, x, s, ps);
    RotatedArenaRest(h, x, s);
  }

  /** The rotated subtree is held by the arena after the writes at `x`, `y` and `b`. */
  lemma RotateMatches(t: Tree, px: nat, h: seq<Node>, s: Side, h': seq<Node>)
    requires Matches(t, px, h) && Distinct(t) && t.Fork? && Child(t, Opp(s)).Fork?
    requires var yt := Child(t, Opp(s)); var b := Id(Child(yt, s));
      |h'| == |h| && yt.id < |h| && b < |h|
      && h'[t.id] == WithChildPtr(h[t.id], Opp(s), b).(parent := yt.id)
      && h'[yt.id] == WithChildPtr(h[yt.id], s, t.id).(parent := px)
      && (b != NIL ==> h'[b] == h[b].(parent := t.id))
      && Agree(h, h', Ids(t) - {t.id, yt.id, b})
    ensures Matches(Rotate(s, t), px, h')
  {
    var x := t.id;
    var yt := Child(t, Opp(s));
    var y := yt.id;
    var a := Child(t, s);
    var bt := Child(yt, s);
    var ct := Child(yt, Opp(s));
    var b := Id(bt);
    assert Matches(yt, x, h);
    MatchesRange(t, px, h);
    assert Ids(t) == Ids(a) + {x} + Ids(bt) + {y} + Ids(ct);
    assert Agree(h, h', Ids(a));
    assert Agree(h, h', Ids(ct));
    MatchesFrame(a, x, h, h');
    MatchesFrame(ct, y, h, h');
    assert Matches(bt, x, h') by {
      if bt.Fork? {
        assert Agree(h, h', Ids(bt) - {bt.id});
        Reparent(bt, y, x, h, h');
      }
    }
    var nx := WithChild(t, Opp(s), bt);
    assert Rotate(s, t) == WithChild(yt, s, nx);
    assert Matches(nx, y, h');
  }

  /** The path above a subtree whose root index changed from `x` to `y`. */
  lemma CtxRetarget(ctx: seq<Frame>, x: nat, y: nat, h: seq<Node>, h': seq<Node>, used: set<nat>)
    requires MatchesCtx(ctx, x, h) && DistinctCtx(ctx, used) && |ctx| > 0
    requires |h'| == |h| && h'[ctx[0].id] == WithChildPtr(h[ctx[0].id], ctx[0].side, y)
    requires Agree(h, h', CtxIds(ctx) - {ctx[0].id})
    ensures MatchesCtx(ctx, y, h')
  {
    var f := ctx[0];
    DistinctCtxDisjoint(ctx[1..], used + {f.id} + Ids(f.sibling));
    MatchesRange(f.sibling, f.id, h);
    MatchesCtxRange(ctx[1..], f.id, h);
    assert Agree(h, h', CtxIds(ctx[1..]));
    assert Agree(h, h', Ids(f.sibling));
    MatchesCtxFrame(ctx[1..], f.id, h, h');
    MatchesFrame(f.sibling, f.id, h, h');
  }

  lemma RotateLink(ctx: seq<Frame>, t: Tree, h: seq<Node>, root: nat, s: Side, h': seq<Node>, root': nat)
    requires Linked(ctx, t, h, root) && t.Fork? && Child(t, Opp(s)).Fork?
    ensures t.id < |h| && ChildPtr(h[t.id], Opp(s)) < |h| && ChildPtr(h[ChildPtr(h[t.id], Opp(s))], s) < |h|
    ensures h[t.id].parent < |h|
    ensures |RotatedArena(h, t.id, s)| == |h| && RotatedArena(h, t.id, s)[NIL] == h[NIL]
    ensures h' == RotatedArena(h, t.id, s) && root' == (if h[t.id].parent == NIL then ChildPtr(h[t.id], Opp(s)) else root)
            ==> Linked(ctx, Rotate(s, t), h', root')
  {
    var yt := Child(t, Opp(s));
    var bt := Child(yt, s);
    var px := HoleParent(ctx, NIL);
    LinkedIds(ctx, t, h, root);
    assert Matches(yt, t.id, h);
    if |ctx| > 0 {
      assert ChildPtr(h[px], ctx[0].side) == t.id;
      assert Id(ctx[0].sibling) == NIL || Id(ctx[0].sibling) in Ids(ctx[0].sibling);
    }
    RotatedArenaAt(h, t.id, s, if |ctx| == 0 then L else ctx[0].side);
    if h' == RotatedArena(h, t.id, s) && root' == (if h[t.id].parent == NIL then ChildPtr(h[t.id], Opp(s)) else root) {
      RotateLinkAt(ctx, t, h, root, s, h', root');
    }
  }

  lemma RotateLinkAt(ctx: seq<Frame>, t: Tree, h: seq<Node>, root: nat, s: Side, h': seq<Node>, root': nat)
    requires Linked(ctx, t, h, root) && t.Fork? && Child(t, Opp(s)).Fork?
    requires var px := HoleParent(ctx, NIL);
      RotatedAt(h, h', t.id, s, Child(t, Opp(s)).id, Id(Child(Child(t, Opp(s)), s)), px,
                if |ctx| == 0 then L else ctx[0].side)
    requires root' == if |ctx| == 0 then Child(t, Opp(s)).id else root
    ensures Linked(ctx, Rotate(s, t), h', root')
  {
    var yt := Child(t, Opp(s));
    var bt := Child(yt, s);
    var px := HoleParent(ctx, NIL);
    LinkedIds(ctx, t, h, root);
    assert Ids(t) == Ids(Child(t, s)) + {t.id} + Ids(bt) + {yt.id} + Ids(Child(yt, Opp(s)));
    assert Id(bt) == NIL || Id(bt) in Ids(bt);
    assert px == NIL || px in CtxIds(ctx);
    assert Agree(h, h', Ids(t) - {t.id, yt.id, Id(bt)});
    RotateMatches(t, px, h, s, h');
    var r := Rotate(s, t);
    DistinctPlug(ctx, t);
    if |ctx| > 0 {
      assert Agree(h, h', CtxIds(ctx) - {ctx[0].id});
      CtxRetarget(ctx, t.id, yt.id, h, h', Ids(t));
    }
    RotatePreserves(s, t);
    DistinctReplace(ctx, t, r);
    IdPlug(ctx, t);
    IdPlug(ctx, r);
  }

  // ---------------------------------------------------------------------------
  // Splices of `insert` and `remove`

  /** A new red leaf, appended to the arena at index `|h|`, hung into the empty
      slot where a search ended. */
  lemma AttachLeafLink(ctx: seq<Frame>, h: seq<Node>, root: nat, k: Key, v: int, h': seq<Node>, root': nat)
    requires Linked(ctx, Empty, h, root)
    requires var pz := HoleParent(ctx, NIL); var z := |h|;
      |h'| == |h| + 1 && h'[z] == Node(k, v, Red, pz, NIL, NIL)
      && (pz != NIL ==> h'[pz] == WithChildPtr(h[pz], ctx[0].side, z))
      && (forall i :: 0 <= i < |h| && i != pz ==> h'[i] == h[i])
      && root' == if pz == NIL then z else root
    ensures Linked(ctx, Fork(Empty, |h|, k, v, Red, Empty), h', root')
  {
    var z := |h|;
    var n := Fork(Empty, z, k, v, Red, Empty);
    var pz := HoleParent(ctx, NIL);
    var h1 := h + [Node(k, v, Red, pz, NIL, NIL)];
    LinkedIds(ctx, Empty, h, root);
    assert Agree(h, h1, CtxIds(ctx));
    MatchesCtxFrame(ctx, NIL, h, h1);
    DistinctPlug(ctx, Empty);
    DistinctPlug(ctx, n);
    assert z !in CtxIds(ctx);
    DistinctCtxGrow(ctx, {}, {z});
    assert {} + {z} == Ids(n);
    IdPlug(ctx, Empty);
    ReplaceRootLink(ctx, NIL, Empty, Empty, NIL, NIL, z, k, v, Red, h1, h', root');
  }

  /** The writes of `transplant(u, v)`: `u`'s parent (or the root pointer)
      points at `v`, and `v`'s parent pointer is set to `u`'s parent, also when
      `v` is the sentinel. */
  function Transplanted(h: seq<Node>, u: nat, v: nat): seq<Node> {
    if !(u < |h| && v < |h| && h[u].parent < |h|) then h
    else
    var pu := h[u].parent;
    var h1 := if pu == NIL then h
              else if u == h[pu].left then h[pu := h[pu].(left := v)]
              else h[pu := h[pu].(right := v)];
    h1[v := h1[v].(parent := pu)]
  }

  /** `transplant(u, c)` where `u` has at most the child `c`: the arena holds
      the tree with `c` in `u`'s place, and `c`'s parent pointer is the hole's
      parent even when `c` is the sentinel. */
  lemma TransplantSplice(ctx: seq<Frame>, t: Tree, c: Tree, h: seq<Node>, root: nat)
    requires Linked(ctx, t, h, root) && t.Fork?
    requires (t.left.Empty? && c == t.right) || (t.right.Empty? && c == t.left)
    ensures t.id < |h| && Id(c) < |h| && h[t.id].parent < |h| && h[t.id].parent == HoleParent(ctx, NIL)
    ensures var h' := Transplanted(h, t.id, Id(c));
      Linked(ctx, c, h', if h[t.id].parent == NIL then Id(c) else root)
      && |h'| == |h| && h'[Id(c)].parent == HoleParent(ctx, NIL) && h'[NIL].color == h[NIL].color
      && (c.Fork? ==> h'[NIL] == h[NIL])
      && t.id !in Ids(Plug(ctx, c))
  {
    var pu := HoleParent(ctx, NIL);
    LinkedIds(ctx, t, h, root);
    assert Id(c) == NIL || Id(c) in Ids(t);
    assert pu == NIL || pu in CtxIds(ctx);
    if pu != NIL {
      assert ChildPtr(h[pu], ctx[0].side) == t.id;
      assert Id(ctx[0].sibling) == NIL || Id(ctx[0].sibling) in Ids(ctx[0].sibling);
      assert ChildPtr(h[pu], Opp(ctx[0].side)) != t.id;
    }
    var h' := Transplanted(h, t.id, Id(c));
    SpliceLink(ctx, t, c, h, root, h', if pu == NIL then Id(c) else root);
    DistinctPlug(ctx, c);
  }

  /** `transplant(u, c)` for a node `u = t.id` that has at most the child `c`:
      `c` takes `u`'s place, and its parent pointer (the sentinel's, when `c`
      is empty) is set to `u`'s parent. */
  lemma SpliceLink(ctx: seq<Frame>, t: Tree, c: Tree, h: seq<Node>, root: nat, h': seq<Node>, root': nat)
    requires Linked(ctx, t, h, root) && t.Fork?
    requires (t.left.Empty? && c == t.right) || (t.right.Empty? && c == t.left)
    requires var pu := HoleParent(ctx, NIL);
      |h'| == |h| && pu < |h| && Id(c) < |h|
      && (pu != NIL ==> h'[pu] == WithChildPtr(h[pu], ctx[0].side, Id(c)))
      && h'[Id(c)] == h[Id(c)].(parent := pu)
      && (forall i :: 0 <= i < |h| && i != pu && i != Id(c) ==> h'[i] == h[i])
      && root' == if pu == NIL then Id(c) else root
    ensures Linked(ctx, c, h', root')
  {
    var pu := HoleParent(ctx, NIL);
    LinkedIds(ctx, t, h, root);
    assert Ids(c) <= Ids(t) && t.id !in Ids(c);
    assert pu == NIL || pu in CtxIds(ctx);
    if c.Fork? {
      assert Matches(c, t.id, h);
      assert Agree(h, h', Ids(c) - {c.id});
      Reparent(c, t.id, pu, h, h');
    }
    DistinctPlug(ctx, t);
    if |ctx| > 0 {
      assert Agree(h, h', CtxIds(ctx) - {ctx[0].id});
      CtxRetarget(ctx, t.id, Id(c), h, h', Ids(t));
    }
    DistinctReplace(ctx, t, c);
    IdPlug(ctx, t);
    IdPlug(ctx, c);
  }

  /** Node `y` is written with all six fields and takes the place of the node
      at the hole of `ctx`, with subtrees `l` and `r` hung below it. */
  lemma ReplaceRootLink(ctx: seq<Frame>, z: nat, l: Tree, r: Tree, pl: nat, pr: nat,
                        y: nat, k: Key, v: int, col: Color, h: seq<Node>, h': seq<Node>, root': nat)
    requires |h| > 0 && MatchesCtx(ctx, z, h) && Matches(l, pl, h) && Matches(r, pr, h)
    requires Distinct(Plug(ctx, Fork(l, y, k, v, col, r)))
    requires 0 < y < |h| && |h'| == |h|
    requires h'[y] == Node(k, v, col, HoleParent(ctx, NIL), Id(l), Id(r))
    requires l.Fork? ==> h'[l.id] == h[l.id].(parent := y)
    requires r.Fork? ==> h'[r.id] == h[r.id].(parent := y)
    requires |ctx| > 0 ==> h'[ctx[0].id] == WithChildPtr(h[ctx[0].id], ctx[0].side, y)
    requires forall i :: 0 <= i < |h| && i != y && i != Id(l) && i != Id(r) && i != HoleParent(ctx, NIL) ==> h'[i] == h[i]
    requires root' == if |ctx| == 0 then y else ctx[|ctx| - 1].id
    ensures Linked(ctx, Fork(l, y, k, v, col, r), h', root')
  {
    var T := Fork(l, y, k, v, col, r);
    var pz := HoleParent(ctx, NIL);
    DistinctPlug(ctx, T);
    DistinctCtxDisjoint(ctx, Ids(T));
    MatchesRange(l, pl, h);
    MatchesRange(r, pr, h);
    MatchesCtxRange(ctx, z, h);
    assert pz == NIL || pz in CtxIds(ctx) by {
      if |ctx| > 0 { assert ctx[0].id in CtxIds(ctx); }
    }
    if l.Fork? {
      assert Agree(h, h', Ids(l) - {l.id});
      Reparent(l, pl, y, h, h');
    }
    if r.Fork? {
      assert Agree(h, h', Ids(r) - {r.id});
      Reparent(r, pr, y, h, h');
    }
    if |ctx| > 0 {
      assert Agree(h, h', CtxIds(ctx) - {ctx[0].id});
      CtxRetarget(ctx, z, y, h, h', Ids(T));
    }
    IdPlug(ctx, T);
  }
}
