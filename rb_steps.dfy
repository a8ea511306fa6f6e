/** Each pointer-level step of `insertFixup`, `deleteFixup` and `remove`
    (main.cpp) moves the arena from holding one zipper to holding the next
    one of the tree-value proofs. */
module RBSteps {
  import opened Bytes
  import opened RBTheory
  import opened RBInvariants
  import opened RBFixup
  import opened RBArena

  /** What the arena shows around the current node: its parent pointer, the
      parent's two child pointers, and how `x == x->parent->left` decides the side. */
  lemma FrameView(ctx: seq<Frame>, t: Tree, h: seq<Node>, root: nat)
    requires Linked(ctx, t, h, root) && |ctx| >= 1
    requires t.Fork? || ctx[0].sibling.Fork?
    ensures var p := ctx[0].id;
      0 < p < |h| && Id(ctx[0].sibling) < |h|
      && (t.Fork? ==> h[t.id].parent == p)
      && ChildPtr(h[p], ctx[0].side) == Id(t)
      && ChildPtr(h[p], Opp(ctx[0].side)) == Id(ctx[0].sibling)
      && (h[NIL].color == Black ==> h[Id(ctx[0].sibling)].color == RootColor(ctx[0].sibling))
      && (Id(t) == h[p].left <==> ctx[0].side == L)
      && Id(t) != ChildPtr(h[p], Opp(ctx[0].side))
  {
    LinkedIds(ctx, t, h, root);
    assert Id(t) == NIL || Id(t) in Ids(t);
    assert Id(ctx[0].sibling) == NIL || Id(ctx[0].sibling) in Ids(ctx[0].sibling);
    assert Matches(ctx[0].sibling, ctx[0].id, h);
  }

  /** The color the arena shows for the current node (the sentinel is black). */
  lemma ColorView(ctx: seq<Frame>, t: Tree, h: seq<Node>, root: nat)
    requires Linked(ctx, t, h, root) && h[NIL].color == Black
    ensures Id(t) < |h| && h[Id(t)].color == RootColor(t)
    ensures Id(t) == root <==> |ctx| == 0
  {
    LinkedIds(ctx, t, h, root);
    IdPlug(ctx, t);
    if |ctx| > 0 {
      LastInCtxIds(ctx);
      assert Id(t) == NIL || Id(t) in Ids(t);
    }
  }

  lemma {:induction false} LinkedTop(ctx: seq<Frame>, t: Tree, h: seq<Node>, root: nat)
    requires Linked(ctx, t, h, root)
    ensures Linked([], Plug(ctx, t), h, root)
    decreases |ctx|
  {
    if |ctx| > 0 {
      LinkedUp(ctx, t, h, root);
      LinkedTop(ctx[1..], Attach(ctx[0], t), h, root);
    }
  }

  // ---------------------------------------------------------------------------
  // insertFixup

  /** Red uncle: `z->parent`, the uncle `y` and the grandparent are recolored,
      and the grandparent becomes `z`. */
  lemma InsertRedUncleStep(ctx: seq<Frame>, t: Tree, h: seq<Node>, root: nat)
    requires Linked(ctx, t, h, root) && InsertInv(ctx, t) && h[NIL].color == Black
    requires |ctx| >= 2 && ctx[0].color == Red && RootColor(ctx[1].sibling) == Red
    ensures var p := ctx[0].id; var u := Id(ctx[1].sibling); var g := ctx[1].id;
      p < |h| && u < |h| && g < |h| &&
      var h1 := h[p := h[p].(color := Black)];
      var h2 := h1[u := h1[u].(color := Black)];
      var h3 := h2[g := h2[g].(color := Red)];
      Linked(ctx[2..], InsertRecolor(ctx, t), h3, root)
      && InsertInv(ctx[2..], InsertRecolor(ctx, t))
      && Pairs(Plug(ctx[2..], InsertRecolor(ctx, t))) == Pairs(Plug(ctx, t))
      && h3[NIL] == h[NIL] && |h3| == |h| && InsertRecolor(ctx, t).id == g
  {
    var s1 := ctx[1].side;
    LinkedUp(ctx, t, h, root);
    var P := Attach(ctx[0], t);
    LinkedUp(ctx[1..], P, h, root);
    assert ctx[1..][1..] == ctx[2..];
    var G := Attach(ctx[1], P);
    assert Child(G, s1) == P && Child(G, Opp(s1)) == ctx[1].sibling;
    RecolorChild(ctx[2..], G, h, root, s1, Black);
    var h1 := h[P.id := h[P.id].(color := Black)];
    var G1 := WithChild(G, s1, P.(color := Black));
    assert Child(G1, Opp(s1)) == ctx[1].sibling;
    RecolorChild(ctx[2..], G1, h1, root, Opp(s1), Black);
    var u := ctx[1].sibling;
    var h2 := h1[u.id := h1[u.id].(color := Black)];
    var G2 := WithChild(G1, Opp(s1), u.(color := Black));
    Recolor(ctx[2..], G2, h2, root, Red);
    assert G2.(color := Red) == InsertRecolor(ctx, t);
    InsertCase1(ctx, t);
    PlugTwo(ctx, t);
    PairsReplace(ctx[2..], G, G2.(color := Red));
    LinkedIds(ctx, t, h, root);
  }

  /** `z` an inner child: `z = z->parent` and a rotation at it towards the
      grandparent's side, written as the arena `h'` after the rotation. */
  lemma InsertInnerStep(ctx: seq<Frame>, t: Tree, h: seq<Node>, root: nat, h': seq<Node>, root': nat)
    requires Linked(ctx, t, h, root) && InsertInv(ctx, t) && |ctx| >= 2 && ctx[0].color == Red
    requires RootColor(ctx[1].sibling) == Black && ctx[0].side != ctx[1].side
    requires Linked(ctx[1..], Rotate(ctx[1].side, Attach(ctx[0], t)), h', root')
    ensures Linked(InsertInnerCtx(ctx, t), InsertInnerSub(ctx, t), h', root')
    ensures InsertInv(InsertInnerCtx(ctx, t), InsertInnerSub(ctx, t))
    ensures Pairs(Plug(InsertInnerCtx(ctx, t), InsertInnerSub(ctx, t))) == Pairs(Plug(ctx, t))
    ensures InsertInnerSub(ctx, t).id == ctx[0].id
    ensures InsertInnerCtx(ctx, t)[0].side == InsertInnerCtx(ctx, t)[1].side == ctx[1].side
    ensures InsertInnerCtx(ctx, t)[0].color == Red
    ensures |InsertInnerCtx(ctx, t)| == |ctx| && InsertInnerCtx(ctx, t)[1] == ctx[1]
  {
    InsertCase2(ctx, t);
    var nc := InsertInnerCtx(ctx, t);
    var ns := InsertInnerSub(ctx, t);
    var T := Attach(nc[0], ns);
    LinkedDown(ctx[1..], T, h', root', nc[0].side);
    assert [Frame(nc[0].side, T.id, T.key, T.value, T.color, Child(T, Opp(nc[0].side)))] + ctx[1..] == nc;
    RotatePreserves(ctx[1].side, Attach(ctx[0], t));
    PairsReplace(ctx[1..], Attach(ctx[0], t), T);
  }

  /** Arena view of the rotation set-up: it needs the subtree at the rotated
      node on the zipper one level up. */
  lemma InsertOuterPrep(ctx: seq<Frame>, t: Tree, h: seq<Node>, root: nat)
    requires Linked(ctx, t, h, root) && InsertInv(ctx, t) && h[NIL].color == Black
    requires |ctx| >= 2 && ctx[0].color == Red
    requires RootColor(ctx[1].sibling) == Black && ctx[0].side == ctx[1].side
    ensures var p := ctx[0].id; var g := ctx[1].id;
      p < |h| && g < |h| &&
      var h1 := h[p := h[p].(color := Black)];
      var h2 := h1[g := h1[g].(color := Red)];
      var G := Attach(ctx[1].(color := Red), Attach(ctx[0].(color := Black), t));
      Linked(ctx[2..], G, h2, root) && G.id == g && Child(G, ctx[0].side).Fork?
      && h2[NIL] == h[NIL] && |h2| == |h|
  {
    var s1 := ctx[1].side;
    LinkedUp(ctx, t, h, root);
    var P := Attach(ctx[0], t);
    LinkedUp(ctx[1..], P, h, root);
    assert ctx[1..][1..] == ctx[2..];
    var G := Attach(ctx[1], P);
    assert Child(G, s1) == P;
    RecolorChild(ctx[2..], G, h, root, s1, Black);
    var h1 := h[P.id := h[P.id].(color := Black)];
    var G1 := WithChild(G, s1, P.(color := Black));
    Recolor(ctx[2..], G1, h1, root, Red);
    LinkedIds(ctx, t, h, root);
  }

  /** `z` an outer child: after the recoloring and the rotation at the
      grandparent away from `z`'s side, `z`'s parent is black. */
  lemma InsertOuterStep(ctx: seq<Frame>, t: Tree, h': seq<Node>, root': nat)
    requires InsertInv(ctx, t) && |ctx| >= 2 && ctx[0].color == Red
    requires RootColor(ctx[1].sibling) == Black && ctx[0].side == ctx[1].side
    requires Linked(ctx[2..], Rotate(Opp(ctx[0].side), Attach(ctx[1].(color := Red), Attach(ctx[0].(color := Black), t))), h', root')
    ensures Linked(InsertOuterCtx(ctx), t, h', root')
    ensures InsertInv(InsertOuterCtx(ctx), t) && InsertOuterCtx(ctx)[0].color == Black
    ensures Pairs(Plug(InsertOuterCtx(ctx), t)) == Pairs(Plug(ctx, t))
  {
    InsertCase3(ctx, t);
    var oc := InsertOuterCtx(ctx);
    var T := Attach(oc[0], t);
    assert oc[1..] == ctx[2..];
    LinkedDown(ctx[2..], T, h', root', oc[0].side);
    assert [Frame(oc[0].side, T.id, T.key, T.value, T.color, Child(T, Opp(oc[0].side)))] + ctx[2..] == oc;
    var G := Attach(ctx[1].(color := Red), Attach(ctx[0].(color := Black), t));
    RotatePreserves(Opp(ctx[0].side), G);
    PlugTwo(ctx, t);
    PairsReplace(ctx[2..], Attach(ctx[1], Attach(ctx[0], t)), G);
    PairsReplace(ctx[2..], G, T);
  }

  // ---------------------------------------------------------------------------
  // deleteFixup

  /** What the arena shows of `x`'s sibling `w`: its two child pointers and
      their colors. */
  lemma SiblingView(ctx: seq<Frame>, t: Tree, h: seq<Node>, root: nat)
    requires Linked(ctx, t, h, root) && |ctx| >= 1 && ctx[0].sibling.Fork? && h[NIL].color == Black
    ensures var f := ctx[0]; var w := f.sibling.id;
      w < |h| && ChildPtr(h[w], f.side) == Id(Near(f)) && ChildPtr(h[w], Opp(f.side)) == Id(Far(f))
      && Id(Near(f)) < |h| && Id(Far(f)) < |h|
      && h[Id(Near(f))].color == RootColor(Near(f)) && h[Id(Far(f))].color == RootColor(Far(f))
      && h[w].color == ctx[0].sibling.color
  {
    var s := ctx[0].side;
    LinkedUp(ctx, t, h, root);
    var P := Attach(ctx[0], t);
    LinkedDown(ctx[1..], P, h, root, Opp(s));
    var sc := [Frame(Opp(s), P.id, P.key, P.value, P.color, Child(P, Opp(Opp(s))))] + ctx[1..];
    assert Child(P, Opp(s)) == ctx[0].sibling;
    FrameView(sc, ctx[0].sibling, h, root);
    LinkedDown(sc, ctx[0].sibling, h, root, s);
    ColorView([Frame(s, ctx[0].sibling.id, ctx[0].sibling.key, ctx[0].sibling.value, ctx[0].sibling.color, Far(ctx[0]))] + sc, Near(ctx[0]), h, root);
    LinkedDown(sc, ctx[0].sibling, h, root, Opp(s));
    ColorView([Frame(Opp(s), ctx[0].sibling.id, ctx[0].sibling.key, ctx[0].sibling.value, ctx[0].sibling.color, Near(ctx[0]))] + sc, Far(ctx[0]), h, root);
    LinkedIds(sc, ctx[0].sibling, h, root);
    assert Matches(ctx[0].sibling, P.id, h);
  }

  /** Case 1 set-up: the red sibling `w` black and the parent red, seen one
      level up, ready for the rotation at the parent towards `x`. */
  lemma DeleteRedSiblingPrep(ctx: seq<Frame>, t: Tree, h: seq<Node>, root: nat)
    requires Linked(ctx, t, h, root) && DeleteInv(ctx, t) && h[NIL].color == Black
    requires |ctx| >= 1 && RootColor(t) == Black && RootColor(ctx[0].sibling) == Red
    ensures var p := ctx[0].id; var w := Id(ctx[0].sibling);
      p < |h| && w < |h| &&
      var h1 := h[w := h[w].(color := Black)];
      var h2 := h1[p := h1[p].(color := Red)];
      var P := Attach(ctx[0].(color := Red, sibling := ctx[0].sibling.(color := Black)), t);
      Linked(ctx[1..], P, h2, root) && P.id == p && Child(P, Opp(ctx[0].side)).Fork?
      && h2[NIL] == h[NIL] && |h2| == |h|
  {
    var s := ctx[0].side;
    DeleteSibling(ctx, t);
    LinkedUp(ctx, t, h, root);
    var P := Attach(ctx[0], t);
    assert Child(P, Opp(s)) == ctx[0].sibling;
    RecolorChild(ctx[1..], P, h, root, Opp(s), Black);
    var w := ctx[0].sibling;
    var h1 := h[w.id := h[w.id].(color := Black)];
    var P1 := WithChild(P, Opp(s), w.(color := Black));
    Recolor(ctx[1..], P1, h1, root, Red);
    assert P1.(color := Red) == Attach(ctx[0].(color := Red, sibling := w.(color := Black)), t);
    LinkedIds(ctx, t, h, root);
  }

  /** Case 1 after `leftRotate(x->parent)`: `x` has a red parent and a black sibling. */
  lemma DeleteRedSiblingStep(ctx: seq<Frame>, t: Tree, h': seq<Node>, root': nat)
    requires DeleteInv(ctx, t) && |ctx| >= 1 && RootColor(t) == Black && RootColor(ctx[0].sibling) == Red
    requires DeleteRedSiblingCtx.requires(ctx)
    requires var P := Attach(ctx[0].(color := Red, sibling := ctx[0].sibling.(color := Black)), t);
      Linked(ctx[1..], Rotate(ctx[0].side, P), h', root')
    ensures var c := DeleteRedSiblingCtx(ctx);
      Linked(c, t, h', root') && DeleteInv(c, t) && c[0].color == Red && RootColor(c[0].sibling) == Black
      && c[0].id == ctx[0].id && c[0].side == ctx[0].side && |c| == |ctx| + 1
      && Pairs(Plug(c, t)) == Pairs(Plug(ctx, t))
  {
    DeleteCase1(ctx, t);
    var c := DeleteRedSiblingCtx(ctx);
    var T0 := Attach(c[0], t);
    var T1 := Attach(c[1], T0);
    LinkedDown(c[2..], T1, h', root', c[1].side);
    assert [Frame(c[1].side, T1.id, T1.key, T1.value, T1.color, Child(T1, Opp(c[1].side)))] + c[2..] == c[1..];
    LinkedDown(c[1..], T0, h', root', c[0].side);
    assert [Frame(c[0].side, T0.id, T0.key, T0.value, T0.color, Child(T0, Opp(c[0].side)))] + c[1..] == c;
    var P := Attach(ctx[0].(color := Red, sibling := ctx[0].sibling.(color := Black)), t);
    RotatePreserves(ctx[0].side, P);
    PlugTwo(c, t);
    PairsReplace(ctx[1..], Attach(ctx[0], t), T1);
  }

  /** Case 2: the sibling red, and `x` moves up to its parent. */
  lemma DeleteRecolorStep(ctx: seq<Frame>, t: Tree, h: seq<Node>, root: nat)
    requires Linked(ctx, t, h, root) && DeleteInv(ctx, t) && |ctx| >= 1 && RootColor(t) == Black
    requires ctx[0].sibling.Fork? && ctx[0].sibling.color == Black
    requires RootColor(Near(ctx[0])) == Black && RootColor(Far(ctx[0])) == Black
    ensures var w := ctx[0].sibling.id;
      w < |h| &&
      var h1 := h[w := h[w].(color := Red)];
      Linked(ctx[1..], DeleteRecolor(ctx, t), h1, root)
      && DeleteInv(ctx[1..], DeleteRecolor(ctx, t)) && RootColor(DeleteRecolor(ctx, t)) == ctx[0].color
      && DeleteRecolor(ctx, t).id == ctx[0].id
      && Pairs(Plug(ctx[1..], DeleteRecolor(ctx, t))) == Pairs(Plug(ctx, t))
      && h1[NIL] == h[NIL] && |h1| == |h|
  {
    var s := ctx[0].side;
    DeleteCase2(ctx, t);
    LinkedUp(ctx, t, h, root);
    var P := Attach(ctx[0], t);
    assert Child(P, Opp(s)) == ctx[0].sibling;
    RecolorChild(ctx[1..], P, h, root, Opp(s), Red);
    assert WithChild(P, Opp(s), ctx[0].sibling.(color := Red)) == DeleteRecolor(ctx, t);
    PairsReplace(ctx[1..], P, DeleteRecolor(ctx, t));
    LinkedIds(ctx, t, h, root);
  }

  /** The zipper whose hole is `x`'s sibling. */
  function SiblingCtx(ctx: seq<Frame>, t: Tree): seq<Frame>
    requires |ctx| >= 1
  {
    var f := ctx[0];
    [Frame(Opp(f.side), f.id, f.key, f.value, f.color, t)] + ctx[1..]
  }

  /** Case 3 set-up: the near child black and the sibling red, seen on the
      zipper at the sibling, ready for the rotation at the sibling away from `x`. */
  lemma DeleteNearPrep(ctx: seq<Frame>, t: Tree, h: seq<Node>, root: nat)
    requires Linked(ctx, t, h, root) && DeleteInv(ctx, t) && |ctx| >= 1 && h[NIL].color == Black
    requires ctx[0].sibling.Fork? && Near(ctx[0]).Fork?
    ensures var w := ctx[0].sibling; var n := Near(ctx[0]).id;
      w.id < |h| && n < |h| &&
      var h1 := h[n := h[n].(color := Black)];
      var h2 := h1[w.id := h1[w.id].(color := Red)];
      var w' := WithChild(w.(color := Red), ctx[0].side, Near(ctx[0]).(color := Black));
      Linked(SiblingCtx(ctx, t), w', h2, root) && w'.id == w.id && Child(w', Opp(Opp(ctx[0].side))).Fork?
      && h2[NIL] == h[NIL] && |h2| == |h|
  {
    var s := ctx[0].side;
    var w := ctx[0].sibling;
    LinkedUp(ctx, t, h, root);
    var P := Attach(ctx[0], t);
    LinkedDown(ctx[1..], P, h, root, Opp(s));
    assert [Frame(Opp(s), P.id, P.key, P.value, P.color, Child(P, Opp(Opp(s))))] + ctx[1..] == SiblingCtx(ctx, t);
    assert Child(P, Opp(s)) == w && Child(w, s) == Near(ctx[0]);
    RecolorChild(SiblingCtx(ctx, t), w, h, root, s, Black);
    var n := Near(ctx[0]);
    var h1 := h[n.id := h[n.id].(color := Black)];
    var w1 := WithChild(w, s, n.(color := Black));
    Recolor(SiblingCtx(ctx, t), w1, h1, root, Red);
    assert w1.(color := Red) == WithChild(w.(color := Red), s, n.(color := Black));
    LinkedIds(ctx, t, h, root);
  }

  /** Case 3 after the rotation at the sibling: the new sibling has a red far child. */
  lemma DeleteNearStep(ctx: seq<Frame>, t: Tree, h': seq<Node>, root': nat)
    requires DeleteInv(ctx, t) && |ctx| >= 1 && RootColor(t) == Black
    requires ctx[0].sibling.Fork? && ctx[0].sibling.color == Black
    requires RootColor(Near(ctx[0])) == Red && RootColor(Far(ctx[0])) == Black
    requires Linked(SiblingCtx(ctx, t), DeleteNearSibling(ctx[0]), h', root')
    ensures var c := [ctx[0].(sibling := DeleteNearSibling(ctx[0]))] + ctx[1..];
      Linked(c, t, h', root') && DeleteInv(c, t)
      && c[0].sibling.Fork? && c[0].sibling.color == Black && RootColor(Far(c[0])) == Red
      && Pairs(Plug(c, t)) == Pairs(Plug(ctx, t))
  {
    DeleteCase3(ctx, t);
    var s := ctx[0].side;
    var f' := ctx[0].(sibling := DeleteNearSibling(ctx[0]));
    var c := [f'] + ctx[1..];
    var sc := SiblingCtx(ctx, t);
    LinkedUp(sc, DeleteNearSibling(ctx[0]), h', root');
    var P' := Attach(sc[0], DeleteNearSibling(ctx[0]));
    assert sc[1..] == ctx[1..];
    assert P' == Attach(f', t);
    LinkedDown(ctx[1..], P', h', root', s);
    assert [Frame(s, P'.id, P'.key, P'.value, P'.color, Child(P', Opp(s)))] + ctx[1..] == c;
    var w := ctx[0].sibling;
    var w' := WithChild(w.(color := Red), s, Near(ctx[0]).(color := Black));
    RotatePreserves(Opp(s), w');
    assert Pairs(Near(ctx[0]).(color := Black)) == Pairs(Near(ctx[0]));
    assert Pairs(w') == Pairs(w);
    assert Pairs(Attach(f', t)) == Pairs(Attach(ctx[0], t));
    assert c[1..] == ctx[1..];
    PairsReplace(ctx[1..], Attach(ctx[0], t), Attach(f', t));
  }

  /** Case 4 set-up: the sibling takes the parent's color, the parent and the
      far child black, seen one level up, ready for the rotation at the parent. */
  lemma DeleteFarPrep(ctx: seq<Frame>, t: Tree, h: seq<Node>, root: nat)
    requires Linked(ctx, t, h, root) && DeleteInv(ctx, t) && |ctx| >= 1 && h[NIL].color == Black
    requires ctx[0].sibling.Fork? && Far(ctx[0]).Fork?
    ensures var f := ctx[0]; var p := f.id; var w := f.sibling.id; var r := Far(f).id;
      p < |h| && w < |h| && r < |h| && h[p].color == f.color &&
      var h1 := h[w := h[w].(color := h[p].color)];
      var h2 := h1[p := h1[p].(color := Black)];
      var h3 := h2[r := h2[r].(color := Black)];
      var Q := Attach(f.(color := Black, sibling := WithChild(f.sibling.(color := f.color), Opp(f.side), Far(f).(color := Black))), t);
      Linked(ctx[1..], Q, h3, root) && Q.id == p && Child(Q, Opp(f.side)).Fork?
      && h3[NIL] == h[NIL] && |h3| == |h|
  {
    var f := ctx[0];
    var s := f.side;
    var w := f.sibling;
    var fa := Far(f);
    LinkedIds(ctx, t, h, root);
    LinkedUp(ctx, t, h, root);
    var P := Attach(f, t);
    assert Child(P, Opp(s)) == w;
    RecolorChild(ctx[1..], P, h, root, Opp(s), f.color);
    var h1 := h[w.id := h[w.id].(color := f.color)];
    var w1 := w.(color := f.color);
    var P1 := WithChild(P, Opp(s), w1);
    Recolor(ctx[1..], P1, h1, root, Black);
    var h2 := h1[P.id := h1[P.id].(color := Black)];
    var P2 := P1.(color := Black);
    LinkedDown(ctx[1..], P2, h2, root, Opp(s));
    var sc := [Frame(Opp(s), P2.id, P2.key, P2.value, P2.color, Child(P2, Opp(Opp(s))))] + ctx[1..];
    assert Child(P2, Opp(s)) == w1 && Child(w1, Opp(s)) == fa;
    RecolorChild(sc, w1, h2, root, Opp(s), Black);
    var h3 := h2[fa.id := h2[fa.id].(color := Black)];
    var w2 := WithChild(w1, Opp(s), fa.(color := Black));
    LinkedUp(sc, w2, h3, root);
    assert sc[1..] == ctx[1..];
    assert Attach(sc[0], w2) == Attach(f.(color := Black, sibling := WithChild(w.(color := f.color), Opp(s), fa.(color := Black))), t);
  }

  /** Case 4 after `leftRotate(x->parent)`: the whole tree, with `x` at the
      root, satisfies the invariant. */
  lemma DeleteFarStep(ctx: seq<Frame>, t: Tree, h': seq<Node>, root': nat)
    requires DeleteInv(ctx, t) && |ctx| >= 1 && RootColor(t) == Black
    requires ctx[0].sibling.Fork? && ctx[0].sibling.color == Black && RootColor(Far(ctx[0])) == Red
    requires Linked(ctx[1..], DeleteFarRotated(ctx[0], t), h', root')
    ensures Linked([], Plug(ctx[1..], DeleteFarRotated(ctx[0], t)), h', root')
    ensures DeleteInv([], Plug(ctx[1..], DeleteFarRotated(ctx[0], t)))
    ensures Pairs(Plug(ctx[1..], DeleteFarRotated(ctx[0], t))) == Pairs(Plug(ctx, t))
  {
    var f := ctx[0];
    DeleteCase4(ctx, t);
    LinkedTop(ctx[1..], DeleteFarRotated(f, t), h', root');
    var Q := Attach(f.(color := Black, sibling := WithChild(f.sibling.(color := f.color), Opp(f.side), Far(f).(color := Black))), t);
    RotatePreserves(f.side, Q);
    assert Pairs(Far(f).(color := Black)) == Pairs(Far(f));
    assert Pairs(WithChild(f.sibling.(color := f.color), Opp(f.side), Far(f).(color := Black))) == Pairs(f.sibling);
    assert Pairs(Q) == Pairs(Attach(f, t));
    PairsReplace(ctx[1..], Attach(f, t), DeleteFarRotated(f, t));
  }

  // ---------------------------------------------------------------------------
  // remove, two children

  /** The arena just before `transplant(z, y)` in `remove`: `z` still hangs
      below the path `ctx` with its left subtree `zl`, and the successor `y`
      already has its final right subtree `r`. */
  ghost predicate SpliceReady(ctx: seq<Frame>, z: nat, zl: Tree, y: nat, r: Tree, h: seq<Node>, root: nat) {
    0 < z < |h| && 0 < y < |h| && y != z && zl.Fork?
    && MatchesCtx(ctx, z, h) && Matches(zl, z, h) && Matches(r, y, h)
    && h[z].parent == HoleParent(ctx, NIL) && h[z].left == zl.id && h[y].right == Id(r)
    && Distinct(Plug(ctx, Fork(zl, y, h[y].key, h[y].value, h[z].color, r)))
    && z !in CtxIds(ctx) && z !in Ids(zl)
    && root == (if |ctx| == 0 then z else ctx[|ctx| - 1].id)
  }

  /** The successor `y` is `z`'s right child: `x->parent = y` sets up the splice. */
  lemma SuccessorAdjacent(ctx: seq<Frame>, zl: Tree, z: nat, zk: Key, zv: int, zc: Color,
                          y: nat, yk: Key, yv: int, yc: Color, yr: Tree, h: seq<Node>, root: nat)
    requires Linked(ctx, Fork(zl, z, zk, zv, zc, Fork(Empty, y, yk, yv, yc, yr)), h, root) && zl.Fork?
    ensures var x := Id(yr);
      x < |h| && y < |h| &&
      var h' := h[x := h[x].(parent := y)];
      SpliceReady(ctx, z, zl, y, yr, h', root)
      && h'[y].key == yk && h'[y].value == yv && h'[y].color == yc && h'[z].color == zc
      && h'[NIL].color == h[NIL].color && (yr.Empty? ==> h'[NIL].parent == y) && (yr.Fork? ==> h'[NIL] == h[NIL])
  {
    var T := Fork(zl, z, zk, zv, zc, Fork(Empty, y, yk, yv, yc, yr));
    var x := Id(yr);
    LinkedIds(ctx, T, h, root);
    IdPlug(ctx, T);
    var h' := h[x := h[x].(parent := y)];
    var yt := Fork(Empty, y, yk, yv, yc, yr);
    assert Matches(yt, z, h) && Matches(zl, z, h);
    assert h[y].right == x && h[y].key == yk && h[y].value == yv && h[y].color == yc;
    if yr.Fork? {
      assert Matches(yr, y, h);
      assert h' == h;
    } else {
      assert Agree(h, h', CtxIds(ctx));
      MatchesCtxFrame(ctx, z, h, h');
      assert Agree(h, h', Ids(zl));
      MatchesFrame(zl, z, h, h');
    }
    var T' := Fork(zl, y, yk, yv, zc, yr);
    DistinctPlug(ctx, T);
    assert Distinct(yt);
    assert Distinct(T');
    DistinctReplace(ctx, T, T');
  }

  /** The successor `y` lies deeper: after `transplant(y, y->right)` the arena
      holds the tree without `y`; `y->right = z->right` and
      `y->right->parent = y` set up the splice. */
  lemma SuccessorDetach(ctx: seq<Frame>, zl: Tree, z: nat, zk: Key, zv: int, zc: Color, zr: Tree,
                        y: nat, h: seq<Node>, root: nat)
    requires Linked(ctx, Fork(zl, z, zk, zv, zc, zr), h, root) && zl.Fork? && zr.Fork?
    requires 0 < y < |h| && y !in Ids(Plug(ctx, Fork(zl, z, zk, zv, zc, zr)))
    ensures var h1 := h[y := h[y].(right := zr.id)];
      zr.id < |h| &&
      var h2 := h1[zr.id := h1[zr.id].(parent := y)];
      SpliceReady(ctx, z, zl, y, zr, h2, root)
      && h2[y].key == h[y].key && h2[y].value == h[y].value && h2[y].color == h[y].color
      && h2[z].color == zc && h2[NIL] == h[NIL] && h[z].right == zr.id
  {
    var T := Fork(zl, z, zk, zv, zc, zr);
    LinkedIds(ctx, T, h, root);
    IdPlug(ctx, T);
    DistinctPlug(ctx, T);
    var h1 := h[y := h[y].(right := zr.id)];
    var h2 := h1[zr.id := h1[zr.id].(parent := y)];
    AgreeTwoWrites(h, CtxIds(ctx), y, h[y].(right := zr.id), zr.id, h1[zr.id].(parent := y));
    MatchesCtxFrame(ctx, z, h, h2);
    MatchesFrame(zl, z, h, h2);
    assert Agree(h, h2, Ids(zr) - {zr.id});
    Reparent(zr, z, y, h, h2);
    DistinctSwapRoot(ctx, T, y, h[y].key, h[y].value, zc);
  }

  /** The indices `transplant(z, y)` and the writes after it touch are pairwise
      different, and `z` is on the side of its parent the path says. */
  lemma SpliceReadyIds(ctx: seq<Frame>, z: nat, zl: Tree, y: nat, r: Tree, h: seq<Node>, root: nat)
    requires SpliceReady(ctx, z, zl, y, r, h, root)
    ensures var pz := HoleParent(ctx, NIL);
      pz < |h| && zl.id < |h| && Id(r) < |h|
      && pz != y && pz != z && zl.id != y && zl.id != z && zl.id != pz && zl.id != NIL
      && (r.Fork? ==> r.id != y && r.id != zl.id && r.id != pz && r.id != z && h[r.id].parent == y)
      && (pz != NIL ==> ChildPtr(h[pz], ctx[0].side) == z && ChildPtr(h[pz], Opp(ctx[0].side)) != z)
      && (pz == NIL <==> |ctx| == 0)
  {
    var T := Fork(zl, y, h[y].key, h[y].value, h[z].color, r);
    DistinctPlug(ctx, T);
    DistinctCtxDisjoint(ctx, Ids(T));
    MatchesRange(zl, z, h);
    MatchesRange(r, y, h);
    MatchesCtxRange(ctx, z, h);
    if |ctx| > 0 {
      assert ctx[0].id in CtxIds(ctx);
      assert Id(ctx[0].sibling) == NIL || Id(ctx[0].sibling) in CtxIds(ctx);
    }
  }

  /** The writes of `remove` from `transplant(z, y)` on, when `z` has two
      children: `y` takes `z`'s place, `z`'s left child hangs below `y`, and
      `y` gets `z`'s color. */
  function SuccessorSpliced(h: seq<Node>, z: nat, y: nat): seq<Node> {
    var h1 := Transplanted(h, z, y);
    if !(z < |h1| && y < |h1| && h1[z].left < |h1|) then h1
    else
    var h2 := h1[y := h1[y].(left := h1[z].left)];
    var l := h2[y].left;
    var h3 := h2[l := h2[l].(parent := y)];
    h3[y := h3[y].(color := h3[z].color)]
  }

  /** The spliced arena holds the tree with `y` in `z`'s place. */
  lemma SuccessorSplicedLink(ctx: seq<Frame>, z: nat, zl: Tree, y: nat, r: Tree, h: seq<Node>, root: nat)
    requires SpliceReady(ctx, z, zl, y, r, h, root)
    ensures var h' := SuccessorSpliced(h, z, y);
      Linked(ctx, Fork(zl, y, h[y].key, h[y].value, h[z].color, r), h', if h[z].parent == NIL then y else root)
      && |h'| == |h| && h'[NIL] == h[NIL]
  {
    SpliceReadyIds(ctx, z, zl, y, r, h, root);
    var pz := HoleParent(ctx, NIL);
    var l := zl.id;
    var h1 := Transplanted(h, z, y);
    assert |h1| == |h| && h1[y] == h[y].(parent := pz) && h1[z] == h[z] && h1[l] == h[l];
    assert pz != NIL ==> h1[pz] == WithChildPtr(h[pz], ctx[0].side, y);
    assert forall i :: 0 <= i < |h| && i != y && i != pz ==> h1[i] == h[i];
    var h' := SuccessorSpliced(h, z, y);
    assert h'[y] == Node(h[y].key, h[y].value, h[z].color, pz, l, Id(r));
    assert h'[l] == h[l].(parent := y);
    assert forall i :: 0 <= i < |h| && i != y && i != l ==> h'[i] == h1[i];
    var root' := if h[z].parent == NIL then y else root;
    ReplaceRootLink(ctx, z, zl, r, z, y, y, h[y].key, h[y].value, h[z].color, h, h', root');
  }
}
