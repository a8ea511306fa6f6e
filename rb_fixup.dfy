/** The red-black repair passes on tree values. Each lemma is one case of
    `insertFixup` or `deleteFixup` (main.cpp), stated on a zipper `(ctx, t)`
    whose subtree `t` is rooted at the fix-up's current node. */
module RBFixup {
  import opened RBTheory
  import opened RBInvariants

  // ---------------------------------------------------------------------------
  // insertFixup

  /** Loop invariant of `insertFixup`: the current node `z` is red and the tree
      is a red-black tree except that `z` and its parent may both be red. */
  ghost predicate InsertInv(ctx: seq<Frame>, t: Tree) {
    t.Fork? && t.color == Red && RedOK(t) && Balanced(t)
    && CtxBalanced(ctx, BH(t)) && CtxRedOKSkip(ctx) && TopBlack(ctx)
  }

  /** A fresh red node in an empty slot of a red-black tree sets up the invariant. */
  lemma InsertStart(ctx: seq<Frame>, id: nat, k: Key, v: int)
    requires ColorsOK(Plug(ctx, Empty))
    ensures InsertInv(ctx, Fork(Empty, id, k, v, Red, Empty))
  {
    BalancedPlug(ctx, Empty);
    RedOKPlug(ctx, Empty);
    RootColorPlug(ctx, Empty);
    CtxRedOKWeaken(ctx, Black);
  }

  /** A red parent is not the root, so the grandparent exists and is black. */
  lemma InsertRedParent(ctx: seq<Frame>, t: Tree)
    requires InsertInv(ctx, t) && |ctx| >= 1 && ctx[0].color == Red
    ensures |ctx| >= 2 && ctx[1].color == Black
  {
  }

  /** Case 1 (red uncle): parent and uncle turn black, grandparent red, and the
      grandparent becomes the current node. */
  function InsertRecolor(ctx: seq<Frame>, t: Tree): Tree
    requires |ctx| >= 2 && ctx[1].sibling.Fork?
  {
    Attach(ctx[1].(color := Red, sibling := ctx[1].sibling.(color := Black)),
           Attach(ctx[0].(color := Black), t))
  }

  lemma InsertCase1(ctx: seq<Frame>, t: Tree)
    requires InsertInv(ctx, t) && |ctx| >= 2 && ctx[0].color == Red
    requires RootColor(ctx[1].sibling) == Red
    ensures InsertInv(ctx[2..], InsertRecolor(ctx, t))
  {
    InsertRedParent(ctx, t);
    var h := BH(t);
    assert ctx[1..][1..] == ctx[2..];
    assert CtxBalanced(ctx[1..], h);
    assert CtxRedOK(ctx[1..], Red);
    assert CtxRedOK(ctx[2..], Black);
    CtxRedOKWeaken(ctx[2..], Black);
    var u := ctx[1].sibling;
    assert BH(u) == h && Balanced(u) && RedOK(u);
    assert BH(u.(color := Black)) == h + 1;
    var p' := Attach(ctx[0].(color := Black), t);
    assert BH(p') == h + 1 && Balanced(p') && RedOK(p');
    assert CtxBalanced(ctx[2..], h + 1);
  }

  /** Case 2 (black uncle, `z` an inner child): `z := z->parent` and a rotation at it
      towards the grandparent's side; `z`'s old node becomes the parent. */
  function InsertInnerCtx(ctx: seq<Frame>, t: Tree): seq<Frame>
    requires |ctx| >= 2 && t.Fork?
  {
    [Frame(ctx[1].side, t.id, t.key, t.value, t.color, Child(t, ctx[0].side))] + ctx[1..]
  }

  function InsertInnerSub(ctx: seq<Frame>, t: Tree): Tree
    requires |ctx| >= 2 && t.Fork?
  {
    Attach(ctx[0], Child(t, ctx[1].side))
  }

  lemma InsertCase2(ctx: seq<Frame>, t: Tree)
    requires InsertInv(ctx, t) && |ctx| >= 2 && ctx[0].color == Red
    requires RootColor(ctx[1].sibling) == Black && ctx[0].side != ctx[1].side
    ensures InsertInv(InsertInnerCtx(ctx, t), InsertInnerSub(ctx, t))
    ensures InsertInnerCtx(ctx, t)[0].color == Red
    ensures InsertInnerCtx(ctx, t)[0].side == InsertInnerCtx(ctx, t)[1].side == ctx[1].side
    ensures InsertInnerCtx(ctx, t)[1..] == ctx[1..]
    ensures Attach(InsertInnerCtx(ctx, t)[0], InsertInnerSub(ctx, t)) == Rotate(ctx[1].side, Attach(ctx[0], t))
  {
    InsertRedParent(ctx, t);
  }

  /** Case 3 (black uncle, `z` an outer child): parent black, grandparent red, and a
      rotation at the grandparent away from `z`'s side; the loop then stops. */
  function InsertOuterCtx(ctx: seq<Frame>): seq<Frame>
    requires |ctx| >= 2
  {
    [Frame(ctx[0].side, ctx[0].id, ctx[0].key, ctx[0].value, Black,
           Attach(Frame(ctx[0].side, ctx[1].id, ctx[1].key, ctx[1].value, Red, ctx[1].sibling), ctx[0].sibling))]
    + ctx[2..]
  }

  lemma InsertCase3(ctx: seq<Frame>, t: Tree)
    requires InsertInv(ctx, t) && |ctx| >= 2 && ctx[0].color == Red
    requires RootColor(ctx[1].sibling) == Black && ctx[0].side == ctx[1].side
    ensures InsertInv(InsertOuterCtx(ctx), t)
    ensures InsertOuterCtx(ctx)[0].color == Black
    ensures Attach(InsertOuterCtx(ctx)[0], t)
         == Rotate(Opp(ctx[0].side), Attach(ctx[1].(color := Red), Attach(ctx[0].(color := Black), t)))
  {
    InsertRedParent(ctx, t);
    var h := BH(t);
    assert ctx[1..][1..] == ctx[2..];
    assert CtxBalanced(ctx[1..], h);
    assert CtxBalanced(ctx[2..], h + 1);
    var g' := Attach(Frame(ctx[0].side, ctx[1].id, ctx[1].key, ctx[1].value, Red, ctx[1].sibling), ctx[0].sibling);
    assert BH(g') == h && Balanced(g');
  }

  /** Loop exit (black parent, or `z` is the root): blackening the root gives a red-black tree. */
  lemma InsertDone(ctx: seq<Frame>, t: Tree)
    requires InsertInv(ctx, t) && (|ctx| == 0 || ctx[0].color == Black)
    ensures ColorsOK(Blacken(Plug(ctx, t)))
  {
    BalancedPlug(ctx, t);
    RedOKPlug(ctx, t);
    RootColorPlug(ctx, t);
  }

  // ---------------------------------------------------------------------------
  // deleteFixup

  /** Loop invariant of `deleteFixup`: the tree is a red-black tree once the
      current node `x` counts one black more than its color says. */
  ghost predicate DeleteInv(ctx: seq<Frame>, t: Tree) {
    Balanced(t) && CtxBalanced(ctx, BH(t) + 1) && RedOK(Blacken(t))
    && CtxRedOKSkip(ctx) && TopBlack(ctx)
  }

  /** While `x` is black and not the root, its sibling is a real node. */
  lemma DeleteSibling(ctx: seq<Frame>, t: Tree)
    requires DeleteInv(ctx, t) && |ctx| >= 1
    ensures ctx[0].sibling.Fork?
    ensures RootColor(ctx[0].sibling) == Red ==> ctx[0].color == Black
  {
  }

  /** The sibling's child on the side of `x` / on the far side. */
  function Near(f: Frame): Tree
    requires f.sibling.Fork?
  {
    Child(f.sibling, f.side)
  }

  function Far(f: Frame): Tree
    requires f.sibling.Fork?
  {
    Child(f.sibling, Opp(f.side))
  }

  /** Case 1 (red sibling): sibling black, parent red, rotation at the parent
      towards `x`; the parent is then one level above `x` and the old sibling two. */
  function DeleteRedSiblingCtx(ctx: seq<Frame>): seq<Frame>
    requires |ctx| >= 1 && ctx[0].sibling.Fork?
  {
    var f := ctx[0];
    var w := f.sibling;
    [Frame(f.side, f.id, f.key, f.value, Red, Near(f)),
     Frame(f.side, w.id, w.key, w.value, Black, Far(f))] + ctx[1..]
  }

  lemma DeleteCase1(ctx: seq<Frame>, t: Tree)
    requires DeleteInv(ctx, t) && |ctx| >= 1 && RootColor(t) == Black
    requires RootColor(ctx[0].sibling) == Red
    ensures DeleteInv(DeleteRedSiblingCtx(ctx), t)
    ensures DeleteRedSiblingCtx(ctx)[0].color == Red
    ensures RootColor(DeleteRedSiblingCtx(ctx)[0].sibling) == Black
    ensures DeleteRedSiblingCtx(ctx)[2..] == ctx[1..]
    ensures Attach(DeleteRedSiblingCtx(ctx)[1], Attach(DeleteRedSiblingCtx(ctx)[0], t))
         == Rotate(ctx[0].side, Attach(ctx[0].(color := Red, sibling := ctx[0].sibling.(color := Black)), t))
  {
    DeleteSibling(ctx, t);
    var c' := DeleteRedSiblingCtx(ctx);
    assert c'[2..] == ctx[1..];
    assert c'[1..] == [c'[1]] + ctx[1..];
  }

  /** Case 2 (black sibling with two black children): sibling red, and `x`
      moves up to its parent. */
  function DeleteRecolor(ctx: seq<Frame>, t: Tree): Tree
    requires |ctx| >= 1 && ctx[0].sibling.Fork?
  {
    Attach(ctx[0].(sibling := ctx[0].sibling.(color := Red)), t)
  }

  lemma DeleteCase2(ctx: seq<Frame>, t: Tree)
    requires DeleteInv(ctx, t) && |ctx| >= 1 && RootColor(t) == Black
    requires ctx[0].sibling.Fork? && ctx[0].sibling.color == Black
    requires RootColor(Near(ctx[0])) == Black && RootColor(Far(ctx[0])) == Black
    ensures DeleteInv(ctx[1..], DeleteRecolor(ctx, t))
    ensures RootColor(DeleteRecolor(ctx, t)) == ctx[0].color
  {
    CtxRedOKWeaken(ctx[1..], ctx[0].color);
  }

  /** Case 3 (black sibling, near child red, far child black): near child black,
      sibling red, rotation at the sibling away from `x`. */
  function DeleteNearSibling(f: Frame): Tree
    requires f.sibling.Fork? && Near(f).Fork?
  {
    Rotate(Opp(f.side), WithChild(f.sibling.(color := Red), f.side, Near(f).(color := Black)))
  }

  lemma NearRotateColors(w: Tree, s: Side)
    requires w.Fork? && w.color == Black && Balanced(w) && RedOK(w)
    requires RootColor(Child(w, s)) == Red && RootColor(Child(w, Opp(s))) == Black
    ensures var w' := Rotate(Opp(s), WithChild(w.(color := Red), s, Child(w, s).(color := Black)));
      w'.Fork? && w'.color == Black && Balanced(w') && RedOK(w') && BH(w') == BH(w)
      && RootColor(Child(w', Opp(s))) == Red
  {
    var n := Child(w, s);
    assert BH(n.left) == BH(n.right) == BH(n) == BH(Child(w, Opp(s)));
  }

  lemma DeleteCase3(ctx: seq<Frame>, t: Tree)
    requires DeleteInv(ctx, t) && |ctx| >= 1 && RootColor(t) == Black
    requires ctx[0].sibling.Fork? && ctx[0].sibling.color == Black
    requires RootColor(Near(ctx[0])) == Red && RootColor(Far(ctx[0])) == Black
    ensures DeleteInv([ctx[0].(sibling := DeleteNearSibling(ctx[0]))] + ctx[1..], t)
    ensures DeleteNearSibling(ctx[0]).Fork? && DeleteNearSibling(ctx[0]).color == Black
    ensures RootColor(Far(ctx[0].(sibling := DeleteNearSibling(ctx[0])))) == Red
  {
    NearRotateColors(ctx[0].sibling, ctx[0].side);
    var c' := [ctx[0].(sibling := DeleteNearSibling(ctx[0]))] + ctx[1..];
    assert c'[1..] == ctx[1..];
  }

  /** Case 4 (black sibling, far child red): sibling takes the parent's color,
      parent and far child black, rotation at the parent towards `x`; `x` then
      becomes the root. */
  function DeleteFarRotated(f: Frame, t: Tree): Tree
    requires f.sibling.Fork?
    requires Far(f).Fork?
  {
    Rotate(f.side, Attach(f.(color := Black, sibling := WithChild(f.sibling.(color := f.color), Opp(f.side), Far(f).(color := Black))), t))
  }

  lemma FarRotateColors(f: Frame, t: Tree)
    requires f.sibling.Fork? && f.sibling.color == Black && RootColor(Far(f)) == Red
    requires Balanced(t) && RedOK(t) && RootColor(t) == Black
    requires Balanced(f.sibling) && RedOK(f.sibling) && BH(f.sibling) == BH(t) + 1
    ensures var T := DeleteFarRotated(f, t);
      Balanced(T) && RedOK(T) && BH(T) == BH(t) + 1 + Weight(f.color) && RootColor(T) == f.color
  {
    var w := f.sibling;
    var fa := Far(f);
    assert BH(fa.left) == BH(fa.right) == BH(fa) == BH(Near(f)) == BH(t);
  }

  lemma DeleteCase4(ctx: seq<Frame>, t: Tree)
    requires DeleteInv(ctx, t) && |ctx| >= 1 && RootColor(t) == Black
    requires ctx[0].sibling.Fork? && ctx[0].sibling.color == Black
    requires RootColor(Far(ctx[0])) == Red
    ensures DeleteInv([], Plug(ctx[1..], DeleteFarRotated(ctx[0], t)))
  {
    var T := DeleteFarRotated(ctx[0], t);
    FarRotateColors(ctx[0], t);
    BalancedPlug(ctx[1..], T);
    RedOKPlug(ctx[1..], T);
    RootColorPlug(ctx[1..], T);
  }

  /** Loop exit (`x` red, or `x` the root): coloring `x` black gives a red-black tree. */
  lemma DeleteDone(ctx: seq<Frame>, t: Tree)
    requires DeleteInv(ctx, t) && (|ctx| == 0 || RootColor(t) == Red)
    ensures ColorsOK(Plug(ctx, Blacken(t)))
  {
    BalancedPlug(ctx, Blacken(t));
    RedOKPlug(ctx, Blacken(t));
    RootColorPlug(ctx, Blacken(t));
  }

  // ---------------------------------------------------------------------------
  // Splicing a node out

  /** A node `y` with an empty child is replaced by its other child `c`: when
      `y` was black the fix-up starts at `c`; when red nothing needs repair. */
  lemma Splice(ctx: seq<Frame>, y: Tree, c: Tree)
    requires ColorsOK(Plug(ctx, y)) && y.Fork?
    requires (y.left.Empty? && c == y.right) || (y.right.Empty? && c == y.left)
    ensures y.color == Black ==> DeleteInv(ctx, c)
    ensures y.color == Red ==> c.Empty? && ColorsOK(Plug(ctx, c))
  {
    if y.color == Black {
      SpliceBlack(ctx, y, c);
    } else {
      SpliceRed(ctx, y, c);
    }
  }

  lemma SpliceBlack(ctx: seq<Frame>, y: Tree, c: Tree)
    requires ColorsOK(Plug(ctx, y)) && y.Fork? && y.color == Black
    requires (y.left.Empty? && c == y.right) || (y.right.Empty? && c == y.left)
    ensures DeleteInv(ctx, c)
  {
    ColorsParts(ctx, y);
    SpliceLocal(y, c);
    CtxRedOKWeaken(ctx, y.color);
  }

  lemma SpliceRed(ctx: seq<Frame>, y: Tree, c: Tree)
    requires ColorsOK(Plug(ctx, y)) && y.Fork? && y.color == Red
    requires (y.left.Empty? && c == y.right) || (y.right.Empty? && c == y.left)
    ensures c.Empty? && ColorsOK(Plug(ctx, c))
  {
    ColorsParts(ctx, y);
    SpliceLocal(y, c);
    CtxRedOKWeaken(ctx, y.color);
    PartsColors(ctx, c);
  }

  lemma SpliceLocal(y: Tree, c: Tree)
    requires Balanced(y) && RedOK(y) && y.Fork?
    requires (y.left.Empty? && c == y.right) || (y.right.Empty? && c == y.left)
    ensures Balanced(c) && RedOK(c) && BH(c) + Weight(y.color) == BH(y)
    ensures y.color == Red ==> c.Empty?
  {
  }

  /** Two paths that agree on sides, colors and siblings (and differ only in the
      nodes' keys, values and indices). */
  predicate SameShape(a: seq<Frame>, b: seq<Frame>) {
    |a| == |b| &&
    forall i :: 0 <= i < |a| ==> a[i].side == b[i].side && a[i].color == b[i].color && a[i].sibling == b[i].sibling
  }

  lemma {:induction false} SameShapeColors(a: seq<Frame>, b: seq<Frame>, h: nat, c: Color)
    requires SameShape(a, b)
    ensures CtxBalanced(a, h) == CtxBalanced(b, h)
    ensures CtxRedOK(a, c) == CtxRedOK(b, c)
    ensures CtxRedOKSkip(a) == CtxRedOKSkip(b)
    ensures TopBlack(a) == TopBlack(b)
    decreases |a|
  {
    if |a| > 0 {
      assert SameShape(a[1..], b[1..]) by {
        forall i | 0 <= i < |a[1..]|
          ensures a[1..][i].side == b[1..][i].side && a[1..][i].color == b[1..][i].color && a[1..][i].sibling == b[1..][i].sibling
        {
          assert a[1..][i] == a[i + 1] && b[1..][i] == b[i + 1];
        }
      }
      SameShapeColors(a[1..], b[1..], h + Weight(a[0].color), a[0].color);
      SameShapeColors(a[1..], b[1..], h, c);
    }
  }

  lemma DeleteInvSameShape(a: seq<Frame>, b: seq<Frame>, t: Tree)
    requires SameShape(a, b) && DeleteInv(a, t)
    ensures DeleteInv(b, t)
  {
    SameShapeColors(a, b, BH(t) + 1, Black);
  }

  lemma ColorsSameShape(a: seq<Frame>, b: seq<Frame>, t: Tree)
    requires SameShape(a, b) && ColorsOK(Plug(a, t))
    ensures ColorsOK(Plug(b, t))
  {
    BalancedPlug(a, t);
    RedOKPlug(a, t);
    RootColorPlug(a, t);
    BalancedPlug(b, t);
    RedOKPlug(b, t);
    RootColorPlug(b, t);
    SameShapeColors(a, b, BH(t), RootColor(t));
  }

  /** A red-black tree taken apart at a zipper. */
  lemma ColorsParts(ctx: seq<Frame>, t: Tree)
    requires ColorsOK(Plug(ctx, t))
    ensures Balanced(t) && CtxBalanced(ctx, BH(t)) && RedOK(t) && CtxRedOK(ctx, RootColor(t))
    ensures TopBlack(ctx) && (|ctx| == 0 ==> RootColor(t) == Black)
  {
    BalancedPlug(ctx, t);
    RedOKPlug(ctx, t);
    RootColorPlug(ctx, t);
  }

  lemma PartsColors(ctx: seq<Frame>, t: Tree)
    requires Balanced(t) && CtxBalanced(ctx, BH(t)) && RedOK(t) && CtxRedOK(ctx, RootColor(t))
    requires TopBlack(ctx) && (|ctx| == 0 ==> RootColor(t) == Black)
    ensures ColorsOK(Plug(ctx, t))
  {
    BalancedPlug(ctx, t);
    RedOKPlug(ctx, t);
    RootColorPlug(ctx, t);
  }

  /** Colors after `remove` of a node with two children: the zipper to the
      successor's old place, with `z`'s frame now carrying `y`. Removing a
      black `y` leaves the extra black at `yr`; removing a red one breaks nothing. */
  lemma RemoveSuccessorColors(ctx: seq<Frame>, zl: Tree, z: nat, zk: Key, zv: int, zc: Color,
                              d: seq<Frame>, y: nat, yk: Key, yv: int, yc: Color, yr: Tree)
    requires ColorsOK(Plug(ctx, Fork(zl, z, zk, zv, zc, Plug(d, Fork(Empty, y, yk, yv, yc, yr)))))
    ensures var c' := d + [Frame(R, y, yk, yv, zc, zl)] + ctx;
      Plug(c', yr) == Plug(ctx, Fork(zl, y, yk, yv, zc, Plug(d, yr)))
      && (yc == Black ==> DeleteInv(c', yr))
      && (yc == Red ==> yr.Empty? && ColorsOK(Plug(c', yr)))
  {
    var yt := Fork(Empty, y, yk, yv, yc, yr);
    var c := d + [Frame(R, z, zk, zv, zc, zl)] + ctx;
    var c' := d + [Frame(R, y, yk, yv, zc, zl)] + ctx;
    PlugAppend(d + [Frame(R, z, zk, zv, zc, zl)], ctx, yt);
    PlugAppend(d, [Frame(R, z, zk, zv, zc, zl)], yt);
    PlugAppend(d + [Frame(R, y, yk, yv, zc, zl)], ctx, yr);
    PlugAppend(d, [Frame(R, y, yk, yv, zc, zl)], yr);
    assert SameShape(c, c') by {
      forall i | 0 <= i < |c| ensures c[i].side == c'[i].side && c[i].color == c'[i].color && c[i].sibling == c'[i].sibling {
        if i < |d| {
          assert c[i] == d[i] && c'[i] == d[i];
        } else if i == |d| {
        } else {
          assert c[i] == ctx[i - |d| - 1] && c'[i] == ctx[i - |d| - 1];
        }
      }
    }
    Splice(c, yt, yr);
    if yc == Black {
      DeleteInvSameShape(c, c', yr);
    } else {
      ColorsSameShape(c, c', yr);
    }
  }
}
