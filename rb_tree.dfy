/** `DictionaryWithRBTree::RBTree`: a red-black tree over an arena of nodes,
    with keys compared as `std::string` compares them. The ghost field `abs`
    is the tree value the arena holds. `DictionaryWithRBTree::Dictionary`
    counts words in one. */
module RedBlack {
  import opened Bytes
  import opened Wrappers
  import opened RBTheory
  import opened RBInvariants
  import opened RBFixup
  import opened RBOrder
  import opened RBArena
  import opened RBSteps
  import Text
  import WordCounts

  class RBTree {
    var nodes: seq<Node>
    var root: nat
    ghost var abs: Tree

    /** The arena holds `abs`, the sentinel is black, and `abs` is a red-black
        search tree. */
    ghost predicate Valid()
      reads this
    {
      Linked([], abs, nodes, root) && nodes[NIL].color == Black && IsRB(abs)
    }

    /** The key-to-value map the tree stores. */
    ghost function Map(): map<Key, int>
      reads this
    {
      Contents(abs)
    }

    /** A sentinel that is its own parent and children, and an empty tree. */
    constructor()
      ensures Valid() && abs == Empty && Map() == map[]
      ensures nodes == [Node([], 0, Black, NIL, NIL, NIL)] && root == NIL
    {
      nodes := [Node([], 0, Black, NIL, NIL, NIL)];
      root := NIL;
      abs := Empty;
    }

    /** `leftRotate` (`s == L`) and `rightRotate` (`s == R`) at node `x`. */
    method RotateAt(x: nat, s: Side, ghost ctx: seq<Frame>, ghost t: Tree)
      requires Linked(ctx, t, nodes, root) && t.Fork? && t.id == x && Child(t, Opp(s)).Fork?
      modifies this
      ensures nodes == RotatedArena(old(nodes), x, s)
      ensures root == if old(nodes)[x].parent == NIL then ChildPtr(old(nodes)[x], Opp(s)) else old(root)
      ensures Linked(ctx, Rotate(s, t), nodes, root)
      ensures nodes[NIL] == old(nodes[NIL]) && |nodes| == |old(nodes)| && abs == old(abs)
    {
      RotateLink(ctx, t, nodes, root, s, nodes, root);
      LinkedIds(ctx, t, nodes, root);
      assert Matches(Child(t, Opp(s)), x, nodes);
      var y := ChildPtr(nodes[x], Opp(s));
      var b := ChildPtr(nodes[y], s);
      assert b == NIL || b in Ids(Child(Child(t, Opp(s)), s));
      assert b != x;
      RotateWrites(x, s);
      RotateLink(ctx, t, old(nodes), old(root), s, nodes, root);
    }

    /** The pointer writes of `leftRotate` / `rightRotate`, in the source's order. */
    method RotateWrites(x: nat, s: Side)
      requires x < |nodes| && ChildPtr(nodes[x], Opp(s)) < |nodes| && nodes[x].parent < |nodes|
      requires ChildPtr(nodes[ChildPtr(nodes[x], Opp(s))], s) < |nodes|
      requires ChildPtr(nodes[ChildPtr(nodes[x], Opp(s))], s) != x
      modifies this
      ensures nodes == RotatedArena(old(nodes), x, s)
      ensures root == if old(nodes)[x].parent == NIL then ChildPtr(old(nodes)[x], Opp(s)) else old(root)
      ensures abs == old(abs)
    {
      var y := ChildPtr(nodes[x], Opp(s));
      var b := ChildPtr(nodes[y], s);
      nodes := nodes[x := WithChildPtr(nodes[x], Opp(s), b)];
      if b != NIL {
        nodes := nodes[b := nodes[b].(parent := x)];
      }
      var px := nodes[x].parent;
      nodes := nodes[y := nodes[y].(parent := px)];
      if px == NIL {
        root := y;
      } else if x == nodes[px].left {
        nodes := nodes[px := nodes[px].(left := y)];
      } else {
        nodes := nodes[px := nodes[px].(right := y)];
      }
      nodes := nodes[y := WithChildPtr(nodes[y], s, x)];
      nodes := nodes[x := nodes[x].(parent := y)];
    }

    /** `insertFixup`: repairs a red node `z0` that may have a red parent;
        `w` is the resulting red-black tree, holding the same pairs. */
    method InsertFixup(z0: nat, ghost ctx0: seq<Frame>, ghost t0: Tree) returns (ghost w: Tree)
      requires Linked(ctx0, t0, nodes, root) && InsertInv(ctx0, t0) && t0.id == z0 && nodes[NIL].color == Black
      modifies this
      ensures Linked([], w, nodes, root) && ColorsOK(w) && Pairs(w) == Pairs(Plug(ctx0, t0))
      ensures nodes[NIL] == old(nodes[NIL]) && abs == old(abs)
    {
      var z := z0;
      ghost var ctx := ctx0;
      ghost var t := t0;
      while nodes[nodes[z].parent].color == Red
        invariant Linked(ctx, t, nodes, root) && InsertInv(ctx, t) && z == t.id
        invariant nodes[NIL] == old(nodes[NIL]) && abs == old(abs)
        invariant Pairs(Plug(ctx, t)) == Pairs(Plug(ctx0, t0))
        decreases |ctx|
      {
        z, ctx, t := InsertFixupRound(z, ctx, t);
        ColorView(ctx, t, nodes, root);
        if z == root {
          break;
        }
      }
      ColorView(ctx, t, nodes, root);
      InsertDone(ctx, t);
      LinkedTop(ctx, t, nodes, root);
      ghost var whole := Plug(ctx, t);
      ghost var h := nodes;
      PlugFork(ctx, t);
      nodes := nodes[root := nodes[root].(color := Black)];
      Recolor([], whole, h, root, Black);
      w := Blacken(whole);
    }

    /** One round of `insertFixup`'s loop, for a red `z0` with a red parent. */
    method InsertFixupRound(z0: nat, ghost ctx0: seq<Frame>, ghost t0: Tree)
      returns (z: nat, ghost ctx: seq<Frame>, ghost t: Tree)
      requires Linked(ctx0, t0, nodes, root) && InsertInv(ctx0, t0) && z0 == t0.id && nodes[NIL].color == Black
      requires z0 < |nodes| && nodes[z0].parent < |nodes| && nodes[nodes[z0].parent].color == Red
      modifies this
      ensures Linked(ctx, t, nodes, root) && InsertInv(ctx, t) && z == t.id && |ctx| < |ctx0|
      ensures Pairs(Plug(ctx, t)) == Pairs(Plug(ctx0, t0))
      ensures nodes[NIL] == old(nodes[NIL]) && abs == old(abs)
    {
      InsertRedParent(ctx0, t0);
      FrameView(ctx0, t0, nodes, root);
      LinkedUp(ctx0, t0, nodes, root);
      FrameView(ctx0[1..], Attach(ctx0[0], t0), nodes, root);
      var p := nodes[z0].parent;
      var g := nodes[p].parent;
      var s := if p == nodes[g].left then L else R;
      var u := ChildPtr(nodes[g], Opp(s));
      if nodes[u].color == Red {
        z, ctx, t := InsertRedUncle(p, u, g, ctx0, t0);
      } else {
        z, ctx, t := InsertRotations(z0, s, ctx0, t0);
      }
    }

    /** The red-uncle branch of `insertFixup`'s loop: parent and uncle black,
        grandparent red, and the grandparent becomes `z`. */
    method InsertRedUncle(p: nat, u: nat, g: nat, ghost ctx0: seq<Frame>, ghost t0: Tree)
      returns (z: nat, ghost ctx: seq<Frame>, ghost t: Tree)
      requires Linked(ctx0, t0, nodes, root) && InsertInv(ctx0, t0) && nodes[NIL].color == Black
      requires |ctx0| >= 2 && ctx0[0].color == Red && RootColor(ctx0[1].sibling) == Red
      requires p == ctx0[0].id && u == Id(ctx0[1].sibling) && g == ctx0[1].id
      modifies this
      ensures Linked(ctx, t, nodes, root) && InsertInv(ctx, t) && z == t.id && |ctx| < |ctx0|
      ensures Pairs(Plug(ctx, t)) == Pairs(Plug(ctx0, t0))
      ensures nodes[NIL] == old(nodes[NIL]) && abs == old(abs)
    {
      ghost var h := nodes;
      InsertRedUncleStep(ctx0, t0, h, root);
      nodes := nodes[p := nodes[p].(color := Black)];
      nodes := nodes[u := nodes[u].(color := Black)];
      nodes := nodes[g := nodes[g].(color := Red)];
      z := g;
      t := InsertRecolor(ctx0, t0);
      ctx := ctx0[2..];
    }

    /** The black-uncle branch of `insertFixup`'s loop: for an inner `z`,
        `z = z->parent` and a rotation at it towards side `s`; then parent black,
        grandparent red and a rotation at the grandparent away from `s`. */
    method InsertRotations(z0: nat, s: Side, ghost ctx0: seq<Frame>, ghost t0: Tree)
      returns (z: nat, ghost ctx: seq<Frame>, ghost t: Tree)
      requires Linked(ctx0, t0, nodes, root) && InsertInv(ctx0, t0) && z0 == t0.id && nodes[NIL].color == Black
      requires |ctx0| >= 2 && ctx0[0].color == Red && RootColor(ctx0[1].sibling) == Black && ctx0[1].side == s
      modifies this
      ensures Linked(ctx, t, nodes, root) && InsertInv(ctx, t) && z == t.id
      ensures |ctx| < |ctx0| && |ctx| > 0 && ctx[0].color == Black
      ensures Pairs(Plug(ctx, t)) == Pairs(Plug(ctx0, t0))
      ensures nodes[NIL] == old(nodes[NIL]) && abs == old(abs)
    {
      z, ctx, t := z0, ctx0, t0;
      FrameView(ctx, t, nodes, root);
      var p := nodes[z].parent;
      if z == ChildPtr(nodes[p], Opp(s)) {
        z := p;
        ghost var h := nodes;
        ghost var r0 := root;
        LinkedUp(ctx, t, nodes, root);
        RotateAt(z, s, ctx[1..], Attach(ctx[0], t));
        InsertInnerStep(ctx, t, h, r0, nodes, root);
        t, ctx := InsertInnerSub(ctx, t), InsertInnerCtx(ctx, t);
      }
      ghost var h2 := nodes;
      FrameView(ctx, t, nodes, root);
      LinkedUp(ctx, t, nodes, root);
      FrameView(ctx[1..], Attach(ctx[0], t), nodes, root);
      var p2 := nodes[z].parent;
      var g2 := nodes[p2].parent;
      nodes := nodes[p2 := nodes[p2].(color := Black)];
      nodes := nodes[g2 := nodes[g2].(color := Red)];
      InsertOuterPrep(ctx, t, h2, root);
      RotateAt(g2, Opp(s), ctx[2..], Attach(ctx[1].(color := Red), Attach(ctx[0].(color := Black), t)));
      InsertOuterStep(ctx, t, nodes, root);
      ctx := InsertOuterCtx(ctx);
    }

    /** `findNode`: walks down from the root, left where `key` is smaller and
        right where it is larger, until it meets `key` or the sentinel. The
        ghost results are the zipper the walk ends at. */
    method FindNode(key: Key) returns (x: nat, ghost ctx: seq<Frame>, ghost t: Tree)
      requires Valid()
      ensures x == NIL <==> key !in Map()
      ensures x != NIL ==> x < |nodes| && nodes[x].key == key && nodes[x].value == Map()[key]
      ensures Linked(ctx, t, nodes, root) && Plug(ctx, t) == abs && x == Id(t)
      ensures SearchPath(ctx, key) && (t.Fork? ==> t.key == key)
    {
      x := root;
      ctx, t := [], abs;
      while x != NIL && nodes[x].key != key
        invariant Linked(ctx, t, nodes, root) && Plug(ctx, t) == abs && x == Id(t)
        invariant SearchPath(ctx, key)
        decreases Size(t)
      {
        LinkedIds(ctx, t, nodes, root);
        var s := if Less(key, nodes[x].key) then L else R;
        if s == R {
          LessTotal(key, nodes[x].key);
        }
        LinkedDown(ctx, t, nodes, root, s);
        x := ChildPtr(nodes[x], s);
        ctx, t := [Frame(s, t.id, t.key, t.value, t.color, Child(t, Opp(s)))] + ctx, Child(t, s);
      }
      LinkedIds(ctx, t, nodes, root);
      if x == NIL {
        SearchMissing(ctx, key);
      } else {
        SearchFound(ctx, t);
      }
    }

    /** `search`: the value stored under `key`, if any. */
    method Search(key: Key) returns (r: Option<int>)
      requires Valid()
      ensures r == if key in Map() then Some(Map()[key]) else None
    {
      var x, ctx, t := FindNode(key);
      r := if x == NIL then None else Some(nodes[x].value);
    }

    /** `insert`: stores `value` under `key`, overwriting an existing value in
        place, or links a new red node at the gap the search ends at and
        repairs the colors. */
    method Insert(key: Key, value: int)
      requires Valid()
      modifies this
      ensures Valid() && Map() == old(Map())[key := value]
      ensures key in old(Map()) ==>
        root == old(root) && |nodes| == |old(nodes)| &&
        forall i :: 0 <= i < |nodes| ==> nodes[i].(value := 0) == old(nodes)[i].(value := 0)
    {
      var y := NIL;
      var x := root;
      ghost var ctx: seq<Frame> := [];
      ghost var t := abs;
      while x != NIL
        invariant Linked(ctx, t, nodes, root) && Plug(ctx, t) == abs && x == Id(t)
        invariant SearchPath(ctx, key) && y == HoleParent(ctx, NIL)
        invariant Valid() && nodes == old(nodes) && abs == old(abs)
        decreases Size(t)
      {
        LinkedIds(ctx, t, nodes, root);
        y := x;
        if Less(key, nodes[x].key) {
          LinkedDown(ctx, t, nodes, root, L);
          x := nodes[x].left;
          ctx, t := [Frame(L, t.id, t.key, t.value, t.color, t.right)] + ctx, t.left;
        } else if Less(nodes[x].key, key) {
          LinkedDown(ctx, t, nodes, root, R);
          x := nodes[x].right;
          ctx, t := [Frame(R, t.id, t.key, t.value, t.color, t.left)] + ctx, t.right;
        } else {
          LessTotal(key, nodes[x].key);
          OverwriteAt(x, value, ctx, t);
          return;
        }
      }
      LinkedIds(ctx, t, nodes, root);
      SearchMissing(ctx, key);
      AttachLeaf(y, key, value, ctx, t);
    }

    /** The branch of `insert` that finds the key at node `x`: the value is
        overwritten in place and nothing else changes. */
    method OverwriteAt(x: nat, value: int, ghost ctx: seq<Frame>, ghost t: Tree)
      requires Valid() && Linked(ctx, t, nodes, root) && Plug(ctx, t) == abs && t.Fork? && x == t.id
      modifies this
      ensures Valid() && Map() == old(Map())[t.key := value]
      ensures nodes == old(nodes)[x := old(nodes)[x].(value := value)] && root == old(root)
    {
      LinkedIds(ctx, t, nodes, root);
      ReplaceValue(ctx, t, value);
      RelabelRoot(ctx, t, nodes, root, t.color, value);
      assert t.(color := t.color, value := value) == t.(value := value);
      assert nodes[x].(color := t.color, value := value) == nodes[x].(value := value) by {
        assert nodes[x].color == t.color;
      }
      nodes := nodes[x := nodes[x].(value := value)];
      LinkedTop(ctx, t.(value := value), nodes, root);
      abs := Plug(ctx, t.(value := value));
      ColorsReplace(ctx, t, value);
    }

    /** The end of `insert` for a new key: a red node linked under `y`, the
        last node of the search path, then `insertFixup`. */
    method AttachLeaf(y: nat, key: Key, value: int, ghost ctx: seq<Frame>, ghost t: Tree)
      requires Valid() && Linked(ctx, t, nodes, root) && Plug(ctx, t) == abs && Id(t) == NIL
      requires SearchPath(ctx, key) && y == HoleParent(ctx, NIL)
      modifies this
      ensures Valid() && Map() == old(Map())[key := value]
    {
      LinkedIds(ctx, t, nodes, root);
      var z := |nodes|;
      ghost var h := nodes;
      ghost var leaf := Fork(Empty, z, key, value, Red, Empty);
      InsertAtGap(ctx, leaf, key, value);
      InsertStart(ctx, z, key, value);
      if y != NIL {
        assert h[y].key == ctx[0].key;
        if ctx[0].side == R {
          LessAsymmetric(ctx[0].key, key);
        }
      }
      nodes := nodes + [Node(key, value, Red, y, NIL, NIL)];
      if y == NIL {
        root := z;
      } else if Less(key, nodes[y].key) {
        nodes := nodes[y := nodes[y].(left := z)];
      } else {
        nodes := nodes[y := nodes[y].(right := z)];
      }
      AttachLeafLink(ctx, h, old(root), key, value, nodes, root);
      ghost var w := InsertFixup(z, ctx, leaf);
      abs := w;
    }

    /** `deleteFixup`: `x0` carries an extra black; the loop pushes it up or
        resolves it by recoloring and rotations, and `x` ends black. */
    method DeleteFixup(x0: nat, ghost ctx0: seq<Frame>, ghost t0: Tree) returns (ghost whole: Tree)
      requires Linked(ctx0, t0, nodes, root) && DeleteInv(ctx0, t0) && x0 == Id(t0) && nodes[NIL].color == Black
      requires t0.Empty? ==> nodes[NIL].parent == HoleParent(ctx0, NIL)
      modifies this
      ensures Linked([], whole, nodes, root) && ColorsOK(whole) && Pairs(whole) == Pairs(Plug(ctx0, t0))
      ensures nodes[NIL].color == Black && abs == old(abs)
    {
      var x := x0;
      ghost var ctx := ctx0;
      ghost var t := t0;
      ColorView(ctx, t, nodes, root);
      while x != root && nodes[x].color == Black
        invariant Linked(ctx, t, nodes, root) && DeleteInv(ctx, t) && x == Id(t) && nodes[NIL].color == Black
        invariant t.Empty? ==> nodes[NIL].parent == HoleParent(ctx, NIL)
        invariant Pairs(Plug(ctx, t)) == Pairs(Plug(ctx0, t0)) && abs == old(abs)
        decreases |ctx| + Weight(RootColor(t))
      {
        x, ctx, t := DeleteFixupRound(x, ctx, t);
      }
      whole := DeleteFixupFinish(x, ctx, t);
    }

    /** One round of `deleteFixup`'s loop, for a black `x0` that is not the root. */
    method DeleteFixupRound(x0: nat, ghost ctx0: seq<Frame>, ghost t0: Tree)
      returns (x: nat, ghost ctx: seq<Frame>, ghost t: Tree)
      requires Linked(ctx0, t0, nodes, root) && DeleteInv(ctx0, t0) && x0 == Id(t0) && nodes[NIL].color == Black
      requires t0.Empty? ==> nodes[NIL].parent == HoleParent(ctx0, NIL)
      requires x0 != root && x0 < |nodes| && nodes[x0].color == Black
      modifies this
      ensures Linked(ctx, t, nodes, root) && DeleteInv(ctx, t) && x == Id(t) && t.Fork?
      ensures |ctx| + Weight(RootColor(t)) < |ctx0| + Weight(RootColor(t0))
      ensures Pairs(Plug(ctx, t)) == Pairs(Plug(ctx0, t0))
      ensures nodes[NIL] == old(nodes[NIL]) && abs == old(abs)
    {
      ColorView(ctx0, t0, nodes, root);
      DeleteSibling(ctx0, t0);
      FrameView(ctx0, t0, nodes, root);
      var p := nodes[x0].parent;
      var s := if x0 == nodes[p].left then L else R;
      var w := ChildPtr(nodes[p], Opp(s));
      ghost var c := ctx0;
      if nodes[w].color == Red {
        c := DeleteRedSibling(p, w, s, c, t0);
        FrameView(c, t0, nodes, root);
        w := ChildPtr(nodes[p], Opp(s));
      }
      x, ctx, t := DeleteBlackSibling(p, w, s, c, t0);
    }

    /** The end of `deleteFixup`: `x` becomes black. */
    method DeleteFixupFinish(x: nat, ghost ctx: seq<Frame>, ghost t: Tree) returns (ghost whole: Tree)
      requires Linked(ctx, t, nodes, root) && DeleteInv(ctx, t) && x == Id(t) && nodes[NIL].color == Black
      requires t.Empty? ==> nodes[NIL].parent == HoleParent(ctx, NIL)
      requires x < |nodes| && (x == root || nodes[x].color == Red)
      modifies this
      ensures Linked([], whole, nodes, root) && ColorsOK(whole) && Pairs(whole) == Pairs(Plug(ctx, t))
      ensures nodes[NIL].color == Black && abs == old(abs)
    {
      ColorView(ctx, t, nodes, root);
      DeleteDone(ctx, t);
      ghost var h := nodes;
      nodes := nodes[x := nodes[x].(color := Black)];
      if t.Fork? {
        Recolor(ctx, t, h, root, Black);
      } else {
        assert nodes == h;
      }
      LinkedTop(ctx, Blacken(t), nodes, root);
      whole := Plug(ctx, Blacken(t));
      PairsReplace(ctx, t, Blacken(t));
    }

    /** `deleteFixup`'s loop body once the sibling `w` of `x` is black: case 2,
        or cases 3 and 4. */
    method DeleteBlackSibling(p: nat, w0: nat, s: Side, ghost ctx0: seq<Frame>, ghost t0: Tree)
      returns (x: nat, ghost ctx: seq<Frame>, ghost t: Tree)
      requires Linked(ctx0, t0, nodes, root) && DeleteInv(ctx0, t0) && nodes[NIL].color == Black
      requires |ctx0| >= 1 && RootColor(t0) == Black && ctx0[0].sibling.Fork? && ctx0[0].sibling.color == Black
      requires p == ctx0[0].id && w0 == ctx0[0].sibling.id && s == ctx0[0].side
      modifies this
      ensures Linked(ctx, t, nodes, root) && DeleteInv(ctx, t) && x == Id(t) && t.Fork?
      ensures |ctx| + Weight(RootColor(t)) < |ctx0| + Weight(ctx0[0].color)
      ensures Pairs(Plug(ctx, t)) == Pairs(Plug(ctx0, t0))
      ensures nodes[NIL] == old(nodes[NIL]) && abs == old(abs)
    {
      var w := w0;
      ctx, t := ctx0, t0;
      SiblingView(ctx, t, nodes, root);
      if nodes[ChildPtr(nodes[w], s)].color == Black && nodes[ChildPtr(nodes[w], Opp(s))].color == Black {
        ghost var h := nodes;
        nodes := nodes[w := nodes[w].(color := Red)];
        x := p;
        DeleteRecolorStep(ctx, t, h, root);
        t := DeleteRecolor(ctx, t);
        ctx := ctx[1..];
      } else {
        if nodes[ChildPtr(nodes[w], Opp(s))].color == Black {
          ctx := DeleteNearChild(p, w, s, ctx, t);
          FrameView(ctx, t, nodes, root);
          w := ChildPtr(nodes[p], Opp(s));
        }
        t := DeleteFarChild(p, w, s, ctx, t);
        ctx := [];
        x := root;
      }
    }

    /** Case 1 of `deleteFixup`: a red sibling `w` becomes black, the parent `p`
        red, and `p` is rotated towards `x`'s side `s`. */
    method DeleteRedSibling(p: nat, w: nat, s: Side, ghost ctx0: seq<Frame>, ghost t: Tree) returns (ghost ctx: seq<Frame>)
      requires Linked(ctx0, t, nodes, root) && DeleteInv(ctx0, t) && nodes[NIL].color == Black
      requires |ctx0| >= 1 && RootColor(t) == Black && RootColor(ctx0[0].sibling) == Red
      requires p == ctx0[0].id && w == Id(ctx0[0].sibling) && s == ctx0[0].side
      modifies this
      ensures |ctx| == |ctx0| + 1 && Linked(ctx, t, nodes, root) && DeleteInv(ctx, t) && ctx[0].color == Red
      ensures RootColor(ctx[0].sibling) == Black && ctx[0].id == p && ctx[0].side == s
      ensures Pairs(Plug(ctx, t)) == Pairs(Plug(ctx0, t))
      ensures nodes[NIL] == old(nodes[NIL]) && abs == old(abs)
    {
      DeleteRedSiblingPrep(ctx0, t, nodes, root);
      DeleteSibling(ctx0, t);
      nodes := nodes[w := nodes[w].(color := Black)];
      nodes := nodes[p := nodes[p].(color := Red)];
      RotateAt(p, s, ctx0[1..], Attach(ctx0[0].(color := Red, sibling := ctx0[0].sibling.(color := Black)), t));
      DeleteRedSiblingStep(ctx0, t, nodes, root);
      ctx := DeleteRedSiblingCtx(ctx0);
    }

    /** Case 3 of `deleteFixup`: with the far child of `w` black, the near child
        becomes black, `w` red, and `w` is rotated away from `x`'s side `s`. */
    method DeleteNearChild(p: nat, w: nat, s: Side, ghost ctx0: seq<Frame>, ghost t: Tree) returns (ghost ctx: seq<Frame>)
      requires Linked(ctx0, t, nodes, root) && DeleteInv(ctx0, t) && nodes[NIL].color == Black
      requires |ctx0| >= 1 && RootColor(t) == Black && ctx0[0].sibling.Fork? && ctx0[0].sibling.color == Black
      requires RootColor(Near(ctx0[0])) == Red && RootColor(Far(ctx0[0])) == Black
      requires p == ctx0[0].id && w == ctx0[0].sibling.id && s == ctx0[0].side
      modifies this
      ensures |ctx| == |ctx0| && Linked(ctx, t, nodes, root) && DeleteInv(ctx, t) && ctx[0].id == p && ctx[0].side == s
      ensures ctx[0].sibling.Fork? && ctx[0].sibling.color == Black && RootColor(Far(ctx[0])) == Red
      ensures Pairs(Plug(ctx, t)) == Pairs(Plug(ctx0, t))
      ensures nodes[NIL] == old(nodes[NIL]) && abs == old(abs)
    {
      SiblingView(ctx0, t, nodes, root);
      DeleteNearPrep(ctx0, t, nodes, root);
      var n := ChildPtr(nodes[w], s);
      nodes := nodes[n := nodes[n].(color := Black)];
      nodes := nodes[w := nodes[w].(color := Red)];
      RotateAt(w, Opp(s), SiblingCtx(ctx0, t), WithChild(ctx0[0].sibling.(color := Red), s, Near(ctx0[0]).(color := Black)));
      DeleteNearStep(ctx0, t, nodes, root);
      ctx := [ctx0[0].(sibling := DeleteNearSibling(ctx0[0]))] + ctx0[1..];
    }

    /** Case 4 of `deleteFixup`: `w` takes the parent's color, the parent and
        `w`'s far child become black, and the parent is rotated towards `x`'s
        side `s`; the result is the whole tree. */
    method DeleteFarChild(p: nat, w: nat, s: Side, ghost ctx: seq<Frame>, ghost t: Tree) returns (ghost whole: Tree)
      requires Linked(ctx, t, nodes, root) && DeleteInv(ctx, t) && nodes[NIL].color == Black
      requires |ctx| >= 1 && RootColor(t) == Black && ctx[0].sibling.Fork? && ctx[0].sibling.color == Black
      requires RootColor(Far(ctx[0])) == Red
      requires p == ctx[0].id && w == ctx[0].sibling.id && s == ctx[0].side
      modifies this
      ensures Linked([], whole, nodes, root) && DeleteInv([], whole) && whole.Fork?
      ensures Pairs(whole) == Pairs(Plug(ctx, t))
      ensures nodes[NIL] == old(nodes[NIL]) && abs == old(abs)
    {
      SiblingView(ctx, t, nodes, root);
      DeleteFarPrep(ctx, t, nodes, root);
      nodes := nodes[w := nodes[w].(color := nodes[p].color)];
      nodes := nodes[p := nodes[p].(color := Black)];
      var r := ChildPtr(nodes[w], Opp(s));
      nodes := nodes[r := nodes[r].(color := Black)];
      var f := ctx[0];
      RotateAt(p, s, ctx[1..], Attach(f.(color := Black, sibling := WithChild(f.sibling.(color := f.color), Opp(s), Far(f).(color := Black))), t));
      DeleteFarStep(ctx, t, nodes, root);
      whole := Plug(ctx[1..], DeleteFarRotated(ctx[0], t));
      PlugFork(ctx[1..], DeleteFarRotated(ctx[0], t));
    }

    /** `transplant`: `v` takes `u`'s place below `u`'s parent (or as the root),
        and `v`'s parent pointer is set, also when `v` is the sentinel. */
    method Transplant(u: nat, v: nat)
      requires u < |nodes| && v < |nodes| && nodes[u].parent < |nodes|
      modifies this
      ensures nodes == Transplanted(old(nodes), u, v)
      ensures root == if old(nodes)[u].parent == NIL then v else old(root)
      ensures abs == old(abs)
    {
      var pu := nodes[u].parent;
      if pu == NIL {
        root := v;
      } else if u == nodes[pu].left {
        nodes := nodes[pu := nodes[pu].(left := v)];
      } else {
        nodes := nodes[pu := nodes[pu].(right := v)];
      }
      nodes := nodes[v := nodes[v].(parent := pu)];
    }

    /** `minimum`: follows left pointers from `x0`. The node reached ends the
        all-left path `d` below `x0`, has no left child, and holds the first
        pair of `t` in key order. */
    method Minimum(x0: nat, ghost ctx: seq<Frame>, ghost t: Tree) returns (y: nat, ghost d: seq<Frame>, ghost ty: Tree)
      requires Linked(ctx, t, nodes, root) && t.Fork? && x0 == t.id
      ensures Linked(d + ctx, ty, nodes, root) && Plug(d, ty) == t && AllLeft(d)
      ensures ty.Fork? && ty.left.Empty? && y == ty.id
      ensures |Pairs(t)| > 0 && Pairs(t)[0] == (nodes[y].key, nodes[y].value)
    {
      y, d, ty := x0, [], t;
      assert d + ctx == ctx;
      while nodes[y].left != NIL
        invariant Linked(d + ctx, ty, nodes, root) && Plug(d, ty) == t && AllLeft(d)
        invariant ty.Fork? && y == ty.id
        decreases Size(ty)
      {
        LinkedIds(d + ctx, ty, nodes, root);
        LinkedDown(d + ctx, ty, nodes, root, L);
        ghost var f := Frame(L, ty.id, ty.key, ty.value, ty.color, ty.right);
        PushLeft(f, d, ctx, ty.left);
        y := nodes[y].left;
        d, ty := [f] + d, ty.left;
      }
      LinkedIds(d + ctx, ty, nodes, root);
      assert Matches(ty, HoleParent(d + ctx, NIL), nodes);
      AllLeftPairs(d);
      PairsPlug(d, ty);
      assert Pairs(ty) == [] + [(ty.key, ty.value)] + Pairs(ty.right);
    }

    /** The part of `remove` from `transplant(z, y)` on: the successor `y`
        takes `z`'s place, its left child becomes `z`'s and its color `z`'s. */
    method ReplaceWithSuccessor(z: nat, y: nat, ghost ctx: seq<Frame>, ghost zl: Tree, ghost r: Tree)
      requires SpliceReady(ctx, z, zl, y, r, nodes, root)
      modifies this
      ensures Linked(ctx, Fork(zl, y, old(nodes)[y].key, old(nodes)[y].value, old(nodes)[z].color, r), nodes, root)
      ensures nodes[NIL] == old(nodes[NIL]) && |nodes| == |old(nodes)| && abs == old(abs)
    {
      SpliceReadyIds(ctx, z, zl, y, r, nodes, root);
      SuccessorSplicedLink(ctx, z, zl, y, r, nodes, root);
      SpliceWrites(z, y);
    }

    /** The pointer and color writes of `ReplaceWithSuccessor`, in the source's order. */
    method SpliceWrites(z: nat, y: nat)
      requires z < |nodes| && y < |nodes| && y != z && nodes[z].parent < |nodes| && nodes[z].parent != z
      requires nodes[z].left < |nodes|
      modifies this
      ensures nodes == SuccessorSpliced(old(nodes), z, y)
      ensures root == if old(nodes)[z].parent == NIL then y else old(root)
      ensures abs == old(abs)
    {
      Transplant(z, y);
      nodes := nodes[y := nodes[y].(left := nodes[z].left)];
      var l := nodes[y].left;
      nodes := nodes[l := nodes[l].(parent := y)];
      nodes := nodes[y := nodes[y].(color := nodes[z].color)];
    }

    /** After `remove` has unlinked a node: the arena holds the zipper
        `(xctx, xt)` with `x` at its hole, the sentinel is black and, when `x`
        is the sentinel, points up to the hole's parent. If the unlinked node was
        black, `x` carries the extra black `deleteFixup` expects; otherwise the
        red-black invariants already hold. */
    ghost predicate FixupReady(x: nat, xctx: seq<Frame>, xt: Tree, black: bool)
      reads this
    {
      Linked(xctx, xt, nodes, root) && x == Id(xt) && nodes[NIL].color == Black
      && (xt.Empty? ==> nodes[NIL].parent == HoleParent(xctx, NIL))
      && Ascending(Pairs(Plug(xctx, xt)))
      && (black ==> DeleteInv(xctx, xt))
      && (!black ==> ColorsOK(Plug(xctx, xt)))
    }

    /** `remove`, two children, successor `y` is `z`'s right child: `x`'s
        parent becomes `y`, then `y` takes `z`'s place. */
    method LinkAdjacentSuccessor(z: nat, y: nat, ghost ctx: seq<Frame>, ghost t: Tree, ghost ty: Tree)
      requires Linked(ctx, t, nodes, root) && t.Fork? && z == t.id && t.left.Fork? && t.right == ty
      requires ty.Fork? && ty.left.Empty? && y == ty.id
      modifies this
      ensures Linked(ctx, Fork(t.left, y, ty.key, ty.value, t.color, ty.right), nodes, root)
      ensures nodes[NIL].color == old(nodes[NIL].color) && (ty.right.Empty? ==> nodes[NIL].parent == y)
      ensures abs == old(abs)
    {
      LinkedIds(ctx, t, nodes, root);
      assert t == Fork(t.left, z, t.key, t.value, t.color, Fork(Empty, y, ty.key, ty.value, ty.color, ty.right));
      ghost var h0 := nodes;
      SuccessorAdjacent(ctx, t.left, z, t.key, t.value, t.color, y, ty.key, ty.value, ty.color, ty.right, h0, root);
      var x := nodes[y].right;
      nodes := nodes[x := nodes[x].(parent := y)];
      ReplaceWithSuccessor(z, y, ctx, t.left, ty.right);
    }

    /** `transplant(y, y->right)` for the successor `y` deep in `z->right`:
        the arena then holds the tree with `y` cut out of the left path `d`. */
    method CutSuccessor(z: nat, y: nat, ghost ctx: seq<Frame>, ghost t: Tree, ghost d: seq<Frame>, ghost ty: Tree)
      requires t.Fork? && z == t.id && d != []
      requires Linked(d + [Frame(R, z, t.key, t.value, t.color, t.left)] + ctx, ty, nodes, root)
      requires ty.Fork? && ty.left.Empty? && y == ty.id
      modifies this
      ensures var t' := Fork(t.left, z, t.key, t.value, t.color, Plug(d, ty.right));
        Linked(ctx, t', nodes, root) && Plug(d, ty.right).Fork?
        && 0 < y < |nodes| && y !in Ids(Plug(ctx, t'))
      ensures nodes[y].key == ty.key && nodes[y].value == ty.value
      ensures nodes[NIL].color == old(nodes[NIL].color) && (ty.right.Empty? ==> nodes[NIL].parent == d[0].id)
      ensures abs == old(abs)
    {
      ghost var fz := Frame(R, z, t.key, t.value, t.color, t.left);
      ghost var yr := ty.right;
      LinkedIds(d + [fz] + ctx, ty, nodes, root);
      assert (d + [fz] + ctx)[0] == d[0];
      TransplantSplice(d + [fz] + ctx, ty, yr, nodes, root);
      var x := nodes[y].right;
      Transplant(y, x);
      PathRegroup(d, fz, ctx);
      LinkedUpPath([fz] + ctx, d, yr, nodes, root);
      LinkedUp([fz] + ctx, Plug(d, yr), nodes, root);
      assert ([fz] + ctx)[1..] == ctx;
      PlugFork(d, yr);
      PlugAppend(d + [fz], ctx, yr);
      PlugAppend(d, [fz], yr);
    }

    /** `remove`, two children, successor `y` deeper in `z->right` along the
        left path `d`: `y` is cut out, adopts `z->right`, then takes `z`'s
        place. */
    method LinkDeeperSuccessor(z: nat, y: nat, ghost ctx: seq<Frame>, ghost t: Tree, ghost d: seq<Frame>, ghost ty: Tree)
      requires Linked(ctx, t, nodes, root) && t.Fork? && z == t.id && t.left.Fork?
      requires Linked(d + [Frame(R, z, t.key, t.value, t.color, t.left)] + ctx, ty, nodes, root)
      requires ty.Fork? && ty.left.Empty? && y == ty.id && d != []
      modifies this
      ensures Linked(ctx, Fork(t.left, y, ty.key, ty.value, t.color, Plug(d, ty.right)), nodes, root)
      ensures nodes[NIL].color == old(nodes[NIL].color) && (ty.right.Empty? ==> nodes[NIL].parent == d[0].id)
      ensures abs == old(abs)
    {
      CutSuccessor(z, y, ctx, t, d, ty);
      SuccessorDetach(ctx, t.left, z, t.key, t.value, t.color, Plug(d, ty.right), y, nodes, root);
      nodes := nodes[y := nodes[y].(right := nodes[z].right)];
      var r := nodes[y].right;
      nodes := nodes[r := nodes[r].(parent := y)];
      ReplaceWithSuccessor(z, y, ctx, t.left, Plug(d, ty.right));
    }

    /** The part of `remove` for a node `z` with two children: its successor `y`
        (the minimum of `z->right`) is unlinked and takes `z`'s place and color.
        The sentinel's parent pointer is set to `y` also when `x` is the
        sentinel (the `x != NIL` guard of the source is not modelled; see the
        findings). */
    method RemoveTwoChildren(z: nat, ghost ctx: seq<Frame>, ghost t: Tree)
      returns (x: nat, ghost xctx: seq<Frame>, ghost xt: Tree, black: bool)
      requires Linked(ctx, t, nodes, root) && t.Fork? && z == t.id && t.left.Fork? && t.right.Fork?
      requires nodes[NIL].color == Black && ColorsOK(Plug(ctx, t)) && Ascending(Pairs(Plug(ctx, t)))
      modifies this
      ensures FixupReady(x, xctx, xt, black)
      ensures Contents(Plug(xctx, xt)) == Contents(Plug(ctx, t)) - {t.key}
      ensures abs == old(abs)
    {
      LinkedIds(ctx, t, nodes, root);
      ghost var fz := Frame(R, z, t.key, t.value, t.color, t.left);
      LinkedDown(ctx, t, nodes, root, R);
      var y;
      ghost var d, ty;
      y, d, ty := Minimum(nodes[z].right, [fz] + ctx, t.right);
      PathRegroup(d, fz, ctx);
      ghost var yk, yv, yc, yr := ty.key, ty.value, ty.color, ty.right;
      LinkedIds(d + [fz] + ctx, ty, nodes, root);
      black := nodes[y].color == Black;
      assert black == (yc == Black);
      x := nodes[y].right;
      assert x == Id(yr);
      DistinctPlug(d, ty);
      if d != [] {
        assert (d + [fz] + ctx)[0] == d[0];
        assert d[0].id in CtxIds(d);
        assert nodes[y].parent != z;
      }
      if nodes[y].parent == z {
        LinkAdjacentSuccessor(z, y, ctx, t, ty);
      } else {
        assert d != [];
        LinkDeeperSuccessor(z, y, ctx, t, d, ty);
      }
      ghost var fy := Frame(R, y, yk, yv, t.color, t.left);
      LinkedDown(ctx, Fork(t.left, y, yk, yv, t.color, Plug(d, yr)), nodes, root, R);
      LinkedDownPath([fy] + ctx, d, yr, nodes, root);
      PathRegroup(d, fy, ctx);
      xctx, xt := d + [fy] + ctx, yr;
      assert HoleParent(xctx, NIL) == if d == [] then y else d[0].id;
      assert ty == Fork(Empty, y, yk, yv, yc, yr);
      RemoveSuccessorColors(ctx, t.left, z, t.key, t.value, t.color, d, y, yk, yv, yc, yr);
      RemoveSuccessor(ctx, t.left, z, t.key, t.value, t.color, d, y, yk, yv, yc, yr);
    }

    /** `remove` for a node `z` with at most one child: the child (or the
        sentinel) takes `z`'s place, and `x` is that child. */
    method RemoveOneChild(z: nat, ghost ctx: seq<Frame>, ghost t: Tree)
      returns (x: nat, ghost xctx: seq<Frame>, ghost xt: Tree, black: bool)
      requires Linked(ctx, t, nodes, root) && t.Fork? && z == t.id && (t.left.Empty? || t.right.Empty?)
      requires nodes[NIL].color == Black && ColorsOK(Plug(ctx, t)) && Ascending(Pairs(Plug(ctx, t)))
      modifies this
      ensures FixupReady(x, xctx, xt, black)
      ensures Contents(Plug(xctx, xt)) == Contents(Plug(ctx, t)) - {t.key}
      ensures abs == old(abs)
    {
      LinkedIds(ctx, t, nodes, root);
      black := nodes[z].color == Black;
      xctx := ctx;
      if nodes[z].left == NIL {
        x, xt := nodes[z].right, t.right;
      } else {
        x, xt := nodes[z].left, t.left;
      }
      TransplantSplice(ctx, t, xt, nodes, root);
      Transplant(z, x);
      Splice(ctx, t, xt);
      RBOrder.RemoveOneChild(ctx, t, xt);
    }

    /** `remove`: unlinks the node holding `key`, if any, and restores the
        red-black invariants with `deleteFixup` when a black node left its
        place. The result says whether the key was present. */
    method Remove(key: Key) returns (removed: bool)
      requires Valid()
      modifies this
      ensures Valid() && removed == (key in old(Map())) && Map() == old(Map()) - {key}
      ensures !removed ==> nodes == old(nodes) && root == old(root) && abs == old(abs)
    {
      var z, ctx, t := FindNode(key);
      if z == NIL {
        return false;
      }
      LinkedIds(ctx, t, nodes, root);
      assert nodes[z].left == Id(t.left) && nodes[z].right == Id(t.right);
      var x, black;
      ghost var xctx, xt;
      if nodes[z].left == NIL || nodes[z].right == NIL {
        x, xctx, xt, black := RemoveOneChild(z, ctx, t);
      } else {
        x, xctx, xt, black := RemoveTwoChildren(z, ctx, t);
      }
      if black {
        ghost var whole := DeleteFixup(x, xctx, xt);
        abs := whole;
      } else {
        LinkedTop(xctx, xt, nodes, root);
        abs := Plug(xctx, xt);
      }
      return true;
    }

    /** `clear`: the root becomes the sentinel; the nodes are dropped from the
        tree (their arena slots are not reclaimed). */
    method Clear()
      requires Valid()
      modifies this
      ensures Valid() && abs == Empty && Map() == map[] && root == NIL
      ensures Dump(abs) == []
    {
      root := NIL;
      abs := Empty;
    }

    /** `inorderPrintRecursive` from node `x`, as a sequence of records instead
        of text. */
    method DumpFrom(x: nat, ghost t: Tree, ghost p: nat) returns (r: seq<Entry>)
      requires Matches(t, p, nodes) && x == Id(t)
      ensures r == Dump(t)
      decreases t
    {
      if x == NIL {
        return [];
      }
      var left := DumpFrom(nodes[x].left, t.left, x);
      var right := DumpFrom(nodes[x].right, t.right, x);
      r := left + [Entry(nodes[x].key, nodes[x].value, nodes[x].color)] + right;
    }

    /** `print`: the in-order records of the whole tree. Keys come out strictly
        ascending and the records are exactly the stored pairs. */
    method InOrder() returns (r: seq<Entry>)
      requires Valid()
      ensures r == Dump(abs)
      ensures |r| == |Pairs(abs)| && forall i :: 0 <= i < |r| ==> (r[i].key, r[i].value) == Pairs(abs)[i]
      ensures forall i, j :: 0 <= i < j < |r| ==> Less(r[i].key, r[j].key)
    {
      r := DumpFrom(root, abs, NIL);
      DumpPairs(abs);
      forall i, j | 0 <= i < j < |r|
        ensures Less(r[i].key, r[j].key)
      {
        assert r[i].key == Pairs(abs)[i].0 && r[j].key == Pairs(abs)[j].0;
      }
    }

    /** `getMaxDepth` from node `x`: the number of nodes on a longest path down. */
    method MaxDepthFrom(x: nat, ghost t: Tree, ghost p: nat) returns (d: nat)
      requires Matches(t, p, nodes) && x == Id(t)
      ensures d == Height(t)
      decreases t
    {
      if x == NIL {
        return 0;
      }
      var left := MaxDepthFrom(nodes[x].left, t.left, x);
      var right := MaxDepthFrom(nodes[x].right, t.right, x);
      d := (if left >= right then left else right) + 1;
    }

    /** `getMaxDepth(root)`: for a red-black tree the depth is at most twice the
        black height, and the black height is logarithmic in the size. */
    method MaxDepth() returns (d: nat)
      requires Valid()
      ensures d == Height(abs) && d <= 2 * BH(abs) && Pow2(BH(abs)) <= Size(abs) + 1
    {
      d := MaxDepthFrom(root, abs, NIL);
      HeightBound(abs);
    }
  }

  /** `Dictionary`: word counts in a red-black tree, keyed by the normalized
      word. */
  class Dictionary {
    const rbt: RBTree

    ghost predicate Valid()
      reads this, rbt
    {
      rbt.Valid() && WordCounts.WellFormed(rbt.Map())
    }

    /** The count of every word. */
    ghost function Frequencies(): WordCounts.Counts
      reads this, rbt
    {
      rbt.Map()
    }

    /** `Dictionary() = default`: an empty tree. */
    constructor ()
      ensures Valid() && Frequencies() == map[] && fresh(rbt)
    {
      rbt := new RBTree();
    }

    /** `addWord`: an empty word is ignored; otherwise the normalized word's
        count goes up by one. */
    method AddWord(raw: seq<byte>)
      requires Valid()
      modifies rbt
      ensures Valid() && Frequencies() == WordCounts.AddWord(old(Frequencies()), raw)
    {
      WordCounts.AddWordWellFormed(Frequencies(), raw);
      if |raw| == 0 {
        return;
      }
      var word := Text.NormalizeWordToLower(raw);
      Increment(word);
    }

    /** The rest of `addWord`: `search`, then `insert` with the found count
        plus one, or with 1. */
    method Increment(word: Key)
      requires rbt.Valid()
      modifies rbt
      ensures rbt.Valid() && rbt.Map() == WordCounts.Bump(old(rbt.Map()), word)
      ensures word in old(rbt.Map()) ==>
        rbt.root == old(rbt.root) && |rbt.nodes| == |old(rbt.nodes)| &&
        forall i :: 0 <= i < |rbt.nodes| ==> rbt.nodes[i].(value := 0) == old(rbt.nodes)[i].(value := 0)
    {
      var current := rbt.Search(word);
      if current.Some? {
        WordCounts.BumpPresent(rbt.Map(), word);
        rbt.Insert(word, current.value + 1);
      } else {
        WordCounts.BumpAbsent(rbt.Map(), word);
        rbt.Insert(word, 1);
      }
    }

    /** `removeWord`: an empty word is ignored. */
    method RemoveWord(raw: seq<byte>)
      requires Valid()
      modifies rbt
      ensures Valid()
      ensures Frequencies() == if |raw| == 0 then old(Frequencies()) else old(Frequencies()) - {Text.Lower(raw)}
    {
      if |raw| == 0 {
        return;
      }
      var word := Text.NormalizeWordToLower(raw);
      var _ := rbt.Remove(word);
    }

    /** `findWord`: whether the normalized word has a count; an empty word is
        never found. */
    method FindWord(raw: seq<byte>) returns (found: bool)
      requires Valid()
      ensures found == (|raw| > 0 && Text.Lower(raw) in Frequencies())
    {
      if |raw| == 0 {
        return false;
      }
      var word := Text.NormalizeWordToLower(raw);
      var count := rbt.Search(word);
      found := count.Some?;
    }

    /** `clear`. */
    method Clear()
      requires Valid()
      modifies rbt
      ensures Valid() && Frequencies() == map[]
    {
      rbt.Clear();
    }

    /** `loadFromFile` once the file's bytes are read: without `append` the
        dictionary is cleared first, then every word of the text is added. */
    method LoadText(content: seq<byte>, append: bool)
      requires Valid()
      modifies rbt
      ensures Valid()
      ensures Frequencies() == WordCounts.AddWords(if append then old(Frequencies()) else map[], Text.Words(content))
    {
      if !append {
        Clear();
      }
      ghost var start := Frequencies();
      var words := Text.ProcessTextToWords(content);
      var i := 0;
      while i < |words|
        invariant i <= |words| && Valid() && Frequencies() == WordCounts.AddWords(start, words[..i])
        decreases |words| - i
      {
        WordCounts.AddWordsPrefix(start, words, i);
        if |words[i]| > 0 {
          AddWord(words[i]);
        }
        i := i + 1;
      }
      assert words[..i] == words;
    }
  }
}
