/** Red-black trees as values: the shape the arena of `DictionaryWithRBTree::RBTree`
    stands for, the four red-black invariants, zippers (a subtree together with the
    path from it up to the root), and the facts about the fix-up cases of insertion
    and deletion stated on those values. */
module RBTheory {
  import opened Bytes

  type Key = seq<byte>

  datatype Color = Red | Black

  /** A tree node remembers the arena index (`id`) of the node it stands for. */
  datatype Tree =
    | Empty
    | Fork(left: Tree, id: nat, key: Key, value: int, color: Color, right: Tree)

  /** One (key, value, color) record of the in-order dump. */
  datatype Entry = Entry(key: Key, value: int, color: Color)

  /** The side of its parent a subtree hangs on. */
  datatype Side = L | R

  /** One step of a path to the root: the parent node, the side the hole is on,
      and the parent's other subtree. */
  datatype Frame = Frame(side: Side, id: nat, key: Key, value: int, color: Color, sibling: Tree)

  function Opp(s: Side): Side {
    if s == L then R else L
  }

  /** Arena index of a subtree's root; the sentinel's index 0 for the empty tree. */
  function Id(t: Tree): nat {
    if t.Empty? then 0 else t.id
  }

  /** The sentinel counts as black. */
  function RootColor(t: Tree): Color {
    if t.Empty? then Black else t.color
  }

  function Weight(c: Color): nat {
    if c == Black then 1 else 0
  }

  function Child(t: Tree, s: Side): Tree
    requires t.Fork?
  {
    if s == L then t.left else t.right
  }

  function WithChild(t: Tree, s: Side, c: Tree): Tree
    requires t.Fork?
  {
    if s == L then t.(left := c) else t.(right := c)
  }

  function Blacken(t: Tree): Tree {
    if t.Empty? then t else t.(color := Black)
  }

  /** Puts `t` into the hole of frame `f`. */
  function Attach(f: Frame, t: Tree): Tree {
    if f.side == L then Fork(t, f.id, f.key, f.value, f.color, f.sibling)
    else Fork(f.sibling, f.id, f.key, f.value, f.color, t)
  }

  /** Rebuilds the whole tree from a subtree and its path to the root
      (`ctx[0]` is the subtree's parent). */
  function Plug(ctx: seq<Frame>, t: Tree): Tree
    decreases |ctx|
  {
    if |ctx| == 0 then t else Plug(ctx[1..], Attach(ctx[0], t))
  }

  /** Arena index of the parent of the hole; `p0` is the parent of the path's top. */
  function HoleParent(ctx: seq<Frame>, p0: nat): nat {
    if |ctx| == 0 then p0 else ctx[0].id
  }

  /** Rotation of `t` towards side `s` (`s == L` is `leftRotate`): the child on the
      other side becomes the root. */
  function Rotate(s: Side, t: Tree): Tree
    requires t.Fork? && Child(t, Opp(s)).Fork?
  {
    var c := Child(t, Opp(s));
    WithChild(c, s, WithChild(t, Opp(s), Child(c, s)))
  }

  // ---------------------------------------------------------------------------
  // In-order contents

  /** The (key, value) pairs in in-order sequence. */
  function Pairs(t: Tree): seq<(Key, int)> {
    match t
    case Empty => []
    case Fork(l, _, k, v, _, r) => Pairs(l) + [(k, v)] + Pairs(r)
  }

  /** The in-order dump: (key, value, color) records in in-order sequence. */
  function Dump(t: Tree): seq<Entry> {
    match t
    case Empty => []
    case Fork(l, _, k, v, c, r) => Dump(l) + [Entry(k, v, c)] + Dump(r)
  }

  /** The dump lists the tree's pairs in order, each with its node's color. */
  lemma {:induction false} DumpPairs(t: Tree)
    ensures |Dump(t)| == |Pairs(t)| == Size(t)
    ensures forall i :: 0 <= i < |Dump(t)| ==> (Dump(t)[i].key, Dump(t)[i].value) == Pairs(t)[i]
  {
    match t
    case Empty =>
    case Fork(l, _, k, v, c, r) =>
      DumpPairs(l);
      DumpPairs(r);
      var D, P := Dump(t), Pairs(t);
      forall i | 0 <= i < |D|
        ensures (D[i].key, D[i].value) == P[i]
      {
        if i < |Dump(l)| {
          assert D[i] == Dump(l)[i] && P[i] == Pairs(l)[i];
        } else if i == |Dump(l)| {
          assert D[i] == Entry(k, v, c) && P[i] == (k, v);
        } else {
          var j := i - |Dump(l)| - 1;
          assert D[i] == Dump(r)[j] && P[i] == Pairs(r)[j];
        }
      }
  }

  function Keys(t: Tree): set<Key> {
    match t
    case Empty => {}
    case Fork(l, _, k, _, _, r) => Keys(l) + {k} + Keys(r)
  }

  function Ids(t: Tree): set<nat> {
    match t
    case Empty => {}
    case Fork(l, id, _, _, _, r) => Ids(l) + {id} + Ids(r)
  }

  /** Number of nodes. */
  function Size(t: Tree): nat {
    match t
    case Empty => 0
    case Fork(l, _, _, _, _, r) => Size(l) + 1 + Size(r)
  }

  /** Longest root-to-leaf path counted in nodes, as `getMaxDepth` computes it. */
  function Height(t: Tree): nat {
    match t
    case Empty => 0
    case Fork(l, _, _, _, _, r) => (if Height(l) >= Height(r) then Height(l) else Height(r)) + 1
  }

  /** Keys strictly ascending (binary-search-tree order, invariant 1). */
  ghost predicate Ascending(ps: seq<(Key, int)>) {
    forall i, j :: 0 <= i < j < |ps| ==> Less(ps[i].0, ps[j].0)
  }

  function KeySet(ps: seq<(Key, int)>): set<Key> {
    set i | 0 <= i < |ps| :: ps[i].0
  }

  /** The map that a list of pairs denotes (a later pair wins). */
  function MapOf(ps: seq<(Key, int)>): map<Key, int>
    decreases |ps|
  {
    if |ps| == 0 then map[] else MapOf(ps[..|ps| - 1])[ps[|ps| - 1].0 := ps[|ps| - 1].1]
  }

  /** The key-to-value map a tree stores. */
  function Contents(t: Tree): map<Key, int> {
    MapOf(Pairs(t))
  }

  /** In-order pairs left and right of the hole of a path. */
  function CtxLeft(ctx: seq<Frame>): seq<(Key, int)>
    decreases |ctx|
  {
    if |ctx| == 0 then []
    else CtxLeft(ctx[1..]) + (if ctx[0].side == L then [] else Pairs(ctx[0].sibling) + [(ctx[0].key, ctx[0].value)])
  }

  function CtxRight(ctx: seq<Frame>): seq<(Key, int)>
    decreases |ctx|
  {
    if |ctx| == 0 then []
    else (if ctx[0].side == L then [(ctx[0].key, ctx[0].value)] + Pairs(ctx[0].sibling) else []) + CtxRight(ctx[1..])
  }

  lemma {:induction false} PairsPlug(ctx: seq<Frame>, t: Tree)
    ensures Pairs(Plug(ctx, t)) == CtxLeft(ctx) + Pairs(t) + CtxRight(ctx)
    decreases |ctx|
  {
    if |ctx| > 0 {
      PairsPlug(ctx[1..], Attach(ctx[0], t));
    }
  }

  /** Regrouping a path with one frame in the middle. */
  lemma PathRegroup(d: seq<Frame>, f: Frame, ctx: seq<Frame>)
    ensures d + ([f] + ctx) == d + [f] + ctx
  {
  }

  /** Replacing a subtree by one with the same in-order pairs keeps the pairs of the whole. */
  lemma PairsReplace(ctx: seq<Frame>, s: Tree, s': Tree)
    requires Pairs(s) == Pairs(s')
    ensures Pairs(Plug(ctx, s)) == Pairs(Plug(ctx, s'))
  {
    PairsPlug(ctx, s);
    PairsPlug(ctx, s');
  }

  lemma PlugAppend(a: seq<Frame>, b: seq<Frame>, t: Tree)
    ensures Plug(a + b, t) == Plug(b, Plug(a, t))
    decreases |a|
  {
    if |a| == 0 {
      assert a + b == b;
    } else {
      assert (a + b)[0] == a[0] && (a + b)[1..] == a[1..] + b;
      PlugAppend(a[1..], b, Attach(a[0], t));
    }
  }

  /** Rotations and recolorings keep the in-order pairs and the node indices. */
  lemma RotatePreserves(s: Side, t: Tree)
    requires t.Fork? && Child(t, Opp(s)).Fork?
    ensures Pairs(Rotate(s, t)) == Pairs(t)
    ensures Ids(Rotate(s, t)) == Ids(t)
    ensures Distinct(Rotate(s, t)) == Distinct(t)
  {
  }

  // ---------------------------------------------------------------------------
  // Distinct node indices

  /** No arena index occurs twice in the tree. */
  ghost predicate Distinct(t: Tree) {
    match t
    case Empty => true
    case Fork(l, id, _, _, _, r) =>
      Distinct(l) && Distinct(r) && id !in Ids(l) && id !in Ids(r) && Ids(l) !! Ids(r)
  }

  /** Indices of the nodes of a path and of their other subtrees. */
  function CtxIds(ctx: seq<Frame>): set<nat>
    decreases |ctx|
  {
    if |ctx| == 0 then {} else {ctx[0].id} + Ids(ctx[0].sibling) + CtxIds(ctx[1..])
  }

  /** The indices of a path are distinct and avoid `used`. */
  ghost predicate DistinctCtx(ctx: seq<Frame>, used: set<nat>)
    decreases |ctx|
  {
    |ctx| == 0 ||
    (var f := ctx[0];
     f.id !in used && f.id !in Ids(f.sibling) && used !! Ids(f.sibling) && Distinct(f.sibling)
     && DistinctCtx(ctx[1..], used + {f.id} + Ids(f.sibling)))
  }

  lemma {:induction false} DistinctPlug(ctx: seq<Frame>, t: Tree)
    ensures Distinct(Plug(ctx, t)) <==> Distinct(t) && DistinctCtx(ctx, Ids(t))
    ensures Ids(Plug(ctx, t)) == Ids(t) + CtxIds(ctx)
    decreases |ctx|
  {
    if |ctx| > 0 {
      var f := ctx[0];
      DistinctPlug(ctx[1..], Attach(f, t));
      assert Ids(Attach(f, t)) == Ids(t) + {f.id} + Ids(f.sibling);
      assert Distinct(Attach(f, t)) <==>
        Distinct(t) && Distinct(f.sibling) && f.id !in Ids(t) && f.id !in Ids(f.sibling) && Ids(t) !! Ids(f.sibling);
    }
  }

  lemma {:induction false} DistinctCtxDisjoint(ctx: seq<Frame>, used: set<nat>)
    requires DistinctCtx(ctx, used)
    ensures used !! CtxIds(ctx)
    decreases |ctx|
  {
    if |ctx| > 0 {
      DistinctCtxDisjoint(ctx[1..], used + {ctx[0].id} + Ids(ctx[0].sibling));
    }
  }

  lemma {:induction false} DistinctCtxShrink(ctx: seq<Frame>, used: set<nat>, fewer: set<nat>)
    requires DistinctCtx(ctx, used) && fewer <= used
    ensures DistinctCtx(ctx, fewer)
    decreases |ctx|
  {
    if |ctx| > 0 {
      DistinctCtxShrink(ctx[1..], used + {ctx[0].id} + Ids(ctx[0].sibling), fewer + {ctx[0].id} + Ids(ctx[0].sibling));
    }
  }

  lemma {:induction false} DistinctCtxGrow(ctx: seq<Frame>, used: set<nat>, more: set<nat>)
    requires DistinctCtx(ctx, used) && more !! CtxIds(ctx)
    ensures DistinctCtx(ctx, used + more)
    decreases |ctx|
  {
    if |ctx| > 0 {
      var f := ctx[0];
      DistinctCtxGrow(ctx[1..], used + {f.id} + Ids(f.sibling), more);
      assert used + {f.id} + Ids(f.sibling) + more == used + more + {f.id} + Ids(f.sibling);
    }
  }

  /** Replacing a subtree by one with no more indices keeps all indices distinct. */
  lemma DistinctReplace(ctx: seq<Frame>, s: Tree, s': Tree)
    requires Distinct(Plug(ctx, s)) && Distinct(s') && Ids(s') <= Ids(s)
    ensures Distinct(Plug(ctx, s'))
  {
    DistinctPlug(ctx, s);
    DistinctPlug(ctx, s');
    DistinctCtxShrink(ctx, Ids(s), Ids(s'));
  }

  /** A new index `y` for the node at the hole keeps all indices distinct. */
  lemma DistinctSwapRoot(ctx: seq<Frame>, t: Tree, y: nat, k: Key, v: int, c: Color)
    requires Distinct(Plug(ctx, t)) && t.Fork? && y !in Ids(Plug(ctx, t))
    ensures Distinct(Plug(ctx, Fork(t.left, y, k, v, c, t.right)))
  {
    var t' := Fork(t.left, y, k, v, c, t.right);
    DistinctPlug(ctx, t);
    DistinctPlug(ctx, t');
    DistinctCtxShrink(ctx, Ids(t), Ids(t) - {t.id});
    DistinctCtxGrow(ctx, Ids(t) - {t.id}, {y});
    assert Ids(t') == Ids(t) - {t.id} + {y};
  }

  /** A path that only ever goes left, as `minimum` walks. */
  predicate AllLeft(d: seq<Frame>) {
    forall i :: 0 <= i < |d| ==> d[i].side == L
  }

  /** One more step left below the path `d` (itself below `ctx`). */
  lemma PushLeft(f: Frame, d: seq<Frame>, ctx: seq<Frame>, t: Tree)
    requires AllLeft(d) && f.side == L
    ensures [f] + (d + ctx) == ([f] + d) + ctx
    ensures AllLeft([f] + d) && Plug([f] + d, t) == Plug(d, Attach(f, t))
  {
    assert ([f] + d)[1..] == d;
    forall i | 0 <= i < |[f] + d| ensures ([f] + d)[i].side == L {
      if i > 0 { assert ([f] + d)[i] == d[i - 1]; }
    }
  }

  lemma {:induction false} AllLeftPairs(d: seq<Frame>)
    requires AllLeft(d)
    ensures CtxLeft(d) == []
    decreases |d|
  {
    if |d| > 0 {
      assert AllLeft(d[1..]) by {
        forall i | 0 <= i < |d[1..]| ensures d[1..][i].side == L {
          assert d[1..][i] == d[i + 1];
        }
      }
      AllLeftPairs(d[1..]);
    }
  }

  lemma {:induction false} PlugFork(ctx: seq<Frame>, t: Tree)
    requires t.Fork? || |ctx| > 0
    ensures Plug(ctx, t).Fork?
    decreases |ctx|
  {
    if |ctx| > 0 {
      PlugFork(ctx[1..], Attach(ctx[0], t));
    }
  }

  lemma {:induction false} IdPlug(ctx: seq<Frame>, t: Tree)
    ensures Id(Plug(ctx, t)) == if |ctx| == 0 then Id(t) else ctx[|ctx| - 1].id
    decreases |ctx|
  {
    if |ctx| > 0 {
      IdPlug(ctx[1..], Attach(ctx[0], t));
    }
  }
}

module RBInvariants {
  import opened Bytes
  import opened RBTheory

  // ---------------------------------------------------------------------------
  // The red-black invariants

  /** Black nodes on the way down the left spine, the sentinel not counted. */
  function BH(t: Tree): nat {
    match t
    case Empty => 0
    case Fork(l, _, _, _, c, _) => BH(l) + Weight(c)
  }

  /** Uniform black height (invariant 4). */
  predicate Balanced(t: Tree) {
    match t
    case Empty => true
    case Fork(l, _, _, _, _, r) => Balanced(l) && Balanced(r) && BH(l) == BH(r)
  }

  /** No red node has a red child (invariant 3). */
  predicate RedOK(t: Tree) {
    match t
    case Empty => true
    case Fork(l, _, _, _, c, r) =>
      RedOK(l) && RedOK(r) && (c == Red ==> RootColor(l) == Black && RootColor(r) == Black)
  }

  /** All four invariants: search order, black root, no red-red edge, uniform black height. */
  ghost predicate IsRB(t: Tree) {
    Ascending(Pairs(t)) && Balanced(t) && RedOK(t) && RootColor(t) == Black
  }

  /** Black height of `Plug(ctx, t)` when `BH(t) == h`. */
  function CtxBH(ctx: seq<Frame>, h: nat): nat
    decreases |ctx|
  {
    if |ctx| == 0 then h else CtxBH(ctx[1..], h + Weight(ctx[0].color))
  }

  /** Plugging a balanced tree of black height `h` into `ctx` gives a balanced tree. */
  predicate CtxBalanced(ctx: seq<Frame>, h: nat)
    decreases |ctx|
  {
    |ctx| == 0 ||
    (Balanced(ctx[0].sibling) && BH(ctx[0].sibling) == h && CtxBalanced(ctx[1..], h + Weight(ctx[0].color)))
  }

  /** Plugging a tree without red-red edges whose root has color `c` gives a tree without them. */
  predicate CtxRedOK(ctx: seq<Frame>, c: Color)
    decreases |ctx|
  {
    |ctx| == 0 ||
    (RedOK(ctx[0].sibling)
     && (ctx[0].color == Red ==> c == Black && RootColor(ctx[0].sibling) == Black)
     && CtxRedOK(ctx[1..], ctx[0].color))
  }

  /** As `CtxRedOK`, but the edge between the hole and its parent is not checked. */
  predicate CtxRedOKSkip(ctx: seq<Frame>) {
    |ctx| == 0 ||
    (RedOK(ctx[0].sibling)
     && (ctx[0].color == Red ==> RootColor(ctx[0].sibling) == Black)
     && CtxRedOK(ctx[1..], ctx[0].color))
  }

  /** The root of the whole tree (the top frame) is black. */
  predicate TopBlack(ctx: seq<Frame>) {
    |ctx| == 0 || ctx[|ctx| - 1].color == Black
  }

  lemma {:induction false} BalancedPlug(ctx: seq<Frame>, t: Tree)
    ensures Balanced(Plug(ctx, t)) <==> Balanced(t) && CtxBalanced(ctx, BH(t))
    ensures CtxBalanced(ctx, BH(t)) ==> BH(Plug(ctx, t)) == CtxBH(ctx, BH(t))
    decreases |ctx|
  {
    if |ctx| > 0 {
      BalancedPlug(ctx[1..], Attach(ctx[0], t));
    }
  }

  lemma {:induction false} RedOKPlug(ctx: seq<Frame>, t: Tree)
    ensures RedOK(Plug(ctx, t)) <==> RedOK(t) && CtxRedOK(ctx, RootColor(t))
    decreases |ctx|
  {
    if |ctx| > 0 {
      RedOKPlug(ctx[1..], Attach(ctx[0], t));
    }
  }

  lemma {:induction false} RootColorPlug(ctx: seq<Frame>, t: Tree)
    ensures RootColor(Plug(ctx, t)) == if |ctx| == 0 then RootColor(t) else ctx[|ctx| - 1].color
    decreases |ctx|
  {
    if |ctx| > 0 {
      RootColorPlug(ctx[1..], Attach(ctx[0], t));
    }
  }

  lemma CtxRedOKWeaken(ctx: seq<Frame>, c: Color)
    requires CtxRedOK(ctx, c)
    ensures CtxRedOK(ctx, Black) && CtxRedOKSkip(ctx)
  {
  }

  lemma PlugTwo(ctx: seq<Frame>, t: Tree)
    requires |ctx| >= 2
    ensures Plug(ctx, t) == Plug(ctx[2..], Attach(ctx[1], Attach(ctx[0], t)))
  {
    assert ctx[1..][1..] == ctx[2..];
  }

  /** Changing only a node's value keeps every color invariant. */
  lemma ColorsReplace(ctx: seq<Frame>, t: Tree, v: int)
    requires t.Fork? && Balanced(Plug(ctx, t)) && RedOK(Plug(ctx, t)) && RootColor(Plug(ctx, t)) == Black
    ensures var t' := t.(value := v);
      Balanced(Plug(ctx, t')) && RedOK(Plug(ctx, t')) && RootColor(Plug(ctx, t')) == Black
  {
    var t' := t.(value := v);
    BalancedPlug(ctx, t);
    RedOKPlug(ctx, t);
    RootColorPlug(ctx, t);
    BalancedPlug(ctx, t');
    RedOKPlug(ctx, t');
    RootColorPlug(ctx, t');
  }

  /** The whole tree satisfies the color invariants. */
  ghost predicate ColorsOK(t: Tree) {
    Balanced(t) && RedOK(t) && RootColor(t) == Black
  }

  // ---------------------------------------------------------------------------
  // Height bound

  function Pow2(n: nat): nat {
    if n == 0 then 1 else 2 * Pow2(n - 1)
  }

  lemma {:induction false} HeightBlackHeight(t: Tree)
    requires Balanced(t) && RedOK(t)
    ensures Height(t) + Weight(RootColor(t)) <= 2 * BH(t) + 1
  {
    match t
    case Empty =>
    case Fork(l, _, _, _, c, r) =>
      HeightBlackHeight(l);
      HeightBlackHeight(r);
  }

  lemma {:induction false} SizeBlackHeight(t: Tree)
    requires Balanced(t)
    ensures Pow2(BH(t)) <= Size(t) + 1
  {
    match t
    case Empty =>
    case Fork(l, _, _, _, c, r) =>
      SizeBlackHeight(l);
      SizeBlackHeight(r);
  }

  /** A red-black tree of n nodes has height at most 2 log2(n + 1). */
  lemma HeightBound(t: Tree)
    requires ColorsOK(t)
    ensures Height(t) <= 2 * BH(t)
    ensures Pow2(BH(t)) <= Size(t) + 1
  {
    HeightBlackHeight(t);
    SizeBlackHeight(t);
  }
}
