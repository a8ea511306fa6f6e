/** Search order and stored map of red-black trees: where a search ends, what
    inserting at the end of a search, replacing a value and removing a node do
    to the key-to-value map. */
module RBOrder {
  import opened Bytes
  import opened RBTheory

  /** Every key of `ps` is below / above `k`. */
  ghost predicate Below(ps: seq<(Key, int)>, k: Key) {
    forall i :: 0 <= i < |ps| ==> Less(ps[i].0, k)
  }

  ghost predicate Above(ps: seq<(Key, int)>, k: Key) {
    forall i :: 0 <= i < |ps| ==> Less(k, ps[i].0)
  }

  /** The path to a hole is the one a search for `k` takes: left where `k` is
      smaller than the node's key, right where it is larger. */
  ghost predicate SearchPath(ctx: seq<Frame>, k: Key) {
    forall i :: 0 <= i < |ctx| ==>
      (ctx[i].side == L ==> Less(k, ctx[i].key)) && (ctx[i].side == R ==> Less(ctx[i].key, k))
  }

  lemma AscendingSplit(a: seq<(Key, int)>, b: seq<(Key, int)>)
    requires Ascending(a + b)
    ensures Ascending(a) && Ascending(b)
    ensures forall i, j :: 0 <= i < |a| && 0 <= j < |b| ==> Less(a[i].0, b[j].0)
  {
    forall i, j | 0 <= i < j < |a| ensures Less(a[i].0, a[j].0) {
      assert (a + b)[i] == a[i] && (a + b)[j] == a[j];
    }
    forall i, j | 0 <= i < j < |b| ensures Less(b[i].0, b[j].0) {
      assert (a + b)[|a| + i] == b[i] && (a + b)[|a| + j] == b[j];
    }
    forall i, j | 0 <= i < |a| && 0 <= j < |b| ensures Less(a[i].0, b[j].0) {
      assert (a + b)[i] == a[i] && (a + b)[|a| + j] == b[j];
    }
  }

  lemma AscendingJoin(a: seq<(Key, int)>, b: seq<(Key, int)>)
    requires Ascending(a) && Ascending(b)
    requires forall i, j :: 0 <= i < |a| && 0 <= j < |b| ==> Less(a[i].0, b[j].0)
    ensures Ascending(a + b)
  {
    forall i, j | 0 <= i < j < |a + b| ensures Less((a + b)[i].0, (a + b)[j].0) {
      if j < |a| {
        assert (a + b)[i] == a[i] && (a + b)[j] == a[j];
      } else if i < |a| {
        assert (a + b)[i] == a[i] && (a + b)[j] == b[j - |a|];
      } else {
        assert (a + b)[i] == b[i - |a|] && (a + b)[j] == b[j - |a|];
      }
    }
  }

  lemma BelowNotIn(ps: seq<(Key, int)>, k: Key)
    requires Below(ps, k) || Above(ps, k)
    ensures k !in KeySet(ps)
  {
    if k in KeySet(ps) {
      var i :| 0 <= i < |ps| && ps[i].0 == k;
      LessIrreflexive(k);
    }
  }

  lemma {:induction false} KeySetConcat(a: seq<(Key, int)>, b: seq<(Key, int)>)
    ensures KeySet(a + b) == KeySet(a) + KeySet(b)
  {
    forall k | k in KeySet(a + b) ensures k in KeySet(a) + KeySet(b) {
      var i :| 0 <= i < |a + b| && (a + b)[i].0 == k;
      if i < |a| { assert a[i] == (a + b)[i]; } else { assert b[i - |a|] == (a + b)[i]; }
    }
    forall k | k in KeySet(a) + KeySet(b) ensures k in KeySet(a + b) {
      if k in KeySet(a) {
        var i :| 0 <= i < |a| && a[i].0 == k;
        assert (a + b)[i] == a[i];
      } else {
        var i :| 0 <= i < |b| && b[i].0 == k;
        assert (a + b)[|a| + i] == b[i];
      }
    }
  }

  // ---------------------------------------------------------------------------
  // MapOf

  lemma {:induction false} MapOfKeys(ps: seq<(Key, int)>)
    ensures MapOf(ps).Keys == KeySet(ps)
    decreases |ps|
  {
    if |ps| > 0 {
      var init := ps[..|ps| - 1];
      MapOfKeys(init);
      assert ps == init + [ps[|ps| - 1]];
      KeySetConcat(init, [ps[|ps| - 1]]);
      assert KeySet([ps[|ps| - 1]]) == {ps[|ps| - 1].0};
    }
  }

  /** The map of a concatenation: the later list's pairs win. */
  lemma {:induction false} MapOfConcat(a: seq<(Key, int)>, b: seq<(Key, int)>)
    ensures MapOf(a + b) == MapOf(a) + MapOf(b)
    decreases |b|
  {
    if |b| == 0 {
      assert a + b == a;
    } else {
      var b' := b[..|b| - 1];
      assert (a + b)[..|a + b| - 1] == a + b';
      assert (a + b)[|a + b| - 1] == b[|b| - 1];
      MapOfConcat(a, b');
    }
  }

  lemma MapOfSingle(k: Key, v: int)
    ensures MapOf([(k, v)]) == map[k := v]
  {
    assert [(k, v)][..0] == [];
  }

  /** A key that occurs only at position `|a|` maps to the value stored there. */
  lemma MapOfMiddle(a: seq<(Key, int)>, k: Key, v: int, b: seq<(Key, int)>)
    requires k !in KeySet(b)
    ensures k in MapOf(a + [(k, v)] + b) && MapOf(a + [(k, v)] + b)[k] == v
  {
    MapOfConcat(a + [(k, v)], b);
    MapOfConcat(a, [(k, v)]);
    MapOfSingle(k, v);
    MapOfKeys(b);
  }

  /** Adding a pair with a new key at position `|a|`. */
  lemma MapOfInsert(a: seq<(Key, int)>, k: Key, v: int, b: seq<(Key, int)>)
    requires k !in KeySet(b)
    ensures MapOf(a + [(k, v)] + b) == MapOf(a + b)[k := v]
  {
    MapOfConcat(a + [(k, v)], b);
    MapOfConcat(a, [(k, v)]);
    MapOfConcat(a, b);
    MapOfSingle(k, v);
    MapOfKeys(b);
  }

  /** Replacing the value of a pair whose key occurs nowhere else. */
  lemma MapOfReplace(a: seq<(Key, int)>, k: Key, v: int, v': int, b: seq<(Key, int)>)
    requires k !in KeySet(a) && k !in KeySet(b)
    ensures MapOf(a + [(k, v')] + b) == MapOf(a + [(k, v)] + b)[k := v']
  {
    MapOfConcat(a + [(k, v)], b);
    MapOfConcat(a, [(k, v)]);
    MapOfConcat(a + [(k, v')], b);
    MapOfConcat(a, [(k, v')]);
    MapOfSingle(k, v);
    MapOfSingle(k, v');
    MapOfKeys(b);
  }

  /** Dropping a pair whose key occurs nowhere else. */
  lemma MapOfDrop(a: seq<(Key, int)>, k: Key, v: int, b: seq<(Key, int)>)
    requires k !in KeySet(a) && k !in KeySet(b)
    ensures MapOf(a + b) == MapOf(a + [(k, v)] + b) - {k}
  {
    MapOfConcat(a + [(k, v)], b);
    MapOfConcat(a, [(k, v)]);
    MapOfConcat(a, b);
    MapOfSingle(k, v);
    MapOfKeys(a);
    MapOfKeys(b);
  }

  /** In ascending lists a pair's key occurs nowhere else. */
  lemma AscendingUnique(a: seq<(Key, int)>, x: (Key, int), b: seq<(Key, int)>)
    requires Ascending(a + [x] + b)
    ensures x.0 !in KeySet(a) && x.0 !in KeySet(b)
    ensures Below(a, x.0) && Above(b, x.0)
  {
    AscendingSplit(a + [x], b);
    AscendingSplit(a, [x]);
    assert (a + [x])[|a|] == x;
    BelowNotIn(a, x.0);
    BelowNotIn(b, x.0);
  }

  // ---------------------------------------------------------------------------
  // Searches on trees

  /** Where a search path ends, all keys on the left are smaller and all keys
      on the right are larger than the key searched for. */
  lemma {:induction false} SearchGap(ctx: seq<Frame>, t: Tree, k: Key)
    requires Ascending(Pairs(Plug(ctx, t))) && SearchPath(ctx, k)
    ensures Below(CtxLeft(ctx), k) && Above(CtxRight(ctx), k)
    decreases |ctx|
  {
    if |ctx| > 0 {
      var f := ctx[0];
      var rest := ctx[1..];
      SearchPathTail(ctx, k);
      SearchGap(rest, Attach(f, t), k);
      AttachAscending(rest, Attach(f, t));
      var x := (f.key, f.value);
      if f.side == L {
        assert Pairs(Attach(f, t)) == Pairs(t) + ([x] + Pairs(f.sibling));
        AscendingSplit(Pairs(t), [x] + Pairs(f.sibling));
        AboveJoin(k, x, Pairs(f.sibling), CtxRight(rest));
        assert CtxRight(ctx) == [x] + Pairs(f.sibling) + CtxRight(rest);
      } else {
        assert Pairs(Attach(f, t)) == (Pairs(f.sibling) + [x]) + Pairs(t);
        AscendingSplit(Pairs(f.sibling) + [x], Pairs(t));
        BelowJoin(k, CtxLeft(rest), Pairs(f.sibling), x);
        assert CtxLeft(ctx) == CtxLeft(rest) + (Pairs(f.sibling) + [x]);
      }
    }
  }

  lemma SearchPathTail(ctx: seq<Frame>, k: Key)
    requires |ctx| > 0 && SearchPath(ctx, k)
    ensures SearchPath(ctx[1..], k)
  {
    var rest := ctx[1..];
    forall i | 0 <= i < |rest|
      ensures (rest[i].side == L ==> Less(k, rest[i].key)) && (rest[i].side == R ==> Less(rest[i].key, k))
    {
      assert rest[i] == ctx[i + 1];
    }
  }

  /** A subtree of an ordered tree is ordered. */
  lemma AttachAscending(ctx: seq<Frame>, t: Tree)
    requires Ascending(Pairs(Plug(ctx, t)))
    ensures Ascending(Pairs(t))
  {
    PairsPlug(ctx, t);
    AscendingSplit(CtxLeft(ctx) + Pairs(t), CtxRight(ctx));
    AscendingSplit(CtxLeft(ctx), Pairs(t));
  }

  /** A node above `k` with its right subtree, in front of pairs above `k`. */
  lemma AboveJoin(k: Key, x: (Key, int), sib: seq<(Key, int)>, outer: seq<(Key, int)>)
    requires Less(k, x.0) && Ascending([x] + sib) && Above(outer, k)
    ensures Above([x] + sib + outer, k)
  {
    var right := [x] + sib;
    forall i | 0 <= i < |right + outer| ensures Less(k, (right + outer)[i].0) {
      if i < |right| {
        assert (right + outer)[i] == right[i];
        if i > 0 {
          assert right[0] == x;
          LessTransitive(k, x.0, right[i].0);
        }
      } else {
        assert (right + outer)[i] == outer[i - |right|];
      }
    }
  }

  /** Pairs below `k`, then a left subtree and its node below `k`. */
  lemma BelowJoin(k: Key, outer: seq<(Key, int)>, sib: seq<(Key, int)>, x: (Key, int))
    requires Less(x.0, k) && Ascending(sib + [x]) && Below(outer, k)
    ensures Below(outer + (sib + [x]), k)
  {
    var left := sib + [x];
    forall i | 0 <= i < |outer + left| ensures Less((outer + left)[i].0, k) {
      if i < |outer| {
        assert (outer + left)[i] == outer[i];
      } else {
        var j := i - |outer|;
        assert (outer + left)[i] == left[j];
        if j < |sib| {
          assert left[|sib|] == x;
          LessTransitive(left[j].0, x.0, k);
        }
      }
    }
  }

  /** A search that reaches an empty subtree: the key is not stored. */
  lemma SearchMissing(ctx: seq<Frame>, k: Key)
    requires Ascending(Pairs(Plug(ctx, Empty))) && SearchPath(ctx, k)
    ensures k !in Contents(Plug(ctx, Empty))
  {
    SearchGap(ctx, Empty, k);
    PairsPlug(ctx, Empty);
    BelowNotIn(CtxLeft(ctx), k);
    BelowNotIn(CtxRight(ctx), k);
    KeySetConcat(CtxLeft(ctx), CtxRight(ctx));
    assert Pairs(Plug(ctx, Empty)) == CtxLeft(ctx) + CtxRight(ctx);
    MapOfKeys(Pairs(Plug(ctx, Empty)));
  }

  /** The in-order pairs around a node: those before it, its own, those after it. */
  lemma PairsAround(ctx: seq<Frame>, t: Tree)
    requires t.Fork?
    ensures Pairs(Plug(ctx, t))
         == (CtxLeft(ctx) + Pairs(t.left)) + [(t.key, t.value)] + (Pairs(t.right) + CtxRight(ctx))
  {
    PairsPlug(ctx, t);
  }

  /** A search that stops at a node with the key: the stored value is that node's. */
  lemma SearchFound(ctx: seq<Frame>, t: Tree)
    requires Ascending(Pairs(Plug(ctx, t))) && t.Fork?
    ensures t.key in Contents(Plug(ctx, t)) && Contents(Plug(ctx, t))[t.key] == t.value
  {
    PairsAround(ctx, t);
    AscendingUnique(CtxLeft(ctx) + Pairs(t.left), (t.key, t.value), Pairs(t.right) + CtxRight(ctx));
    MapOfMiddle(CtxLeft(ctx) + Pairs(t.left), t.key, t.value, Pairs(t.right) + CtxRight(ctx));
  }

  /** Overwriting the value of a node keeps the order and updates the map at its key. */
  lemma ReplaceValue(ctx: seq<Frame>, t: Tree, v: int)
    requires Ascending(Pairs(Plug(ctx, t))) && t.Fork?
    ensures Ascending(Pairs(Plug(ctx, t.(value := v))))
    ensures Contents(Plug(ctx, t.(value := v))) == Contents(Plug(ctx, t))[t.key := v]
  {
    var a := CtxLeft(ctx) + Pairs(t.left);
    var b := Pairs(t.right) + CtxRight(ctx);
    PairsAround(ctx, t);
    PairsAround(ctx, t.(value := v));
    AscendingUnique(a, (t.key, t.value), b);
    MapOfReplace(a, t.key, t.value, v, b);
    var ps := a + [(t.key, t.value)] + b;
    var ps' := a + [(t.key, v)] + b;
    assert |ps| == |ps'|;
    forall i | 0 <= i < |ps'| ensures ps'[i].0 == ps[i].0 {
      if i < |a| { assert ps[i] == a[i] == ps'[i]; }
      else if i == |a| { }
      else { assert ps[i] == b[i - |a| - 1] == ps'[i]; }
    }
  }

  /** A new node at the end of a search path keeps the order and adds its pair to the map. */
  lemma InsertAtGap(ctx: seq<Frame>, n: Tree, k: Key, v: int)
    requires Ascending(Pairs(Plug(ctx, Empty))) && SearchPath(ctx, k)
    requires n.Fork? && n.left.Empty? && n.right.Empty? && n.key == k && n.value == v
    ensures Ascending(Pairs(Plug(ctx, n)))
    ensures Contents(Plug(ctx, n)) == Contents(Plug(ctx, Empty))[k := v]
  {
    SearchGap(ctx, Empty, k);
    PairsPlug(ctx, Empty);
    PairsPlug(ctx, n);
    assert Pairs(n) == [(k, v)];
    assert Pairs(Plug(ctx, Empty)) == CtxLeft(ctx) + CtxRight(ctx);
    InsertBetween(CtxLeft(ctx), k, v, CtxRight(ctx));
  }

  /** A pair whose key lies between the two halves of an ascending list. */
  lemma InsertBetween(a: seq<(Key, int)>, k: Key, v: int, b: seq<(Key, int)>)
    requires Ascending(a + b) && Below(a, k) && Above(b, k)
    ensures Ascending(a + [(k, v)] + b)
    ensures MapOf(a + [(k, v)] + b) == MapOf(a + b)[k := v]
  {
    AscendingSplit(a, b);
    AscendingJoin([(k, v)], b);
    AscendingJoin(a, [(k, v)] + b);
    assert a + [(k, v)] + b == a + ([(k, v)] + b);
    BelowNotIn(b, k);
    MapOfInsert(a, k, v, b);
  }

  /** Removing one pair from an ascending list keeps it ascending and drops its key from the map. */
  lemma RemovePair(a: seq<(Key, int)>, x: (Key, int), b: seq<(Key, int)>)
    requires Ascending(a + [x] + b)
    ensures Ascending(a + b)
    ensures MapOf(a + b) == MapOf(a + [x] + b) - {x.0}
  {
    AscendingUnique(a, x, b);
    AscendingSplit(a + [x], b);
    AscendingSplit(a, [x]);
    forall i, j | 0 <= i < |a| && 0 <= j < |b| ensures Less(a[i].0, b[j].0) {
      assert (a + [x])[i] == a[i];
    }
    AscendingJoin(a, b);
    MapOfDrop(a, x.0, x.1, b);
  }

  /** `remove` of a node `t` with an empty child: its other child `c` takes
      its place, and exactly its key leaves the map. */
  lemma RemoveOneChild(ctx: seq<Frame>, t: Tree, c: Tree)
    requires Ascending(Pairs(Plug(ctx, t))) && t.Fork?
    requires (t.left.Empty? && c == t.right) || (t.right.Empty? && c == t.left)
    ensures Ascending(Pairs(Plug(ctx, c)))
    ensures Contents(Plug(ctx, c)) == Contents(Plug(ctx, t)) - {t.key}
  {
    OneChildPairs(ctx, t, c);
    RemovePair(CtxLeft(ctx) + Pairs(t.left), (t.key, t.value), Pairs(t.right) + CtxRight(ctx));
  }

  lemma {:induction false} OneChildPairs(ctx: seq<Frame>, t: Tree, c: Tree)
    requires t.Fork?
    requires (t.left.Empty? && c == t.right) || (t.right.Empty? && c == t.left)
    ensures var a := CtxLeft(ctx) + Pairs(t.left); var b := Pairs(t.right) + CtxRight(ctx);
      Pairs(Plug(ctx, t)) == a + [(t.key, t.value)] + b && Pairs(Plug(ctx, c)) == a + b
  {
    PairsAround(ctx, t);
    PairsPlug(ctx, c);
    var a := CtxLeft(ctx) + Pairs(t.left);
    var b := Pairs(t.right) + CtxRight(ctx);
    var cl, cr, pc := CtxLeft(ctx), CtxRight(ctx), Pairs(c);
    if t.left.Empty? && c == t.right {
      assert a == cl + [];
      assert cl + [] == cl;
      assert b == pc + cr;
      assert cl + pc + cr == cl + (pc + cr);
    } else {
      assert b == [] + cr;
      assert [] + cr == cr;
      assert a == cl + pc;
    }
  }

  /** `remove` of a node `z` with two children: its successor `y`, the end of
      the all-left path `d` in `z`'s right subtree, takes `z`'s place, and `y`'s
      right subtree `yr` takes `y`'s; exactly `z`'s key leaves the map. */
  lemma RemoveSuccessor(ctx: seq<Frame>, zl: Tree, z: nat, zk: Key, zv: int, zc: Color,
                        d: seq<Frame>, y: nat, yk: Key, yv: int, yc: Color, yr: Tree)
    requires AllLeft(d)
    requires Ascending(Pairs(Plug(ctx, Fork(zl, z, zk, zv, zc, Plug(d, Fork(Empty, y, yk, yv, yc, yr))))))
    ensures var t' := Fork(zl, y, yk, yv, zc, Plug(d, yr));
      Ascending(Pairs(Plug(ctx, t')))
      && Contents(Plug(ctx, t')) == Contents(Plug(ctx, Fork(zl, z, zk, zv, zc, Plug(d, Fork(Empty, y, yk, yv, yc, yr))))) - {zk}
  {
    SuccessorPairs(ctx, zl, z, zk, zv, zc, d, y, yk, yv, yc, yr);
    RemovePair(CtxLeft(ctx) + Pairs(zl), (zk, zv), [(yk, yv)] + Pairs(yr) + CtxRight(d) + CtxRight(ctx));
  }

  lemma SuccessorPairs(ctx: seq<Frame>, zl: Tree, z: nat, zk: Key, zv: int, zc: Color,
                       d: seq<Frame>, y: nat, yk: Key, yv: int, yc: Color, yr: Tree)
    requires AllLeft(d)
    ensures var a := CtxLeft(ctx) + Pairs(zl); var b := [(yk, yv)] + Pairs(yr) + CtxRight(d) + CtxRight(ctx);
      Pairs(Plug(ctx, Fork(zl, z, zk, zv, zc, Plug(d, Fork(Empty, y, yk, yv, yc, yr))))) == a + [(zk, zv)] + b
      && Pairs(Plug(ctx, Fork(zl, y, yk, yv, zc, Plug(d, yr)))) == a + b
  {
    LeftPathPairs(d, y, yk, yv, yc, yr);
    var r := [(yk, yv)] + Pairs(yr) + CtxRight(d);
    SplitPairs(ctx, zl, z, zk, zv, zc, Plug(d, Fork(Empty, y, yk, yv, yc, yr)), r);
    JoinPairs(ctx, zl, y, yk, yv, zc, Plug(d, yr), r);
    assert r + CtxRight(ctx) == [(yk, yv)] + Pairs(yr) + CtxRight(d) + CtxRight(ctx);
  }

  lemma {:induction false} SplitPairs(ctx: seq<Frame>, zl: Tree, z: nat, zk: Key, zv: int, zc: Color, zr: Tree,
                                      r: seq<(Key, int)>)
    requires Pairs(zr) == r
    ensures Pairs(Plug(ctx, Fork(zl, z, zk, zv, zc, zr))) == (CtxLeft(ctx) + Pairs(zl)) + [(zk, zv)] + (r + CtxRight(ctx))
  {
    PairsPlug(ctx, Fork(zl, z, zk, zv, zc, zr));
  }

  lemma {:induction false} JoinPairs(ctx: seq<Frame>, zl: Tree, y: nat, yk: Key, yv: int, zc: Color, yr': Tree,
                                     r: seq<(Key, int)>)
    requires [(yk, yv)] + Pairs(yr') == r
    ensures Pairs(Plug(ctx, Fork(zl, y, yk, yv, zc, yr'))) == (CtxLeft(ctx) + Pairs(zl)) + (r + CtxRight(ctx))
  {
    var f := Fork(zl, y, yk, yv, zc, yr');
    PairsPlug(ctx, f);
    var cl, cr, pl := CtxLeft(ctx), CtxRight(ctx), Pairs(zl);
    Regroup(pl, [(yk, yv)], Pairs(yr'));
    assert Pairs(f) == pl + r;
    Regroup(cl, pl, r);
    Regroup(cl + pl, r, cr);
  }

  lemma Regroup(a: seq<(Key, int)>, b: seq<(Key, int)>, c: seq<(Key, int)>)
    ensures a + b + c == a + (b + c)
  {
  }

  lemma {:induction false} LeftPathPairs(d: seq<Frame>, y: nat, yk: Key, yv: int, yc: Color, yr: Tree)
    requires AllLeft(d)
    ensures Pairs(Plug(d, Fork(Empty, y, yk, yv, yc, yr))) == [(yk, yv)] + Pairs(yr) + CtxRight(d)
    ensures Pairs(Plug(d, yr)) == Pairs(yr) + CtxRight(d)
  {
    var yt := Fork(Empty, y, yk, yv, yc, yr);
    AllLeftPairs(d);
    PairsPlug(d, yt);
    PairsPlug(d, yr);
    assert Pairs(yt) == [] + [(yk, yv)] + Pairs(yr);
    assert [] + [(yk, yv)] == [(yk, yv)];
    assert [] + Pairs(yt) == Pairs(yt);
    assert [] + Pairs(yr) == Pairs(yr);
  }
}
