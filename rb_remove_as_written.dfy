/** `RBTree::remove` and `deleteFixup` exactly as main.cpp writes them, as
    functions on an arena and a root pointer. The only difference from the
    verified `RedBlack.RBTree.Remove` is the guard at main.cpp:647: when the
    successor `y` is `z`'s own child, `x->parent = y` is done only when `x` is
    not the sentinel. The lemma at the end runs this model on a four-node
    red-black tree and shows that the result violates the black-height
    invariant. */
module RemoveAsWritten {
  import opened Bytes
  import opened RBTheory
  import opened RBInvariants
  import opened RBArena

  /** The tree object's state: the node arena and the root pointer. */
  datatype State = State(h: seq<Node>, root: nat)

  /** Reading a node; indices outside the arena read as a black sentinel. */
  function At(h: seq<Node>, i: nat): Node {
    if i < |h| then h[i] else Node([], 0, Black, NIL, NIL, NIL)
  }

  function SetColor(st: State, i: nat, c: Color): State {
    if i < |st.h| then st.(h := st.h[i := st.h[i].(color := c)]) else st
  }

  function SetParent(st: State, i: nat, p: nat): State {
    if i < |st.h| then st.(h := st.h[i := st.h[i].(parent := p)]) else st
  }

  function SetChild(st: State, i: nat, s: Side, c: nat): State {
    if i < |st.h| then st.(h := st.h[i := WithChildPtr(st.h[i], s, c)]) else st
  }

  /** `transplant(u, v)`, with the root update. */
  function TransplantState(st: State, u: nat, v: nat): State {
    State(Transplanted(st.h, u, v), if At(st.h, u).parent == NIL then v else st.root)
  }

  /** `leftRotate(x)` (`s == L`) / `rightRotate(x)` (`s == R`), with the root update. */
  function RotateState(st: State, x: nat, s: Side): State {
    State(RotatedArena(st.h, x, s),
          if At(st.h, x).parent == NIL then ChildPtr(At(st.h, x), Opp(s)) else st.root)
  }

  /** `findNode`'s loop, at most `fuel` steps. */
  function FindArena(h: seq<Node>, x: nat, key: Key, fuel: nat): nat
    decreases fuel
  {
    if fuel == 0 || x == NIL || At(h, x).key == key then x
    else FindArena(h, if Less(key, At(h, x).key) then At(h, x).left else At(h, x).right, key, fuel - 1)
  }

  /** `minimum`'s loop, at most `fuel` steps. */
  function MinimumArena(h: seq<Node>, x: nat, fuel: nat): nat
    decreases fuel
  {
    if fuel == 0 || At(h, x).left == NIL then x else MinimumArena(h, At(h, x).left, fuel - 1)
  }

  /** `deleteFixup(x)`, at most `fuel` rounds of its loop. `s` is the side of
      its parent `x` hangs on (main.cpp:447 tests `x == x->parent->left`), so
      `s == L` is the first branch and `s == R` the mirrored one. */
  function FixupArena(st: State, x: nat, fuel: nat): State
    decreases fuel
  {
    if fuel == 0 || x == st.root || At(st.h, x).color != Black then SetColor(st, x, Black)
    else
      var p := At(st.h, x).parent;
      var s := if x == At(st.h, p).left then L else R;
      var w := ChildPtr(At(st.h, p), Opp(s));
      // case 1: red sibling
      var st1 := if At(st.h, w).color == Red then RotateState(SetColor(SetColor(st, w, Black), p, Red), p, s) else st;
      var w1 := ChildPtr(At(st1.h, At(st1.h, x).parent), Opp(s));
      var near := ChildPtr(At(st1.h, w1), s);
      var far := ChildPtr(At(st1.h, w1), Opp(s));
      if At(st1.h, near).color == Black && At(st1.h, far).color == Black then
        // case 2: the extra black moves up
        FixupArena(SetColor(st1, w1, Red), At(st1.h, x).parent, fuel - 1)
      else
        // case 3: the far child is black
        var st2 := if At(st1.h, far).color == Black
                   then RotateState(SetColor(SetColor(st1, near, Black), w1, Red), w1, Opp(s)) else st1;
        var w2 := ChildPtr(At(st2.h, At(st2.h, x).parent), Opp(s));
        // case 4
        var px := At(st2.h, x).parent;
        var st3 := SetColor(st2, w2, At(st2.h, px).color);
        var st4 := SetColor(st3, px, Black);
        var st5 := SetColor(st4, ChildPtr(At(st4.h, w2), Opp(s)), Black);
        var st6 := RotateState(st5, px, s);
        FixupArena(st6, st6.root, fuel - 1)
  }

  /** `remove(key)` as written; the flag is its result. The loops get fuel
      for as many rounds as the arena has nodes, plus two for `deleteFixup`. */
  function RemoveArena(st: State, key: Key): (State, bool) {
    var fuel := |st.h|;
    var z := FindArena(st.h, st.root, key, fuel);
    if z == NIL then (st, false)
    else
      var zn := At(st.h, z);
      var (x, orig, st5) :=
        if zn.left == NIL then (zn.right, zn.color, TransplantState(st, z, zn.right))
        else if zn.right == NIL then (zn.left, zn.color, TransplantState(st, z, zn.left))
        else
          var y := MinimumArena(st.h, zn.right, fuel);
          var yn := At(st.h, y);
          var x := yn.right;
          var st1 :=
            if yn.parent == z then
              (if x != NIL then SetParent(st, x, y) else st)
            else
              var a := TransplantState(st, y, yn.right);
              var b := SetChild(a, y, R, At(a.h, z).right);
              SetParent(b, At(b.h, y).right, y);
          var st2 := TransplantState(st1, z, y);
          var st3 := SetChild(st2, y, L, At(st2.h, z).left);
          var st4 := SetParent(st3, At(st3.h, y).left, y);
          (x, yn.color, SetColor(st4, y, At(st4.h, z).color));
      (if orig == Black then FixupArena(st5, x, fuel + 2) else st5, true)
  }

  // ---------------------------------------------------------------------------
  // The counterexample

  const b: Key := [98]
  const a: Key := [97]
  const c: Key := [99]
  const aa: Key := [97, 97]

  /** The tree inserting "b", "a", "c", "aa" (each with count 1) builds:
      `b` black with black children `a` and `c`, and the red `aa` right of `a`.
      Index 0 is the sentinel, the others follow insertion order. */
  function SampleTree(): Tree {
    Fork(Fork(Empty, 2, a, 1, Black, Fork(Empty, 4, aa, 1, Red, Empty)), 1, b, 1, Black,
         Fork(Empty, 3, c, 1, Black, Empty))
  }

  function Sample(): seq<Node> {
    [Node([], 0, Black, NIL, NIL, NIL),
     Node(b, 1, Black, NIL, 2, 3),
     Node(a, 1, Black, 1, NIL, 4),
     Node(c, 1, Black, 1, NIL, NIL),
     Node(aa, 1, Red, 2, NIL, NIL)]
  }

  /** What removing "b" from it leaves: `c` black at the root with `a` on its
      left and nothing on its right. */
  function Broken(): Tree {
    Fork(Fork(Empty, 2, a, 1, Black, Fork(Empty, 4, aa, 1, Red, Empty)), 3, c, 1, Black, Empty)
  }

  /** The sample's in-order pairs are in ascending key order. */
  lemma SampleAscending()
    ensures Pairs(SampleTree()) == [(a, 1), (aa, 1), (b, 1), (c, 1)]
    ensures Ascending(Pairs(SampleTree()))
  {
    assert Less(a, aa) && Less(aa, b) && Less(b, c);
    assert Pairs(SampleTree()) == [(a, 1), (aa, 1), (b, 1), (c, 1)];
    var ps := Pairs(SampleTree());
    assert forall i, j :: 0 <= i < j < |ps| ==> Less(ps[i].0, ps[j].0) by {
      LessTransitive(a, aa, b);
      LessTransitive(aa, b, c);
      LessTransitive(a, b, c);
    }
  }

  /** The map the sample stores. */
  lemma SampleContents()
    ensures Contents(SampleTree()) == map[a := 1, aa := 1, b := 1, c := 1]
  {
    SampleAscending();
    var ps := Pairs(SampleTree());
    assert ps[..3] == [(a, 1), (aa, 1), (b, 1)] && ps[..3][..2] == [(a, 1), (aa, 1)];
    assert ps[..3][..2][..1] == [(a, 1)] && ps[..3][..2][..1][..0] == [];
    assert MapOf(ps[..3][..2][..1]) == map[a := 1];
    assert MapOf(ps[..3][..2]) == map[a := 1, aa := 1];
    assert MapOf(ps[..3]) == map[a := 1, aa := 1, b := 1];
  }

  /** The sample arena holds a red-black search tree. */
  lemma SampleIsRedBlack()
    ensures Linked([], SampleTree(), Sample(), 1) && IsRB(SampleTree())
    ensures Contents(SampleTree()) == map[a := 1, aa := 1, b := 1, c := 1]
  {
    SampleAscending();
    SampleContents();
  }

  /** The arena and root that `remove("b")` leaves on the sample. */
  function AfterRemove(): State {
    State([Node([], 0, Black, NIL, NIL, NIL),
           Node(b, 1, Black, NIL, 2, 3),
           Node(a, 1, Black, 3, NIL, 4),
           Node(c, 1, Black, NIL, 2, NIL),
           Node(aa, 1, Red, 2, NIL, NIL)], 3)
  }

  /** The run of `remove("b")`: `c` is the successor and `b`'s right child,
      its right child is the sentinel, so the guarded `x->parent = y` is
      skipped and `deleteFixup` starts at the sentinel, whose parent is
      still 0. The sentinel is not the root, so the loop runs, reads the
      sentinel's own children as `w`, and its first round changes nothing
      but the sentinel's color, which the final `x->color = BLACK` restores. */
  lemma AsWrittenRemoveRun()
    ensures RemoveArena(State(Sample(), 1), b) == (AfterRemove(), true)
  {
    var st0 := State(Sample(), 1);
    assert FindArena(st0.h, 1, b, 5) == 1;
    assert MinimumArena(st0.h, 3, 5) == 3;
    var st2 := TransplantState(st0, 1, 3);
    var st3 := SetChild(st2, 3, L, 2);
    var st4 := SetParent(st3, 2, 3);
    var st5 := SetColor(st4, 3, Black);
    assert st5 == AfterRemove();
    var st6 := SetColor(st5, NIL, Red);
    assert FixupArena(st5, NIL, 7) == FixupArena(st6, NIL, 6);
    assert FixupArena(st6, NIL, 6) == SetColor(st6, NIL, Black);
    assert SetColor(st6, NIL, Black) == st5;
  }

  /** What the arena after `remove("b")` holds. */
  lemma AfterRemoveHolds()
    ensures Linked([], Broken(), AfterRemove().h, AfterRemove().root)
    ensures Contents(Broken()) == Contents(SampleTree()) - {b}
    ensures !Balanced(Broken())
  {
    var h := AfterRemove().h;
    assert Matches(Fork(Empty, 4, aa, 1, Red, Empty), 2, h);
    assert Matches(Broken().left, 3, h);
    assert Matches(Broken(), NIL, h);
    SampleContents();
    assert Pairs(Broken()) == [(a, 1), (aa, 1), (c, 1)];
    var qs := Pairs(Broken());
    assert qs[..2] == [(a, 1), (aa, 1)] && qs[..2][..1] == [(a, 1)] && qs[..2][..1][..0] == [];
    assert MapOf(qs[..2][..1]) == map[a := 1];
    assert MapOf(qs[..2]) == map[a := 1, aa := 1];
    assert MapOf(qs) == map[a := 1, aa := 1, c := 1];
    assert a != b && aa != b && c != b;
  }

  /** As written, `remove("b")` on the sample reports success and leaves the
      tree `Broken()`: the pairs are right, but the path through `a` has two
      black nodes and the path to the right of `c` only one. */
  lemma AsWrittenRemoveBreaksBlackHeight()
    ensures var (st, removed) := RemoveArena(State(Sample(), 1), b);
      removed && st.root == 3 && Linked([], Broken(), st.h, st.root)
      && Contents(Broken()) == Contents(SampleTree()) - {b}
      && !Balanced(Broken())
  {
    SampleIsRedBlack();
    AsWrittenRemoveRun();
    AfterRemoveHolds();
  }
}
