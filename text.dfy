/** The two text helpers both dictionaries share, on bytes:
    `normalizeWordToLower`, which lower-cases ASCII and the two-byte UTF-8
    capitals of the Russian alphabet, and `processTextToWords`, which cuts a
    text into words at white space and punctuation (C locale). */
module Text {
  import opened Bytes

  // ---------------------------------------------------------------------------
  // normalizeWordToLower

  /** The two bytes that a lead byte 0xD0 followed by `b2` becomes:
      А..П (D0 90..9F) become а..п (D0 B0..BF), Р..Я (D0 A0..AF) become
      р..я (D1 80..8F), Ё (D0 81) becomes ё (D1 91), any other pair stays. */
  function LowerPair(b2: byte): seq<byte> {
    if 0x90 <= b2 <= 0x9F then [0xD0, b2 + 0x20]
    else if 0xA0 <= b2 <= 0xAF then [0xD1, b2 - 0x20]
    else if b2 == 0x81 then [0xD1, 0x91]
    else [0xD0, b2]
  }

  /** `normalizeWordToLower(s)`: A..Z become a..z, a lead byte 0xD0 with a
      byte after it becomes `LowerPair` of that byte (both are consumed),
      every other byte is copied. */
  function Lower(s: seq<byte>): seq<byte>
    decreases |s|
  {
    if |s| == 0 then []
    else if 0x41 <= s[0] <= 0x5A then [s[0] + 0x20] + Lower(s[1..])
    else if s[0] == 0xD0 && |s| > 1 then LowerPair(s[1]) + Lower(s[2..])
    else [s[0]] + Lower(s[1..])
  }

  /** The loop of `normalizeWordToLower`. */
  method NormalizeWordToLower(input: seq<byte>) returns (result: seq<byte>)
    ensures result == Lower(input)
  {
    result := [];
    var i := 0;
    while i < |input|
      invariant i <= |input| && result + Lower(input[i..]) == Lower(input)
      decreases |input| - i
    {
      ghost var before, i0 := result, i;
      LowerAdvance(input, i, result);
      var b1 := input[i];
      if 0x41 <= b1 <= 0x5A {
        result := result + [b1 + 0x20];
      } else if b1 == 0xD0 {
        if i + 1 < |input| {
          var b2 := input[i + 1];
          if 0x90 <= b2 <= 0x9F {
            result := result + [0xD0, b2 + 0x20];
          } else if 0xA0 <= b2 <= 0xAF {
            result := result + [0xD1, b2 - 0x20];
          } else if b2 == 0x81 {
            result := result + [0xD1, 0x91];
          } else {
            result := result + [b1, b2];
          }
          i := i + 1;
        } else {
          result := result + [b1];
        }
      } else {
        result := result + [b1];
      }
      i := i + 1;
      assert result == before + LowerStep(input, i0).0 && i == LowerStep(input, i0).1;
    }
  }

  /** `Lower` from position `i` on, one step: the byte at `i`, or the pair at
      `i` and `i + 1`, then the rest. */
  lemma LowerAt(s: seq<byte>, i: nat)
    requires i < |s|
    ensures Lower(s[i..]) ==
      if 0x41 <= s[i] <= 0x5A then [s[i] + 0x20] + Lower(s[i + 1..])
      else if s[i] == 0xD0 && i + 1 < |s| then LowerPair(s[i + 1]) + Lower(s[i + 2..])
      else [s[i]] + Lower(s[i + 1..])
  {
    assert s[i..][1..] == s[i + 1..];
    if i + 1 < |s| {
      assert s[i..][2..] == s[i + 2..];
    }
  }

  /** What one round of the loop of `normalizeWordToLower` at `i` appends,
      and where the next round starts. */
  function LowerStep(s: seq<byte>, i: nat): (seq<byte>, nat)
    requires i < |s|
  {
    if 0x41 <= s[i] <= 0x5A then ([s[i] + 0x20], i + 1)
    else if s[i] == 0xD0 && i + 1 < |s| then (LowerPair(s[i + 1]), i + 2)
    else ([s[i]], i + 1)
  }

  /** One round of that loop keeps `done + Lower(s[i..]) == Lower(s)`. */
  lemma LowerAdvance(s: seq<byte>, i: nat, done: seq<byte>)
    requires i < |s| && done + Lower(s[i..]) == Lower(s)
    ensures LowerStep(s, i).1 <= |s|
    ensures done + LowerStep(s, i).0 + Lower(s[LowerStep(s, i).1..]) == Lower(s)
  {
    LowerAt(s, i);
    var (piece, next) := LowerStep(s, i);
    Join(done, piece, Lower(s[next..]), Lower(s));
  }

  /** Moving a piece from the pending output to the output. */
  lemma Join(done: seq<byte>, piece: seq<byte>, rest: seq<byte>, whole: seq<byte>)
    requires done + (piece + rest) == whole
    ensures done + piece + rest == whole
  {
    assert done + (piece + rest) == done + piece + rest;
  }

  /** Normalizing keeps the length in bytes. */
  lemma {:induction false} LowerLength(s: seq<byte>)
    ensures |Lower(s)| == |s|
    decreases |s|
  {
    if |s| > 0 {
      if 0x41 <= s[0] <= 0x5A || !(s[0] == 0xD0 && |s| > 1) {
        LowerLength(s[1..]);
      } else {
        LowerLength(s[2..]);
      }
    }
  }

  /** A byte other than 0xD0 is normalized on its own: A..Z become a..z,
      every other byte is copied. */
  lemma LowerByte(b: byte, q: seq<byte>)
    requires b != 0xD0
    ensures Lower([b] + q) == (if 0x41 <= b <= 0x5A then [b + 0x20] else [b]) + Lower(q)
  {
    assert ([b] + q)[1..] == q;
  }

  /** A lead byte 0xD0 and the byte after it are normalized together; a 0xD0
      at the very end is copied. */
  lemma LowerLead(b2: byte, q: seq<byte>)
    ensures 0x90 <= b2 <= 0x9F ==> Lower([0xD0, b2] + q) == [0xD0, b2 + 0x20] + Lower(q)
    ensures 0xA0 <= b2 <= 0xAF ==> Lower([0xD0, b2] + q) == [0xD1, b2 - 0x20] + Lower(q)
    ensures b2 == 0x81 ==> Lower([0xD0, b2] + q) == [0xD1, 0x91] + Lower(q)
    ensures !(0x90 <= b2 <= 0xAF || b2 == 0x81) ==> Lower([0xD0, b2] + q) == [0xD0, b2] + Lower(q)
    ensures Lower([0xD0]) == [0xD0]
  {
    assert ([0xD0, b2] + q)[2..] == q;
    assert [0xD0 as byte][1..] == [];
  }

  /** Normalizing a normalized word changes nothing, so a dictionary key is
      its own normal form. */
  lemma {:induction false} LowerIdempotent(s: seq<byte>)
    ensures Lower(Lower(s)) == Lower(s)
    decreases |s|
  {
    if |s| == 0 {
    } else if s[0] == 0xD0 && |s| > 1 {
      LowerIdempotent(s[2..]);
      PairIdempotent(s[1], Lower(s[2..]));
    } else if s[0] == 0xD0 {
      assert s[1..] == [];
      LowerLead(0, []);
    } else {
      LowerIdempotent(s[1..]);
      ByteIdempotent(s[0], Lower(s[1..]));
    }
  }

  /** The step of `LowerIdempotent` for a byte other than 0xD0. */
  lemma ByteIdempotent(b: byte, rest: seq<byte>)
    requires b != 0xD0 && Lower(rest) == rest
    ensures var c := if 0x41 <= b <= 0x5A then b + 0x20 else b;
      Lower([c] + rest) == [c] + rest
  {
    var c := if 0x41 <= b <= 0x5A then b + 0x20 else b;
    LowerByte(c, rest);
  }

  /** The step of `LowerIdempotent` for a lead byte 0xD0 and the byte after it. */
  lemma PairIdempotent(b2: byte, rest: seq<byte>)
    requires Lower(rest) == rest
    ensures Lower(LowerPair(b2) + rest) == LowerPair(b2) + rest
  {
    if 0x90 <= b2 <= 0x9F {
      LowerLead(b2 + 0x20, rest);
    } else if 0xA0 <= b2 <= 0xAF || b2 == 0x81 {
      var c := LowerPair(b2)[1];
      assert LowerPair(b2) + rest == [0xD1] + ([c] + rest);
      LowerByte(c, rest);
      LowerByte(0xD1, [c] + rest);
    } else {
      LowerLead(b2, rest);
    }
  }

  // ---------------------------------------------------------------------------
  // processTextToWords

  /** `isspace` in the C locale: tab, line feed, vertical tab, form feed,
      carriage return and space. */
  predicate IsSpace(c: byte) {
    9 <= c <= 13 || c == 32
  }

  /** `ispunct` in the C locale: the printable ASCII bytes that are neither
      letters, digits nor space. Bytes from 0x80 on are not punctuation. */
  predicate IsPunct(c: byte) {
    33 <= c <= 47 || 58 <= c <= 64 || 91 <= c <= 96 || 123 <= c <= 126
  }

  /** The bytes that end a word. */
  predicate IsBreak(c: byte) {
    IsSpace(c) || IsPunct(c)
  }

  /** The pieces of `s` between break bytes, empty pieces included: "a,,b"
      has the pieces "a", "" and "b". */
  function Pieces(s: seq<byte>): (r: seq<seq<byte>>)
    ensures |r| >= 1
    decreases |s|
  {
    if |s| == 0 then [[]]
    else
      var p := Pieces(s[..|s| - 1]);
      var c := s[|s| - 1];
      if IsBreak(c) then p + [[]] else p[..|p| - 1] + [p[|p| - 1] + [c]]
  }

  /** The non-empty ones of `ps`, in order. */
  function NonEmpty(ps: seq<seq<byte>>): seq<seq<byte>>
    decreases |ps|
  {
    if |ps| == 0 then []
    else NonEmpty(ps[..|ps| - 1]) + if |ps[|ps| - 1]| > 0 then [ps[|ps| - 1]] else []
  }

  /** `processTextToWords(s)`: the non-empty pieces. */
  function Words(s: seq<byte>): seq<seq<byte>> {
    NonEmpty(Pieces(s))
  }

  /** The break bytes of `s`, in order. */
  function Seps(s: seq<byte>): (r: seq<byte>)
    ensures forall j :: 0 <= j < |r| ==> IsBreak(r[j])
    decreases |s|
  {
    if |s| == 0 then [] else Seps(s[..|s| - 1]) + if IsBreak(s[|s| - 1]) then [s[|s| - 1]] else []
  }

  /** The pieces `ps` with the bytes `seps` between them:
      `ps[0] + [seps[0]] + ps[1] + ... + [seps[n - 1]] + ps[n]`. */
  function Interleave(ps: seq<seq<byte>>, seps: seq<byte>): seq<byte>
    requires |ps| == |seps| + 1
    decreases |seps|
  {
    if |seps| == 0 then ps[0]
    else Interleave(ps[..|seps|], seps[..|seps| - 1]) + [seps[|seps| - 1]] + ps[|seps|]
  }

  /** No byte of any piece is a break byte. */
  predicate BreakFree(ps: seq<seq<byte>>) {
    forall k, j :: 0 <= k < |ps| && 0 <= j < |ps[k]| ==> !IsBreak(ps[k][j])
  }

  /** The positions of the non-empty ones of `ps`, in increasing order. */
  function Positions(ps: seq<seq<byte>>): (r: seq<nat>)
    ensures forall j :: 0 <= j < |r| ==> r[j] < |ps|
    decreases |ps|
  {
    if |ps| == 0 then []
    else Positions(ps[..|ps| - 1]) + if |ps[|ps| - 1]| > 0 then [|ps| - 1] else []
  }

  /** The loop of `processTextToWords`: a break byte ends the current word,
      which is kept only if it is not empty; the last word is kept too. */
  method ProcessTextToWords(text: seq<byte>) returns (words: seq<seq<byte>>)
    ensures words == Words(text)
  {
    words := [];
    var current: seq<byte> := [];
    ghost var done: seq<seq<byte>> := [];
    var i := 0;
    while i < |text|
      invariant i <= |text| && Pieces(text[..i]) == done + [current] && words == NonEmpty(done)
      decreases |text| - i
    {
      var c := text[i];
      assert text[..i + 1] == text[..i] + [c];
      PiecesSnoc(text[..i], c, done, current);
      if IsBreak(c) {
        NonEmptySnoc(done, current);
        done := done + [current];
        if |current| > 0 {
          words := words + [current];
          current := [];
        }
      } else {
        current := current + [c];
      }
      i := i + 1;
    }
    assert text[..i] == text;
    NonEmptySnoc(done, current);
    if |current| > 0 {
      words := words + [current];
    }
  }

  /** One more byte: a break byte starts a new piece, any other byte extends
      the last one. */
  lemma PiecesSnoc(s: seq<byte>, c: byte, done: seq<seq<byte>>, last: seq<byte>)
    requires Pieces(s) == done + [last]
    ensures Pieces(s + [c]) == if IsBreak(c) then done + [last] + [[]] else done + [last + [c]]
  {
    var s' := s + [c];
    assert s'[..|s'| - 1] == s;
    var p := done + [last];
    assert p[..|p| - 1] == done;
  }

  /** One more piece. */
  lemma NonEmptySnoc(ps: seq<seq<byte>>, x: seq<byte>)
    ensures NonEmpty(ps + [x]) == NonEmpty(ps) + if |x| > 0 then [x] else []
  {
    assert (ps + [x])[..|ps|] == ps;
  }

  /** Extending the last piece extends the interleaving at its end. */
  lemma InterleaveExtend(ps: seq<seq<byte>>, seps: seq<byte>, x: seq<byte>)
    requires |ps| == |seps| + 1
    ensures var n := |seps|; Interleave(ps[..n] + [ps[n] + x], seps) == Interleave(ps, seps) + x
  {
    var n := |seps|;
    var qs := ps[..n] + [ps[n] + x];
    assert qs[..n] == ps[..n];
  }

  /** A break byte and an empty piece more extend the interleaving by that byte. */
  lemma InterleaveSnoc(ps: seq<seq<byte>>, seps: seq<byte>, c: byte)
    requires |ps| == |seps| + 1
    ensures Interleave(ps + [[]], seps + [c]) == Interleave(ps, seps) + [c]
  {
    var qs, ts := ps + [[]], seps + [c];
    assert qs[..|ts|] == ps && ts[..|ts| - 1] == seps;
  }

  /** One more byte, in terms of `Pieces` and `Seps`. */
  lemma PiecesSepsSnoc(s: seq<byte>, c: byte)
    ensures var p, n := Pieces(s), |Pieces(s)| - 1;
      Pieces(s + [c]) == (if IsBreak(c) then p + [[]] else p[..n] + [p[n] + [c]]) &&
      Seps(s + [c]) == Seps(s) + if IsBreak(c) then [c] else []
  {
    assert (s + [c])[..|s|] == s;
  }

  /** The pieces hold no break byte, there is one more piece than there are
      break bytes, and putting each break byte back between its two pieces
      gives the text again. */
  lemma {:induction false} PiecesSpec(s: seq<byte>)
    ensures BreakFree(Pieces(s))
    ensures |Pieces(s)| == |Seps(s)| + 1
    ensures Interleave(Pieces(s), Seps(s)) == s
    decreases |s|
  {
    if |s| > 0 {
      var s', c := s[..|s| - 1], s[|s| - 1];
      assert s == s' + [c];
      PiecesSpec(s');
      PiecesSepsSnoc(s', c);
      var p := Pieces(s');
      if IsBreak(c) {
        InterleaveSnoc(p, Seps(s'), c);
        BreakFreeSnoc(p, []);
      } else {
        InterleaveExtend(p, Seps(s'), [c]);
        BreakFreeExtend(p, c);
        assert Pieces(s) == p[..|Seps(s')|] + [p[|Seps(s')|] + [c]];
        assert Seps(s) == Seps(s');
        assert Interleave(p, Seps(s')) + [c] == s;
      }
    }
  }

  /** A break-free piece more keeps the pieces break-free. */
  lemma BreakFreeSnoc(ps: seq<seq<byte>>, x: seq<byte>)
    requires BreakFree(ps) && forall j :: 0 <= j < |x| ==> !IsBreak(x[j])
    ensures BreakFree(ps + [x])
  {
    var qs := ps + [x];
    assert forall k :: 0 <= k < |ps| ==> qs[k] == ps[k];
  }

  /** A non-break byte at the end of the last piece keeps the pieces break-free. */
  lemma BreakFreeExtend(ps: seq<seq<byte>>, c: byte)
    requires |ps| > 0 && BreakFree(ps) && !IsBreak(c)
    ensures var n := |ps| - 1; BreakFree(ps[..n] + [ps[n] + [c]])
  {
    var n := |ps| - 1;
    var qs := ps[..n] + [ps[n] + [c]];
    assert forall k :: 0 <= k < n ==> qs[k] == ps[k];
    assert forall j :: 0 <= j < |ps[n]| ==> qs[n][j] == ps[n][j];
  }

  /** Dropping the last piece, or the last byte of the last piece, keeps the
      pieces break-free. */
  lemma BreakFreeShrink(ps: seq<seq<byte>>)
    requires |ps| > 0 && BreakFree(ps)
    ensures var n := |ps| - 1; BreakFree(ps[..n])
    ensures var n := |ps| - 1; |ps[n]| > 0 ==> BreakFree(ps[..n] + [ps[n][..|ps[n]| - 1]])
    ensures var n := |ps| - 1; |ps[n]| > 0 ==> !IsBreak(ps[n][|ps[n]| - 1])
  {
    var n := |ps| - 1;
    assert forall k :: 0 <= k < n ==> ps[..n][k] == ps[k];
    if |ps[n]| > 0 {
      var qs := ps[..n] + [ps[n][..|ps[n]| - 1]];
      assert forall k :: 0 <= k < n ==> qs[k] == ps[k];
      assert forall j :: 0 <= j < |qs[n]| ==> qs[n][j] == ps[n][j];
    }
  }

  /** `PiecesSpec` determines the pieces: any break-free pieces that
      interleave with break bytes to `s` are `Pieces(s)`, and those bytes
      are `Seps(s)`. */
  lemma {:induction false} PiecesUnique(ps: seq<seq<byte>>, seps: seq<byte>)
    requires |ps| == |seps| + 1 && BreakFree(ps)
    requires forall j :: 0 <= j < |seps| ==> IsBreak(seps[j])
    ensures Pieces(Interleave(ps, seps)) == ps && Seps(Interleave(ps, seps)) == seps
    decreases |Interleave(ps, seps)|
  {
    var n := |seps|;
    BreakFreeShrink(ps);
    if |ps[n]| > 0 {
      var x := ps[n];
      var c := x[|x| - 1];
      var ps' := ps[..n] + [x[..|x| - 1]];
      assert ps'[..n] + [ps'[n] + [c]] == ps by {
        assert x[..|x| - 1] + [c] == x;
      }
      InterleaveExtend(ps', seps, [c]);
      PiecesUnique(ps', seps);
      PiecesSepsSnoc(Interleave(ps', seps), c);
    } else if n > 0 {
      var ps', seps' := ps[..n], seps[..n - 1];
      assert ps == ps' + [[]] && seps == seps' + [seps[n - 1]];
      InterleaveSnoc(ps', seps', seps[n - 1]);
      PiecesUnique(ps', seps');
      PiecesSepsSnoc(Interleave(ps', seps'), seps[n - 1]);
    } else {
      assert ps == [[]];
    }
  }

  /** One more piece, in terms of `Positions`. */
  lemma PositionsSnoc(ps: seq<seq<byte>>, x: seq<byte>)
    ensures Positions(ps + [x]) == Positions(ps) + if |x| > 0 then [|ps|] else []
  {
    assert (ps + [x])[..|ps|] == ps;
  }

  /** The positions increase. */
  lemma {:induction false} PositionsIncrease(ps: seq<seq<byte>>)
    ensures forall j1, j2 :: 0 <= j1 < j2 < |Positions(ps)| ==> Positions(ps)[j1] < Positions(ps)[j2]
    decreases |ps|
  {
    if |ps| > 0 {
      var n := |ps| - 1;
      var init := ps[..n];
      PositionsIncrease(init);
      assert ps == init + [ps[n]];
      PositionsSnoc(init, ps[n]);
    }
  }

  /** The positions are exactly those of the non-empty pieces. */
  lemma {:induction false} PositionsExact(ps: seq<seq<byte>>)
    ensures forall k :: 0 <= k < |ps| ==> (|ps[k]| > 0 <==> k in Positions(ps))
    decreases |ps|
  {
    if |ps| > 0 {
      var n := |ps| - 1;
      var init := ps[..n];
      PositionsExact(init);
      assert ps == init + [ps[n]];
      PositionsSnoc(init, ps[n]);
      forall k | 0 <= k < |ps|
        ensures |ps[k]| > 0 <==> k in Positions(ps)
      {
        if k < n {
          assert init[k] == ps[k];
        }
      }
    }
  }

  /** The kept pieces are exactly the non-empty ones, in order: the `j`-th
      kept piece is the piece at the `j`-th position of a non-empty one. */
  lemma {:induction false} NonEmptySpec(ps: seq<seq<byte>>)
    ensures |NonEmpty(ps)| == |Positions(ps)|
    ensures forall j :: 0 <= j < |NonEmpty(ps)| ==> NonEmpty(ps)[j] == ps[Positions(ps)[j]]
    decreases |ps|
  {
    if |ps| > 0 {
      var n := |ps| - 1;
      var init := ps[..n];
      NonEmptySpec(init);
      assert ps == init + [ps[n]];
      PositionsSnoc(init, ps[n]);
      NonEmptySnoc(init, ps[n]);
      assert forall k :: 0 <= k < n ==> init[k] == ps[k];
    }
  }

  /** `processTextToWords(s)` keeps, in order, the pieces of `s` at the
      positions of the non-empty ones (`PiecesSpec` and `PiecesUnique` fix
      the pieces, `PositionsExact` and `PositionsIncrease` the positions);
      so every word is non-empty and holds no break byte. */
  lemma WordsSpec(s: seq<byte>)
    ensures |Words(s)| == |Positions(Pieces(s))|
    ensures forall j :: 0 <= j < |Words(s)| ==> Words(s)[j] == Pieces(s)[Positions(Pieces(s))[j]]
    ensures forall w :: w in Words(s) ==> |w| > 0 && forall j :: 0 <= j < |w| ==> !IsBreak(w[j])
  {
    var ps := Pieces(s);
    PiecesSpec(s);
    NonEmptySpec(ps);
    PositionsExact(ps);
    forall w | w in Words(s)
      ensures |w| > 0 && forall j :: 0 <= j < |w| ==> !IsBreak(w[j])
    {
      var i :| 0 <= i < |Words(s)| && Words(s)[i] == w;
      var k := Positions(ps)[i];
      assert w == ps[k];
      assert k in Positions(ps);
    }
  }
}
