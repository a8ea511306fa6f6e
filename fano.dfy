/** `encodeFano` and `decodeFano`: a text becomes the concatenation of its
    symbols' codes, and a bit string is read back by greedy matching against
    the table turned round. How the codes are computed (`buildFanoCodes`,
    with floating-point split thresholds) is not part of this model: the
    table is a parameter, and the round trip is proved for every table whose
    codes are prefix-free. */
module Fano {
  import opened Bytes
  import opened Wrappers

  /** A `std::map<char, std::string>` as the sequence of its entries in the
      map's key order; each key appears at most once. */
  type CodeTable = seq<(byte, seq<byte>)>

  /** `codes.find(c)`. */
  function Find(codes: CodeTable, c: byte): (r: Option<seq<byte>>)
    ensures r.Some? <==> exists i :: 0 <= i < |codes| && codes[i].0 == c
    ensures r.Some? ==> exists i :: 0 <= i < |codes| && codes[i] == (c, r.value)
    decreases |codes|
  {
    if |codes| == 0 then None
    else if codes[|codes| - 1].0 == c then Some(codes[|codes| - 1].1)
    else
      var r := Find(codes[..|codes| - 1], c);
      assert forall i :: 0 <= i < |codes| - 1 ==> codes[..|codes| - 1][i] == codes[i];
      r
  }

  /** What `encodeFano(text, codes)` returns: the codes of the symbols of
      `text` in order, a symbol without a code contributing nothing (the
      source warns on standard error and goes on). */
  function Encoded(text: seq<byte>, codes: CodeTable): seq<byte>
    decreases |text|
  {
    if |text| == 0 then []
    else Encoded(text[..|text| - 1], codes) + CodeOf(codes, text[|text| - 1])
  }

  /** The bits `encodeFano` writes for one symbol. */
  function CodeOf(codes: CodeTable, c: byte): seq<byte> {
    match Find(codes, c)
    case Some(w) => w
    case None => []
  }

  /** The loop of `encodeFano`. */
  method EncodeFano(text: seq<byte>, codes: CodeTable) returns (bits: seq<byte>)
    ensures bits == Encoded(text, codes)
  {
    bits := [];
    if |text| == 0 || |codes| == 0 {
      NoCodesEncodeEmpty(text, codes);
      return;
    }
    var i := 0;
    while i < |text|
      invariant i <= |text| && bits == Encoded(text[..i], codes)
    {
      assert text[..i + 1][..i] == text[..i];
      var it := Find(codes, text[i]);
      if it.Some? {
        bits := bits + it.value;
      }
      i := i + 1;
    }
    assert text[..i] == text;
  }

  /** With an empty table nothing is written. */
  lemma {:induction false} NoCodesEncodeEmpty(text: seq<byte>, codes: CodeTable)
    requires |text| == 0 || |codes| == 0
    ensures Encoded(text, codes) == []
    decreases |text|
  {
    if |text| > 0 {
      NoCodesEncodeEmpty(text[..|text| - 1], codes);
    }
  }

  /** `reversedCodes` of `decodeFano`: every non-empty code mapped to its
      symbol, a later entry of the table overwriting an earlier one with the
      same code. */
  function Reversed(codes: CodeTable): (rev: map<seq<byte>, byte>)
    ensures forall w :: w in rev ==> |w| > 0
    decreases |codes|
  {
    if |codes| == 0 then map[]
    else
      var rev := Reversed(codes[..|codes| - 1]);
      var (c, w) := codes[|codes| - 1];
      if |w| > 0 then rev[w := c] else rev
  }

  /** The loop that builds `reversedCodes`. */
  method BuildReversed(codes: CodeTable) returns (rev: map<seq<byte>, byte>)
    ensures rev == Reversed(codes)
  {
    rev := map[];
    for i := 0 to |codes|
      invariant rev == Reversed(codes[..i])
    {
      assert codes[..i + 1][..i] == codes[..i];
      var (c, w) := codes[i];
      if |w| > 0 {
        rev := rev[w := c];
      }
    }
    assert codes[..|codes|] == codes;
  }

  /** The bit loop of `decodeFano` from a given state: each bit goes into the
      buffer, and as soon as the buffer is a code its symbol is written and
      the buffer emptied. The result is the text written and the bits left
      in the buffer (which the source reports on standard error). */
  function Run(rev: map<seq<byte>, byte>, out: seq<byte>, buf: seq<byte>, bits: seq<byte>): (seq<byte>, seq<byte>)
    decreases |bits|
  {
    if |bits| == 0 then (out, buf)
    else
      var b := buf + [bits[0]];
      if b in rev then Run(rev, out + [rev[b]], [], bits[1..])
      else Run(rev, out, b, bits[1..])
  }

  /** `decodeFano(bits, codes)`, returning also the bits left over. */
  method DecodeFano(bits: seq<byte>, codes: CodeTable) returns (decoded: seq<byte>, leftover: seq<byte>)
    ensures decoded == Run(Reversed(codes), [], [], bits).0
    ensures |codes| > 0 ==> leftover == Run(Reversed(codes), [], [], bits).1
  {
    decoded, leftover := [], [];
    if |bits| == 0 || |codes| == 0 {
      if |codes| == 0 {
        NoCodesDecodeEmpty([], [], bits);
      }
      return;
    }
    var rev := BuildReversed(codes);
    var i := 0;
    while i < |bits|
      invariant i <= |bits| && Run(rev, decoded, leftover, bits[i..]) == Run(rev, [], [], bits)
    {
      assert bits[i..][1..] == bits[i + 1..];
      leftover := leftover + [bits[i]];
      if leftover in rev {
        decoded := decoded + [rev[leftover]];
        leftover := [];
      }
      i := i + 1;
    }
  }

  /** With nothing in the table nothing is decoded. */
  lemma {:induction false} NoCodesDecodeEmpty(out: seq<byte>, buf: seq<byte>, bits: seq<byte>)
    ensures Run(map[], out, buf, bits).0 == out
    decreases |bits|
  {
    if |bits| > 0 {
      NoCodesDecodeEmpty(out, buf + [bits[0]], bits[1..]);
    }
  }

  /** Reading `a + b` is reading `a`, then `b` from where `a` left off. */
  lemma {:induction false} RunAppend(rev: map<seq<byte>, byte>, out: seq<byte>, buf: seq<byte>, a: seq<byte>, b: seq<byte>)
    ensures Run(rev, out, buf, a + b) == Run(rev, Run(rev, out, buf, a).0, Run(rev, out, buf, a).1, b)
    decreases |a|
  {
    if |a| > 0 {
      assert (a + b)[0] == a[0] && (a + b)[1..] == a[1..] + b;
      var x := buf + [a[0]];
      if x in rev {
        RunAppend(rev, out + [rev[x]], [], a[1..], b);
      } else {
        RunAppend(rev, out, x, a[1..], b);
      }
    } else {
      assert a + b == b;
    }
  }

  /** `p` is a prefix of `w` (possibly all of it). */
  predicate IsPrefix(p: seq<byte>, w: seq<byte>) {
    |p| <= |w| && w[..|p|] == p
  }

  /** No non-empty code of one entry is a prefix of the code of another:
      the property the codes of a Fano (Shannon–Fano) tree have. */
  ghost predicate PrefixFree(codes: CodeTable) {
    forall i, j :: 0 <= i < |codes| && 0 <= j < |codes| && i != j && |codes[i].1| > 0 && |codes[j].1| > 0 ==>
      !IsPrefix(codes[i].1, codes[j].1)
  }

  /** Every symbol of `text` has a non-empty code. */
  predicate Covers(codes: CodeTable, text: seq<byte>) {
    forall k :: 0 <= k < |text| ==> |CodeOf(codes, text[k])| > 0
  }

  /** The keys of `Reversed` are exactly the non-empty codes of the table. */
  lemma {:induction false} ReversedKeys(codes: CodeTable, w: seq<byte>)
    ensures w in Reversed(codes) <==> exists i :: 0 <= i < |codes| && codes[i].1 == w && |w| > 0
    decreases |codes|
  {
    if |codes| > 0 {
      var init := codes[..|codes| - 1];
      ReversedKeys(init, w);
      assert forall i :: 0 <= i < |init| ==> init[i] == codes[i];
      if w in Reversed(init) {
        var i :| 0 <= i < |init| && init[i].1 == w && |w| > 0;
        assert codes[i].1 == w;
      }
    }
  }

  /** In a prefix-free table a non-empty code reads back as its own symbol. */
  lemma {:induction false} ReversedValue(codes: CodeTable, i: nat)
    requires PrefixFree(codes) && i < |codes| && |codes[i].1| > 0
    ensures codes[i].1 in Reversed(codes) && Reversed(codes)[codes[i].1] == codes[i].0
    decreases |codes|
  {
    var init := codes[..|codes| - 1];
    assert forall a :: 0 <= a < |init| ==> init[a] == codes[a];
    if i < |codes| - 1 {
      assert PrefixFree(init) by {
        forall a, b | 0 <= a < |init| && 0 <= b < |init| && a != b && |init[a].1| > 0 && |init[b].1| > 0
          ensures !IsPrefix(init[a].1, init[b].1)
        {
          assert init[a] == codes[a] && init[b] == codes[b];
        }
      }
      ReversedValue(init, i);
      var last := codes[|codes| - 1];
      if |last.1| > 0 {
        assert !IsPrefix(last.1, codes[i].1);
        assert last.1 != codes[i].1;
      }
    }
  }

  /** In a prefix-free table no proper prefix of a code is a key of `Reversed`. */
  lemma NoShorterCode(codes: CodeTable, i: nat, p: seq<byte>)
    requires PrefixFree(codes) && i < |codes| && IsPrefix(p, codes[i].1) && |p| < |codes[i].1|
    ensures p !in Reversed(codes)
  {
    ReversedKeys(codes, p);
    forall j | 0 <= j < |codes| && |codes[j].1| > 0
      ensures codes[j].1 != p
    {
      if j != i {
        assert !IsPrefix(codes[j].1, codes[i].1);
      }
    }
  }

  /** Reading one code of a prefix-free table, from an empty buffer or from
      the first `k` bits of that code already buffered, writes its symbol and
      leaves the buffer empty. */
  lemma {:induction false} RunCode(codes: CodeTable, i: nat, out: seq<byte>, k: nat)
    requires PrefixFree(codes) && i < |codes| && 0 < |codes[i].1| && k < |codes[i].1|
    ensures var w := codes[i].1; Run(Reversed(codes), out, w[..k], w[k..]) == (out + [codes[i].0], [])
    decreases |codes[i].1| - k
  {
    var w := codes[i].1;
    var rev := Reversed(codes);
    var b := w[..k] + [w[k..][0]];
    assert b == w[..k + 1];
    assert w[k..][1..] == w[k + 1..];
    if k + 1 == |w| {
      assert b == w;
      ReversedValue(codes, i);
    } else {
      assert IsPrefix(b, w);
      NoShorterCode(codes, i, b);
      RunCode(codes, i, out, k + 1);
    }
  }

  /** Decoding undoes encoding, for every prefix-free table that gives each
      symbol of the text a non-empty code: nothing is left in the buffer. */
  lemma {:induction false} RoundTrip(text: seq<byte>, codes: CodeTable)
    requires PrefixFree(codes) && Covers(codes, text)
    ensures Run(Reversed(codes), [], [], Encoded(text, codes)) == (text, [])
    decreases |text|
  {
    if |text| > 0 {
      var init := text[..|text| - 1];
      assert Covers(codes, init) by {
        assert forall k :: 0 <= k < |init| ==> init[k] == text[k];
      }
      RoundTrip(init, codes);
      RoundTripStep(init, text[|text| - 1], codes);
      assert init + [text[|text| - 1]] == text;
    }
  }

  /** The inductive step of `RoundTrip`: one more symbol with a code. */
  lemma RoundTripStep(init: seq<byte>, c: byte, codes: CodeTable)
    requires PrefixFree(codes) && |CodeOf(codes, c)| > 0
    requires Run(Reversed(codes), [], [], Encoded(init, codes)) == (init, [])
    ensures Run(Reversed(codes), [], [], Encoded(init + [c], codes)) == (init + [c], [])
  {
    var w := CodeOf(codes, c);
    var j :| 0 <= j < |codes| && codes[j] == (c, w);
    assert (init + [c])[..|init|] == init;
    assert Encoded(init + [c], codes) == Encoded(init, codes) + w;
    RunAppend(Reversed(codes), [], [], Encoded(init, codes), w);
    RunCode(codes, j, init, 0);
    assert w[..0] == [] && w[0..] == w;
  }
}
