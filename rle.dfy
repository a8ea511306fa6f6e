/** `RLE::advancedRleEncode` and `RLE::advancedRleDecode`: a byte-level
    run-length codec. A run of at least `MIN_RUN_LENGTH` equal bytes becomes
    `count#c`; a stretch of bytes with no such run becomes `-len#bytes`.
    Numbers are decimal as `std::to_string` writes them and are read back as
    `std::stoi` reads them. */
module Rle {
  import opened Bytes
  import opened Wrappers

  const MIN_RUN_LENGTH: nat := 3
  /** `'#'` */
  const SEPARATOR: byte := 35
  /** `'-'` */
  const DASH: byte := 45
  /** `INT_MAX` for a 32-bit `int`, the largest count `std::stoi` returns. */
  const INT_MAX: nat := 0x7fff_ffff

  /** `std::isdigit` in the "C" locale. */
  predicate IsDigit(c: byte) {
    48 <= c <= 57
  }

  /** The decoder's exceptions, one per `throw` in `advancedRleDecode`. */
  datatype RleError =
    | DashWithoutDigit     // '-' at the end or not followed by a digit
    | BadStart             // a token starts with neither '-' nor a digit
    | MissingSeparator     // no '#' after the number
    | NumberMissing        // empty number
    | OutOfRange           // `std::stoi` overflows `int`
    | NonPositive          // count or length <= 0
    | ShortLiteral         // fewer bytes left than the literal's length
    | MissingRepeatChar    // nothing after `count#`

  // ---------------------------------------------------------------------------
  // Numbers

  /** `std::to_string(n)`: decimal digits, no leading zero. */
  function Digits(n: nat): seq<byte>
    decreases n
  {
    if n < 10 then [(48 + n) as byte] else Digits(n / 10) + [(48 + n % 10) as byte]
  }

  /** The number a string of decimal digits denotes. */
  function Value(ds: seq<byte>): nat
    decreases |ds|
  {
    if |ds| == 0 then 0
    else Value(ds[..|ds| - 1]) * 10 + (if IsDigit(ds[|ds| - 1]) then ds[|ds| - 1] as nat - 48 else 0)
  }

  /** `std::to_string` followed by `std::stoi` gives the number back. */
  lemma {:induction false} DigitsValue(n: nat)
    ensures |Digits(n)| >= 1 && (forall i :: 0 <= i < |Digits(n)| ==> IsDigit(Digits(n)[i]))
    ensures Value(Digits(n)) == n
    decreases n
  {
    if n >= 10 {
      DigitsValue(n / 10);
      var ds := Digits(n);
      assert ds[..|ds| - 1] == Digits(n / 10);
    }
  }

  /** Number of leading decimal digits. */
  function DigitRun(s: seq<byte>): (j: nat)
    ensures j <= |s|
    decreases |s|
  {
    if |s| == 0 || !IsDigit(s[0]) then 0 else 1 + DigitRun(s[1..])
  }

  /** `DigitRun` counts digits and stops at the first non-digit or the end. */
  lemma {:induction false} DigitRunSpec(s: seq<byte>)
    ensures (forall i :: 0 <= i < DigitRun(s) ==> IsDigit(s[i]))
    ensures DigitRun(s) == |s| || !IsDigit(s[DigitRun(s)])
    decreases |s|
  {
    if |s| > 0 && IsDigit(s[0]) {
      DigitRunSpec(s[1..]);
    }
  }

  /** The leading digit run is the only prefix of digits followed by a
      non-digit or the end. */
  lemma {:induction false} DigitRunUnique(s: seq<byte>, j: nat)
    requires j <= |s| && (forall i :: 0 <= i < j ==> IsDigit(s[i])) && (j == |s| || !IsDigit(s[j]))
    ensures DigitRun(s) == j
    decreases j
  {
    if j > 0 {
      DigitRunUnique(s[1..], j - 1);
    }
  }

  // ---------------------------------------------------------------------------
  // Encoding

  /** Length of the run of equal bytes that starts at `s[i]`. */
  function RunLength(s: seq<byte>, i: nat): (n: nat)
    requires i < |s|
    ensures 1 <= n <= |s| - i
    decreases |s| - i
  {
    if i + 1 < |s| && s[i + 1] == s[i] then 1 + RunLength(s, i + 1) else 1
  }

  /** `RunLength` is the length of the maximal run of `s[i]` from `i` on. */
  lemma {:induction false} RunLengthSpec(s: seq<byte>, i: nat)
    requires i < |s|
    ensures forall m :: i <= m < i + RunLength(s, i) ==> s[m] == s[i]
    ensures i + RunLength(s, i) == |s| || s[i + RunLength(s, i)] != s[i]
    decreases |s| - i
  {
    if i + 1 < |s| && s[i + 1] == s[i] {
      RunLengthSpec(s, i + 1);
    }
  }

  /** A run that ends where the bytes change is the run `RunLength` finds. */
  lemma {:induction false} RunLengthUnique(s: seq<byte>, i: nat, n: nat)
    requires 1 <= n <= |s| - i
    requires (forall m :: i <= m < i + n ==> s[m] == s[i]) && (i + n == |s| || s[i + n] != s[i])
    ensures RunLength(s, i) == n
    decreases n
  {
    if n > 1 {
      RunLengthUnique(s, i + 1, n - 1);
    }
  }

  /** Where the literal stretch that reaches `k` ends: the first run start at or
      after `k` whose run is long enough, or the end of `s`. */
  function LiteralEnd(s: seq<byte>, k: nat): (e: nat)
    requires k <= |s|
    ensures k <= e <= |s|
    decreases |s| - k
  {
    if k == |s| || RunLength(s, k) >= MIN_RUN_LENGTH then k else LiteralEnd(s, k + RunLength(s, k))
  }

  /** One step of `LiteralEnd`, unfolded. */
  lemma LiteralEndStep(s: seq<byte>, k: nat)
    requires k <= |s|
    ensures k == |s| || RunLength(s, k) >= MIN_RUN_LENGTH ==> LiteralEnd(s, k) == k
    ensures k < |s| && RunLength(s, k) < MIN_RUN_LENGTH ==> LiteralEnd(s, k) == LiteralEnd(s, k + RunLength(s, k))
  {
  }

  /** A literal stretch stops only at the end of the input or where a long run
      starts, and every run it skips is short. */
  lemma {:induction false} LiteralEndSpec(s: seq<byte>, k: nat)
    requires k <= |s|
    ensures LiteralEnd(s, k) == |s| || RunLength(s, LiteralEnd(s, k)) >= MIN_RUN_LENGTH
    decreases |s| - k
  {
    if !(k == |s| || RunLength(s, k) >= MIN_RUN_LENGTH) {
      LiteralEndSpec(s, k + RunLength(s, k));
    }
  }

  /** The token `advancedRleEncode` writes for the bytes from `i` on, and where
      the next token starts: `count#c` for a long run, `-len#bytes` otherwise. */
  function EncodeToken(s: seq<byte>, i: nat): (t: (seq<byte>, nat))
    requires i < |s|
    ensures i < t.1 <= |s|
  {
    var r := RunLength(s, i);
    if r >= MIN_RUN_LENGTH then (Digits(r) + [SEPARATOR, s[i]], i + r)
    else
      var k := LiteralEnd(s, i + r);
      ([DASH] + Digits(k - i) + [SEPARATOR] + s[i..k], k)
  }

  /** What `advancedRleEncode` writes for the bytes of `s` from `i` on. */
  function EncodeFrom(s: seq<byte>, i: nat): seq<byte>
    requires i <= |s|
    decreases |s| - i
  {
    if i == |s| then [] else EncodeToken(s, i).0 + EncodeFrom(s, EncodeToken(s, i).1)
  }

  /** What `advancedRleEncode` returns for `s`. */
  function Encode(s: seq<byte>): seq<byte> {
    EncodeFrom(s, 0)
  }

  /** The scan `advancedRleEncode` does twice: how many bytes from `i` on equal
      `input[i]`. */
  method ScanRun(input: seq<byte>, i: nat) returns (count: nat)
    requires i < |input|
    ensures count == RunLength(input, i)
  {
    var c := input[i];
    count := 1;
    var t := i + 1;
    while t < |input| && input[t] == c
      invariant i < t <= |input| && count == t - i && forall m :: i <= m < t ==> input[m] == c
      decreases |input| - t
    {
      count := count + 1;
      t := t + 1;
    }
    RunLengthUnique(input, i, count);
  }

  /** The literal loop of `advancedRleEncode`: from `i`, whose run of `count`
      bytes is short, skip runs until one is long enough or the input ends. */
  method ScanLiteral(input: seq<byte>, i: nat, count: nat) returns (k: nat)
    requires i < |input| && count == RunLength(input, i) && count < MIN_RUN_LENGTH
    ensures k == LiteralEnd(input, i + count)
  {
    k := i;
    while k < |input|
      invariant i <= k <= |input|
      invariant k == i || LiteralEnd(input, k) == LiteralEnd(input, i + count)
      decreases |input| - k
    {
      var ahead := ScanRun(input, k);
      if ahead >= MIN_RUN_LENGTH {
        assert k != i;
        LiteralEndStep(input, k);
        return;
      }
      LiteralEndStep(input, k);
      k := k + ahead;
    }
    LiteralEndStep(input, k);
  }

  /** `advancedRleEncode`. */
  method AdvancedRleEncode(input: seq<byte>) returns (out: seq<byte>)
    ensures out == Encode(input)
  {
    if |input| == 0 {
      return [];
    }
    out := [];
    var i := 0;
    var n := |input|;
    while i < n
      invariant 0 <= i <= n && out + EncodeFrom(input, i) == Encode(input)
      decreases n - i
    {
      ghost var i0 := i;
      ghost var tok := EncodeToken(input, i);
      ghost var out0 := out;
      var current := input[i];
      var count := ScanRun(input, i);
      var piece: seq<byte> := [];
      if count >= MIN_RUN_LENGTH {
        piece := Digits(count) + [SEPARATOR, current];
        i := i + count;
      } else {
        var literalStart := i;
        var k := ScanLiteral(input, i, count);
        var literalLength := k - literalStart;
        if literalLength > 0 {
          piece := [DASH] + Digits(literalLength) + [SEPARATOR] + input[literalStart..literalStart + literalLength];
        }
        i := k;
      }
      assert piece == tok.0 && i == tok.1;
      EncodeStep(input, i0, out0);
      out := out + piece;
    }
  }

  /** Unfolding `EncodeFrom` once, behind what is already written. */
  lemma EncodeStep(s: seq<byte>, i: nat, out: seq<byte>)
    requires i < |s|
    ensures out + EncodeFrom(s, i) == out + EncodeToken(s, i).0 + EncodeFrom(s, EncodeToken(s, i).1)
  {
  }

  // ---------------------------------------------------------------------------
  // Decoding

  /** `n` copies of `c`. */
  function Repeat(c: byte, n: nat): (r: seq<byte>)
    ensures |r| == n
  {
    if n == 0 then [] else Repeat(c, n - 1) + [c]
  }

  /** Every byte of `Repeat(c, n)` is `c`. */
  lemma {:induction false} RepeatSpec(c: byte, n: nat)
    ensures forall i :: 0 <= i < n ==> Repeat(c, n)[i] == c
  {
    if n > 0 {
      RepeatSpec(c, n - 1);
    }
  }

  /** Puts decoded bytes in front of the decoding of the rest; an error stays. */
  function Prepend(p: seq<byte>, r: Result<seq<byte>, RleError>): Result<seq<byte>, RleError> {
    match r
    case Success(v) => Success(p + v)
    case Failure(e) => r
  }

  lemma PrependEmpty(r: Result<seq<byte>, RleError>)
    ensures Prepend([], r) == r
  {
    if r.Success? {
      assert [] + r.value == r.value;
    }
  }

  lemma PrependPrepend(p: seq<byte>, q: seq<byte>, r: Result<seq<byte>, RleError>)
    ensures Prepend(p, Prepend(q, r)) == Prepend(p + q, r)
  {
    if r.Success? {
      assert p + (q + r.value) == p + q + r.value;
    }
  }

  /** The first token of `e` as `advancedRleDecode`'s loop body reads it: the
      bytes it stands for and how many bytes of `e` it takes, or the exception. */
  function DecodeToken(e: seq<byte>): (r: Result<(seq<byte>, int), RleError>)
    requires |e| > 0
    ensures r.Success? ==> 0 < r.value.1 <= |e|
  {
    var neg := e[0] == DASH;
    if neg && (|e| < 2 || !IsDigit(e[1])) then Failure(DashWithoutDigit)
    else if !neg && !IsDigit(e[0]) then Failure(BadStart)
    else
      var body := if neg then e[1..] else e;
      var j := DigitRun(body);
      if j >= |body| || body[j] != SEPARATOR then Failure(MissingSeparator)
      else if j == 0 then Failure(NumberMissing)
      else
        var v := Value(body[..j]);
        if v > INT_MAX then Failure(OutOfRange)
        else if v == 0 then Failure(NonPositive)
        else
          var rest := body[j + 1..];
          if neg then
            if v > |rest| then Failure(ShortLiteral)
            else Success((rest[..v], 1 + j + 1 + v))
          else if |rest| == 0 then Failure(MissingRepeatChar)
          else Success((Repeat(rest[0], v), j + 2))
  }

  /** What `advancedRleDecode` returns for `e`, or the exception it throws. */
  function Decode(e: seq<byte>): Result<seq<byte>, RleError>
    decreases |e|
  {
    if |e| == 0 then Success([])
    else
      match DecodeToken(e)
      case Failure(err) => Failure(err)
      case Success(tok) => Prepend(tok.0, Decode(e[tok.1..]))
  }

  /** The number loop of `advancedRleDecode`: the digits from `i` on. */
  method ScanDigits(e: seq<byte>, i: nat) returns (j: nat, numStr: seq<byte>)
    requires i <= |e|
    ensures j == i + DigitRun(e[i..]) && numStr == e[i..j]
  {
    j := i;
    numStr := [];
    while j < |e| && IsDigit(e[j])
      invariant i <= j <= |e| && numStr == e[i..j] && forall m :: i <= m < j ==> IsDigit(e[m])
      decreases |e| - j
    {
      numStr := numStr + [e[j]];
      j := j + 1;
    }
    DigitRunUnique(e[i..], j - i);
  }

  /** The repeat loop of `advancedRleDecode`: `count` copies of `c`. */
  method RepeatByte(c: byte, count: nat) returns (run: seq<byte>)
    ensures run == Repeat(c, count)
  {
    run := [];
    var k := 0;
    while k < count
      invariant 0 <= k <= count && run == Repeat(c, k)
      decreases count - k
    {
      run := run + [c];
      k := k + 1;
    }
  }

  /** One round of `advancedRleDecode`'s loop, reading the token at `i0`. */
  method DecodeTokenAt(e: seq<byte>, i0: nat) returns (r: Result<(seq<byte>, int), RleError>)
    requires i0 < |e|
    ensures r == DecodeToken(e[i0..])
  {
    ghost var cur := e[i0..];
    var n := |e|;
    var i := i0;
    var neg := false;
    if e[i] == DASH {
      neg := true;
      i := i + 1;
      if i >= n || !IsDigit(e[i]) {
        return Failure(DashWithoutDigit);
      }
    } else if !IsDigit(e[i]) {
      return Failure(BadStart);
    }
    r := DecodeCountAt(e, i0, i, neg);
  }

  /** The rest of the round from the number at `ns` on (a dash at `i0` before
      it when `neg`): the number, the separator, then the literal bytes or
      the repeat run. */
  method DecodeCountAt(e: seq<byte>, i0: nat, ns: nat, neg: bool) returns (r: Result<(seq<byte>, int), RleError>)
    requires i0 < |e| && neg == (e[i0] == DASH) && ns == i0 + (if neg then 1 else 0)
    requires ns < |e| && IsDigit(e[ns])
    ensures r == DecodeToken(e[i0..])
  {
    assert e[ns..] == if neg then e[i0..][1..] else e[i0..];
    var n := |e|;
    var i, numStr := ScanDigits(e, ns);
    if i >= n || e[i] != SEPARATOR {
      return Failure(MissingSeparator);
    }
    i := i + 1;
    if |numStr| == 0 {
      return Failure(NumberMissing);
    }
    assert e[ns..][..i - 1 - ns] == numStr;
    var v := Value(numStr);
    if v > INT_MAX {
      return Failure(OutOfRange);
    }
    if v == 0 {
      return Failure(NonPositive);
    }
    assert e[ns..][i - ns..] == e[i..];
    if neg {
      if i + v > n {
        return Failure(ShortLiteral);
      }
      assert e[i..][..v] == e[i..i + v];
      return Success((e[i..i + v], i + v - i0));
    } else {
      if i >= n {
        return Failure(MissingRepeatChar);
      }
      var run := RepeatByte(e[i], v);
      return Success((run, i + 1 - i0));
    }
  }

  /** `advancedRleDecode`. */
  method AdvancedRleDecode(e: seq<byte>) returns (r: Result<seq<byte>, RleError>)
    ensures r == Decode(e)
  {
    if |e| == 0 {
      return Success([]);
    }
    var out: seq<byte> := [];
    var i := 0;
    var n := |e|;
    assert e[0..] == e;
    PrependEmpty(Decode(e));
    while i < n
      invariant 0 <= i <= n && Decode(e) == Prepend(out, Decode(e[i..]))
      decreases n - i
    {
      var tok := DecodeTokenAt(e, i);
      if tok.Failure? {
        assert Decode(e[i..]) == Failure(tok.error);
        return Failure(tok.error);
      }
      assert e[i..][tok.value.1..] == e[i + tok.value.1..];
      PrependPrepend(out, tok.value.0, Decode(e[i + tok.value.1..]));
      out := out + tok.value.0;
      i := i + tok.value.1;
    }
    assert e[n..] == [] && out + [] == out;
    r := Success(out);
  }

  // ---------------------------------------------------------------------------
  // Properties

  /** The digits of a number followed by a non-digit are read back as that
      number. */
  lemma ReadNumber(n: nat, tail: seq<byte>)
    requires |tail| > 0 && tail[0] == SEPARATOR
    ensures var b := Digits(n) + tail;
      DigitRun(b) == |Digits(n)| && b[|Digits(n)|] == SEPARATOR && Value(b[..|Digits(n)|]) == n
      && b[|Digits(n)| + 1..] == tail[1..] && IsDigit(b[0])
  {
    DigitsValue(n);
    var b := Digits(n) + tail;
    assert b[..|Digits(n)|] == Digits(n);
    DigitRunUnique(b, |Digits(n)|);
  }

  /** A `count#c` token decodes to `count` copies of `c`, followed by the
      decoding of what comes after it. */
  lemma DecodeRunToken(n: nat, c: byte, rest: seq<byte>)
    requires 0 < n <= INT_MAX
    ensures Decode(Digits(n) + [SEPARATOR, c] + rest) == Prepend(Repeat(c, n), Decode(rest))
  {
    var tail := [SEPARATOR, c] + rest;
    var e := Digits(n) + tail;
    assert Digits(n) + [SEPARATOR, c] + rest == e;
    ReadNumber(n, tail);
    var j := |Digits(n)|;
    assert e[j + 1..][0] == c;
    assert DecodeToken(e) == Success((Repeat(c, n), j + 2));
    assert e[j + 2..] == rest;
  }

  /** A `-len#bytes` token decodes to its bytes, followed by the decoding of
      what comes after it. */
  lemma DecodeLiteralToken(lit: seq<byte>, rest: seq<byte>)
    requires 0 < |lit| <= INT_MAX
    ensures Decode([DASH] + Digits(|lit|) + [SEPARATOR] + lit + rest) == Prepend(lit, Decode(rest))
  {
    var tail := [SEPARATOR] + lit + rest;
    var body := Digits(|lit|) + tail;
    var e := [DASH] + body;
    assert [DASH] + Digits(|lit|) + [SEPARATOR] + lit + rest == e;
    ReadNumber(|lit|, tail);
    var j := |Digits(|lit|)|;
    assert e[1..] == body && e[1] == body[0];
    assert tail[1..] == lit + rest;
    assert (lit + rest)[..|lit|] == lit;
    LiteralTokenShape(e, j, |lit|);
    assert e[1 + j + 1 + |lit|..] == rest;
  }

  /** A `-len#bytes` token whose number reads as `v`. */
  lemma LiteralTokenShape(e: seq<byte>, j: nat, v: nat)
    requires |e| >= 2 && e[0] == DASH && IsDigit(e[1])
    requires var body := e[1..]; DigitRun(body) == j && j < |body| && body[j] == SEPARATOR && 0 < j
    requires var body := e[1..]; Value(body[..j]) == v && 0 < v <= INT_MAX && v <= |body| - j - 1
    ensures DecodeToken(e) == Success((e[1..][j + 1..][..v], 1 + j + 1 + v))
  {
  }

  /** The token for a long run. */
  lemma EncodeTokenRun(s: seq<byte>, i: nat)
    requires i < |s| && RunLength(s, i) >= MIN_RUN_LENGTH
    ensures var r := RunLength(s, i); EncodeToken(s, i) == (Digits(r) + [SEPARATOR, s[i]], i + r)
  {
  }

  /** The token for a literal stretch. */
  lemma EncodeTokenLiteral(s: seq<byte>, i: nat, k: nat)
    requires i < |s| && RunLength(s, i) < MIN_RUN_LENGTH && k == LiteralEnd(s, i + RunLength(s, i))
    ensures EncodeToken(s, i) == ([DASH] + Digits(k - i) + [SEPARATOR] + s[i..k], k)
  {
  }

  /** `EncodeFrom` writes the token at `i`, then goes on where it ends. */
  lemma EncodeUnfold(s: seq<byte>, i: nat)
    requires i < |s|
    ensures EncodeFrom(s, i) == EncodeToken(s, i).0 + EncodeFrom(s, EncodeToken(s, i).1)
  {
  }

  /** The encoding from a long run on. */
  lemma EncodeRun(s: seq<byte>, i: nat, r: nat)
    requires i < |s| && r == RunLength(s, i) && r >= MIN_RUN_LENGTH
    ensures EncodeFrom(s, i) == Digits(r) + [SEPARATOR, s[i]] + EncodeFrom(s, i + r)
  {
    EncodeTokenRun(s, i);
    EncodeUnfold(s, i);
  }

  /** The encoding from a literal stretch on. */
  lemma EncodeLiteral(s: seq<byte>, i: nat, k: nat)
    requires i < |s| && RunLength(s, i) < MIN_RUN_LENGTH && k == LiteralEnd(s, i + RunLength(s, i))
    ensures EncodeFrom(s, i) == [DASH] + Digits(k - i) + [SEPARATOR] + s[i..k] + EncodeFrom(s, k)
  {
    EncodeTokenLiteral(s, i, k);
    EncodeUnfold(s, i);
  }

  /** A run followed by what comes after it is the input from its start. */
  lemma RunJoin(s: seq<byte>, i: nat)
    requires i < |s|
    ensures var r := RunLength(s, i); Repeat(s[i], r) + s[i + r..] == s[i..]
  {
    RunLengthSpec(s, i);
    RepeatSpec(s[i], RunLength(s, i));
  }

  /** Two adjacent slices make the longer one. */
  lemma SliceJoin(s: seq<byte>, i: nat, k: nat)
    requires i <= k <= |s|
    ensures s[i..k] + s[k..] == s[i..]
  {
  }

  /** Decoding a `count#c` token and its tail, as one step. */
  lemma DecodeRunJoin(e: seq<byte>, tail: seq<byte>, c: byte, r: nat, after: seq<byte>, whole: seq<byte>)
    requires 0 < r <= INT_MAX && e == Digits(r) + [SEPARATOR, c] + tail
    requires Decode(tail) == Success(after) && Repeat(c, r) + after == whole
    ensures Decode(e) == Success(whole)
  {
    DecodeRunToken(r, c, tail);
  }

  /** Decoding a `-len#bytes` token and its tail, as one step. */
  lemma DecodeLiteralJoin(e: seq<byte>, tail: seq<byte>, lit: seq<byte>, after: seq<byte>, whole: seq<byte>)
    requires 0 < |lit| <= INT_MAX && e == [DASH] + Digits(|lit|) + [SEPARATOR] + lit + tail
    requires Decode(tail) == Success(after) && lit + after == whole
    ensures Decode(e) == Success(whole)
  {
    DecodeLiteralToken(lit, tail);
  }

  /** Decoding what `advancedRleEncode` writes from `i` on gives the input
      from `i` on. */
  ghost predicate RoundTripsFrom(s: seq<byte>, i: nat)
    requires i <= |s|
  {
    Decode(EncodeFrom(s, i)) == Success(s[i..])
  }

  /** The round trip of a `count#c` token at `i`, given that of the rest. */
  lemma RoundTripRun(s: seq<byte>, i: nat, r: nat)
    requires i < |s| <= INT_MAX && r == RunLength(s, i) && r >= MIN_RUN_LENGTH
    requires RoundTripsFrom(s, i + r)
    ensures RoundTripsFrom(s, i)
  {
    EncodeRun(s, i, r);
    RunJoin(s, i);
    DecodeRunJoin(EncodeFrom(s, i), EncodeFrom(s, i + r), s[i], r, s[i + r..], s[i..]);
  }

  /** The round trip of a `-len#bytes` token at `i`, given that of the rest. */
  lemma RoundTripLiteral(s: seq<byte>, i: nat, k: nat)
    requires i < |s| <= INT_MAX && RunLength(s, i) < MIN_RUN_LENGTH && k == LiteralEnd(s, i + RunLength(s, i))
    requires RoundTripsFrom(s, k)
    ensures RoundTripsFrom(s, i)
  {
    EncodeLiteral(s, i, k);
    SliceJoin(s, i, k);
    DecodeLiteralJoin(EncodeFrom(s, i), EncodeFrom(s, k), s[i..k], s[k..], s[i..]);
  }

  /** Decoding undoes encoding from any position on, for inputs whose runs and
      literals fit in an `int`. */
  lemma {:induction false} RoundTripFrom(s: seq<byte>, i: nat)
    requires i <= |s| <= INT_MAX
    ensures RoundTripsFrom(s, i)
    decreases |s| - i, 1
  {
    if i < |s| {
      var r := RunLength(s, i);
      if r >= MIN_RUN_LENGTH {
        RoundTripFromRun(s, i, r);
      } else {
        RoundTripFromLiteral(s, i, LiteralEnd(s, i + r));
      }
    } else {
      assert s[i..] == [];
    }
  }

  /** The inductive step of `RoundTripFrom` for a run at `i`. */
  lemma {:induction false} RoundTripFromRun(s: seq<byte>, i: nat, r: nat)
    requires i < |s| <= INT_MAX && r == RunLength(s, i) && r >= MIN_RUN_LENGTH
    ensures RoundTripsFrom(s, i)
    decreases |s| - i, 0
  {
    RoundTripFrom(s, i + r);
    RoundTripRun(s, i, r);
  }

  /** The inductive step of `RoundTripFrom` for a literal stretch at `i`. */
  lemma {:induction false} RoundTripFromLiteral(s: seq<byte>, i: nat, k: nat)
    requires i < |s| <= INT_MAX && RunLength(s, i) < MIN_RUN_LENGTH && k == LiteralEnd(s, i + RunLength(s, i))
    ensures RoundTripsFrom(s, i)
    decreases |s| - i, 0
  {
    RoundTripFrom(s, k);
    RoundTripLiteral(s, i, k);
  }

  /** Decoding undoes encoding, for inputs whose runs and literals fit in an
      `int` (the decoder rejects longer counts with `OutOfRange`). */
  lemma RoundTrip(s: seq<byte>)
    requires |s| <= INT_MAX
    ensures Decode(Encode(s)) == Success(s)
  {
    RoundTripFrom(s, 0);
    assert s[0..] == s;
  }

  /** The check for an empty number (main.cpp:1034) never fires: a token's
      number always starts with a digit. */
  lemma {:induction false} NumberNeverMissing(e: seq<byte>)
    ensures Decode(e) != Failure(NumberMissing)
    decreases |e|
  {
    if |e| > 0 {
      var neg := e[0] == DASH;
      var body := if neg then e[1..] else e;
      if DecodeToken(e).Success? {
        NumberNeverMissing(e[DecodeToken(e).value.1..]);
      } else if !(neg && (|e| < 2 || !IsDigit(e[1]))) && !(!neg && !IsDigit(e[0])) {
        assert IsDigit(body[0]);
      }
    }
  }

  /** Inputs the decoder rejects for their shape: a token that starts with
      neither `-` nor a digit ("x"), a `-` without a digit ("-x"), a number
      without `#` ("3a"). */
  lemma DecodeRejectsMalformed()
    ensures Decode([120]) == Failure(BadStart)
    ensures Decode([DASH, 120]) == Failure(DashWithoutDigit)
    ensures Decode([51, 97]) == Failure(MissingSeparator)
  {
    DigitRunUnique([51, 97], 1);
  }

  /** Inputs the decoder rejects for their numbers: a zero count ("0#a"), a
      literal longer than the rest ("-5#ab"), a run without its byte ("3#"). */
  lemma DecodeRejectsBadCounts()
    ensures Decode([48, SEPARATOR, 97]) == Failure(NonPositive)
    ensures Decode([DASH, 53, SEPARATOR, 97, 98]) == Failure(ShortLiteral)
    ensures Decode([51, SEPARATOR]) == Failure(MissingRepeatChar)
  {
    DigitRunUnique([48, SEPARATOR, 97], 1);
    DigitRunUnique([53, SEPARATOR, 97, 98], 1);
    DigitRunUnique([51, SEPARATOR], 1);
    assert [48, SEPARATOR, 97][..1] == [48] && [48][..0] == [];
    assert [53, SEPARATOR, 97, 98][..1] == [53];
    assert [51, SEPARATOR][..1] == [51];
  }

  /** A count one past `INT_MAX` ("2147483648#a") is out of range for
      `std::stoi`. */
  lemma DecodeRejectsOverflow()
    ensures Decode([50, 49, 52, 55, 52, 56, 51, 54, 52, 56, SEPARATOR, 97]) == Failure(OutOfRange)
  {
    var big: seq<byte> := [50, 49, 52, 55, 52, 56, 51, 54, 52, 56, SEPARATOR, 97];
    DigitRunUnique(big, 10);
    assert big[..10] == Digits(2147483648);
    DigitsValue(2147483648);
  }
}
