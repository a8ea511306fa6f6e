/** What the two `Dictionary` classes keep: a count for every normalized
    word. Both classes are proved to change their counts exactly as these
    functions say. */
module WordCounts {
  import opened Bytes
  import opened Text

  type Counts = map<seq<byte>, int>

  /** `addWord(raw)`: nothing for an empty word; otherwise the count of the
      normalized word goes up by one, a new word starting at one. */
  function AddWord(m: Counts, raw: seq<byte>): Counts {
    if |raw| == 0 then m else Bump(m, Lower(raw))
  }

  /** One more occurrence of the key `w`. */
  function Bump(m: Counts, w: seq<byte>): Counts {
    m[w := if w in m then m[w] + 1 else 1]
  }

  /** The `addWord` calls of `loadFromFile`, one per word, in order. */
  function AddWords(m: Counts, ws: seq<seq<byte>>): Counts
    decreases |ws|
  {
    if |ws| == 0 then m else AddWord(AddWords(m, ws[..|ws| - 1]), ws[|ws| - 1])
  }

  lemma BumpPresent(m: Counts, w: seq<byte>)
    requires w in m
    ensures Bump(m, w) == m[w := m[w] + 1]
  {
  }

  lemma BumpAbsent(m: Counts, w: seq<byte>)
    requires w !in m
    ensures Bump(m, w) == m[w := 1]
  {
  }

  /** How many of `ws` are non-empty and normalize to `w`. */
  function Occurrences(ws: seq<seq<byte>>, w: seq<byte>): nat
    decreases |ws|
  {
    if |ws| == 0 then 0
    else
      var x := ws[|ws| - 1];
      Occurrences(ws[..|ws| - 1], w) + if |x| > 0 && Lower(x) == w then 1 else 0
  }

  /** Every key is a non-empty word in normal form with a positive count. */
  ghost predicate WellFormed(m: Counts) {
    forall k :: k in m ==> |k| > 0 && Lower(k) == k && m[k] >= 1
  }

  /** Adding a word keeps the counts well formed. */
  lemma AddWordWellFormed(m: Counts, raw: seq<byte>)
    requires WellFormed(m)
    ensures WellFormed(AddWord(m, raw))
  {
    if |raw| > 0 {
      LowerLength(raw);
      LowerIdempotent(raw);
    }
  }

  /** After loading `ws` into `m`, a word's count is its count in `m` plus
      the number of its occurrences in `ws`, and a word is present exactly
      when it was present or occurs. */
  lemma {:induction false} AddWordsCount(m: Counts, ws: seq<seq<byte>>, w: seq<byte>)
    ensures w in AddWords(m, ws) <==> w in m || Occurrences(ws, w) > 0
    ensures w in AddWords(m, ws) ==> AddWords(m, ws)[w] == (if w in m then m[w] else 0) + Occurrences(ws, w)
    decreases |ws|
  {
    if |ws| > 0 {
      AddWordsCount(m, ws[..|ws| - 1], w);
    }
  }

  /** Loading keeps the counts well formed. */
  lemma {:induction false} AddWordsWellFormed(m: Counts, ws: seq<seq<byte>>)
    requires WellFormed(m)
    ensures WellFormed(AddWords(m, ws))
    decreases |ws|
  {
    if |ws| > 0 {
      AddWordsWellFormed(m, ws[..|ws| - 1]);
      AddWordWellFormed(AddWords(m, ws[..|ws| - 1]), ws[|ws| - 1]);
    }
  }

  /** One more word of `ws`. */
  lemma AddWordsPrefix(m: Counts, ws: seq<seq<byte>>, i: nat)
    requires i < |ws|
    ensures AddWords(m, ws[..i + 1]) == AddWord(AddWords(m, ws[..i]), ws[i])
  {
    assert ws[..i + 1][..i] == ws[..i];
  }
}
