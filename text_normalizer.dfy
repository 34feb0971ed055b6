/**
 * `_nfkc` and `_clean_text` of note/utils/lyric_tokenizer.py: compatibility
 * normalisation followed by deletion of a fixed set of noise characters.
 * NFKC itself is Unicode-database work outside this model; it is passed in
 * as the function `nfkc`.
 */
module TextNormalizer {
  import opened Strings

  /** `NOISE_CHARS`: ? ？ 「 」 . - ！ ! ( （ ) ） … ・ */
  const NoiseChars: set<char> := {
    '?', '\U{FF1F}', '\U{300C}', '\U{300D}', '.', '-', '\U{FF01}', '!',
    '(', '\U{FF08}', ')', '\U{FF09}', '\U{2026}', '\U{30FB}'
  }

  predicate NoNoise(s: Str) {
    forall i :: 0 <= i < |s| ==> s[i] !in NoiseChars
  }

  /** `str.translate` with a table that maps every noise character to None. */
  function StripNoise(s: Str): (r: Str)
    ensures NoNoise(r)
    ensures |r| <= |s|
  {
    if s == [] then []
    else (if s[0] in NoiseChars then [] else [s[0]]) + StripNoise(s[1..])
  }

  /** Only noise is deleted: every other character keeps its number of
      occurrences. */
  lemma {:induction false} StripNoiseCounts(s: Str, c: char)
    requires c !in NoiseChars
    ensures multiset(StripNoise(s))[c] == multiset(s)[c]
    decreases |s|
  {
    if s != [] {
      StripNoiseCounts(s[1..], c);
      assert s == [s[0]] + s[1..];
    }
  }

  /** `_clean_text`: NFKC, then delete the noise characters (whitespace is
      not noise, so it is kept). */
  function CleanText(text: Str, nfkc: Str -> Str): (r: Str)
    ensures NoNoise(r)
    ensures forall c :: c !in NoiseChars ==> multiset(r)[c] == multiset(nfkc(text))[c]
  {
    forall c | c !in NoiseChars
      ensures multiset(StripNoise(nfkc(text)))[c] == multiset(nfkc(text))[c]
    {
      StripNoiseCounts(nfkc(text), c);
    }
    var t := nfkc(text);
    if NoiseChars != {} then StripNoise(t) else t
  }

  /** Deletion works character by character, in order. */
  lemma {:induction false} StripNoiseAppend(a: Str, b: Str)
    ensures StripNoise(a + b) == StripNoise(a) + StripNoise(b)
    decreases |a|
  {
    if a == [] {
      assert a + b == b;
    } else {
      assert (a + b)[1..] == a[1..] + b;
      StripNoiseAppend(a[1..], b);
    }
  }

  /** Text without noise is left exactly as it is. */
  lemma {:induction false} StripNoiseOfClean(s: Str)
    requires NoNoise(s)
    ensures StripNoise(s) == s
    decreases |s|
  {
    if s != [] {
      StripNoiseOfClean(s[1..]);
    }
  }

  /** Deleting the noise characters a second time changes nothing. */
  lemma StripNoiseIdempotent(s: Str)
    ensures StripNoise(StripNoise(s)) == StripNoise(s)
  {
    StripNoiseOfClean(StripNoise(s));
  }

  /** No whitespace character is noise, so the whitespace of the normalised
      text survives cleaning, in order; in particular the word structure the
      chunker sees is that of the normalised text with noise removed inside
      words. */
  lemma {:induction false} StripNoiseKeepsSpaces(s: Str)
    ensures OnlySpaces(StripNoise(s)) == OnlySpaces(s)
    decreases |s|
  {
    if s != [] {
      StripNoiseKeepsSpaces(s[1..]);
      if s[0] in NoiseChars {
        NoiseIsNotSpace(s[0]);
      }
      var head := if s[0] in NoiseChars then [] else [s[0]];
      OnlySpacesAppend(head, StripNoise(s[1..]));
    }
  }

  lemma NoiseIsNotSpace(c: char)
    requires c in NoiseChars
    ensures !IsSpace(c)
  {
  }

  /** The whitespace characters of `s`, in order. */
  function OnlySpaces(s: Str): (r: Str)
    ensures forall i :: 0 <= i < |r| ==> IsSpace(r[i])
  {
    if s == [] then []
    else (if IsSpace(s[0]) then [s[0]] else []) + OnlySpaces(s[1..])
  }

  lemma {:induction false} OnlySpacesAppend(a: Str, b: Str)
    ensures OnlySpaces(a + b) == OnlySpaces(a) + OnlySpaces(b)
    decreases |a|
  {
    if a == [] {
      assert a + b == b;
    } else {
      assert (a + b)[1..] == a[1..] + b;
      OnlySpacesAppend(a[1..], b);
    }
  }

  /** `_clean_text` is idempotent exactly when NFKC leaves its output alone:
      deleting a noise character can place a combining mark next to a new
      base character, which a second NFKC pass would compose. */
  lemma CleanTextIdempotentWhenStable(text: Str, nfkc: Str -> Str)
    requires nfkc(CleanText(text, nfkc)) == CleanText(text, nfkc)
    ensures CleanText(CleanText(text, nfkc), nfkc) == CleanText(text, nfkc)
  {
    StripNoiseOfClean(CleanText(text, nfkc));
  }
}
