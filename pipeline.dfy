/**
 * `base_tokenize` of note/utils/lyric_tokenizer.py (lines 104-172): clean
 * the text, cut it into chunks, run the morphological analyser on each
 * chunk and keep the tokens the filter lets through, in order.
 *
 * The analyser (Sudachi) is outside this model: it is the function
 * `analyse`, which for each chunk gives the morphemes it would produce and
 * the index, if any, at which processing that chunk raises an exception
 * (whether in the analyser or while reading a morpheme).  The exception is
 * caught per chunk (lines 151, 168-170): the tokens already appended from
 * that chunk stay, the rest of the chunk is skipped, and the next chunk is
 * processed as usual.
 */
module Pipeline {
  import opened Strings
  import opened TextNormalizer
  import opened Chunker
  import opened TokenFilter
  import ChunkerProperties

  /** The analyser's output for one chunk: its morphemes, and the index of
      the morpheme at which an exception is raised, if any. */
  datatype Analysis = Analysis(morphemes: seq<Morpheme>, raisesAt: Option<nat>)

  /** The morphemes the loop of line 152 gets to process. */
  function Delivered(a: Analysis): (ms: seq<Morpheme>)
    ensures a.raisesAt.None? ==> ms == a.morphemes
  {
    match a.raisesAt
    case None => a.morphemes
    case Some(k) => if k < |a.morphemes| then a.morphemes[..k] else a.morphemes
  }

  /** The morphemes processed are a prefix of the chunk's morphemes: those
      before the failing one, or all of them. */
  lemma DeliveredPrefix(a: Analysis)
    ensures |Delivered(a)| <= |a.morphemes| && Delivered(a) == a.morphemes[..|Delivered(a)|]
    ensures |Delivered(a)| < |a.morphemes| <==> a.raisesAt.Some? && a.raisesAt.value < |a.morphemes|
  {
    assert a.morphemes[..|a.morphemes|] == a.morphemes;
  }

  /** The tokens appended for `ms`, in order. */
  function MorphemeTokens(ms: seq<Morpheme>, keep: set<Str>, ng: set<Str>): seq<Str> {
    if ms == [] then []
    else
      MorphemeTokens(Init(ms), keep, ng)
      + (match Accept(Last(ms), keep, ng) case Some(t) => [t] case None => [])
  }

  /** The tokens appended while processing one chunk (lines 148-170). */
  function ChunkTokens(chunk: Str, keep: set<Str>, ng: set<Str>, analyse: Str -> Analysis): seq<Str> {
    if chunk == [] then [] else MorphemeTokens(Delivered(analyse(chunk)), keep, ng)
  }

  /** The tokens appended while processing `chunks`, in order. */
  function AllTokens(chunks: seq<Str>, keep: set<Str>, ng: set<Str>, analyse: Str -> Analysis): seq<Str> {
    if chunks == [] then []
    else ChunkTokens(chunks[0], keep, ng, analyse) + AllTokens(chunks[1..], keep, ng, analyse)
  }

  /** What `base_tokenize` returns. */
  function Tokenize(text: Str, keepPos: OptionArg, ngWords: OptionArg, maxChars: int, hardMaxChars: int,
                    nfkc: Str -> Str, analyse: Str -> Analysis): seq<Str>
    requires hardMaxChars >= 1
  {
    AllTokens(SpaceChunks(CleanText(text, nfkc), maxChars, hardMaxChars),
              ResolveKeepPos(keepPos), ResolveNgWords(ngWords), analyse)
  }

  /** `base_tokenize` (lines 126-172). */
  method BaseTokenize(text: Str, keepPos: OptionArg, ngWords: OptionArg, maxChars: int, hardMaxChars: int,
                      nfkc: Str -> Str, analyse: Str -> Analysis) returns (toks: seq<Str>)
    requires hardMaxChars >= 1
    ensures toks == Tokenize(text, keepPos, ngWords, maxChars, hardMaxChars, nfkc, analyse)
  {
    var keep := ResolveKeepPos(keepPos);
    var ng := ResolveNgWords(ngWords);
    var cleaned := CleanText(text, nfkc);
    var chunks := IterSpaceChunks(cleaned, maxChars, hardMaxChars);
    toks := TokenizeChunks(chunks, keep, ng, analyse);
  }

  /** The `for chunk in ...` loop of lines 143-172. */
  method TokenizeChunks(chunks: seq<Str>, keep: set<Str>, ng: set<Str>, analyse: Str -> Analysis)
    returns (toks: seq<Str>)
    ensures toks == AllTokens(chunks, keep, ng, analyse)
  {
    toks := [];
    var i := 0;
    while i < |chunks|
      invariant i <= |chunks|
      invariant toks == AllTokens(chunks[..i], keep, ng, analyse)
    {
      var chunk := chunks[i];
      assert chunks[..i + 1] == chunks[..i] + [chunk];
      AllTokensSnoc(chunks[..i], chunk, keep, ng, analyse);
      i := i + 1;
      if |chunk| == 0 {
        continue;
      }
      toks := AnalyseChunk(toks, chunk, keep, ng, analyse);
    }
    assert chunks[..|chunks|] == chunks;
  }

  /** The `try` block of lines 151-170 for one chunk. */
  method AnalyseChunk(toks0: seq<Str>, chunk: Str, keep: set<Str>, ng: set<Str>, analyse: Str -> Analysis)
    returns (toks: seq<Str>)
    requires chunk != []
    ensures toks == toks0 + ChunkTokens(chunk, keep, ng, analyse)
  {
    toks := toks0;
    var a := analyse(chunk);
    var j := 0;
    while j < |a.morphemes|
      invariant j <= |a.morphemes|
      invariant a.raisesAt.Some? ==> j <= a.raisesAt.value
      invariant toks == toks0 + MorphemeTokens(a.morphemes[..j], keep, ng)
    {
      var m := a.morphemes[j];
      if a.raisesAt == Some(j) {
        // except Exception: continue
        break;
      }
      assert Init(a.morphemes[..j + 1]) == a.morphemes[..j] && Last(a.morphemes[..j + 1]) == m;
      j := j + 1;
      if keep != {} && m.pos !in keep {
        continue;
      }
      var surf := NormalizeBaseform(m);
      if ng != {} && (surf == [] || surf in ng) {
        continue;
      }
      if surf != [] {
        toks := toks + [surf];
      }
    }
    assert a.morphemes[..|a.morphemes|] == a.morphemes;
    assert Delivered(a) == a.morphemes[..j];
  }

  // ---------------------------------------------------------------------
  // Properties

  /** Tokens of consecutive morphemes come one after the other: order is
      kept and nothing is de-duplicated. */
  lemma {:induction false} MorphemeTokensAppend(a: seq<Morpheme>, b: seq<Morpheme>, keep: set<Str>, ng: set<Str>)
    ensures MorphemeTokens(a + b, keep, ng) == MorphemeTokens(a, keep, ng) + MorphemeTokens(b, keep, ng)
    decreases |b|
  {
    if b == [] {
      assert a + b == a;
    } else {
      assert Init(a + b) == a + Init(b) && Last(a + b) == Last(b);
      MorphemeTokensAppend(a, Init(b), keep, ng);
    }
  }

  /** Every token is non-empty and no token is an NG word. */
  lemma {:induction false} MorphemeTokensSound(ms: seq<Morpheme>, keep: set<Str>, ng: set<Str>)
    ensures forall i :: 0 <= i < |MorphemeTokens(ms, keep, ng)| ==>
              MorphemeTokens(ms, keep, ng)[i] != [] && MorphemeTokens(ms, keep, ng)[i] !in ng
    decreases |ms|
  {
    if ms != [] {
      MorphemeTokensSound(Init(ms), keep, ng);
    }
  }

  /** Tokens of consecutive chunks come one after the other. */
  lemma {:induction false} AllTokensAppend(a: seq<Str>, b: seq<Str>, keep: set<Str>, ng: set<Str>, analyse: Str -> Analysis)
    ensures AllTokens(a + b, keep, ng, analyse) == AllTokens(a, keep, ng, analyse) + AllTokens(b, keep, ng, analyse)
    decreases |a|
  {
    if a == [] {
      assert a + b == b;
    } else {
      assert (a + b)[0] == a[0] && (a + b)[1..] == a[1..] + b;
      AllTokensAppend(a[1..], b, keep, ng, analyse);
    }
  }

  lemma AllTokensSnoc(a: seq<Str>, c: Str, keep: set<Str>, ng: set<Str>, analyse: Str -> Analysis)
    ensures AllTokens(a + [c], keep, ng, analyse) == AllTokens(a, keep, ng, analyse) + ChunkTokens(c, keep, ng, analyse)
  {
    AllTokensAppend(a, [c], keep, ng, analyse);
    assert [c][1..] == [];
  }

  lemma {:induction false} AllTokensSound(chunks: seq<Str>, keep: set<Str>, ng: set<Str>, analyse: Str -> Analysis)
    ensures forall i :: 0 <= i < |AllTokens(chunks, keep, ng, analyse)| ==>
              AllTokens(chunks, keep, ng, analyse)[i] != [] && AllTokens(chunks, keep, ng, analyse)[i] !in ng
    decreases |chunks|
  {
    if chunks != [] {
      AllTokensSound(chunks[1..], keep, ng, analyse);
      if chunks[0] != [] {
        MorphemeTokensSound(Delivered(analyse(chunks[0])), keep, ng);
      }
    }
  }

  /** An exception while processing a chunk keeps the tokens already
      appended from it: the chunk contributes the tokens of the morphemes
      before the failing one, a prefix of what it would contribute without
      the exception, which would go on with the tokens of the skipped
      morphemes. */
  lemma FailureKeepsPrefix(chunk: Str, keep: set<Str>, ng: set<Str>, analyse: Str -> Analysis)
    requires chunk != []
    requires analyse(chunk).raisesAt.Some?
    requires analyse(chunk).raisesAt.value < |analyse(chunk).morphemes|
    ensures ChunkTokens(chunk, keep, ng, analyse)
         == MorphemeTokens(analyse(chunk).morphemes[..analyse(chunk).raisesAt.value], keep, ng)
    ensures MorphemeTokens(analyse(chunk).morphemes, keep, ng)
         == ChunkTokens(chunk, keep, ng, analyse)
            + MorphemeTokens(analyse(chunk).morphemes[analyse(chunk).raisesAt.value..], keep, ng)
  {
    var ms := analyse(chunk).morphemes;
    var k := analyse(chunk).raisesAt.value;
    assert ms == ms[..k] + ms[k..];
    MorphemeTokensAppend(ms[..k], ms[k..], keep, ng);
  }

  /** An exception in one chunk changes nothing about the chunks before or
      after it. */
  lemma ChunkIsolated(before: seq<Str>, chunk: Str, after: seq<Str>, keep: set<Str>, ng: set<Str>, analyse: Str -> Analysis)
    ensures AllTokens(before + [chunk] + after, keep, ng, analyse)
         == AllTokens(before, keep, ng, analyse) + ChunkTokens(chunk, keep, ng, analyse) + AllTokens(after, keep, ng, analyse)
  {
    var rest := [chunk] + after;
    assert before + [chunk] + after == before + rest;
    AllTokensAppend(before, rest, keep, ng, analyse);
    assert rest[0] == chunk && rest[1..] == after;
  }

  /** The chunks `base_tokenize` analyses are never empty, so the
      `if not chunk: continue` of line 148 never fires. */
  lemma ChunksNeverEmpty(text: Str, maxChars: int, hardMaxChars: int, nfkc: Str -> Str)
    requires hardMaxChars >= 1
    ensures forall i :: 0 <= i < |SpaceChunks(CleanText(text, nfkc), maxChars, hardMaxChars)| ==>
              SpaceChunks(CleanText(text, nfkc), maxChars, hardMaxChars)[i] != []
  {
    ChunkerProperties.SpaceChunksBounded(CleanText(text, nfkc), maxChars, hardMaxChars);
  }

  /** No token `base_tokenize` returns is empty or one of the NG words. */
  lemma TokenizeSound(text: Str, keepPos: OptionArg, ngWords: OptionArg, maxChars: int, hardMaxChars: int,
                      nfkc: Str -> Str, analyse: Str -> Analysis)
    requires hardMaxChars >= 1
    ensures forall i :: 0 <= i < |Tokenize(text, keepPos, ngWords, maxChars, hardMaxChars, nfkc, analyse)| ==>
              Tokenize(text, keepPos, ngWords, maxChars, hardMaxChars, nfkc, analyse)[i] != [] &&
              Tokenize(text, keepPos, ngWords, maxChars, hardMaxChars, nfkc, analyse)[i] !in ResolveNgWords(ngWords)
  {
    AllTokensSound(SpaceChunks(CleanText(text, nfkc), maxChars, hardMaxChars),
                   ResolveKeepPos(keepPos), ResolveNgWords(ngWords), analyse);
  }

  /** Text that is only whitespace and noise after normalisation yields no
      token, without the analyser being asked. */
  lemma TokenizeBlank(text: Str, keepPos: OptionArg, ngWords: OptionArg, maxChars: int, hardMaxChars: int,
                      nfkc: Str -> Str, analyse: Str -> Analysis)
    requires hardMaxChars >= 1
    requires RemoveSpaces(StripNoise(nfkc(text))) == []
    ensures Tokenize(text, keepPos, ngWords, maxChars, hardMaxChars, nfkc, analyse) == []
  {
    assert CleanText(text, nfkc) == StripNoise(nfkc(text)) by {
      assert '?' in NoiseChars;
    }
    ChunkerProperties.SpaceChunksEmpty(CleanText(text, nfkc), maxChars, hardMaxChars);
  }

  /** Three chunks whose middle one fails at its second morpheme: the
      first morpheme of the failing chunk and the whole last chunk are
      still tokenised. */
  lemma MiddleChunkFails()
    ensures AllTokens(["a", "b", "c"], {}, {},
                      c => if c == "a" then Analysis([Morpheme("猫", "猫", "名詞")], None)
                           else if c == "b" then Analysis([Morpheme("犬", "犬", "名詞"), Morpheme("鳥", "鳥", "名詞")], Some(1))
                           else Analysis([Morpheme("魚", "魚", "名詞")], None))
         == ["猫", "犬", "魚"]
  {
    var analyse := c => if c == "a" then Analysis([Morpheme("猫", "猫", "名詞")], None)
                        else if c == "b" then Analysis([Morpheme("犬", "犬", "名詞"), Morpheme("鳥", "鳥", "名詞")], Some(1))
                        else Analysis([Morpheme("魚", "魚", "名詞")], None);
    var dog := [Morpheme("犬", "犬", "名詞"), Morpheme("鳥", "鳥", "名詞")];
    assert "b" != "a" && "c" != "a" && "c" != "b";
    ChunkIsolated(["a"], "b", ["c"], {}, {}, analyse);
    assert ["a"] + ["b"] + ["c"] == ["a", "b", "c"];
    assert ["a", "b", "c"][1..] == ["b", "c"] && ["b", "c"][1..] == ["c"] && ["c"][1..] == [];
    assert Delivered(analyse("b")) == dog[..1];
    assert Init(dog[..1]) == [];
    assert ChunkTokens("b", {}, {}, analyse) == ["犬"];
    assert Init([Morpheme("猫", "猫", "名詞")]) == [];
    assert Init([Morpheme("魚", "魚", "名詞")]) == [];
  }

  /** The same word twice gives the token twice. */
  lemma NoDeduplication(m: Morpheme, keep: set<Str>, ng: set<Str>)
    requires Accept(m, keep, ng).Some?
    ensures MorphemeTokens([m, m], keep, ng) == [Accept(m, keep, ng).value, Accept(m, keep, ng).value]
  {
    var t := Accept(m, keep, ng).value;
    assert Init([m, m]) == [m] && Last([m, m]) == m;
    assert Init([m]) == [] && Last([m]) == m;
    assert MorphemeTokens([m], keep, ng) == [] + [t];
  }
}
