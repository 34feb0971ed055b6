/**
 * `_iter_space_chunks` of note/utils/lyric_tokenizer.py: greedy packing of
 * whitespace-separated words into chunks under a soft limit `maxChars`, with
 * words longer than `hardMaxChars` cut into pieces and a safety valve for an
 * over-long buffer.
 *
 * The generator is modelled twice: `SpaceChunks` states the result as a fold
 * of one step function per word (`Feed`), and the method `IterSpaceChunks`
 * runs the source's loops over a buffer and is proved to yield exactly
 * `SpaceChunks`.  The properties of the chunker are lemmas about
 * `SpaceChunks` in module `ChunkerProperties`.
 */
module Chunker {
  import opened Strings

  /** The chunks yielded so far and the word buffer `buf`. */
  datatype ChunkState = ChunkState(out: seq<Str>, buf: seq<Str>)

  function Last<T>(s: seq<T>): T
    requires s != []
  {
    s[|s| - 1]
  }

  function Init<T>(s: seq<T>): seq<T>
    requires s != []
  {
    s[..|s| - 1]
  }

  /** Lines 67-74: flush the buffer if the next word would take it past
      `maxChars`, then put the word at the end of the buffer. */
  function AddWord(st: ChunkState, p: Str, maxChars: int): (r: ChunkState)
    ensures r.buf != [] && Last(r.buf) == p
    ensures st.buf == [] || |Join(st.buf + [p])| <= maxChars ==> r == ChunkState(st.out, st.buf + [p])
    ensures st.buf != [] && |Join(st.buf + [p])| > maxChars ==> r == ChunkState(st.out + [Join(st.buf)], [p])
  {
    JoinLength(st.buf + [p]);
    BufLenAppend(st.buf, p);
    var addLen := (if |st.buf| > 0 then 1 else 0) + |p|;
    if BufLen(st.buf) + addLen > maxChars && |st.buf| > 0 then
      ChunkState(st.out + [Join(st.buf)], [p])
    else
      ChunkState(st.out, st.buf + [p])
  }

  /** Lines 77-83: while the last buffered word is longer than `hardMaxChars`,
      yield its first `hardMaxChars` characters and keep the rest.  The rest is
      never empty there (the word is longer than the cut), so the source's
      `if rest:` always appends it. */
  function SplitLong(st: ChunkState, hardMaxChars: int): (r: ChunkState)
    requires hardMaxChars >= 1 && st.buf != []
    ensures r.buf != [] && |Last(r.buf)| <= hardMaxChars
    decreases |Last(st.buf)|
  {
    var longPiece := Last(st.buf);
    if |longPiece| > hardMaxChars then
      SplitLong(ChunkState(st.out + [longPiece[..hardMaxChars]],
                           Init(st.buf) + [longPiece[hardMaxChars..]]),
                hardMaxChars)
    else
      st
  }

  /** Lines 87-94 from index `i` on, with `total` the running length: the
      number of leading words that the valve takes. */
  function FitFrom(buf: seq<Str>, hardMaxChars: int, i: nat, total: int): (k: nat)
    requires i <= |buf|
    ensures i <= k <= |buf|
    decreases |buf| - i
  {
    if i == |buf| then i
    else
      var add := |buf[i]| + (if i > 0 then 1 else 0);
      if total + add > hardMaxChars then i
      else FitFrom(buf, hardMaxChars, i + 1, total + add)
  }

  function FitCount(buf: seq<Str>, hardMaxChars: int): (k: nat)
    ensures k <= |buf|
  {
    FitFrom(buf, hardMaxChars, 0, 0)
  }

  /** Lines 86-98: the safety valve.  If the buffer is over `hardMaxChars`,
      yield its longest prefix that fits and drop that prefix. */
  function Valve(st: ChunkState, hardMaxChars: int): ChunkState {
    if BufLen(st.buf) > hardMaxChars then
      var k := FitCount(st.buf, hardMaxChars);
      if k > 0 then ChunkState(st.out + [Join(st.buf[..k])], st.buf[k..]) else st
    else st
  }

  /** One iteration of the `for p in parts` loop (lines 64-98); an empty part
      is skipped. */
  function Feed(st: ChunkState, p: Str, maxChars: int, hardMaxChars: int): ChunkState
    requires hardMaxChars >= 1
  {
    if p == [] then st
    else Valve(SplitLong(AddWord(st, p, maxChars), hardMaxChars), hardMaxChars)
  }

  /** The state after the loop has consumed `parts`. */
  function Run(parts: seq<Str>, maxChars: int, hardMaxChars: int): ChunkState
    requires hardMaxChars >= 1
  {
    if parts == [] then ChunkState([], [])
    else Feed(Run(Init(parts), maxChars, hardMaxChars), Last(parts), maxChars, hardMaxChars)
  }

  /** Lines 100-101: what has been yielded, then the rest of the buffer. */
  function Finish(st: ChunkState): seq<Str> {
    if st.buf != [] then st.out + [Join(st.buf)] else st.out
  }

  /** Line 60: `_SPACE_SPLIT.split(text.strip())`. */
  function Parts(text: Str): seq<Str> {
    SplitWs(Strip(text))
  }

  /** Everything `_iter_space_chunks(text, maxChars, hardMaxChars)` yields, in
      order. */
  function SpaceChunks(text: Str, maxChars: int, hardMaxChars: int): seq<Str>
    requires hardMaxChars >= 1
  {
    if text == [] then [] else Finish(Run(Parts(text), maxChars, hardMaxChars))
  }

  /** The generator, with its loops.  It does not terminate for
      `hardMaxChars == 0` (line 79 cuts off nothing), hence the requirement. */
  method IterSpaceChunks(text: Str, maxChars: int, hardMaxChars: int) returns (chunks: seq<Str>)
    requires hardMaxChars >= 1
    ensures chunks == SpaceChunks(text, maxChars, hardMaxChars)
  {
    chunks := [];
    if |text| == 0 {
      return;
    }
    var parts := SplitWs(Strip(text));
    var buf: seq<Str> := [];
    var curLen := 0;
    var i := 0;
    while i < |parts|
      invariant i <= |parts|
      invariant ChunkState(chunks, buf) == Run(parts[..i], maxChars, hardMaxChars)
      invariant curLen == BufLen(buf)
    {
      assert Init(parts[..i + 1]) == parts[..i];
      if |parts[i]| > 0 {
        chunks, buf, curLen := FeedWord(chunks, buf, curLen, parts[i], maxChars, hardMaxChars);
      }
      i := i + 1;
    }
    assert parts[..|parts|] == parts;
    if |buf| > 0 {
      chunks := chunks + [Join(buf)];
    }
  }

  /** The body of the `for p in parts` loop for a non-empty `p` (lines 67-98):
      `chunks` is what has been yielded so far, `curLen` the source's running
      length of the joined buffer. */
  method FeedWord(chunks0: seq<Str>, buf0: seq<Str>, curLen0: int, p: Str, maxChars: int, hardMaxChars: int)
    returns (chunks: seq<Str>, buf: seq<Str>, curLen: int)
    requires hardMaxChars >= 1 && p != []
    requires curLen0 == BufLen(buf0)
    ensures ChunkState(chunks, buf) == Feed(ChunkState(chunks0, buf0), p, maxChars, hardMaxChars)
    ensures curLen == BufLen(buf)
  {
    chunks, buf, curLen := chunks0, buf0, curLen0;
    var addLen := (if |buf| > 0 then 1 else 0) + |p|;
    if curLen + addLen > maxChars && |buf| > 0 {
      chunks := chunks + [Join(buf)];
      buf := [p];
      curLen := |p|;
    } else {
      BufLenAppend(buf, p);
      buf := buf + [p];
      curLen := curLen + addLen;
    }
    ghost var added := ChunkState(chunks, buf);
    assert added == AddWord(ChunkState(chunks0, buf0), p, maxChars);

    while |buf[|buf| - 1]| > hardMaxChars
      invariant buf != []
      invariant SplitLong(ChunkState(chunks, buf), hardMaxChars) == SplitLong(added, hardMaxChars)
      invariant curLen == BufLen(buf)
      decreases |buf[|buf| - 1]|
    {
      var longPiece := buf[|buf| - 1];
      buf := buf[..|buf| - 1];
      chunks := chunks + [longPiece[..hardMaxChars]];
      var rest := longPiece[hardMaxChars..];
      buf := buf + [rest];
      curLen := BufLen(buf);
    }
    assert ChunkState(chunks, buf) == SplitLong(added, hardMaxChars);

    chunks, buf, curLen := SafetyValve(chunks, buf, curLen, hardMaxChars);
  }

  /** Lines 86-98: the safety valve, with its loop over `enumerate(buf)`. */
  method SafetyValve(chunks0: seq<Str>, buf0: seq<Str>, curLen0: int, hardMaxChars: int)
    returns (chunks: seq<Str>, buf: seq<Str>, curLen: int)
    requires curLen0 == BufLen(buf0)
    ensures ChunkState(chunks, buf) == Valve(ChunkState(chunks0, buf0), hardMaxChars)
    ensures curLen == BufLen(buf)
  {
    chunks, buf, curLen := chunks0, buf0, curLen0;
    if curLen > hardMaxChars {
      var out: seq<Str> := [];
      var total := 0;
      var j := 0;
      while j < |buf|
        invariant j <= |buf|
        invariant out == buf[..j]
        invariant FitFrom(buf, hardMaxChars, j, total) == FitCount(buf, hardMaxChars)
      {
        var add := |buf[j]| + (if j > 0 then 1 else 0);
        if total + add > hardMaxChars {
          break;
        }
        out := out + [buf[j]];
        total := total + add;
        j := j + 1;
      }
      if |out| > 0 {
        chunks := chunks + [Join(out)];
        buf := buf[|out|..];
        curLen := BufLen(buf);
      }
    }
  }
}
