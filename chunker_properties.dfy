/**
 * What `_iter_space_chunks` guarantees, proved about `Chunker.SpaceChunks`:
 * chunks are non-empty and never longer than `hardMaxChars`; nothing comes
 * out of blank text; and, when `maxChars <= hardMaxChars`, multi-word chunks
 * respect `maxChars`, the safety valve never fires, and the chunks re-joined
 * with single spaces are the words (long ones cut into pieces) re-joined the
 * same way.  The last lemma shows that this order guarantee is lost when
 * `maxChars > hardMaxChars`, which the source does not check.
 */
module ChunkerProperties {
  import opened Strings
  import opened Chunker

  // ---------------------------------------------------------------------
  // Reference definitions

  /** A word cut as lines 77-83 cut it: pieces of exactly `hardMaxChars`
      characters, then a remainder of at most `hardMaxChars`, non-empty for a
      non-empty word; the pieces concatenate back to the word. */
  function Frag(w: Str, hardMaxChars: int): (r: seq<Str>)
    requires hardMaxChars >= 1
    ensures |r| >= 1
    ensures forall i :: 0 <= i < |r| - 1 ==> |r[i]| == hardMaxChars
    ensures |Last(r)| <= hardMaxChars
    ensures w != [] ==> Last(r) != []
    ensures Concat(r) == w
    ensures |w| <= hardMaxChars ==> r == [w]
    decreases |w|
  {
    if |w| > hardMaxChars then
      var rest := Frag(w[hardMaxChars..], hardMaxChars);
      assert ([w[..hardMaxChars]] + rest)[1..] == rest;
      assert w == w[..hardMaxChars] + w[hardMaxChars..];
      [w[..hardMaxChars]] + rest
    else
      assert Concat([w]) == w + Concat([]);
      [w]
  }

  /** The non-empty parts in order, each cut into its pieces. */
  function Pieces(parts: seq<Str>, hardMaxChars: int): seq<Str>
    requires hardMaxChars >= 1
  {
    if parts == [] then []
    else Pieces(Init(parts), hardMaxChars)
         + (if Last(parts) == [] then [] else Frag(Last(parts), hardMaxChars))
  }

  /** `a` and `b` joined by one space, or `b` alone when `a` is empty. */
  function Sep(a: Str, b: Str): Str {
    if a == [] then b else a + " " + b
  }

  ghost predicate GoodWord(w: Str, hardMaxChars: int) {
    w != [] && NoSpace(w) && |w| <= hardMaxChars
  }

  ghost predicate ValidBuf(buf: seq<Str>, hardMaxChars: int) {
    && (forall i :: 0 <= i < |buf| ==> GoodWord(buf[i], hardMaxChars))
    && BufLen(buf) <= hardMaxChars
  }

  ghost predicate Bounded(chunks: seq<Str>, hardMaxChars: int) {
    forall i :: 0 <= i < |chunks| ==> 0 < |chunks[i]| <= hardMaxChars
  }

  ghost predicate SoftBounded(chunks: seq<Str>, maxChars: int) {
    forall i :: 0 <= i < |chunks| ==> HasSpace(chunks[i]) ==> |chunks[i]| <= maxChars
  }

  /** What holds between two iterations of the loop, for any `maxChars`. */
  ghost predicate ValidState(st: ChunkState, hardMaxChars: int) {
    ValidBuf(st.buf, hardMaxChars) && Bounded(st.out, hardMaxChars)
  }

  /** What holds in addition when `maxChars <= hardMaxChars`. */
  ghost predicate SoftState(st: ChunkState, maxChars: int) {
    (|st.buf| >= 2 ==> BufLen(st.buf) <= maxChars) && SoftBounded(st.out, maxChars)
  }

  // ---------------------------------------------------------------------
  // Pieces of words

  lemma {:induction false} FragNoSpace(w: Str, hardMaxChars: int)
    requires hardMaxChars >= 1 && NoSpace(w)
    ensures forall i :: 0 <= i < |Frag(w, hardMaxChars)| ==> NoSpace(Frag(w, hardMaxChars)[i])
    decreases |w|
  {
    if |w| > hardMaxChars {
      FragNoSpace(w[hardMaxChars..], hardMaxChars);
    }
  }

  lemma FragGood(w: Str, hardMaxChars: int)
    requires hardMaxChars >= 1 && w != [] && NoSpace(w)
    ensures forall i :: 0 <= i < |Frag(w, hardMaxChars)| ==> GoodWord(Frag(w, hardMaxChars)[i], hardMaxChars)
  {
    FragNoSpace(w, hardMaxChars);
  }

  lemma {:induction false} PiecesGood(parts: seq<Str>, hardMaxChars: int)
    requires hardMaxChars >= 1
    requires forall i :: 0 <= i < |parts| ==> NoSpace(parts[i])
    ensures forall i :: 0 <= i < |Pieces(parts, hardMaxChars)| ==> GoodWord(Pieces(parts, hardMaxChars)[i], hardMaxChars)
    decreases |parts|
  {
    if parts != [] {
      PiecesGood(Init(parts), hardMaxChars);
      if Last(parts) != [] {
        FragGood(Last(parts), hardMaxChars);
      }
    }
  }

  /** The pieces hold exactly the characters of the parts, in order. */
  lemma {:induction false} ConcatPieces(parts: seq<Str>, hardMaxChars: int)
    requires hardMaxChars >= 1
    ensures Concat(Pieces(parts, hardMaxChars)) == Concat(parts)
    decreases |parts|
  {
    if parts != [] {
      var last := Last(parts);
      var tail := if last == [] then [] else Frag(last, hardMaxChars);
      ConcatPieces(Init(parts), hardMaxChars);
      ConcatAppend(Pieces(Init(parts), hardMaxChars), tail);
      assert parts == Init(parts) + [last];
      ConcatSnoc(Init(parts), last);
      assert Concat(tail) == last by {
        if last == [] {
          assert Concat(tail) == [];
        }
      }
    }
  }

  // ---------------------------------------------------------------------
  // Joining

  lemma BufLenLast(buf: seq<Str>)
    requires buf != []
    ensures BufLen(buf) >= |Last(buf)|
  {
  }

  lemma JoinBounds(buf: seq<Str>, hardMaxChars: int)
    requires buf != [] && ValidBuf(buf, hardMaxChars)
    ensures 0 < |Join(buf)| <= hardMaxChars
  {
    JoinLength(buf);
    BufLenLast(buf);
  }

  lemma JoinNonEmpty(ws: seq<Str>)
    requires ws != [] && forall i :: 0 <= i < |ws| ==> ws[i] != []
    ensures Join(ws) != []
  {
    JoinLength(ws);
    BufLenLast(ws);
  }

  lemma JoinSep(a: seq<Str>, b: seq<Str>)
    requires b != []
    requires forall i :: 0 <= i < |a| ==> a[i] != []
    ensures Join(a + b) == Sep(Join(a), Join(b))
  {
    if a == [] {
      assert a + b == b;
    } else {
      JoinAppend(a, b);
      JoinNonEmpty(a);
    }
  }

  // ---------------------------------------------------------------------
  // The steps of one iteration

  /** The force-split loop emits all pieces of the last word but the last
      one and leaves that one in the buffer. */
  lemma {:induction false} SplitLongIsFrag(out: seq<Str>, init: seq<Str>, w: Str, hardMaxChars: int)
    requires hardMaxChars >= 1
    ensures SplitLong(ChunkState(out, init + [w]), hardMaxChars)
         == ChunkState(out + Init(Frag(w, hardMaxChars)), init + [Last(Frag(w, hardMaxChars))])
    decreases |w|
  {
    var st := ChunkState(out, init + [w]);
    assert Last(st.buf) == w && Init(st.buf) == init;
    if |w| > hardMaxChars {
      var a, w' := w[..hardMaxChars], w[hardMaxChars..];
      var rest := Frag(w', hardMaxChars);
      assert SplitLong(st, hardMaxChars) == SplitLong(ChunkState(out + [a], init + [w']), hardMaxChars);
      SplitLongIsFrag(out + [a], init, w', hardMaxChars);
      assert Frag(w, hardMaxChars) == [a] + rest;
      InitCons(a, rest);
      assert out + [a] + Init(rest) == out + ([a] + Init(rest));
    } else {
      assert Frag(w, hardMaxChars) == [w];
      assert Init([w]) == [] && Last([w]) == w;
      assert out + [] == out;
    }
  }

  lemma InitCons<T>(a: T, s: seq<T>)
    requires s != []
    ensures Init([a] + s) == [a] + Init(s) && Last([a] + s) == Last(s)
  {
  }

  lemma {:induction false} FitFromSpec(buf: seq<Str>, hardMaxChars: int, i: nat, total: int)
    requires i <= |buf| && total == BufLen(buf[..i]) && total <= hardMaxChars
    ensures BufLen(buf[..FitFrom(buf, hardMaxChars, i, total)]) <= hardMaxChars
    ensures FitFrom(buf, hardMaxChars, i, total) < |buf| ==>
              BufLen(buf[..FitFrom(buf, hardMaxChars, i, total) + 1]) > hardMaxChars
    decreases |buf| - i
  {
    if i < |buf| {
      assert buf[..i + 1] == buf[..i] + [buf[i]];
      BufLenAppend(buf[..i], buf[i]);
      var add := |buf[i]| + (if i > 0 then 1 else 0);
      if total + add <= hardMaxChars {
        FitFromSpec(buf, hardMaxChars, i + 1, total + add);
      }
    }
  }

  /** The valve takes the longest prefix of the buffer that fits. */
  lemma FitCountSpec(buf: seq<Str>, hardMaxChars: int)
    requires hardMaxChars >= 0
    ensures BufLen(buf[..FitCount(buf, hardMaxChars)]) <= hardMaxChars
    ensures FitCount(buf, hardMaxChars) < |buf| ==>
              BufLen(buf[..FitCount(buf, hardMaxChars) + 1]) > hardMaxChars
  {
    assert buf[..0] == [];
    FitFromSpec(buf, hardMaxChars, 0, 0);
  }

  /** After the force split the buffer is a fitting buffer plus one short
      word; if the valve fires, it yields exactly the fitting part and keeps
      the last word. */
  lemma ValveAfterSplit(out: seq<Str>, init: seq<Str>, r: Str, hardMaxChars: int)
    requires hardMaxChars >= 1 && ValidBuf(init, hardMaxChars) && GoodWord(r, hardMaxChars)
    ensures Valve(ChunkState(out, init + [r]), hardMaxChars)
         == if BufLen(init + [r]) > hardMaxChars then ChunkState(out + [Join(init)], [r])
            else ChunkState(out, init + [r])
  {
    var buf := init + [r];
    if BufLen(buf) > hardMaxChars {
      if init == [] {
        assert false;
      }
      var k := FitCount(buf, hardMaxChars);
      FitCountSpec(buf, hardMaxChars);
      assert buf[..|buf|] == buf;
      if k < |init| {
        assert buf[..k + 1] == init[..k + 1];
        BufLenPrefix(init, k + 1);
        assert false;
      }
      if k == |buf| {
        assert false;
      }
      assert buf[..k] == init && buf[k..] == [r];
    }
  }

  /** Adding a word (lines 67-74) leaves a fitting buffer followed by the
      word, and every chunk yielded so far within the hard limit. */
  lemma AddWordValid(st: ChunkState, p: Str, maxChars: int, hardMaxChars: int)
    requires hardMaxChars >= 1 && ValidState(st, hardMaxChars) && p != []
    ensures AddWord(st, p, maxChars).buf == Init(AddWord(st, p, maxChars).buf) + [p]
    ensures ValidBuf(Init(AddWord(st, p, maxChars).buf), hardMaxChars)
    ensures Bounded(AddWord(st, p, maxChars).out, hardMaxChars)
  {
    var r := AddWord(st, p, maxChars);
    if r == ChunkState(st.out, st.buf + [p]) {
      assert Init(st.buf + [p]) == st.buf;
    } else {
      assert st.buf != [] && r == ChunkState(st.out + [Join(st.buf)], [p]);
      JoinBounds(st.buf, hardMaxChars);
      BoundedAppend(st.out, [Join(st.buf)], hardMaxChars);
      assert Init([p]) == [];
    }
  }

  lemma BoundedAppend(a: seq<Str>, b: seq<Str>, hardMaxChars: int)
    requires Bounded(a, hardMaxChars) && Bounded(b, hardMaxChars)
    ensures Bounded(a + b, hardMaxChars)
  {
  }
  /** One iteration keeps the buffer and the yielded chunks within the hard
      limit, whatever `maxChars` is. */
  lemma FeedValid(st: ChunkState, p: Str, maxChars: int, hardMaxChars: int)
    requires hardMaxChars >= 1 && ValidState(st, hardMaxChars) && NoSpace(p)
    ensures ValidState(Feed(st, p, maxChars, hardMaxChars), hardMaxChars)
  {
    if p != [] {
      var st1 := AddWord(st, p, maxChars);
      AddWordValid(st, p, maxChars, hardMaxChars);
      var init := Init(st1.buf);
      var f := Frag(p, hardMaxChars);
      SplitLongIsFrag(st1.out, init, p, hardMaxChars);
      FragGood(p, hardMaxChars);
      BoundedAppend(st1.out, Init(f), hardMaxChars);
      ValidAfterValve(st1.out + Init(f), init, Last(f), hardMaxChars);
    }
  }

  /** The state the valve leaves after a force split is valid. */
  lemma ValidAfterValve(out: seq<Str>, init: seq<Str>, r: Str, hardMaxChars: int)
    requires hardMaxChars >= 1 && Bounded(out, hardMaxChars)
    requires ValidBuf(init, hardMaxChars) && GoodWord(r, hardMaxChars)
    ensures ValidState(Valve(ChunkState(out, init + [r]), hardMaxChars), hardMaxChars)
  {
    ValveAfterSplit(out, init, r, hardMaxChars);
    if BufLen(init + [r]) > hardMaxChars {
      JoinBounds(init, hardMaxChars);
      BoundedAppend(out, [Join(init)], hardMaxChars);
    } else {
      assert ValidBuf(init + [r], hardMaxChars);
    }
  }
  /** With `maxChars <= hardMaxChars` the buffer never exceeds the hard limit
      after a word is added and cut, so the safety valve never fires. */
  lemma ValveNeverFires(st: ChunkState, p: Str, maxChars: int, hardMaxChars: int)
    requires 1 <= hardMaxChars && maxChars <= hardMaxChars
    requires ValidState(st, hardMaxChars) && p != [] && NoSpace(p)
    ensures BufLen(SplitLong(AddWord(st, p, maxChars), hardMaxChars).buf) <= hardMaxChars
  {
    var f := Frag(p, hardMaxChars);
    if st.buf != [] && BufLen(st.buf) + 1 + |p| <= maxChars {
      BufLenAppend(st.buf, p);
      SplitLongIsFrag(st.out, st.buf, p, hardMaxChars);
    } else {
      var st1 := AddWord(st, p, maxChars);
      assert st1.buf == [] + [p];
      SplitLongIsFrag(st1.out, [], p, hardMaxChars);
      assert SplitLong(st1, hardMaxChars).buf == [Last(f)];
    }
  }

  /** With `maxChars <= hardMaxChars`, one iteration either appends the word
      to the buffer (when it fits under `maxChars`), or flushes the buffer
      and puts the word's pieces after it, keeping the last piece buffered. */
  lemma FeedShape(st: ChunkState, p: Str, maxChars: int, hardMaxChars: int)
    requires 1 <= hardMaxChars && maxChars <= hardMaxChars
    requires ValidState(st, hardMaxChars) && p != [] && NoSpace(p)
    ensures Feed(st, p, maxChars, hardMaxChars)
         == if st.buf != [] && BufLen(st.buf) + 1 + |p| <= maxChars
            then ChunkState(st.out, st.buf + [p])
            else ChunkState(Finish(st) + Init(Frag(p, hardMaxChars)), [Last(Frag(p, hardMaxChars))])
  {
    var f := Frag(p, hardMaxChars);
    var st1 := AddWord(st, p, maxChars);
    ValveNeverFires(st, p, maxChars, hardMaxChars);
    if st.buf != [] && BufLen(st.buf) + 1 + |p| <= maxChars {
      BufLenAppend(st.buf, p);
      SplitLongIsFrag(st.out, st.buf, p, hardMaxChars);
    } else {
      assert st1 == ChunkState(Finish(st), [] + [p]);
      SplitLongIsFrag(st1.out, [], p, hardMaxChars);
    }
  }

  lemma FinishBounded(st: ChunkState, hardMaxChars: int)
    requires ValidState(st, hardMaxChars)
    ensures Bounded(Finish(st), hardMaxChars)
  {
    if st.buf != [] {
      JoinBounds(st.buf, hardMaxChars);
    }
  }

  lemma FinishSoft(st: ChunkState, maxChars: int, hardMaxChars: int)
    requires ValidState(st, hardMaxChars) && SoftState(st, maxChars)
    ensures SoftBounded(Finish(st), maxChars)
  {
    if |st.buf| == 1 {
      assert Join(st.buf) == st.buf[0];
      assert NoSpace(st.buf[0]);
    } else if |st.buf| >= 2 {
      JoinLength(st.buf);
    }
  }

  // ---------------------------------------------------------------------
  // The whole loop

  /** Loop invariant for any `maxChars`: the buffer fits and every chunk
      yielded so far is non-empty and within `hardMaxChars`. */
  lemma {:induction false} RunValid(parts: seq<Str>, maxChars: int, hardMaxChars: int)
    requires hardMaxChars >= 1
    requires forall i :: 0 <= i < |parts| ==> NoSpace(parts[i])
    ensures ValidState(Run(parts, maxChars, hardMaxChars), hardMaxChars)
    decreases |parts|
  {
    if parts != [] {
      RunValid(Init(parts), maxChars, hardMaxChars);
      FeedValid(Run(Init(parts), maxChars, hardMaxChars), Last(parts), maxChars, hardMaxChars);
    }
  }

  /** What `RunOrdered` keeps: the soft bounds, and the chunks so far plus
      the buffer, joined with spaces, equal to the pieces consumed so far,
      joined with spaces. */
  ghost predicate OrderedState(st: ChunkState, pieces: seq<Str>, maxChars: int) {
    SoftState(st, maxChars) && Join(Finish(st)) == Join(pieces)
  }

  /** The word fits in the buffer under `maxChars` and is appended to it. */
  lemma FeedAppendOrdered(st: ChunkState, pieces: seq<Str>, p: Str, maxChars: int, hardMaxChars: int)
    requires 1 <= hardMaxChars && maxChars <= hardMaxChars
    requires ValidState(st, hardMaxChars) && OrderedState(st, pieces, maxChars)
    requires forall i :: 0 <= i < |pieces| ==> pieces[i] != []
    requires p != [] && NoSpace(p)
    requires st.buf != [] && BufLen(st.buf) + 1 + |p| <= maxChars
    ensures OrderedState(ChunkState(st.out, st.buf + [p]), pieces + Frag(p, hardMaxChars), maxChars)
  {
    BufLenAppend(st.buf, p);
    assert Frag(p, hardMaxChars) == [p];
    FinishBounded(st, hardMaxChars);
    FinishAppendJoin(st, p);
    JoinNonEmpty(Finish(st));
    JoinSep(pieces, [p]);
  }

  /** Appending a word to a non-empty buffer appends it, after a space, to
      the joined output. */
  lemma FinishAppendJoin(st: ChunkState, p: Str)
    requires st.buf != [] && forall i :: 0 <= i < |st.out| ==> st.out[i] != []
    ensures Join(Finish(ChunkState(st.out, st.buf + [p]))) == Join(Finish(st)) + " " + p
  {
    JoinAppend(st.buf, [p]);
    JoinSep(st.out, [Join(st.buf + [p])]);
    JoinSep(st.out, [Join(st.buf)]);
  }
  /** The buffer is flushed and the word's pieces follow it. */
  lemma FeedFlushOrdered(st: ChunkState, pieces: seq<Str>, p: Str, maxChars: int, hardMaxChars: int)
    requires 1 <= hardMaxChars && maxChars <= hardMaxChars
    requires ValidState(st, hardMaxChars) && OrderedState(st, pieces, maxChars)
    requires forall i :: 0 <= i < |pieces| ==> pieces[i] != []
    requires p != [] && NoSpace(p)
    ensures OrderedState(
              ChunkState(Finish(st) + Init(Frag(p, hardMaxChars)), [Last(Frag(p, hardMaxChars))]),
              pieces + Frag(p, hardMaxChars), maxChars)
  {
    var f := Frag(p, hardMaxChars);
    var st' := ChunkState(Finish(st) + Init(f), [Last(f)]);
    FragGood(p, hardMaxChars);
    FinishSoft(st, maxChars, hardMaxChars);
    assert SoftBounded(st'.out, maxChars) by {
      forall i | 0 <= i < |Init(f)| ensures NoSpace(Init(f)[i]) {
        assert Init(f)[i] == f[i];
      }
    }
    assert Finish(st') == Finish(st) + f;
    FinishBounded(st, hardMaxChars);
    JoinSep(Finish(st), f);
    JoinSep(pieces, f);
  }

  /** Loop invariant for `maxChars <= hardMaxChars`: a buffer of two or more
      words is within `maxChars`, so is every yielded chunk that holds a
      space, and the chunks so far plus the buffer, joined with spaces, are
      the pieces of the words consumed so far, joined with spaces. */
  lemma {:induction false} RunOrdered(parts: seq<Str>, maxChars: int, hardMaxChars: int)
    requires 1 <= hardMaxChars && maxChars <= hardMaxChars
    requires forall i :: 0 <= i < |parts| ==> NoSpace(parts[i])
    ensures SoftState(Run(parts, maxChars, hardMaxChars), maxChars)
    ensures Join(Finish(Run(parts, maxChars, hardMaxChars))) == Join(Pieces(parts, hardMaxChars))
    decreases |parts|
  {
    if parts != [] {
      var init := Init(parts);
      var p := Last(parts);
      var st := Run(init, maxChars, hardMaxChars);
      var pieces := Pieces(init, hardMaxChars);
      RunOrdered(init, maxChars, hardMaxChars);
      RunValid(init, maxChars, hardMaxChars);
      if p != [] {
        FeedShape(st, p, maxChars, hardMaxChars);
        PiecesGood(init, hardMaxChars);
        assert Pieces(parts, hardMaxChars) == pieces + Frag(p, hardMaxChars);
        if st.buf != [] && BufLen(st.buf) + 1 + |p| <= maxChars {
          FeedAppendOrdered(st, pieces, p, maxChars, hardMaxChars);
        } else {
          FeedFlushOrdered(st, pieces, p, maxChars, hardMaxChars);
        }
      } else {
        assert Run(parts, maxChars, hardMaxChars) == st;
        assert Pieces(parts, hardMaxChars) == pieces + [] == pieces;
      }
    }
  }

  lemma {:induction false} FeedNotEmpty(st: ChunkState, p: Str, maxChars: int, hardMaxChars: int)
    requires hardMaxChars >= 1
    requires Finish(st) != [] || p != []
    ensures Finish(Feed(st, p, maxChars, hardMaxChars)) != []
  {
  }

  /** Nothing is yielded until a non-empty part arrives, and something is
      yielded once one has. */
  lemma {:induction false} RunEmpty(parts: seq<Str>, maxChars: int, hardMaxChars: int)
    requires hardMaxChars >= 1
    ensures Finish(Run(parts, maxChars, hardMaxChars)) == []
        <==> forall i :: 0 <= i < |parts| ==> parts[i] == []
    decreases |parts|
  {
    if parts != [] {
      var st := Run(Init(parts), maxChars, hardMaxChars);
      RunEmpty(Init(parts), maxChars, hardMaxChars);
      if Finish(st) != [] || Last(parts) != [] {
        FeedNotEmpty(st, Last(parts), maxChars, hardMaxChars);
        if Finish(st) != [] {
          var i :| 0 <= i < |Init(parts)| && Init(parts)[i] != [];
          assert parts[i] != [];
        }
      } else {
        AllEmptySnoc(Init(parts), Last(parts));
        assert parts == Init(parts) + [Last(parts)];
      }
    }
  }

  lemma AllEmptySnoc(init: seq<Str>, p: Str)
    requires p == [] && forall i :: 0 <= i < |init| ==> init[i] == []
    ensures forall i :: 0 <= i < |init + [p]| ==> (init + [p])[i] == []
  {
  }

  lemma {:induction false} ConcatAllEmpty(ws: seq<Str>)
    ensures Concat(ws) == [] <==> forall i :: 0 <= i < |ws| ==> ws[i] == []
    decreases |ws|
  {
    if ws != [] {
      ConcatAllEmpty(ws[1..]);
      if Concat(ws) == [] {
        forall i | 0 <= i < |ws| ensures ws[i] == [] {
          if i > 0 {
            assert ws[i] == ws[1..][i - 1];
          }
        }
      }
    }
  }

  // ---------------------------------------------------------------------
  // Words within the hard limit, any `maxChars`

  /** A word of at most `hardMaxChars` characters is never cut, and the
      valve can only flush the words before it: the word is appended to the
      buffer when the joined buffer stays within both limits, and otherwise
      the buffer is yielded and the word starts a new one. */
  lemma FeedShortState(st: ChunkState, p: Str, maxChars: int, hardMaxChars: int)
    requires hardMaxChars >= 1 && ValidState(st, hardMaxChars) && GoodWord(p, hardMaxChars)
    ensures Feed(st, p, maxChars, hardMaxChars)
         == if st.buf != [] && BufLen(st.buf) + 1 + |p| <= maxChars
               && BufLen(st.buf) + 1 + |p| <= hardMaxChars
            then ChunkState(st.out, st.buf + [p])
            else ChunkState(Finish(st), [p])
  {
    var st1 := AddWord(st, p, maxChars);
    AddWordValid(st, p, maxChars, hardMaxChars);
    var init := Init(st1.buf);
    SplitLongIsFrag(st1.out, init, p, hardMaxChars);
    assert Frag(p, hardMaxChars) == [p];
    assert Init([p]) == [] && Last([p]) == p;
    assert st1.out + [] == st1.out;
    ValveAfterSplit(st1.out, init, p, hardMaxChars);
    if st.buf != [] && BufLen(st.buf) + 1 + |p| <= maxChars {
      assert init == st.buf;
      BufLenAppend(st.buf, p);
    } else {
      assert init == [];
      BufLenAppend([], p);
    }
  }

  /** With a word within `hardMaxChars`, one iteration appends the word,
      after one space, to the chunks and buffer joined with spaces. */
  lemma FeedShort(st: ChunkState, p: Str, maxChars: int, hardMaxChars: int)
    requires hardMaxChars >= 1 && ValidState(st, hardMaxChars) && GoodWord(p, hardMaxChars)
    ensures Join(Finish(Feed(st, p, maxChars, hardMaxChars))) == Sep(Join(Finish(st)), p)
  {
    FeedShortState(st, p, maxChars, hardMaxChars);
    FinishBounded(st, hardMaxChars);
    if st.buf != [] && BufLen(st.buf) + 1 + |p| <= maxChars && BufLen(st.buf) + 1 + |p| <= hardMaxChars {
      FinishAppendJoin(st, p);
      JoinNonEmpty(Finish(st));
    } else {
      assert Finish(ChunkState(Finish(st), [p])) == Finish(st) + [p];
      JoinSep(Finish(st), [p]);
    }
  }

  /** Loop invariant for any `maxChars` when no part is longer than
      `hardMaxChars`: the chunks so far plus the buffer, joined with spaces,
      are the non-empty parts consumed so far, joined with spaces. */
  lemma {:induction false} RunShort(parts: seq<Str>, maxChars: int, hardMaxChars: int)
    requires hardMaxChars >= 1
    requires forall i :: 0 <= i < |parts| ==> NoSpace(parts[i]) && |parts[i]| <= hardMaxChars
    ensures Join(Finish(Run(parts, maxChars, hardMaxChars))) == Join(Pieces(parts, hardMaxChars))
    decreases |parts|
  {
    if parts != [] {
      var init, p := Init(parts), Last(parts);
      var st := Run(init, maxChars, hardMaxChars);
      var pieces := Pieces(init, hardMaxChars);
      forall i | 0 <= i < |init|
        ensures NoSpace(init[i]) && |init[i]| <= hardMaxChars
      {
        assert init[i] == parts[i];
      }
      RunShort(init, maxChars, hardMaxChars);
      if p != [] {
        RunValid(init, maxChars, hardMaxChars);
        FeedShort(st, p, maxChars, hardMaxChars);
        PiecesGood(init, hardMaxChars);
        assert Frag(p, hardMaxChars) == [p];
        assert Pieces(parts, hardMaxChars) == pieces + [p];
        JoinSep(pieces, [p]);
      } else {
        assert Run(parts, maxChars, hardMaxChars) == st;
        assert Pieces(parts, hardMaxChars) == pieces + [] == pieces;
      }
    }
  }

  // ---------------------------------------------------------------------
  // No character is lost, any `maxChars`

  /** The non-whitespace characters of a list of strings, in order. */
  ghost function Text(ws: seq<Str>): Str {
    RemoveSpaces(Concat(ws))
  }

  /** The non-whitespace characters a state holds, yielded or buffered. */
  ghost function Held(st: ChunkState): multiset<char> {
    multiset(Text(st.out)) + multiset(Text(st.buf))
  }

  lemma TextOfAppend(a: seq<Str>, b: seq<Str>)
    ensures Text(a + b) == Text(a) + Text(b)
  {
    ConcatAppend(a, b);
    RemoveSpacesAppend(Concat(a), Concat(b));
  }

  lemma TextOfSnoc(a: seq<Str>, w: Str)
    ensures Text(a + [w]) == Text(a) + RemoveSpaces(w)
  {
    ConcatSnoc(a, w);
    RemoveSpacesAppend(Concat(a), w);
  }

  lemma TextOfJoin(ws: seq<Str>)
    ensures RemoveSpaces(Join(ws)) == Text(ws)
  {
    JoinKeepsText(ws);
  }

  /** Flushing or adding a word (lines 67-74) moves the buffer to the output
      whole and adds the word's characters. */
  lemma AddWordHeld(st: ChunkState, p: Str, maxChars: int)
    ensures Held(AddWord(st, p, maxChars)) == Held(st) + multiset(RemoveSpaces(p))
  {
    var r := AddWord(st, p, maxChars);
    if r == ChunkState(st.out, st.buf + [p]) {
      TextOfSnoc(st.buf, p);
    } else {
      assert r == ChunkState(st.out + [Join(st.buf)], [] + [p]);
      TextOfSnoc([], p);
      TextOfSnoc(st.out, Join(st.buf));
      TextOfJoin(st.buf);
    }
  }

  /** One cut of the force split moves the first `hardMaxChars` characters
      of the last word from the buffer to the output. */
  lemma CutHeld(out: seq<Str>, init: seq<Str>, w: Str, hardMaxChars: int)
    requires 0 <= hardMaxChars <= |w|
    ensures Held(ChunkState(out + [w[..hardMaxChars]], init + [w[hardMaxChars..]]))
         == Held(ChunkState(out, init + [w]))
  {
    var a, b := w[..hardMaxChars], w[hardMaxChars..];
    TextOfSnoc(out, a);
    TextOfSnoc(init, b);
    TextOfSnoc(init, w);
    assert w == a + b;
    RemoveSpacesAppend(a, b);
  }

  /** The force split (lines 77-83) drops no character. */
  lemma {:induction false} SplitLongHeld(st: ChunkState, hardMaxChars: int)
    requires hardMaxChars >= 1 && st.buf != []
    ensures Held(SplitLong(st, hardMaxChars)) == Held(st)
    decreases |Last(st.buf)|
  {
    var w := Last(st.buf);
    if |w| > hardMaxChars {
      var init := Init(st.buf);
      var next := ChunkState(st.out + [w[..hardMaxChars]], init + [w[hardMaxChars..]]);
      assert SplitLong(st, hardMaxChars) == SplitLong(next, hardMaxChars);
      assert Last(next.buf) == w[hardMaxChars..];
      SplitLongHeld(next, hardMaxChars);
      assert st == ChunkState(st.out, init + [w]);
      CutHeld(st.out, init, w, hardMaxChars);
    }
  }

  /** The safety valve (lines 86-98) drops no character. */
  lemma ValveHeld(st: ChunkState, hardMaxChars: int)
    ensures Held(Valve(st, hardMaxChars)) == Held(st)
  {
    if BufLen(st.buf) > hardMaxChars {
      var k := FitCount(st.buf, hardMaxChars);
      if k > 0 {
        TextOfSnoc(st.out, Join(st.buf[..k]));
        TextOfJoin(st.buf[..k]);
        assert st.buf == st.buf[..k] + st.buf[k..];
        TextOfAppend(st.buf[..k], st.buf[k..]);
      }
    }
  }

  lemma FeedHeld(st: ChunkState, p: Str, maxChars: int, hardMaxChars: int)
    requires hardMaxChars >= 1
    ensures Held(Feed(st, p, maxChars, hardMaxChars)) == Held(st) + multiset(RemoveSpaces(p))
  {
    if p != [] {
      var st1 := AddWord(st, p, maxChars);
      AddWordHeld(st, p, maxChars);
      SplitLongHeld(st1, hardMaxChars);
      ValveHeld(SplitLong(st1, hardMaxChars), hardMaxChars);
    }
  }

  /** Loop invariant for any `maxChars`: the chunks so far and the buffer
      hold exactly the non-whitespace characters of the parts consumed. */
  lemma {:induction false} RunHeld(parts: seq<Str>, maxChars: int, hardMaxChars: int)
    requires hardMaxChars >= 1
    ensures Held(Run(parts, maxChars, hardMaxChars)) == multiset(RemoveSpaces(Concat(parts)))
    decreases |parts|
  {
    if parts != [] {
      var init, p := Init(parts), Last(parts);
      RunHeld(init, maxChars, hardMaxChars);
      FeedHeld(Run(init, maxChars, hardMaxChars), p, maxChars, hardMaxChars);
      assert parts == init + [p];
      TextOfSnoc(init, p);
    }
  }

  /** Lines 100-101: yielding the rest of the buffer drops no character. */
  lemma FinishHeld(st: ChunkState)
    ensures multiset(RemoveSpaces(Join(Finish(st)))) == Held(st)
  {
    TextOfJoin(Finish(st));
    if st.buf != [] {
      TextOfSnoc(st.out, Join(st.buf));
      TextOfJoin(st.buf);
    }
  }

  // ---------------------------------------------------------------------
  // The generator

  /** Every chunk is a non-empty string of at most `hardMaxChars` characters
      (lines 53-56, 77-83, 86-101), for every `maxChars`. */
  lemma SpaceChunksBounded(text: Str, maxChars: int, hardMaxChars: int)
    requires hardMaxChars >= 1
    ensures forall i :: 0 <= i < |SpaceChunks(text, maxChars, hardMaxChars)| ==>
              0 < |SpaceChunks(text, maxChars, hardMaxChars)[i]| <= hardMaxChars
  {
    if text != [] {
      RunValid(Parts(text), maxChars, hardMaxChars);
      FinishBounded(Run(Parts(text), maxChars, hardMaxChars), hardMaxChars);
    }
  }

  /** Empty or whitespace-only text yields no chunk, and any other text
      yields at least one (lines 58-65, 100-101). */
  lemma SpaceChunksEmpty(text: Str, maxChars: int, hardMaxChars: int)
    requires hardMaxChars >= 1
    ensures SpaceChunks(text, maxChars, hardMaxChars) == [] <==> RemoveSpaces(text) == []
  {
    if text != [] {
      var parts := Parts(text);
      RunEmpty(parts, maxChars, hardMaxChars);
      ConcatAllEmpty(parts);
      ConcatSplitWs(Strip(text));
      StripKeepsNonSpace(text);
    }
  }

  /** With `maxChars <= hardMaxChars`, a chunk holding a space (two or more
      words) is at most `maxChars` long; only a single word or the remainder
      of a cut word can exceed `maxChars` (lines 67-74). */
  lemma SpaceChunksSoftLimit(text: Str, maxChars: int, hardMaxChars: int)
    requires 1 <= hardMaxChars && maxChars <= hardMaxChars
    ensures forall i :: 0 <= i < |SpaceChunks(text, maxChars, hardMaxChars)| ==>
              HasSpace(SpaceChunks(text, maxChars, hardMaxChars)[i]) ==>
              |SpaceChunks(text, maxChars, hardMaxChars)[i]| <= maxChars
  {
    if text != [] {
      RunValid(Parts(text), maxChars, hardMaxChars);
      RunOrdered(Parts(text), maxChars, hardMaxChars);
      FinishSoft(Run(Parts(text), maxChars, hardMaxChars), maxChars, hardMaxChars);
    }
  }

  /** With `maxChars <= hardMaxChars`, the chunks re-joined with single
      spaces are the words in input order, each over-long word cut into its
      pieces, re-joined the same way: no word is dropped or moved. */
  lemma SpaceChunksInOrder(text: Str, maxChars: int, hardMaxChars: int)
    requires 1 <= hardMaxChars && maxChars <= hardMaxChars
    ensures Join(SpaceChunks(text, maxChars, hardMaxChars)) == Join(Pieces(Parts(text), hardMaxChars))
  {
    if text != [] {
      RunOrdered(Parts(text), maxChars, hardMaxChars);
    } else {
      assert Parts(text) == [[]];
      assert Init(Parts(text)) == [];
    }
  }

  /** With `maxChars <= hardMaxChars`, the chunks carry exactly the
      non-whitespace characters of the text, in order. */
  lemma SpaceChunksKeepText(text: Str, maxChars: int, hardMaxChars: int)
    requires 1 <= hardMaxChars && maxChars <= hardMaxChars
    ensures RemoveSpaces(Join(SpaceChunks(text, maxChars, hardMaxChars))) == RemoveSpaces(text)
  {
    var pieces := Pieces(Parts(text), hardMaxChars);
    SpaceChunksInOrder(text, maxChars, hardMaxChars);
    PiecesGood(Parts(text), hardMaxChars);
    RemoveSpacesOfJoin(pieces);
    ConcatPieces(Parts(text), hardMaxChars);
    ConcatSplitWs(Strip(text));
    StripKeepsNonSpace(text);
  }

  lemma {:induction false} PiecesOfShortParts(parts: seq<Str>, hardMaxChars: int)
    requires hardMaxChars >= 1
    requires forall i :: 0 <= i < |parts| ==> parts[i] != [] && |parts[i]| <= hardMaxChars
    ensures Pieces(parts, hardMaxChars) == parts
    decreases |parts|
  {
    if parts != [] {
      var init, w := Init(parts), Last(parts);
      forall i | 0 <= i < |init|
        ensures init[i] != [] && |init[i]| <= hardMaxChars
      {
        assert init[i] == parts[i];
      }
      PiecesOfShortParts(init, hardMaxChars);
      assert w != [] && Frag(w, hardMaxChars) == [w];
      assert parts == init + [w];
    }
  }

  /** When no word is longer than `hardMaxChars`, the chunks re-joined with
      single spaces are the words in input order, for every `maxChars`:
      without a cut, the valve only ever yields the front of the buffer. */
  lemma SpaceChunksInOrderShortWords(text: Str, maxChars: int, hardMaxChars: int)
    requires 1 <= hardMaxChars
    requires forall i :: 0 <= i < |Parts(text)| ==> |Parts(text)[i]| <= hardMaxChars
    ensures Join(SpaceChunks(text, maxChars, hardMaxChars)) == Join(Pieces(Parts(text), hardMaxChars))
  {
    if text != [] {
      RunShort(Parts(text), maxChars, hardMaxChars);
    } else {
      assert Parts(text) == [[]];
      assert Init(Parts(text)) == [];
    }
  }

  /** For every `maxChars`, the chunks hold exactly the non-whitespace
      characters of the text, each as often as the text does: the flush, the
      force split and the valve move buffered text to the output and drop
      none. */
  lemma SpaceChunksKeepCharacters(text: Str, maxChars: int, hardMaxChars: int)
    requires 1 <= hardMaxChars
    ensures multiset(RemoveSpaces(Join(SpaceChunks(text, maxChars, hardMaxChars))))
         == multiset(RemoveSpaces(text))
  {
    if text != [] {
      FinishHeld(Run(Parts(text), maxChars, hardMaxChars));
      RunHeld(Parts(text), maxChars, hardMaxChars);
      ConcatSplitWs(Strip(text));
      RemoveSpacesOfNoSpace(RemoveSpaces(Strip(text)));
      StripKeepsNonSpace(text);
    }
  }

  /** When no word is longer than `hardMaxChars`, `" ".join(chunks)` is the
      stripped text with every whitespace run collapsed to one space, for
      every `maxChars`. */
  lemma SpaceChunksCollapse(text: Str, maxChars: int, hardMaxChars: int)
    requires 1 <= hardMaxChars
    requires forall i :: 0 <= i < |Parts(text)| ==> |Parts(text)[i]| <= hardMaxChars
    ensures Join(SpaceChunks(text, maxChars, hardMaxChars)) == CollapseSpaces(Strip(text))
  {
    SpaceChunksInOrderShortWords(text, maxChars, hardMaxChars);
    JoinSplitWs(Strip(text));
    PiecesOfParts(text, hardMaxChars);
  }

  /** Words within `hardMaxChars` are not cut, and an empty part only
      arises from a blank text, where both sides join to nothing. */
  lemma PiecesOfParts(text: Str, hardMaxChars: int)
    requires 1 <= hardMaxChars
    requires forall i :: 0 <= i < |Parts(text)| ==> |Parts(text)[i]| <= hardMaxChars
    ensures Join(Pieces(Parts(text), hardMaxChars)) == Join(Parts(text))
  {
    if Strip(text) == [] {
      assert Parts(text) == [[]];
      assert Init(Parts(text)) == [];
    } else {
      SplitWsOfStripped(Strip(text));
      PiecesOfShortParts(Parts(text), hardMaxChars);
    }
  }

  lemma LoneWordParts(w: Str)
    requires w != [] && NoSpace(w)
    ensures Parts(w) == [w]
  {
    assert LeadingSpaces(w) == 0;
    assert w[0..] == w;
    assert TrailingSpaces(w) == 0;
    assert Strip(w) == w;
    assert FirstSpace(w) == |w|;
  }

  /** The first word fed to an empty state leaves its pieces. */
  lemma FeedFirstWord(w: Str, maxChars: int, hardMaxChars: int)
    requires hardMaxChars >= 1 && w != [] && NoSpace(w)
    ensures Finish(Feed(ChunkState([], []), w, maxChars, hardMaxChars)) == Frag(w, hardMaxChars)
  {
    var f := Frag(w, hardMaxChars);
    FeedFirstWordState(w, maxChars, hardMaxChars);
    FinishOfOneWord(Init(f), Last(f));
    assert f == Init(f) + [Last(f)];
  }

  lemma FinishOfOneWord(out: seq<Str>, w: Str)
    ensures Finish(ChunkState(out, [w])) == out + [w]
  {
    assert Init([w]) == [] && Last([w]) == w;
  }

  lemma FeedFirstWordState(w: Str, maxChars: int, hardMaxChars: int)
    requires hardMaxChars >= 1 && w != [] && NoSpace(w)
    ensures Feed(ChunkState([], []), w, maxChars, hardMaxChars)
         == ChunkState(Init(Frag(w, hardMaxChars)), [Last(Frag(w, hardMaxChars))])
  {
    var f := Frag(w, hardMaxChars);
    var added := ChunkState([], [] + [w]);
    var split := ChunkState([] + Init(f), [] + [Last(f)]);
    FragGood(w, hardMaxChars);
    assert AddWord(ChunkState([], []), w, maxChars) == added;
    SplitLongIsFrag([], [], w, hardMaxChars);
    assert SplitLong(added, hardMaxChars) == split;
    ValveAfterSplit([] + Init(f), [], Last(f), hardMaxChars);
    assert Valve(split, hardMaxChars) == split;
    assert split == ChunkState(Init(f), [Last(f)]);
  }

  /** A text of one word yields exactly that word's pieces. */
  lemma LoneWord(w: Str, maxChars: int, hardMaxChars: int)
    requires hardMaxChars >= 1 && w != [] && NoSpace(w)
    ensures SpaceChunks(w, maxChars, hardMaxChars) == Frag(w, hardMaxChars)
  {
    LoneWordParts(w);
    assert Init([w]) == [] && Last([w]) == w;
    assert Run([w], maxChars, hardMaxChars) == Feed(ChunkState([], []), w, maxChars, hardMaxChars);
    FeedFirstWord(w, maxChars, hardMaxChars);
  }

  /** A lone word of exactly `hardMaxChars` characters is one chunk (the cut
      at line 77 is strict). */
  lemma LoneWordAtHardLimit(w: Str, maxChars: int, hardMaxChars: int)
    requires hardMaxChars >= 1 && |w| == hardMaxChars && NoSpace(w)
    ensures SpaceChunks(w, maxChars, hardMaxChars) == [w]
  {
    LoneWord(w, maxChars, hardMaxChars);
  }

  /** A lone word of `hardMaxChars + 1` characters yields its first
      `hardMaxChars` characters, then its last character. */
  lemma LoneWordOverHardLimit(w: Str, maxChars: int, hardMaxChars: int)
    requires hardMaxChars >= 1 && |w| == hardMaxChars + 1 && NoSpace(w)
    ensures SpaceChunks(w, maxChars, hardMaxChars) == [w[..hardMaxChars], [w[hardMaxChars]]]
  {
    LoneWord(w, maxChars, hardMaxChars);
    assert Frag(w[hardMaxChars..], hardMaxChars) == [w[hardMaxChars..]];
    assert w[hardMaxChars..] == [w[hardMaxChars]];
  }

  lemma ExampleStrip()
    ensures Strip("a bcd") == "a bcd"
  {
    var text := "a bcd";
    assert !IsSpace(text[0]) && !IsSpace(text[4]);
    assert LeadingSpaces(text) == 0 && text[0..] == text;
    assert TrailingSpaces(text) == 0;
  }

  lemma ExampleSplit()
    ensures SplitWs("a bcd") == ["a", "bcd"]
  {
    var text := "a bcd";
    assert !IsSpace(text[0]) && IsSpace(text[1]);
    assert FirstSpace(text) == 1 && text[..1] == "a";
    assert text[1..] == " bcd";
    ExampleGap();
    SplitWsStep(text, 1, "bcd");
    ExampleWord();
  }

  lemma ExampleGap()
    ensures LeadingSpaces(" bcd") == 1 && " bcd"[1..] == "bcd"
  {
    assert IsSpace(" bcd"[0]) && !IsSpace(" bcd"[1]);
  }

  lemma ExampleWord()
    ensures SplitWs("bcd") == ["bcd"]
  {
    assert !IsSpace("bcd"[0]) && !IsSpace("bcd"[1]) && !IsSpace("bcd"[2]);
    assert FirstSpace("bcd") == 3;
  }

  lemma ExampleParts()
    ensures Parts("a bcd") == ["a", "bcd"]
  {
    ExampleStrip();
    ExampleSplit();
  }

  lemma ExampleFrag()
    ensures Frag("bcd", 2) == ["bc", "d"]
  {
    assert "bcd"[..2] == "bc" && "bcd"[2..] == "d";
    assert Frag("d", 2) == ["d"];
  }

  lemma ExampleFirstWord()
    ensures Run(["a"], 10, 2) == ChunkState([], ["a"])
  {
    assert Init(["a"]) == [] && Last(["a"]) == "a";
    assert AddWord(ChunkState([], []), "a", 10) == ChunkState([], ["a"]);
  }

  lemma ExampleValve()
    ensures Valve(ChunkState(["bc"], ["a", "d"]), 2) == ChunkState(["bc", "a"], ["d"])
  {
    assert BufLen(["a", "d"]) == 3 by {
      assert Init(["a", "d"]) == ["a"];
    }
    assert FitCount(["a", "d"], 2) == 1;
    assert ["a", "d"][..1] == ["a"] && ["a", "d"][1..] == ["d"];
  }

  lemma ExampleSecondWord()
    ensures Feed(ChunkState([], ["a"]), "bcd", 10, 2) == ChunkState(["bc", "a"], ["d"])
  {
    assert AddWord(ChunkState([], ["a"]), "bcd", 10) == ChunkState([], ["a"] + ["bcd"]);
    SplitLongIsFrag([], ["a"], "bcd", 2);
    ExampleFrag();
    assert SplitLong(ChunkState([], ["a", "bcd"]), 2) == ChunkState(["bc"], ["a", "d"]);
    ExampleValve();
  }

  lemma ExampleRun()
    ensures Run(["a", "bcd"], 10, 2) == ChunkState(["bc", "a"], ["d"])
  {
    assert Init(["a", "bcd"]) == ["a"] && Last(["a", "bcd"]) == "bcd";
    ExampleFirstWord();
    ExampleSecondWord();
  }

  lemma ExamplePieces()
    ensures Pieces(["a", "bcd"], 2) == ["a", "bc", "d"]
  {
    assert Init(["a", "bcd"]) == ["a"] && Last(["a", "bcd"]) == "bcd";
    assert Pieces(["a"], 2) == ["a"] by {
      assert Init(["a"]) == [];
    }
    ExampleFrag();
  }

  lemma ExampleJoins()
    ensures Join(["bc", "a", "d"]) != Join(["a", "bc", "d"])
  {
    assert Join(["bc", "a", "d"])[0] == 'b' by {
      assert Init(["bc", "a", "d"]) == ["bc", "a"];
      assert Init(["bc", "a"]) == ["bc"];
    }
    assert Join(["a", "bc", "d"])[0] == 'a' by {
      assert Init(["a", "bc", "d"]) == ["a", "bc"];
      assert Init(["a", "bc"]) == ["a"];
    }
  }

  /** With `maxChars > hardMaxChars` the source breaks word order: for
      "a bcd" with `maxChars == 10` and `hardMaxChars == 2`, the word "bcd"
      is appended to a non-empty buffer, its first piece "bc" is yielded at
      line 79 ahead of the buffered "a", and the valve then yields "a". */
  lemma OrderBrokenWhenSoftAboveHard()
    ensures SpaceChunks("a bcd", 10, 2) == ["bc", "a", "d"]
    ensures Join(SpaceChunks("a bcd", 10, 2)) != Join(Pieces(Parts("a bcd"), 2))
  {
    ExampleParts();
    ExampleRun();
    assert Finish(ChunkState(["bc", "a"], ["d"])) == ["bc", "a", "d"];
    ExamplePieces();
    ExampleJoins();
  }
}
