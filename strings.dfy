/**
 * Character classes and the list/string primitives the tokenizer relies on:
 * Python's whitespace test, `str.strip()`, `re.split(r"\s+", ...)` and
 * `" ".join(...)`, each as a function on `seq<char>`.
 */
module Strings {

  type Str = seq<char>

  /** Python's `str.isspace()` for one character, which is also what the
      `\s` class of `re` matches on `str` patterns and what `str.strip()`
      removes. */
  predicate IsSpace(c: char) {
    c in SpaceChars
  }

  /** U+0009..U+000D, U+001C..U+001F, U+0020, U+0085, U+00A0, U+1680,
      U+2000..U+200A, U+2028, U+2029, U+202F, U+205F and U+3000. */
  const SpaceChars: set<char> := {
    '\U{0009}', '\U{000A}', '\U{000B}', '\U{000C}', '\U{000D}', '\U{001C}', '\U{001D}',
    '\U{001E}', '\U{001F}', '\U{0020}', '\U{0085}', '\U{00A0}', '\U{1680}', '\U{2000}',
    '\U{2001}', '\U{2002}', '\U{2003}', '\U{2004}', '\U{2005}', '\U{2006}', '\U{2007}',
    '\U{2008}', '\U{2009}', '\U{200A}', '\U{2028}', '\U{2029}', '\U{202F}', '\U{205F}',
    '\U{3000}'
  }

  predicate NoSpace(s: Str) {
    forall i :: 0 <= i < |s| ==> !IsSpace(s[i])
  }

  predicate HasSpace(s: Str) {
    exists i :: 0 <= i < |s| && IsSpace(s[i])
  }

  /** The characters of `s` that are not whitespace, in order. */
  function RemoveSpaces(s: Str): (r: Str)
    ensures NoSpace(r) && |r| <= |s|
  {
    if s == [] then []
    else (if IsSpace(s[0]) then [] else [s[0]]) + RemoveSpaces(s[1..])
  }

  /** Number of whitespace characters at the front of `s`. */
  function LeadingSpaces(s: Str): (n: nat)
    ensures n <= |s|
    ensures forall i :: 0 <= i < n ==> IsSpace(s[i])
    ensures n < |s| ==> !IsSpace(s[n])
  {
    if s != [] && IsSpace(s[0]) then 1 + LeadingSpaces(s[1..]) else 0
  }

  /** Number of whitespace characters at the end of `s`. */
  function TrailingSpaces(s: Str): (n: nat)
    ensures n <= |s|
    ensures forall i :: |s| - n <= i < |s| ==> IsSpace(s[i])
    ensures n < |s| ==> !IsSpace(s[|s| - 1 - n])
  {
    if s != [] && IsSpace(s[|s| - 1]) then 1 + TrailingSpaces(s[..|s| - 1]) else 0
  }

  /** Index of the first whitespace character of `s`, or `|s|` if none. */
  function FirstSpace(s: Str): (k: nat)
    ensures k <= |s|
    ensures forall i :: 0 <= i < k ==> !IsSpace(s[i])
    ensures k < |s| ==> IsSpace(s[k])
  {
    if s == [] || IsSpace(s[0]) then 0 else 1 + FirstSpace(s[1..])
  }

  /** Python's `s.strip()` (no argument): whitespace removed at both ends. */
  function Strip(s: Str): (r: Str)
    ensures r == [] || (!IsSpace(r[0]) && !IsSpace(r[|r| - 1]))
  {
    var t := s[LeadingSpaces(s)..];
    t[..|t| - TrailingSpaces(t)]
  }

  /** `strip()` cuts off whitespace at both ends and nothing else: its
      result is a slice of `s` with only whitespace before and after it,
      so inner whitespace stays. */
  lemma StripIsTrim(s: Str)
    ensures exists i, j :: 0 <= i <= j <= |s| && Strip(s) == s[i..j]
              && (forall k :: 0 <= k < i ==> IsSpace(s[k]))
              && (forall k :: j <= k < |s| ==> IsSpace(s[k]))
  {
    var i := LeadingSpaces(s);
    var t := s[i..];
    var j := i + |t| - TrailingSpaces(t);
    assert Strip(s) == s[i..j];
    forall k | j <= k < |s|
      ensures IsSpace(s[k])
    {
      assert s[k] == t[k - i];
    }
  }

  /** Python's `re.split(r"\s+", s)`: the pieces between the maximal runs of
      whitespace; a run at either end gives an empty piece there. */
  function SplitWs(s: Str): (parts: seq<Str>)
    ensures |parts| >= 1
    ensures forall i :: 0 <= i < |parts| ==> NoSpace(parts[i])
    decreases |s|
  {
    var k := FirstSpace(s);
    if k == |s| then [s]
    else
      var t := s[k..];
      [s[..k]] + SplitWs(t[LeadingSpaces(t)..])
  }

  /** `s` with every maximal run of whitespace replaced by one `' '`. */
  function CollapseSpaces(s: Str): (r: Str)
    ensures |r| <= |s|
    decreases |s|
  {
    if s == [] then []
    else if IsSpace(s[0]) then [' '] + CollapseSpaces(s[LeadingSpaces(s)..])
    else [s[0]] + CollapseSpaces(s[1..])
  }

  /** Python's `" ".join(ws)`. */
  function Join(ws: seq<Str>): Str {
    if |ws| == 0 then []
    else if |ws| == 1 then ws[0]
    else Join(ws[..|ws| - 1]) + " " + ws[|ws| - 1]
  }

  /** Python's `sum(len(x) for x in ws) + max(0, len(ws) - 1)`. */
  function BufLen(ws: seq<Str>): nat {
    if |ws| == 0 then 0
    else if |ws| == 1 then |ws[0]|
    else BufLen(ws[..|ws| - 1]) + 1 + |ws[|ws| - 1]|
  }

  /** Python's `"".join(ws)`. */
  function Concat(ws: seq<Str>): Str {
    if ws == [] then [] else ws[0] + Concat(ws[1..])
  }

  lemma {:induction false} RemoveSpacesAppend(a: Str, b: Str)
    ensures RemoveSpaces(a + b) == RemoveSpaces(a) + RemoveSpaces(b)
    decreases |a|
  {
    if a != [] {
      assert (a + b)[1..] == a[1..] + b;
      RemoveSpacesAppend(a[1..], b);
    } else {
      assert a + b == b;
    }
  }

  lemma {:induction false} RemoveSpacesOfNoSpace(s: Str)
    requires NoSpace(s)
    ensures RemoveSpaces(s) == s
    decreases |s|
  {
    if s != [] {
      RemoveSpacesOfNoSpace(s[1..]);
    }
  }

  lemma {:induction false} RemoveSpacesOfSpaces(s: Str)
    requires forall i :: 0 <= i < |s| ==> IsSpace(s[i])
    ensures RemoveSpaces(s) == []
    decreases |s|
  {
    if s != [] {
      RemoveSpacesOfSpaces(s[1..]);
    }
  }

  /** `strip()` removes only whitespace: the other characters survive, in order. */
  lemma StripKeepsNonSpace(s: Str)
    ensures RemoveSpaces(Strip(s)) == RemoveSpaces(s)
  {
    var t := s[LeadingSpaces(s)..];
    DropLeadingSpaces(s);
    DropTrailingSpaces(t);
  }

  lemma DropLeadingSpaces(s: Str)
    ensures RemoveSpaces(s[LeadingSpaces(s)..]) == RemoveSpaces(s)
  {
    var n := LeadingSpaces(s);
    assert s == s[..n] + s[n..];
    RemoveSpacesAppend(s[..n], s[n..]);
    RemoveSpacesOfSpaces(s[..n]);
  }

  lemma DropTrailingSpaces(t: Str)
    ensures RemoveSpaces(t[..|t| - TrailingSpaces(t)]) == RemoveSpaces(t)
  {
    var m := |t| - TrailingSpaces(t);
    var tail := t[m..];
    assert t == t[..m] + tail;
    forall i | 0 <= i < |tail| ensures IsSpace(tail[i]) {
      assert tail[i] == t[m + i];
    }
    RemoveSpacesAppend(t[..m], tail);
    RemoveSpacesOfSpaces(tail);
  }

  lemma {:induction false} JoinAppend(a: seq<Str>, b: seq<Str>)
    requires a != [] && b != []
    ensures Join(a + b) == Join(a) + " " + Join(b)
    decreases |b|
  {
    if |b| == 1 {
      assert (a + b)[..|a + b| - 1] == a;
    } else {
      var b' := b[..|b| - 1];
      assert (a + b)[..|a + b| - 1] == a + b';
      JoinAppend(a, b');
    }
  }

  lemma {:induction false} BufLenAppend(ws: seq<Str>, w: Str)
    ensures BufLen(ws + [w]) == BufLen(ws) + (if |ws| > 0 then 1 else 0) + |w|
  {
    assert (ws + [w])[..|ws|] == ws;
  }

  /** `cur_len` bookkeeping is the length of the joined buffer. */
  lemma {:induction false} JoinLength(ws: seq<Str>)
    ensures |Join(ws)| == BufLen(ws)
    decreases |ws|
  {
    if |ws| > 1 {
      JoinLength(ws[..|ws| - 1]);
    }
  }

  /** Every prefix of a buffer is no longer, once joined, than the buffer. */
  lemma {:induction false} BufLenPrefix(ws: seq<Str>, j: nat)
    requires j <= |ws|
    ensures BufLen(ws[..j]) <= BufLen(ws)
    decreases |ws| - j
  {
    if j < |ws| {
      BufLenPrefix(ws, j + 1);
      assert ws[..j + 1] == ws[..j] + [ws[j]];
      BufLenAppend(ws[..j], ws[j]);
    } else {
      assert ws[..j] == ws;
    }
  }

  /** Joining words that hold no whitespace puts whitespace only between them:
      one word joins to itself, and the whitespace-free content is their
      concatenation. */
  lemma RemoveSpacesOfJoin(ws: seq<Str>)
    requires forall i :: 0 <= i < |ws| ==> NoSpace(ws[i])
    ensures RemoveSpaces(Join(ws)) == Concat(ws)
  {
    JoinKeepsText(ws);
    ConcatNoSpace(ws);
    RemoveSpacesOfNoSpace(Concat(ws));
  }

  /** Joining with spaces adds only whitespace, whatever the words hold. */
  lemma {:induction false} JoinKeepsText(ws: seq<Str>)
    ensures RemoveSpaces(Join(ws)) == RemoveSpaces(Concat(ws))
    decreases |ws|
  {
    if |ws| == 1 {
      assert ws[1..] == [];
      assert Concat(ws) == ws[0] + Concat([]) == ws[0];
      assert Join(ws) == ws[0];
    } else if |ws| > 1 {
      var init := ws[..|ws| - 1];
      var last := ws[|ws| - 1];
      JoinKeepsText(init);
      RemoveSpacesOfSep(Join(init), last);
      ConcatSnoc(init, last);
      RemoveSpacesAppend(Concat(init), last);
      assert ws == init + [last];
    }
  }

  /** The space `" ".join` puts between two words is dropped. */
  lemma RemoveSpacesOfSep(a: Str, b: Str)
    ensures RemoveSpaces(a + " " + b) == RemoveSpaces(a) + RemoveSpaces(b)
  {
    var a1 := a + " ";
    RemoveSpacesAppend(a1, b);
    RemoveSpacesAppend(a, " ");
    RemoveSpacesOfSpaceChar(' ');
  }

  lemma RemoveSpacesOfSpaceChar(c: char)
    requires IsSpace(c)
    ensures RemoveSpaces([c]) == []
  {
    assert [c][1..] == [];
  }

  lemma {:induction false} ConcatNoSpace(ws: seq<Str>)
    requires forall i :: 0 <= i < |ws| ==> NoSpace(ws[i])
    ensures NoSpace(Concat(ws))
    decreases |ws|
  {
    if ws != [] {
      var rest := ws[1..];
      forall i | 0 <= i < |rest| ensures NoSpace(rest[i]) {
        assert rest[i] == ws[i + 1];
      }
      ConcatNoSpace(rest);
      NoSpaceAppend(ws[0], Concat(rest));
    }
  }

  lemma NoSpaceAppend(a: Str, b: Str)
    requires NoSpace(a) && NoSpace(b)
    ensures NoSpace(a + b)
  {
    forall i | 0 <= i < |a + b| ensures !IsSpace((a + b)[i]) {
      if i >= |a| {
        assert (a + b)[i] == b[i - |a|];
      }
    }
  }

  lemma {:induction false} ConcatSnoc(ws: seq<Str>, w: Str)
    ensures Concat(ws + [w]) == Concat(ws) + w
    decreases |ws|
  {
    if ws == [] {
      assert Concat([w]) == w + Concat([]);
    } else {
      assert (ws + [w])[1..] == ws[1..] + [w];
      ConcatSnoc(ws[1..], w);
    }
  }

  lemma {:induction false} ConcatAppend(a: seq<Str>, b: seq<Str>)
    ensures Concat(a + b) == Concat(a) + Concat(b)
    decreases |a|
  {
    if a == [] {
      assert a + b == b;
    } else {
      assert (a + b)[1..] == a[1..] + b;
      ConcatAppend(a[1..], b);
    }
  }

  /** One step of `re.split(r"\s+", s)`: the word before the first
      whitespace run, then the split of what follows the run. */
  lemma SplitWsStep(s: Str, k: nat, u: Str)
    requires k == FirstSpace(s) && k < |s|
    requires u == s[k..][LeadingSpaces(s[k..])..]
    ensures SplitWs(s) == [s[..k]] + SplitWs(u)
  {
  }

  /** The pieces of `re.split(r"\s+", s)` hold exactly the non-whitespace
      characters of `s`, in order. */
  lemma {:induction false} ConcatSplitWs(s: Str)
    ensures Concat(SplitWs(s)) == RemoveSpaces(s)
    decreases |s|
  {
    var k := FirstSpace(s);
    if k == |s| {
      RemoveSpacesOfNoSpace(s);
      assert Concat([s]) == s + Concat([]);
    } else {
      var t := s[k..];
      var u := t[LeadingSpaces(t)..];
      calc {
        Concat(SplitWs(s));
        { SplitWsStep(s, k, u); }
        Concat([s[..k]] + SplitWs(u));
        { assert ([s[..k]] + SplitWs(u))[1..] == SplitWs(u); }
        s[..k] + Concat(SplitWs(u));
        { ConcatSplitWs(u); }
        s[..k] + RemoveSpaces(u);
        { RemoveSpacesStep(s, k); }
        RemoveSpaces(s);
      }
    }
  }

  /** The non-whitespace characters of `s` are its first word, then those
      after the whitespace run that follows it. */
  lemma RemoveSpacesStep(s: Str, k: nat)
    requires k == FirstSpace(s) && k < |s|
    ensures RemoveSpaces(s) == s[..k] + RemoveSpaces(s[k..][LeadingSpaces(s[k..])..])
  {
    var t := s[k..];
    var w := s[..k];
    assert s == w + t;
    assert NoSpace(w) by {
      forall i | 0 <= i < |w| ensures !IsSpace(w[i]) {
        assert w[i] == s[i];
      }
    }
    RemoveSpacesAppend(w, t);
    RemoveSpacesOfNoSpace(w);
    DropLeadingSpaces(t);
  }

  /** Removing leading non-whitespace commutes with collapsing. */
  lemma {:induction false} CollapseAfterWord(s: Str, k: nat)
    requires k <= |s|
    requires forall i :: 0 <= i < k ==> !IsSpace(s[i])
    ensures CollapseSpaces(s) == s[..k] + CollapseSpaces(s[k..])
    decreases k
  {
    if k > 0 {
      assert CollapseSpaces(s) == [s[0]] + CollapseSpaces(s[1..]);
      CollapseAfterWord(s[1..], k - 1);
      assert s[1..][k - 1..] == s[k..];
      assert s[..k] == [s[0]] + s[1..][..k - 1];
    } else {
      assert s[..k] == [] && s[k..] == s;
    }
  }

  /** `" ".join(re.split(r"\s+", s))` is `s` with each whitespace run
      collapsed to one space. */
  lemma {:induction false} JoinSplitWs(s: Str)
    ensures Join(SplitWs(s)) == CollapseSpaces(s)
    decreases |s|
  {
    var k := FirstSpace(s);
    CollapseAfterWord(s, k);
    if k == |s| {
      assert s[k..] == [] && s[..k] == s;
    } else {
      var t := s[k..];
      var u := t[LeadingSpaces(t)..];
      calc {
        Join(SplitWs(s));
        { SplitWsStep(s, k, u); }
        Join([s[..k]] + SplitWs(u));
        { JoinCons(s[..k], SplitWs(u)); }
        s[..k] + " " + Join(SplitWs(u));
        { JoinSplitWs(u); }
        s[..k] + " " + CollapseSpaces(u);
        { CollapseRun(t, u); }
        s[..k] + CollapseSpaces(t);
      }
    }
  }

  lemma JoinCons(w: Str, ws: seq<Str>)
    requires ws != []
    ensures Join([w] + ws) == w + " " + Join(ws)
  {
    JoinAppend([w], ws);
  }

  lemma CollapseRun(t: Str, u: Str)
    requires t != [] && IsSpace(t[0]) && u == t[LeadingSpaces(t)..]
    ensures CollapseSpaces(t) == " " + CollapseSpaces(u)
  {
  }

  /** Splitting a stripped, non-empty string never yields an empty piece. */
  lemma {:induction false} SplitWsOfStripped(s: Str)
    requires s != [] && !IsSpace(s[0]) && !IsSpace(s[|s| - 1])
    ensures forall i :: 0 <= i < |SplitWs(s)| ==> SplitWs(s)[i] != []
    decreases |s|
  {
    var k := FirstSpace(s);
    if k < |s| {
      var t := s[k..];
      var n := LeadingSpaces(t);
      var u := t[n..];
      assert n < |t| by {
        assert !IsSpace(t[|t| - 1]);
      }
      SplitWsOfStripped(u);
      assert SplitWs(s) == [s[..k]] + SplitWs(u);
    }
  }
}
