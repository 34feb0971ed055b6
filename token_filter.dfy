/**
 * The per-morpheme decisions of `base_tokenize` in
 * note/utils/lyric_tokenizer.py: how the `keep_pos` and `ng_words`
 * arguments become sets (lines 126-140), which form of a morpheme becomes
 * its token (`normalize_baseform`, lines 29-32), and whether a morpheme
 * yields a token at all (lines 153-167).
 */
module TokenFilter {
  import opened Strings

  datatype Option<T> = None | Some(value: T)

  /** What the filter reads from a Sudachi morpheme: `surface()`,
      `dictionary_form()` and `part_of_speech()[0]`. */
  datatype Morpheme = Morpheme(surface: Str, dictionaryForm: Str, pos: Str)

  /** An argument typed `Sequence[str] | str | bool`. */
  datatype OptionArg = Flag(b: bool) | Tag(tag: Str) | Tags(tags: seq<Str>)

  /** `DEFAULT_KEEP_POS` (line 14). */
  const DefaultKeepPos: set<Str> := {"名詞", "形容詞", "動詞", "代名詞", "連体詞"}

  /** `NG_SURFACE` (line 26): empty. */
  const NgSurface: set<Str> := {}

  /** Parts of speech whose token is the dictionary form (line 32). */
  const BaseformPos: set<Str> := {"動詞", "形容詞"}

  /** Lines 126-132. */
  function ResolveKeepPos(arg: OptionArg): set<Str> {
    match arg
    case Flag(b) => if b then DefaultKeepPos else {}
    case Tag(t) => {t}
    case Tags(ts) => set t | t in ts
  }

  /** Lines 134-140. */
  function ResolveNgWords(arg: OptionArg): set<Str> {
    match arg
    case Flag(b) => if !b then {} else NgSurface
    case Tag(w) => {w}
    case Tags(ws) => set w | w in ws
  }

  /** Line 154: an empty keep set lets every part of speech through. */
  predicate PosPasses(pos: Str, keep: set<Str>) {
    keep == {} || pos in keep
  }

  /** `normalize_baseform` (lines 29-32). */
  function NormalizeBaseform(m: Morpheme): Str {
    if m.pos in BaseformPos then m.dictionaryForm else m.surface
  }

  /** The body of the morpheme loop (lines 153-167): the token the morpheme
      appends, if any.  The NG check of line 159 only runs when the NG set
      is non-empty; the empty-token check of line 166 runs always. */
  function Accept(m: Morpheme, keep: set<Str>, ng: set<Str>): (r: Option<Str>)
    ensures r.Some? <==> PosPasses(m.pos, keep) && NormalizeBaseform(m) != [] && NormalizeBaseform(m) !in ng
    ensures r.Some? ==> r.value == (if m.pos == "動詞" || m.pos == "形容詞" then m.dictionaryForm else m.surface)
  {
    if keep != {} && m.pos !in keep then None
    else
      var surf := NormalizeBaseform(m);
      if ng != {} && (surf == [] || surf in ng) then None
      else if surf != [] then Some(surf)
      else None
  }

  /** `keep_pos=True` keeps exactly the default parts of speech,
      `keep_pos=False` keeps every part of speech, a string keeps exactly
      that one, and a sequence keeps those listed (all of them when it is
      empty). */
  lemma KeepPosMeaning(arg: OptionArg, pos: Str)
    ensures PosPasses(pos, ResolveKeepPos(arg)) <==>
      match arg
      case Flag(b) => !b || pos in {"名詞", "形容詞", "動詞", "代名詞", "連体詞"}
      case Tag(t) => pos == t
      case Tags(ts) => ts == [] || pos in ts
  {
    match arg
    case Flag(b) =>
    case Tag(t) =>
    case Tags(ts) =>
      if ts != [] {
        assert ts[0] in ResolveKeepPos(arg);
      }
  }

  /** A boolean `ng_words` excludes nothing (`NG_SURFACE` is empty), a
      string excludes exactly that word and a sequence the words listed. */
  lemma NgWordsMeaning(arg: OptionArg, w: Str)
    ensures w in ResolveNgWords(arg) <==>
      match arg
      case Flag(_) => false
      case Tag(t) => w == t
      case Tags(ws) => w in ws
  {
  }

  /** No token is empty or an NG word. */
  lemma AcceptSound(m: Morpheme, keep: set<Str>, ng: set<Str>)
    requires Accept(m, keep, ng).Some?
    ensures Accept(m, keep, ng).value != [] && Accept(m, keep, ng).value !in ng
  {
  }

  /** A verb yields its dictionary form whatever its surface. */
  lemma VerbYieldsDictionaryForm()
    ensures Accept(Morpheme("走っ", "走る", "動詞"), ResolveKeepPos(Flag(true)), ResolveNgWords(Flag(false)))
         == Some("走る")
  {
    assert "動詞" in DefaultKeepPos;
  }

  /** A noun yields its surface form; a particle is dropped under the default
      keep set and kept with `keep_pos=False`. */
  lemma NounAndParticle()
    ensures Accept(Morpheme("猫", "猫", "名詞"), ResolveKeepPos(Flag(true)), {}) == Some("猫")
    ensures Accept(Morpheme("は", "は", "助詞"), ResolveKeepPos(Flag(true)), {}) == None
    ensures Accept(Morpheme("は", "は", "助詞"), ResolveKeepPos(Flag(false)), {}) == Some("は")
  {
    assert "名詞" in DefaultKeepPos;
    assert "助詞" !in DefaultKeepPos;
  }

  /** An NG word given as a string is dropped, other words are not. */
  lemma NgWordDropped()
    ensures Accept(Morpheme("猫", "猫", "名詞"), {}, ResolveNgWords(Tag("猫"))) == None
    ensures Accept(Morpheme("犬", "犬", "名詞"), {}, ResolveNgWords(Tag("猫"))) == Some("犬")
  {
    assert "犬" != "猫";
  }
}
