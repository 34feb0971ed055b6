# Lyric tokenizer: chunked tokenisation pipeline

This project models `note/utils/lyric_tokenizer.py` of a lyrics-analysis
repository and proves properties of the model. `base_tokenize` turns a song's
lyrics into a list of Japanese word tokens in four steps:

1. It cleans the text: NFKC normalisation, then deletion of a fixed set of
   punctuation "noise" characters.
2. It cuts the text into chunks at whitespace. A chunk is at most `max_chars`
   characters where possible and never more than `hard_max_chars`. A word
   longer than `hard_max_chars` is cut inside the word.
3. It runs the Sudachi morphological analyser on each chunk.
4. For each morpheme, it keeps the dictionary form (verbs, adjectives) or the
   surface form (everything else), provided that:
   - the part of speech is in the keep set (an empty keep set keeps all);
   - the form is non-empty;
   - the form is not an NG word.

An exception while processing one chunk stops processing that chunk; the
tokens already appended from it are kept. Processing goes on with the next
chunk.

Modules:

- `Strings` (`strings.dfy`) holds the Python string operations the code relies
  on, and their algebra. These are `str.isspace`, `str.strip`,
  `re.split(r"\s+", ...)`, `" ".join` and the running length `cur_len`.
- `TextNormalizer` (`text_normalizer.dfy`) holds `_clean_text` and the noise
  set. NFKC is a parameter `nfkc`.
- `Chunker` (`chunker.dfy`) holds `_iter_space_chunks`. It has two parts:
  - `SpaceChunks` is a fold of one step function `Feed` per word, which
    composes adding a word (`AddWord`), the force split (`SplitLong`) and the
    safety valve (`Valve`);
  - the methods `IterSpaceChunks`, `FeedWord` and `SafetyValve` keep the
    source's loops and buffer, and are proved to yield exactly `SpaceChunks`.
- `ChunkerProperties` (`chunker_properties.dfy`) proves what the chunker
  guarantees. It does so against an independent reference, `Frag`, a word cut
  into `hard_max_chars` pieces.
- `TokenFilter` (`token_filter.dfy`) holds:
  - the resolution of the `keep_pos` and `ng_words` arguments;
  - `normalize_baseform`;
  - the per-morpheme decision `Accept`.
- `Pipeline` (`pipeline.dfy`) holds `base_tokenize`:
  - the method `BaseTokenize` runs the pipeline; its loop over the chunks
    is the method `TokenizeChunks`, and the per-chunk `try` with its
    morpheme loop and `continue`s is the method `AnalyseChunk`;
  - the specification function is `Tokenize`.

The analyser is modelled as a function from a chunk to an `Analysis`. An
`Analysis` holds the morphemes of the chunk and the index, if any, of the
morpheme whose processing raises. Processing of that chunk stops there. The
tokens already appended from it stay, as in the code (the append is the last
statement of the loop body). A failing chunk is therefore not discarded
whole. The model follows the code.

When `max_chars > hard_max_chars` (the defaults are 2000 and 4000), the
chunker can emit words out of order. `ChunkerProperties.OrderBrokenWhenSoftAboveHard`
shows this on `"a bcd"` with `max_chars == 10` and `hard_max_chars == 2`: the
output is `["bc", "a", "d"]`. The cause:

- the force split yields the first piece of a long word straight away, while
  earlier words still wait in the buffer;
- the safety valve then yields those earlier words.

The order theorems are therefore stated for `max_chars <= hard_max_chars`, or
for texts with no word over `hard_max_chars`. That no character is lost holds
for every `max_chars`.

## Model

Rows for definitions without an `ensures` clause give what the definition
states and name the lemmas that prove its properties.

| member | source | states |
|---|---|---|
| `Strings.IsSpace` | note/utils/lyric_tokenizer.py:23 | the 29 characters Python's `\s` and `str.isspace()` match: what `_SPACE_SPLIT` splits on and what `strip()` removes |
| `Strings.Strip` | note/utils/lyric_tokenizer.py:60 | `text.strip()` leaves no whitespace at either end |
| `Strings.StripIsTrim` | note/utils/lyric_tokenizer.py:60 | the stripped text is a slice of the text with only whitespace before and after it, so inner whitespace is kept |
| `Strings.StripKeepsNonSpace` | note/utils/lyric_tokenizer.py:60 | stripping removes only whitespace: the non-whitespace characters survive, in order |
| `Strings.SplitWs` | note/utils/lyric_tokenizer.py:23 | `re.split(r"\s+", ...)` yields at least one part, and no part contains whitespace |
| `Strings.ConcatSplitWs` | note/utils/lyric_tokenizer.py:60 | the parts of the split, concatenated, are exactly the non-whitespace characters of the text, in order |
| `Strings.SplitWsOfStripped` | note/utils/lyric_tokenizer.py:60 | splitting a stripped non-empty text yields no empty part |
| `Strings.JoinSplitWs` | note/utils/lyric_tokenizer.py:60 | re-joining the parts with single spaces collapses each whitespace run to one space |
| `Strings.Join` | note/utils/lyric_tokenizer.py:69 | `" ".join(ws)`: the words in order with one space between neighbours; `JoinKeepsText`, `JoinLength` and `JoinSplitWs` are its properties |
| `Strings.BufLen` | note/utils/lyric_tokenizer.py:83 | `sum(len(x) for x in buf) + max(0, len(buf) - 1)`; `JoinLength` proves it is the length of `" ".join(buf)` |
| `Strings.JoinKeepsText` | note/utils/lyric_tokenizer.py:69 | `" ".join(ws)` adds only whitespace: its non-whitespace characters are those of the words, in order |
| `Strings.JoinLength` | note/utils/lyric_tokenizer.py:83 | the running length `sum(len(x)) + max(0, len(buf) - 1)` is the length of `" ".join(buf)` |
| `TextNormalizer.StripNoise` | note/utils/lyric_tokenizer.py:42-44 | the translated text contains no noise character and is no longer than the input |
| `TextNormalizer.StripNoiseCounts` | note/utils/lyric_tokenizer.py:17-44 | every character outside `NOISE_CHARS` keeps its number of occurrences |
| `TextNormalizer.CleanText` | note/utils/lyric_tokenizer.py:39-45 | the cleaned text has no noise character, and is the NFKC text with exactly the noise characters deleted (counts of all other characters unchanged) |
| `TextNormalizer.StripNoiseKeepsSpaces` | note/utils/lyric_tokenizer.py:40-44 | the whitespace of the NFKC text survives cleaning, in order |
| `TextNormalizer.StripNoiseIdempotent` | note/utils/lyric_tokenizer.py:42-44 | deleting the noise characters a second time changes nothing |
| `TextNormalizer.CleanTextIdempotentWhenStable` | note/utils/lyric_tokenizer.py:39-45 | cleaning twice equals cleaning once whenever NFKC leaves the cleaned text unchanged |
| `Chunker.Parts` | note/utils/lyric_tokenizer.py:60 | `_SPACE_SPLIT.split(text.strip())`, the split of the stripped text; `SplitWsOfStripped` and `ConcatSplitWs` are its properties |
| `Chunker.AddWord` | note/utils/lyric_tokenizer.py:67-74 | when the buffer is empty or `" ".join(buf + [p])` is within `max_chars`, `p` is appended and nothing is yielded; otherwise `" ".join(buf)` is yielded after the chunks already yielded, and the buffer becomes `[p]` |
| `Chunker.SplitLong` | note/utils/lyric_tokenizer.py:77-83 | after the force-split loop the last buffered word is at most `hard_max_chars` long |
| `Chunker.FitFrom` | note/utils/lyric_tokenizer.py:89-94 | from word `i` with running total `total`, the index at which the `enumerate(buf)` loop breaks, or `len(buf)`; its ensures bound it between `i` and `len(buf)`, and `FitFromSpec` says everything before it fits and one more word would not |
| `Chunker.FitCount` | note/utils/lyric_tokenizer.py:87-94 | the number of leading words the valve takes (`len(out)`); `FitCountSpec` says it is the longest prefix that fits within `hard_max_chars` |
| `Chunker.Valve` | note/utils/lyric_tokenizer.py:86-98 | when the joined buffer is over `hard_max_chars` and some prefix fits, that prefix is yielded joined and dropped from the buffer; otherwise nothing changes. `ValveAfterSplit` and `ValveHeld` are its properties |
| `Chunker.Feed` | note/utils/lyric_tokenizer.py:64-98 | one iteration of `for p in parts`: an empty part is skipped, any other goes through flush-or-append, the force split and the valve; `FeedValid`, `FeedShape`, `FeedShortState` and `FeedHeld` are its properties |
| `Chunker.Run` | note/utils/lyric_tokenizer.py:62-98 | the yielded chunks and the buffer after the loop has consumed the given parts, starting from nothing; `RunValid`, `RunOrdered`, `RunShort`, `RunHeld` and `RunEmpty` are its properties |
| `Chunker.Finish` | note/utils/lyric_tokenizer.py:100-101 | the chunks yielded in the loop, then `" ".join(buf)` when the buffer is not empty |
| `Chunker.SpaceChunks` | note/utils/lyric_tokenizer.py:48-101 | everything `_iter_space_chunks` yields: nothing for empty text, otherwise `Finish` of `Run` over the parts. `IterSpaceChunks` is proved equal to it, and the `SpaceChunks*` and `LoneWord*` lemmas state what it promises |
| `Chunker.IterSpaceChunks` | note/utils/lyric_tokenizer.py:48-101 | the generator with its loops yields exactly `SpaceChunks(text, max_chars, hard_max_chars)` |
| `Chunker.FeedWord` | note/utils/lyric_tokenizer.py:64-98 | one pass of the `for p in parts` body for a non-empty part performs the step `Feed`, and `cur_len` stays the length of `" ".join(buf)` |
| `Chunker.SafetyValve` | note/utils/lyric_tokenizer.py:86-98 | the valve loop over `enumerate(buf)` performs `Valve`, and `cur_len` stays the length of `" ".join(buf)` |
| `ChunkerProperties.Frag` | note/utils/lyric_tokenizer.py:77-83 | a cut word is pieces of exactly `hard_max_chars` characters followed by a remainder of at most `hard_max_chars` (non-empty for a non-empty word), and the pieces concatenate back to the word |
| `ChunkerProperties.SplitLongIsFrag` | note/utils/lyric_tokenizer.py:77-83 | the force-split loop yields all pieces of the last word but the last one, in order, and leaves that one buffered |
| `ChunkerProperties.FitCountSpec` | note/utils/lyric_tokenizer.py:87-94 | the valve takes the longest prefix of the buffer whose joined length is within `hard_max_chars` |
| `ChunkerProperties.ValveAfterSplit` | note/utils/lyric_tokenizer.py:86-98 | when the valve fires after a force split, it yields exactly the words before the last one and keeps the last one |
| `ChunkerProperties.FeedValid` | note/utils/lyric_tokenizer.py:64-98 | one iteration keeps the buffer within `hard_max_chars` and every yielded chunk non-empty and within `hard_max_chars`, for any `max_chars` |
| `ChunkerProperties.RunValid` | note/utils/lyric_tokenizer.py:62-98 | the loop invariant above holds after any number of parts |
| `ChunkerProperties.ValveNeverFires` | note/utils/lyric_tokenizer.py:67-86 | with `max_chars <= hard_max_chars`, `cur_len` never exceeds `hard_max_chars` before the valve, so the valve never fires |
| `ChunkerProperties.FeedShortState` | note/utils/lyric_tokenizer.py:64-98 | for every `max_chars`, a word within `hard_max_chars` is appended when the joined buffer stays within both limits; otherwise the buffer is yielded and the word starts a new one |
| `ChunkerProperties.FeedShort` | note/utils/lyric_tokenizer.py:64-98 | for every `max_chars`, an iteration on a word within `hard_max_chars` appends that word, after one space, to the chunks and buffer joined by spaces |
| `ChunkerProperties.RunShort` | note/utils/lyric_tokenizer.py:62-98 | for every `max_chars`, when no part is over `hard_max_chars`, the chunks and buffer joined by spaces are the parts consumed so far, in order |
| `ChunkerProperties.AddWordHeld` | note/utils/lyric_tokenizer.py:67-74 | the flush-or-append step moves the buffer to the output whole and adds the word's characters |
| `ChunkerProperties.SplitLongHeld` | note/utils/lyric_tokenizer.py:77-83 | the force split moves characters from the buffer to the output and drops none |
| `ChunkerProperties.ValveHeld` | note/utils/lyric_tokenizer.py:86-98 | the safety valve moves a prefix of the buffer to the output and drops no character |
| `ChunkerProperties.FeedHeld` | note/utils/lyric_tokenizer.py:64-98 | one iteration adds exactly the word's characters to those yielded or buffered |
| `ChunkerProperties.RunHeld` | note/utils/lyric_tokenizer.py:62-98 | for every `max_chars`, the chunks so far and the buffer hold exactly the characters of the parts consumed so far |
| `ChunkerProperties.FinishHeld` | note/utils/lyric_tokenizer.py:100-101 | yielding the rest of the buffer drops no character |
| `ChunkerProperties.FeedShape` | note/utils/lyric_tokenizer.py:64-98 | with `max_chars <= hard_max_chars`, an iteration either appends the word (when it fits under `max_chars`), or flushes the buffer and emits the word's pieces, keeping the last piece |
| `ChunkerProperties.RunOrdered` | note/utils/lyric_tokenizer.py:62-101 | with `max_chars <= hard_max_chars`, the chunks so far plus the buffer, joined by spaces, equal the word pieces consumed so far, joined by spaces; a multi-word buffer and each yielded chunk containing a space stay within `max_chars` |
| `ChunkerProperties.RunEmpty` | note/utils/lyric_tokenizer.py:64-101 | nothing is yielded exactly when every part is empty |
| `ChunkerProperties.SpaceChunksBounded` | note/utils/lyric_tokenizer.py:48-101 | every chunk is non-empty and at most `hard_max_chars` characters long, for any `max_chars` |
| `ChunkerProperties.SpaceChunksEmpty` | note/utils/lyric_tokenizer.py:58-101 | no chunk at all exactly when the text is empty or only whitespace |
| `ChunkerProperties.SpaceChunksSoftLimit` | note/utils/lyric_tokenizer.py:67-74 | with `max_chars <= hard_max_chars`, a chunk containing a space is at most `max_chars` long |
| `ChunkerProperties.SpaceChunksInOrder` | note/utils/lyric_tokenizer.py:48-101 | with `max_chars <= hard_max_chars`, the chunks joined by spaces are the words in input order, each long word cut into its pieces, joined by spaces: nothing dropped, nothing moved |
| `ChunkerProperties.SpaceChunksInOrderShortWords` | note/utils/lyric_tokenizer.py:48-101 | for every `max_chars`, when no word is over `hard_max_chars`, the chunks joined by spaces are the words in input order joined by spaces |
| `ChunkerProperties.SpaceChunksKeepCharacters` | note/utils/lyric_tokenizer.py:48-101 | for every `max_chars`, the chunks hold exactly the non-whitespace characters of the text, each as often as the text does: no character is dropped or added |
| `ChunkerProperties.SpaceChunksKeepText` | note/utils/lyric_tokenizer.py:60-101 | with `max_chars <= hard_max_chars`, the chunks carry exactly the non-whitespace characters of the text, in order |
| `ChunkerProperties.SpaceChunksCollapse` | note/utils/lyric_tokenizer.py:60-101 | for every `max_chars`, when no word is over `hard_max_chars`, `" ".join(chunks)` is the stripped text with each whitespace run collapsed to one space |
| `ChunkerProperties.LoneWord` | note/utils/lyric_tokenizer.py:77-101 | a one-word text yields exactly the word's pieces |
| `ChunkerProperties.LoneWordAtHardLimit` | note/utils/lyric_tokenizer.py:77 | a lone word of exactly `hard_max_chars` characters is a single chunk |
| `ChunkerProperties.LoneWordOverHardLimit` | note/utils/lyric_tokenizer.py:77-82 | a lone word of `hard_max_chars + 1` characters yields `w[:hard]`, then its last character |
| `ChunkerProperties.OrderBrokenWhenSoftAboveHard` | note/utils/lyric_tokenizer.py:67-98 | with `max_chars > hard_max_chars` order is lost: `"a bcd"` with 10 and 2 yields `["bc", "a", "d"]` |
| `TokenFilter.ResolveKeepPos` | note/utils/lyric_tokenizer.py:126-132 | a boolean gives `DEFAULT_KEEP_POS` or the empty set, a string the set of that string, a sequence the set of its elements; `KeepPosMeaning` states what the result lets through |
| `TokenFilter.ResolveNgWords` | note/utils/lyric_tokenizer.py:134-140 | `False` gives the empty set and `True` the (empty) `NG_SURFACE`, a string the set of that string, a sequence the set of its elements; `NgWordsMeaning` states which words the result excludes |
| `TokenFilter.PosPasses` | note/utils/lyric_tokenizer.py:154 | a part of speech passes when the keep set is empty or contains it |
| `TokenFilter.NormalizeBaseform` | note/utils/lyric_tokenizer.py:29-32 | the dictionary form when the first part-of-speech tag is 動詞 or 形容詞, the surface form otherwise; `Accept`'s ensures and `VerbYieldsDictionaryForm` state the token this gives |
| `TokenFilter.Accept` | note/utils/lyric_tokenizer.py:153-167 | a morpheme yields a token iff its part of speech passes (empty keep set, or tag in it), its base form is non-empty and not an NG word; the token is the dictionary form for 動詞/形容詞 and the surface form otherwise |
| `TokenFilter.KeepPosMeaning` | note/utils/lyric_tokenizer.py:126-132 | `keep_pos=True` keeps exactly `DEFAULT_KEEP_POS`, `False` keeps every part of speech, a string keeps only itself, a sequence keeps those listed (all when empty) |
| `TokenFilter.NgWordsMeaning` | note/utils/lyric_tokenizer.py:134-140 | a boolean `ng_words` excludes nothing, a string excludes only itself, a sequence the words listed |
| `TokenFilter.AcceptSound` | note/utils/lyric_tokenizer.py:159-167 | no token is empty or an NG word |
| `TokenFilter.VerbYieldsDictionaryForm` | note/utils/lyric_tokenizer.py:29-32 | a verb (surface 走っ) yields its dictionary form 走る |
| `TokenFilter.NounAndParticle` | note/utils/lyric_tokenizer.py:153-156 | a noun yields its surface; a particle is dropped under the default keep set and kept with `keep_pos=False` |
| `TokenFilter.NgWordDropped` | note/utils/lyric_tokenizer.py:158-160 | an NG word given as a string is dropped and other words are not |
| `Pipeline.Delivered` | note/utils/lyric_tokenizer.py:151-152 | when the analyser does not raise, every morpheme of the chunk is processed; otherwise those before the raising one |
| `Pipeline.MorphemeTokens` | note/utils/lyric_tokenizer.py:152-167 | the token `Accept` gives for each morpheme, in analyser order, with nothing de-duplicated; `MorphemeTokensAppend` and `MorphemeTokensSound` are its properties |
| `Pipeline.ChunkTokens` | note/utils/lyric_tokenizer.py:148-170 | nothing for an empty chunk, otherwise the tokens of the morphemes processed before any exception; `FailureKeepsPrefix` is its property |
| `Pipeline.AllTokens` | note/utils/lyric_tokenizer.py:145-170 | the tokens of each chunk in chunk order; `AllTokensAppend`, `AllTokensSound` and `ChunkIsolated` are its properties |
| `Pipeline.Tokenize` | note/utils/lyric_tokenizer.py:126-172 | what `base_tokenize` returns: the tokens of the chunks of the cleaned text under the resolved options; `BaseTokenize` is proved equal to it, and `TokenizeSound`, `TokenizeBlank` and `ChunksNeverEmpty` state what it promises |
| `Pipeline.DeliveredPrefix` | note/utils/lyric_tokenizer.py:151-152 | the morphemes processed before an exception are a prefix of the chunk's morphemes, and fewer than all of them exactly when the analyser raises before the end |
| `Pipeline.BaseTokenize` | note/utils/lyric_tokenizer.py:104-172 | the function returns exactly `Tokenize`: the chunks' tokens in chunk order, then analyser order |
| `Pipeline.TokenizeChunks` | note/utils/lyric_tokenizer.py:143-172 | the loop over the chunks collects exactly each chunk's tokens in chunk order, skipping empty chunks |
| `Pipeline.AnalyseChunk` | note/utils/lyric_tokenizer.py:150-170 | the `try` block appends exactly the chunk's tokens after those already collected |
| `Pipeline.MorphemeTokensAppend` | note/utils/lyric_tokenizer.py:152-167 | tokens of consecutive morphemes follow one another: order kept, no de-duplication |
| `Pipeline.MorphemeTokensSound` | note/utils/lyric_tokenizer.py:152-167 | every token from a chunk is non-empty and not an NG word |
| `Pipeline.AllTokensAppend` | note/utils/lyric_tokenizer.py:145-170 | tokens of consecutive chunks follow one another |
| `Pipeline.AllTokensSound` | note/utils/lyric_tokenizer.py:145-170 | every token from any list of chunks is non-empty and not an NG word |
| `Pipeline.FailureKeepsPrefix` | note/utils/lyric_tokenizer.py:151-170 | a chunk whose processing raises at morpheme k contributes the tokens of the morphemes before k, a prefix of what it would contribute otherwise |
| `Pipeline.ChunkIsolated` | note/utils/lyric_tokenizer.py:145-170 | the tokens of the chunks before and after a chunk do not depend on that chunk |
| `Pipeline.ChunksNeverEmpty` | note/utils/lyric_tokenizer.py:145-149 | no chunk handed to the analyser is empty, so the `if not chunk` skip never fires |
| `Pipeline.TokenizeSound` | note/utils/lyric_tokenizer.py:142-172 | no returned token is empty or one of the NG words |
| `Pipeline.TokenizeBlank` | note/utils/lyric_tokenizer.py:142-149 | text that is only whitespace and noise after NFKC yields no token |
| `Pipeline.MiddleChunkFails` | note/utils/lyric_tokenizer.py:150-170 | when the middle of three chunks raises at its second morpheme, the tokens of the first chunk, the first morpheme of the middle chunk and the last chunk are all returned |
| `Pipeline.NoDeduplication` | note/utils/lyric_tokenizer.py:143-167 | the same accepted morpheme twice gives its token twice |

## Left out

- NFKC (`unicodedata.normalize`, lines 35-36) is a function parameter. The Unicode database is outside the model.
- The Sudachi analyser (`tok.tokenize`, the `split_mode`, the module-level dictionary of lines 5-9) is a function parameter returning the morphemes and the failure point.
- Morphemes carry only `surface()`, `dictionary_form()` and `part_of_speech()[0]`, the only parts the filter reads.
- The `RuntimeError` of lines 119-124 is left out. It is raised when the analyser is missing (neither `tok` nor the module-level `_TOK` is set) or when the split mode is missing (neither `split_mode` nor the module-level `_SPLIT_MODE` is set); the model always has both, as parameters.
- The generator is a sequence, not lazy. Laziness only affects when chunks reach the analyser, not which tokens come out.
- The commented-out kana/symbol filter (lines 20 and 162-164) is left out. It is dead code.
- `note/utils/lyric_collect.py` is not part of this model. It fetches lyrics over the network and pickles them; it does not call `base_tokenize`.
- `str.isspace` and the regular expression `\s` are modelled by a fixed list of the Unicode whitespace characters Python recognises.
- `keep_pos` and `ng_words` given as a sequence are modelled as a sequence of strings. Any other iterable type is left out.
- Chunker.IterSpaceChunks: requires `hard_max_chars >= 1`. For `hard_max_chars <= 0` the force-split loop at line 77 never terminates on a non-empty word.
- ChunkerProperties.SpaceChunksInOrder: proved only for `max_chars <= hard_max_chars`, or for every `max_chars` when no word is over `hard_max_chars` (`SpaceChunksInOrderShortWords`). Otherwise the order is lost, as `OrderBrokenWhenSoftAboveHard` shows. That no character is lost is proved for every `max_chars` (`SpaceChunksKeepCharacters`).
- ChunkerProperties.SpaceChunksKeepText: proved only for `max_chars <= hard_max_chars`, for the same reason: it states the order of the characters. `SpaceChunksKeepCharacters` states their counts for every `max_chars`.
- ChunkerProperties.SpaceChunksSoftLimit: proved only for `max_chars <= hard_max_chars`. With `max_chars > hard_max_chars`, `hard_max_chars` is the only bound.
- TextNormalizer.CleanTextIdempotentWhenStable: assumes NFKC leaves the cleaned text unchanged. Deleting a noise character can bring a combining mark next to a new base character, and a second NFKC pass would compose them.
