# text2conll in Dafny

A model of `tokenize` and `conllize` from `text2conll.py`, a rule-based
French-style tokenizer and sentence splitter that writes CoNLL-U.

`tokenize` runs in four stages, and the model follows them:

1. **Protection.** Configured whole words, then clitic-suffix, URL and number
   matches, are replaced in the text by markers `\k\`. Here `k` is the span's
   index in the table `whole_words`.
2. **Ordinal dots.** Ordinal dots are marked with the `NUMBERDOT` escape.
3. **Sentence cutting.** The text is cut into sentences, either on the
   literal `sent_cut` or by pairing the regex split list two items at a time.
4. **Token building.** Each sentence is cut into whitespace pieces. Each
   piece gets its ordinal dots and markers restored and is then split on the
   `NOSPACEAFTER` escape into tokens with space-after flags.

`conllize` then formats the entries: a `sent_id` comment, a `text` comment and
one tab-separated line per token in each block, blank lines between blocks and
a final newline.

Python's regular expressions are, with one exception, not modelled. Each
compiled pattern is an uninterpreted function in `Settings.Matchers`, and the
model fixes only how its results are used. The exception is the marker
pattern `rerematch`, which `Markers` models directly (with ASCII digits).
Python's string primitives are written out as functions in `Text`,
`Whitespace` and `Decimal`:

- `str.replace`, including the empty pattern;
- `str.split(sep)` and `sep.join`;
- `str.split()` and `str.strip()` over the full `str.isspace` set;
- `str(n)` and `int(s)`.

`str.split(sep)` and `str.find` require a non-empty separator, and `int(s)`
requires a string of ASCII digits; every call in the program meets these.
The others are total.

The failure the model carries is the `IndexError` of a marker whose index is
past the end of the table. It is modelled as `Markers.Err`. The `ValueError`
of Python's limit on integer-string conversion is not modelled (see "Left
out").

Modules, in dependency order:

| file | module | what it holds |
|---|---|---|
| text.dfy | `Text` | `replace`, `find`, `split(sep)`, `join` and their laws |
| decimal.dfy | `Decimal` | `str`/`int` on digit strings and their round trips |
| whitespace.dfy | `Whitespace` | `split()` and `strip()` |
| settings.dfy | `Settings` | the options, their defaults and the regex oracles |
| markers.dfy | `Markers` | markers `\k\` and the `rerematch.sub` restoration scan |
| protect.dfy | `Protect` | the four protection passes and the restoration theorem |
| segment.dfy | `Segment` | sentence cutting and the pairing loop |
| tokens.dfy | `Tokens` | the tokens and flags of a piece and of a sentence |
| tokenizer.dfy | `Tokenizer` | `tokenize`: one entry per sentence |
| conll.dfy | `Conll` | `conllize` and reading its output back |

Some details of the code that are easy to get wrong:

- The code pairs each content segment with the boundary after it, so a
  sentence is a content segment followed by its boundary.
- `sent_not_cut` is removed from the content half only.
- Sentences cut on `sent_cut` are neither stripped nor filtered for
  emptiness.
- A token line ends with a tab, so it has eleven tab-separated fields and the
  last one is empty.
- A marker that names a missing table entry raises an error. This happens
  when the input itself contains text like `\99\`, and the program does not
  run to completion.
- The ordinal-dot pattern's lookahead is one literal space followed by a digit
  or an upper-case letter, not optional whitespace. The pattern itself is an
  uninterpreted function here.

## Model

| member | source | states |
|---|---|---|
| Text.JoinSplit | text2conll.py:91-92 | Joining the pieces of `s.split(sep)` with `sep` gives back `s` |
| Text.SplitOnParts | text2conll.py:91-92 | No piece of `s.split(sep)` contains `sep` |
| Text.JoinSplitIsReplace | text2conll.py:145 | Splitting on `sep` and joining with `r` is `s.replace(sep, r)` |
| Text.SplitJoin | text2conll.py:162-164 | Splitting `c.join(parts)` on a one-character `c` that no part contains gives back `parts` |
| Text.ReplaceAllLeavesNone | text2conll.py:143 | After `s.replace(w, r)`, where `r` is non-empty and shares no character with `w`, `w` no longer occurs |
| Text.ReplaceAll | text2conll.py:121 | `s.replace(w, r)`; an empty `w` (an empty `sent_not_cut`) matches before every character and at the end, so the result has `len(s) + (len(s) + 1) * len(r)` characters |
| Text.SplitOn | text2conll.py:92 | `s.split(sep)` has at least one part, even for empty text; `JoinSplit`, `SplitOnParts` and `SplitOnLeftmost` pin the parts down |
| Text.SplitOnLeftmost | text2conll.py:92 | `s.split(sep)` cuts at the leftmost occurrences: no occurrence of `sep` starts inside a part that `sep` follows, so `'aaa'.split('aa')` is `['', 'a']` and not `['a', '']` |
| Text.SplitAtClear | text2conll.py:92 | When `sep` first occurs right after `a`, splitting `a + sep + b` gives `a` and then the split of `b` |
| Text.Join | text2conll.py:162-164 | `sep.join(parts)`; with an empty separator it is the concatenation of the parts; `JoinSplit`, `SplitJoin` and `StackJoin` relate it to splitting |
| Decimal.NatToString | text2conll.py:68 | `str(n)` is non-empty, all digits, and has no leading zero unless `n` is 0 |
| Decimal.ParseNat | text2conll.py:129 | `int(s)` of a digit string is zero exactly when every digit is `0` |
| Decimal.ParseNatToString | text2conll.py:129 | `int(str(n)) == n` |
| Decimal.NatToStringParse | text2conll.py:129 | `str(int(s)) == s` for every digit string without a leading zero |
| Decimal.IntToStringRoundTrip | text2conll.py:156 | The `sent_id` counter written for any integer `start` is signed digits that read back as the counter |
| Whitespace.WordsShape | text2conll.py:142 | Every item of `s.split()` is non-empty and holds no whitespace |
| Whitespace.WordsCover | text2conll.py:142 | `''.join(s.split())` is `s` with every whitespace character deleted |
| Whitespace.Words | text2conll.py:142 | `s.split()` is empty exactly when `s` is all whitespace |
| Whitespace.WordsOfRun | text2conll.py:142 | A non-empty run without whitespace is a single word |
| Whitespace.WordsAtSpace | text2conll.py:142 | A whitespace character separates the words before it from the words after it: the cuts fall exactly at whitespace |
| Whitespace.Strip | text2conll.py:121 | `s.strip()` is never longer than `s`; `StripSpec` gives its full description |
| Whitespace.StripSpec | text2conll.py:121 | `s.strip()` is `s` minus its leading whitespace run and its trailing whitespace run, and it neither starts nor ends with whitespace; it is empty exactly when `s` is all whitespace |
| Markers.Marker | text2conll.py:68 | `'\\{k}\\'` is a backslash, a digit run and a backslash: a match of `rerematch` |
| Markers.MarkerRoundTrip | text2conll.py:68 | Decoding a marker with `int(m[1:-1])` gives back the index it was written from |
| Markers.MarkerOfIndex | text2conll.py:11-13 | Every marker-shaped string without a leading zero is the marker of the index it decodes to |
| Markers.LeadingMarker | text2conll.py:11-13 | Where `rerematch` matches at the head of a string: a marker-shaped prefix, or none at any length |
| Markers.RestoreMarkerHead | text2conll.py:128-133 | A marker at the head expands to its table entry, or raises `IndexError` when its index is past the table |
| Markers.Restore | text2conll.py:128-136 | `rerematch.sub(...)`: the only error it raises is an `IndexError` for a marker whose index is at or past the table's length |
| Markers.RestoreLiteral | text2conll.py:136 | Text without a backslash is restored unchanged |
| Markers.MarkerRestores | text2conll.py:128-133 | A lone marker of `k` restores to exactly `whole_words[k]`, with the no-space-after escape in front when it is a suffix and tokens are being built |
| Markers.RestoreRender | text2conll.py:128-133 | Restoring literals and markers expands each marker to its entry and keeps each literal, so the encoding loses nothing |
| Markers.RestoreWithoutMarker | text2conll.py:144 | When `rerematch.search(t)` fails, the substitution leaves `t` unchanged, so skipping it is the same |
| Protect.ProtectWholeWords | text2conll.py:65-69 | The whole-word loop leaves the table alone and advances `ind` once per word, whether or not the word occurs |
| Protect.ProtectMatches | text2conll.py:72-75 | A `finditer` pass appends its matches to the table in order and keeps `ind == len(whole_words)` |
| Protect.OptionalPass | text2conll.py:70-85 | A pass that is switched off leaves the table as it is; one that is switched on appends its matches |
| Protect.Protect | text2conll.py:60-85 | After all passes `ind == len(whole_words)`, and the table starts with the configured whole words |
| Protect.ProtectRestores | text2conll.py:60-85 | Restoring the protected text from the table gives back the original text |
| Protect.WholeWordMarker | text2conll.py:61-69 | The marker of the `i`-th configured whole word restores to that word |
| Segment.PairUpSound | text2conll.py:117-121 | Every sentence comes from a pair with two non-empty halves: the content with `sent_not_cut` removed, plus the boundary, stripped |
| Segment.PairUpComplete | text2conll.py:117-121 | Every pair with two non-empty halves yields its sentence |
| Segment.PairUpBound | text2conll.py:119-121 | The pairing loop makes at most one sentence per pair of items |
| Segment.HeuristicSentences | text2conll.py:117-121 | Padding the split list with `''` and pairing gives fewer sentences than half the split items, because the trailing segment never counts; `UpperSentenceBound` sharpens this for the three-group pattern |
| Segment.CutSentences | text2conll.py:91-121 | With `sent_cut` there is always at least one sentence, even for empty text; otherwise fewer sentences than half the split items |
| Segment.UpperSentenceBound | text2conll.py:94-121 | With the three-group pattern of `new_sent_upper` (on by default), a split of `n` boundary matches (`4n + 1` items) yields at most `n` sentences: at most one per boundary match |
| Segment.WithoutAlternativesLength | text2conll.py:94-101 | Each match of the three-group pattern contributes four items to the split, two of them content and boundary |
| Segment.DroppedPair | text2conll.py:120 | A pair with an empty or missing half contributes nothing, wherever it stands |
| Segment.KeptPair | text2conll.py:120-121 | A pair with two non-empty halves contributes exactly its sentence, in place |
| Segment.TrailingSegmentIgnored | text2conll.py:117-121 | The final content segment, which no boundary follows, never yields a sentence |
| Segment.UpperSplitPairs | text2conll.py:94-101 | With the three-group upper-case pattern, the pairs of alternatives are all dropped |
| Segment.CutModeLossless | text2conll.py:91-92 | With `sent_cut`, joining the sentences with the cut string gives back the text, and no sentence contains it |
| Segment.RemoveEmptyIsIdentity | text2conll.py:121 | Removing an empty `sent_not_cut` changes nothing |
| Tokens.NonEmpty | text2conll.py:145 | Dropping empty parts keeps exactly the non-empty ones |
| Tokens.NonEmptyConcat | text2conll.py:145 | Dropping empty parts does not change their concatenation |
| Tokens.NonEmptyAppend | text2conll.py:145 | The filter `if tt` works part by part, so the kept parts stay in order and keep their multiplicity |
| Tokens.SubTokens | text2conll.py:145-147 | The sub-tokens of a piece are non-empty and escape-free, and only the last one has space-after true; `SubTokensNoEscape` and `SubTokensAtEscape` fix their texts |
| Tokens.SubTokensNoEscape | text2conll.py:145-147 | A piece without the escape is one sub-token, or none when it is empty |
| Tokens.SubTokensAtEscape | text2conll.py:145-147 | At the first escape of a piece, the text before it is a sub-token when non-empty, followed by the sub-tokens of the rest; an escape at the front of a piece (as `retok` puts before a punctuation run after a space) yields no token, so the escape followed by `?!` gives the single token `?!` with a space after |
| Tokens.LeadingEscape | text2conll.py:139-147 | A piece that is the escape followed by an escape-free run, such as `?!` after a space, is the single token of that run with a space after it, not one token per character |
| Tokens.SingleSubToken | text2conll.py:145-147 | A non-empty piece without the escape is exactly one token, with a space after it |
| Tokens.SubTokensCover | text2conll.py:145 | The sub-tokens of a piece spell the piece with its escapes deleted |
| Tokens.SubTokensSplit | text2conll.py:145-147 | In the case where `if tt` drops nothing (no part between escapes is empty), the tokens are exactly the parts of `ts.split(space_after_esc)`, and joining them with the escape gives back `ts` |
| Tokens.PieceTokens | text2conll.py:143-147 | The tokens of one piece are non-empty and only the last has space-after true; the only error is an out-of-range marker |
| Tokens.SentenceTokens | text2conll.py:137-147 | The tokens of a sentence are non-empty, a sentence that is all whitespace after cutting has none, and the only error is an out-of-range marker |
| Tokens.AssemblePieces | text2conll.py:142-147 | No token of a sentence is empty |
| Tokens.AssembleErrorPersists | text2conll.py:142-144 | Once a piece raises, later pieces change nothing: the first error is the result |
| Tokens.BuildTokens | text2conll.py:140-148 | The loop with separate `toks` and `spaceafters` lists computes the per-piece assembly; zipping loses no token |
| Tokens.SuffixAdjacency | text2conll.py:130-133 | A word followed by a suffix placeholder gives the word with no space after it, then the suffix |
| Tokens.PlainPlaceholder | text2conll.py:128-133 | A placeholder that is not a suffix becomes one token, its table entry, with a space after it |
| Tokens.NumberDotRestored | text2conll.py:143 | No `NUMBERDOT` escape survives into a piece once it is turned back into `.` |
| Tokens.DefaultsNumberDotRestored | text2conll.py:143 | With the default `escape` `'____'`, no `NUMBERDOT` escape survives into a piece |
| Tokenizer.Entries | text2conll.py:135-148 | Every sentence gives one entry, numbered in order, or the first failing sentence's error is raised |
| Tokenizer.Tokenize | text2conll.py:15-149 | One entry per sentence, keyed by its position, whose text and tokens are that sentence's display text and tokens |
| Tokenizer.TokensNonEmpty | text2conll.py:145-148 | No token in the result is empty |
| Tokenizer.PlainDisplay | text2conll.py:136 | A sentence without markers or ordinal dots is displayed as it is |
| Tokenizer.DisplayText | text2conll.py:136 | The display text `rs` fails only with an out-of-range marker |
| Conll.TokenLineFields | text2conll.py:159-160 | A token line splits on tabs into 11 fields: the 1-based number, the text, seven `_`, then `_` when a space follows and `SpaceAfter=No` when none does, then an empty field |
| Conll.TokenLine | text2conll.py:160 | Every token line ends with a tab |
| Conll.BlockLines | text2conll.py:155-161 | A block has two comment lines and then, at position `i + 2`, the line of token `i` |
| Conll.Conllize | text2conll.py:152-164 | The output ends with a newline; `id` and `start` default to `'my_sample'` and `1` |
| Conll.ConllizeDefaults | text2conll.py:152-156 | Called with its default arguments, the `sent_id` line of entry `j` is `# sent_id = my_sample__{j + 1}` |
| Conll.SentIdAt | text2conll.py:154-163 | Among the output lines, the `sent_id` line of entry `j` carries the counter `start + j` |
| Conll.ConllizeEmpty | text2conll.py:164 | No entries give a lone newline |
| Conll.StackJoin | text2conll.py:162-164 | Blocks joined by `'\n\n'` are their lines joined by `'\n'` with an empty line between blocks |
| Conll.BlockLinesClean | text2conll.py:155-161 | No line of a block holds a newline when the id, text and tokens hold none |
| Conll.ConllizeLines | text2conll.py:162-164 | Reading the output back line by line gives the blocks' lines, a blank line between blocks and a final empty string |
| Conll.DocLayout | text2conll.py:154-163 | Block `j` sits at its offset: `sent_id` with counter `start + j`, the `text` line, then its token lines numbered from 1 |

## Left out

- Python's `re` engine. The URL, number, suffix, ordinal-dot, sentence-boundary, glue and punctuation patterns (text2conll.py:3-9, 71, 88-89, 95-115, 124-126, 137-139) are uninterpreted functions. Their Unicode `\w`, `\b` and `\d` classes, lookaheads and accented upper-case class are not modelled.
- Markers.Restore: recognises markers with ASCII digits only. The pattern `\\\d+\\` (text2conll.py:11-13) is compiled for `str`, so its `\d` also matches the other Unicode decimal digits, and `int()` accepts them. Input text such as a backslash, an Arabic-Indic digit one and a backslash is a marker to the program (it expands to `whole_words[1]` or raises `IndexError`) but literal text to the model.
- The split list of the sentence pattern is taken to have odd length. This holds for any `re.split` with one or three groups.
- The `__main__` demonstration and the file write (text2conll.py:167-179) are I/O.
- The dictionary `stoks` is modelled as the sequence of its items in insertion order. The keys `(si, rs)` are distinct because `si` is.
- Collisions of `escape` or `sent_not_cut` with the input text (text2conll.py:52-57), and backslash markers already present in the input, are modelled as the code behaves: `Markers.Restore` expands such markers or raises `IndexError`. Only the lemmas that promise a clean round trip (`Protect.ProtectRestores`, `Tokens.SuffixAdjacency`) exclude them, as preconditions.
- Protect.ProtectRestores: holds only for input without a backslash and for protected spans that are non-empty, backslash-free and not all digits. The program promises nothing for other input; a span of digits alone can occur inside an earlier marker.
- Tokens.SuffixAdjacency: the escape must not straddle the word and the suffix, and the piece must not contain the ordinal-dot escape. These are the collisions above.
- CPython 3.11 and later limit conversions between `int` and decimal strings to 4300 digits. Beyond that, `int(m.group(0)[1:-1])` (text2conll.py:129) and `str(start)` (text2conll.py:156) raise `ValueError`. The model converts numbers of any length (`Decimal.ParseNat`, `Decimal.IntToString`), because the limit is an interpreter setting (`sys.set_int_max_str_digits`) and not part of the program.
- Settings.NumberDot/NoSpaceAfter: `escape` is taken to be free of braces. The program builds both escapes with `(escape+'{}'+escape).format(...)` (text2conll.py:63-64), which reads braces in `escape` as a template: `'{{'` would become `'{'` and `'{}'` would raise `IndexError`. The model concatenates `escape` as it is, which is what the program does for the letters that the docstring asks for (text2conll.py:51-52).
- A configuration string that does not compile as a regular expression is a Python error at setup time. It is not modelled.
