/**
  The options of `tokenize` and the regular expressions they are compiled
  into.  Python's `re` engine is not modelled: each compiled pattern other
  than the marker pattern (modelled in `Markers`) is an uninterpreted total
  function in `Matchers`, and the model only fixes how its results are used.
 */
module Settings {
  import opened Text

  /** The list `re_sent_bounds.split(text)` returns.  A pattern with `g`
      capturing groups splits into `1 + n * (g + 1)` items for `n` matches,
      and the sentence patterns have one or three groups, so the length is
      odd.  Groups that did not take part in a match are `None`. */
  type SentenceSplit = s: seq<Option<string>> | |s| % 2 == 1 witness [None]

  /** The keyword arguments of `tokenize`.  `sentEnds`, `newSentUpper` and
      `charInWord` only shape the regular expressions, so they are read
      through `Matchers` alone. */
  datatype Config = Config(
    sentEnds: string,
    newSentUpper: string,
    charInWord: string,
    glueLeft: string,
    glueRight: string,
    wholeWords: string,
    specialSuffix: string,
    keepUrl: bool,
    combineNumbers: bool,
    sentCut: string,
    escape: string,
    sentNotCut: string)

  /** The default arguments of `tokenize`. */
  const Defaults: Config := Config(
    ".;!?\\n",
    ".!?",
    "_-",
    "'~",
    "",
    "aujourd'hui l'on etc. Mr. M. Nr. N° ;) ;-)",
    "n't -je -tu -il -elle -on -nous -vous -ils -ils -elles -y -t-il -t-elle -t-ils -t-ils -t-on",
    true,
    true,
    "",
    "____",
    "§§§")

  /** The compiled patterns, each as the function of the text it computes. */
  datatype Matchers = Matchers(
    /** `m.group(0)` for every `m` in `respecial_suffix.finditer(text)`. */
    suffixMatches: string -> seq<string>,
    /** `respecial_suffix.match(w)` succeeds. */
    isSuffix: string -> bool,
    /** `m.group(0)` for every `m` in `reurl.finditer(text)`. */
    urlMatches: string -> seq<string>,
    /** `m.group(0)` for every `m` in `respacenum.finditer(text)`. */
    numberMatches: string -> seq<string>,
    /** `re_num_dot.sub(r'\1' + num_dot, text)`. */
    markNumberDots: string -> string,
    /** `re_sent_bounds.split(text)`. */
    splitSentences: string -> SentenceSplit,
    /** `reglue_left.sub(r'\1 ', s)`. */
    glueLeft: string -> string,
    /** `reglue_right.sub(r' \1', s)`. */
    glueRight: string -> string,
    /** `retok.sub(space_after_esc + r'\3 ', s)`. */
    cutPunctuation: string -> string)

  /** `num_dot`: stands for the dot of an ordinal number while sentences are
      cut. */
  function NumberDot(escape: string): (m: string)
    ensures |m| > 0
  {
    escape + "NUMBERDOT" + escape
  }

  /** `space_after_esc`: separates two tokens that have no space between
      them. */
  function NoSpaceAfter(escape: string): (m: string)
    ensures |m| > 0
    ensures m != NumberDot(escape)
  {
    escape + "NOSPACEAFTER" + escape
  }
}
