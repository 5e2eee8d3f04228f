/**
  `tokenize` (text2conll.py lines 15-149): protect the spans that must stay
  whole, mark ordinal dots, cut into sentences, and for each sentence build
  its display text and its tokens.  The result is the list of entries of
  the dictionary `stoks` in insertion order.
 */
module Tokenizer {
  import opened Text
  import opened Settings
  import opened Markers
  import opened Protect
  import opened Segment
  import opened Tokens

  /** One item of `stoks`: the key `(si, rs)` and its token list. */
  datatype Entry = Entry(index: nat, text: string, tokens: seq<Token>)

  /** `rs` (line 136): the sentence as it reads, ordinal dots and protected
      spans put back, with no suffix marking. */
  function DisplayText(s: string, table: seq<string>, cfg: Config): (r: Result<string>)
    ensures r.Err? ==> r.error.index >= r.error.size == |table|
  {
    Restore(ReplaceAll(s, NumberDot(cfg.escape), "."), table, Plain)
  }

  /** What the loop body computes for one sentence: its display text, then
      its tokens. */
  datatype Outcome = Outcome(display: Result<string>, tokens: Result<seq<Token>>)

  predicate OutcomeOk(o: Outcome) {
    o.display.Ok? && o.tokens.Ok?
  }

  /** The error a failing sentence raises: the display text is computed
      first. */
  function OutcomeError(o: Outcome): Error
    requires !OutcomeOk(o)
  {
    if o.display.Err? then o.display.error else o.tokens.error
  }

  /** Sentence `i` is the first that fails. */
  predicate FirstFailure(outs: seq<Outcome>, i: nat)
    requires i < |outs|
  {
    !OutcomeOk(outs[i]) && forall j :: 0 <= j < i ==> OutcomeOk(outs[j])
  }

  function SentenceOutcome(s: string, table: seq<string>, cfg: Config, m: Matchers): Outcome {
    Outcome(DisplayText(s, table, cfg), SentenceTokens(s, table, cfg, m))
  }

  /** The entries for the sentences' outcomes, numbered from `si`; the first
      sentence that fails ends the loop with its error. */
  function Entries(outs: seq<Outcome>, si: nat): (r: Result<seq<Entry>>)
    ensures r.Ok? <==> forall i :: 0 <= i < |outs| ==> OutcomeOk(outs[i])
    ensures r.Ok? ==> |r.value| == |outs|
    ensures r.Ok? ==> forall i :: 0 <= i < |outs| ==>
      r.value[i] == Entry(si + i, outs[i].display.value, outs[i].tokens.value)
    ensures r.Err? ==> (exists i :: 0 <= i < |outs| && FirstFailure(outs, i) && r.error == OutcomeError(outs[i]))
    decreases |outs|
  {
    if |outs| == 0 then Ok([])
    else if !OutcomeOk(outs[0]) then
      Err(OutcomeError(outs[0]))
    else
      var rest := Entries(outs[1..], si + 1);
      assert forall i :: 1 <= i < |outs| ==> outs[i] == outs[1..][i - 1];
      match rest
      case Err(x) =>
        ghost var i :| 0 <= i < |outs[1..]| && FirstFailure(outs[1..], i) && x == OutcomeError(outs[1..][i]);
        assert FirstFailure(outs, i + 1);
        Err(x)
      case Ok(tail) =>
        Ok([Entry(si, outs[0].display.value, outs[0].tokens.value)] + tail)
  }

  /** The sentences of `text`, still holding markers (lines 87-121). */
  function Sentences(text: string, cfg: Config, m: Matchers): seq<string> {
    CutSentences(m.markNumberDots(Protect.Protect(text, cfg, m).text), cfg, m)
  }

  /** The outcome of every sentence, in order. */
  function Outcomes(text: string, cfg: Config, m: Matchers): (r: seq<Outcome>)
    ensures |r| == |Sentences(text, cfg, m)|
    ensures forall i :: 0 <= i < |r| ==>
      r[i] == SentenceOutcome(Sentences(text, cfg, m)[i], Protect.Protect(text, cfg, m).table, cfg, m)
  {
    var sents := Sentences(text, cfg, m);
    var table := Protect.Protect(text, cfg, m).table;
    seq(|sents|, i requires 0 <= i < |sents| => SentenceOutcome(sents[i], table, cfg, m))
  }

  /** `tokenize(text, ...)`: one entry per sentence, keyed by its position,
      or the error of the first sentence that fails. */
  function Tokenize(text: string, cfg: Config, m: Matchers): (r: Result<seq<Entry>>)
    ensures r.Ok? <==> forall i :: 0 <= i < |Outcomes(text, cfg, m)| ==> OutcomeOk(Outcomes(text, cfg, m)[i])
    ensures r.Ok? ==> |r.value| == |Sentences(text, cfg, m)|
    ensures r.Ok? ==> forall i :: 0 <= i < |r.value| ==> r.value[i].index == i
    ensures r.Ok? ==> forall i :: 0 <= i < |r.value| ==>
      Ok(r.value[i].text) == DisplayText(Sentences(text, cfg, m)[i], Protect.Protect(text, cfg, m).table, cfg) &&
      Ok(r.value[i].tokens) == SentenceTokens(Sentences(text, cfg, m)[i], Protect.Protect(text, cfg, m).table, cfg, m)
  {
    Entries(Outcomes(text, cfg, m), 0)
  }

  /** Every token of a successful run has a non-empty text; this follows
      from the contracts of `Tokenize` and of the sentence assembly. */
  lemma TokensNonEmpty(text: string, cfg: Config, m: Matchers)
    ensures Tokenize(text, cfg, m).Ok? ==> var es := Tokenize(text, cfg, m).value;
      forall i, j :: 0 <= i < |es| && 0 <= j < |es[i].tokens| ==> es[i].tokens[j].text != ""
  {
  }

  /** A sentence without markers or ordinal dots reads as it is. */
  lemma PlainDisplay(s: string, table: seq<string>, cfg: Config)
    requires '\\' !in s && !Occurs(s, NumberDot(cfg.escape))
    ensures DisplayText(s, table, cfg) == Ok(s)
  {
    ReplaceAllAbsent(s, NumberDot(cfg.escape), ".");
    RestoreLiteral(s, table, Plain);
  }
}
