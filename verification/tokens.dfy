/**
  Building the tokens of one sentence (text2conll.py lines 135-148): glue and
  punctuation cutting (abstract), a whitespace split into pieces, and for each
  piece the ordinal-dot and placeholder restoration followed by a split on
  the no-space-after escape.  Each sub-token of a piece is followed by no
  space except the last.
 */
module Tokens {
  import opened Text
  import opened Whitespace
  import opened Settings
  import opened Markers

  datatype Token = Token(text: string, spaceAfter: bool)

  /** `[tt for tt in parts if tt]`. */
  function NonEmpty(parts: seq<string>): (r: seq<string>)
    ensures forall i :: 0 <= i < |r| ==> r[i] != ""
    ensures forall x :: x in r <==> x in parts && x != ""
    decreases |parts|
  {
    if |parts| == 0 then []
    else if parts[0] == "" then NonEmpty(parts[1..])
    else [parts[0]] + NonEmpty(parts[1..])
  }

  /** The token texts. */
  function Texts(toks: seq<Token>): seq<string> {
    seq(|toks|, i requires 0 <= i < |toks| => toks[i].text)
  }

  /** `list(zip(toks, spaceafters))`: as long as the shorter list. */
  function Zip(toks: seq<string>, flags: seq<bool>): seq<Token> {
    var n := if |toks| <= |flags| then |toks| else |flags|;
    seq(n, i requires 0 <= i < n => Token(toks[i], flags[i]))
  }

  /** `[ii == n - 1 for ii in range(n)]`: only the last flag is set. */
  function LastFlags(n: nat): seq<bool> {
    seq(n, i requires 0 <= i < n => i == n - 1)
  }

  /** `tsl` and its flags `[ii == len(tsl) - 1 for ii, tt in enumerate(tsl)]`
      for one restored piece `ts`. */
  function SubTokens(ts: string, noSpaceAfter: string): (toks: seq<Token>)
    requires |noSpaceAfter| > 0
    ensures forall i :: 0 <= i < |toks| ==> toks[i].text != "" && !Occurs(toks[i].text, noSpaceAfter)
    ensures forall i :: 0 <= i < |toks| ==> (toks[i].spaceAfter <==> i == |toks| - 1)
  {
    SplitOnParts(ts, noSpaceAfter);
    var tsl := NonEmpty(SplitOn(ts, noSpaceAfter));
    assert forall i :: 0 <= i < |tsl| ==> tsl[i] in SplitOn(ts, noSpaceAfter);
    Zip(tsl, LastFlags(|tsl|))
  }

  /** The sub-tokens of a piece spell the piece with its escapes deleted:
      nothing but the escapes is lost. */
  lemma SubTokensCover(ts: string, noSpaceAfter: string)
    requires |noSpaceAfter| > 0
    ensures Concat(Texts(SubTokens(ts, noSpaceAfter))) == ReplaceAll(ts, noSpaceAfter, "")
  {
    var parts := SplitOn(ts, noSpaceAfter);
    JoinSplitIsReplace(ts, noSpaceAfter, "");
    NonEmptyConcat(parts);
    assert Texts(SubTokens(ts, noSpaceAfter)) == NonEmpty(parts);
  }

  /** Dropping empty parts works part by part. */
  lemma {:induction false} NonEmptyAppend(a: seq<string>, b: seq<string>)
    ensures NonEmpty(a + b) == NonEmpty(a) + NonEmpty(b)
    decreases |a|
  {
    if |a| == 0 {
      assert a + b == b;
    } else {
      var head := if a[0] == "" then [] else [a[0]];
      calc {
        NonEmpty(a + b);
        { assert (a + b)[0] == a[0] && (a + b)[1..] == a[1..] + b; }
        head + NonEmpty(a[1..] + b);
        { NonEmptyAppend(a[1..], b); }
        head + (NonEmpty(a[1..]) + NonEmpty(b));
        head + NonEmpty(a[1..]) + NonEmpty(b);
        NonEmpty(a) + NonEmpty(b);
      }
    }
  }

  /** Dropping empty parts does not change their concatenation. */
  lemma {:induction false} NonEmptyConcat(parts: seq<string>)
    ensures Concat(NonEmpty(parts)) == Concat(parts)
    decreases |parts|
  {
    if |parts| > 0 {
      NonEmptyConcat(parts[1..]);
      if parts[0] != "" {
        assert ([parts[0]] + NonEmpty(parts[1..]))[1..] == NonEmpty(parts[1..]);
      } else {
        assert Concat(parts) == "" + Concat(parts[1..]);
      }
    }
  }

  /** The sub-token texts are the non-empty parts between escapes. */
  lemma SubTokensTexts(ts: string, noSpaceAfter: string)
    requires |noSpaceAfter| > 0
    ensures Texts(SubTokens(ts, noSpaceAfter)) == NonEmpty(SplitOn(ts, noSpaceAfter))
  {
  }

  /** A piece without the escape is one sub-token, or none when it is
      empty. */
  lemma SubTokensNoEscape(ts: string, noSpaceAfter: string)
    requires |noSpaceAfter| > 0 && !Occurs(ts, noSpaceAfter)
    ensures Texts(SubTokens(ts, noSpaceAfter)) == if ts == "" then [] else [ts]
  {
    var fi := FirstIndex(ts, noSpaceAfter);
    assert fi.None?;
    assert SplitOn(ts, noSpaceAfter) == [ts];
    SubTokensTexts(ts, noSpaceAfter);
  }

  /** At the first escape of a piece the sub-tokens are cut: the text before
      it, when non-empty, then the sub-tokens of the rest.  Together with
      `SubTokensNoEscape` this fixes the sub-token texts of every piece, in
      order: an escape at the front of the piece, as in the escape followed
      by `?!`, contributes no token. */
  lemma SubTokensAtEscape(a: string, b: string, noSpaceAfter: string)
    requires |noSpaceAfter| > 0 && ClearBefore(a, noSpaceAfter)
    ensures Texts(SubTokens(a + noSpaceAfter + b, noSpaceAfter))
      == (if a == "" then [] else [a]) + Texts(SubTokens(b, noSpaceAfter))
  {
    SplitAtClear(a, noSpaceAfter, b);
    SubTokensTexts(a + noSpaceAfter + b, noSpaceAfter);
    SubTokensTexts(b, noSpaceAfter);
    NonEmptyAppend([a], SplitOn(b, noSpaceAfter));
    assert NonEmpty([a]) == if a == "" then [] else [a] by {
      assert [a][1..] == [];
    }
  }

  /** An escape at the front of a piece, as `retok` puts before a
      punctuation run that follows a space, yields no token: the piece is
      the one token after it, with a space after. */
  lemma LeadingEscape(p: string, noSpaceAfter: string)
    requires |noSpaceAfter| > 0 && p != "" && !Occurs(p, noSpaceAfter)
    ensures SubTokens(noSpaceAfter + p, noSpaceAfter) == [Token(p, true)]
  {
    assert "" + noSpaceAfter + p == noSpaceAfter + p;
    SubTokensAtEscape("", p, noSpaceAfter);
    SubTokensNoEscape(p, noSpaceAfter);
  }

  /** Dropping empty parts keeps a list without empty parts as it is. */
  lemma {:induction false} NonEmptyKeepsAll(parts: seq<string>)
    requires forall k :: 0 <= k < |parts| ==> parts[k] != ""
    ensures NonEmpty(parts) == parts
    decreases |parts|
  {
    if |parts| > 0 {
      NonEmptyKeepsAll(parts[1..]);
      assert parts == [parts[0]] + parts[1..];
    }
  }

  /** When no part between escapes is empty (no escape at either end of the
      piece and no two escapes in a row), the sub-tokens are exactly those
      parts: the cuts fall at the escapes and nowhere else, and joining the
      tokens with the escape gives back the piece. */
  lemma SubTokensSplit(ts: string, noSpaceAfter: string)
    requires |noSpaceAfter| > 0
    requires forall k :: 0 <= k < |SplitOn(ts, noSpaceAfter)| ==> SplitOn(ts, noSpaceAfter)[k] != ""
    ensures Texts(SubTokens(ts, noSpaceAfter)) == SplitOn(ts, noSpaceAfter)
    ensures Join(Texts(SubTokens(ts, noSpaceAfter)), noSpaceAfter) == ts
  {
    NonEmptyKeepsAll(SplitOn(ts, noSpaceAfter));
    JoinSplit(ts, noSpaceAfter);
  }

  /** How placeholders expand while tokens are built: a suffix entry gets the
      no-space-after escape in front when suffixes are configured. */
  function TokenExpansion(cfg: Config, m: Matchers): Expansion {
    if Strip(cfg.specialSuffix) != "" then MarkSuffixes(m.isSuffix, NoSpaceAfter(cfg.escape)) else Plain
  }

  /** Lines 143-147 for one whitespace-separated piece `t`. */
  function PieceTokens(t: string, table: seq<string>, cfg: Config, m: Matchers): (r: Result<seq<Token>>)
    ensures r.Ok? ==> forall i :: 0 <= i < |r.value| ==>
      r.value[i].text != "" && (r.value[i].spaceAfter <==> i == |r.value| - 1)
    ensures r.Err? ==> r.error.index >= r.error.size == |table|
  {
    match Restore(ReplaceAll(t, NumberDot(cfg.escape), "."), table, TokenExpansion(cfg, m))
    case Ok(ts) => Ok(SubTokens(ts, NoSpaceAfter(cfg.escape)))
    case Err(x) => Err(x)
  }

  /** Lines 137-139: the glue rules, when configured, then the punctuation
      cut. */
  function SplitForTokens(s: string, cfg: Config, m: Matchers): string {
    var glued := if cfg.glueLeft != "" then m.glueLeft(s) else s;
    var glued' := if cfg.glueRight != "" then m.glueRight(glued) else glued;
    m.cutPunctuation(glued')
  }

  /** The tokens of the pieces in order; the first piece whose restoration
      raises ends the loop. */
  function AssemblePieces(pieces: seq<string>, table: seq<string>, cfg: Config, m: Matchers): (r: Result<seq<Token>>)
    ensures r.Ok? ==> forall i :: 0 <= i < |r.value| ==> r.value[i].text != ""
    ensures r.Err? ==> r.error.index >= r.error.size == |table|
    decreases |pieces|
  {
    if |pieces| == 0 then Ok([])
    else
      match AssemblePieces(pieces[..|pieces| - 1], table, cfg, m)
      case Err(x) => Err(x)
      case Ok(prev) =>
        match PieceTokens(pieces[|pieces| - 1], table, cfg, m)
        case Err(x) => Err(x)
        case Ok(sub) => Ok(prev + sub)
  }

  /** The tokens of one sentence. */
  function SentenceTokens(s: string, table: seq<string>, cfg: Config, m: Matchers): (r: Result<seq<Token>>)
    ensures r.Ok? ==> forall i :: 0 <= i < |r.value| ==> r.value[i].text != ""
    ensures r.Err? ==> r.error.index >= r.error.size == |table|
    ensures AllSpace(SplitForTokens(s, cfg, m)) ==> r == Ok([])
  {
    AssemblePieces(Words(SplitForTokens(s, cfg, m)), table, cfg, m)
  }

  lemma ZipAppend(a: seq<string>, b: seq<bool>, c: seq<string>, d: seq<bool>)
    requires |a| == |b| && |c| == |d|
    ensures Zip(a + c, b + d) == Zip(a, b) + Zip(c, d)
  {
  }

  /** Once a piece has raised, the longer lists of pieces raise the same
      error. */
  lemma {:induction false} AssembleErrorPersists(pieces: seq<string>, i: nat, table: seq<string>, cfg: Config, m: Matchers)
    requires i <= |pieces| && AssemblePieces(pieces[..i], table, cfg, m).Err?
    ensures AssemblePieces(pieces, table, cfg, m) == AssemblePieces(pieces[..i], table, cfg, m)
    decreases |pieces| - i
  {
    if i < |pieces| {
      assert pieces[..i + 1][..i] == pieces[..i];
      AssembleErrorPersists(pieces, i + 1, table, cfg, m);
    } else {
      assert pieces[..i] == pieces;
    }
  }

  /** Assembling one more piece extends the tokens so far by the piece's
      tokens, or fails with the first failure. */
  lemma AssembleStep(pieces: seq<string>, i: nat, table: seq<string>, cfg: Config, m: Matchers)
    requires i < |pieces|
    ensures AssemblePieces(pieces[..i + 1], table, cfg, m) ==
      match AssemblePieces(pieces[..i], table, cfg, m)
      case Err(x) => Err(x)
      case Ok(prev) =>
        match PieceTokens(pieces[i], table, cfg, m)
        case Err(x) => Err(x)
        case Ok(sub) => Ok(prev + sub)
  {
    assert pieces[..i + 1][..i] == pieces[..i];
    assert pieces[..i + 1][i] == pieces[i];
  }

  /** A piece whose restoration raises ends the assembly with its error. */
  lemma AssembleFails(pieces: seq<string>, i: nat, table: seq<string>, cfg: Config, m: Matchers)
    requires i < |pieces| && AssemblePieces(pieces[..i], table, cfg, m).Ok?
    requires Restore(ReplaceAll(pieces[i], NumberDot(cfg.escape), "."), table, TokenExpansion(cfg, m)).Err?
    ensures AssemblePieces(pieces, table, cfg, m)
      == Err(Restore(ReplaceAll(pieces[i], NumberDot(cfg.escape), "."), table, TokenExpansion(cfg, m)).error)
  {
    AssembleStep(pieces, i, table, cfg, m);
    AssembleErrorPersists(pieces, i + 1, table, cfg, m);
  }

  /** A piece that restores to `ts` appends the parts of `ts` to the token
      texts and their flags to the flags, in lockstep. */
  lemma AssembleExtends(pieces: seq<string>, i: nat, table: seq<string>, cfg: Config, m: Matchers,
                        toks: seq<string>, flags: seq<bool>, ts: string)
    requires i < |pieces| && |toks| == |flags|
    requires AssemblePieces(pieces[..i], table, cfg, m) == Ok(Zip(toks, flags))
    requires Restore(ReplaceAll(pieces[i], NumberDot(cfg.escape), "."), table, TokenExpansion(cfg, m)) == Ok(ts)
    ensures AssemblePieces(pieces[..i + 1], table, cfg, m)
      == Ok(Zip(toks + NonEmpty(SplitOn(ts, NoSpaceAfter(cfg.escape))),
                flags + LastFlags(|NonEmpty(SplitOn(ts, NoSpaceAfter(cfg.escape)))|)))
  {
    var tsl := NonEmpty(SplitOn(ts, NoSpaceAfter(cfg.escape)));
    AssembleStep(pieces, i, table, cfg, m);
    ZipAppend(toks, flags, tsl, LastFlags(|tsl|));
  }

  /** The loop of lines 140-148 as written: `toks` and `spaceafters` are
      separate lists that grow in lockstep, so zipping them loses no
      token. */
  method BuildTokens(pieces: seq<string>, table: seq<string>, cfg: Config, m: Matchers)
    returns (r: Result<seq<Token>>)
    ensures r == AssemblePieces(pieces, table, cfg, m)
  {
    var toks: seq<string> := [];
    var spaceafters: seq<bool> := [];
    var i := 0;
    assert Zip(toks, spaceafters) == [];
    while i < |pieces|
      invariant 0 <= i <= |pieces|
      invariant |toks| == |spaceafters|
      invariant AssemblePieces(pieces[..i], table, cfg, m) == Ok(Zip(toks, spaceafters))
    {
      var t := ReplaceAll(pieces[i], NumberDot(cfg.escape), ".");
      var restored := Restore(t, table, TokenExpansion(cfg, m));
      if restored.Err? {
        AssembleFails(pieces, i, table, cfg, m);
        return Err(restored.error);
      }
      var tsl := NonEmpty(SplitOn(restored.value, NoSpaceAfter(cfg.escape)));
      AssembleExtends(pieces, i, table, cfg, m, toks, spaceafters, restored.value);
      toks := toks + tsl;
      spaceafters := spaceafters + LastFlags(|tsl|);
      i := i + 1;
    }
    assert pieces[..i] == pieces;
    r := Ok(Zip(toks, spaceafters));
  }

  /** Leading text without a backslash is copied ahead of the rest's
      restoration. */
  lemma {:induction false} RestoreLiteralPrefix(x: string, y: string, table: seq<string>, e: Expansion)
    requires '\\' !in x
    ensures Restore(x + y, table, e) == Prepend(x, Restore(y, table, e))
    decreases |x|
  {
    if |x| > 0 {
      assert x + y == [x[0]] + (x[1..] + y);
      RestoreLiteralHead(x[0], x[1..] + y, table, e);
      RestoreLiteralPrefix(x[1..], y, table, e);
      match Restore(y, table, e)
      case Ok(v) => assert [x[0]] + (x[1..] + v) == x + v;
      case Err(_) =>
    } else {
      assert x + y == y;
      match Restore(y, table, e)
      case Ok(v) => assert x + v == v;
      case Err(_) =>
    }
  }

  /** Splitting `w + sep + v` on `sep` gives `w` and `v` when `sep` first
      occurs right after `w` and `v` does not contain it. */
  lemma SplitAroundSeparator(w: string, sep: string, v: string)
    requires |sep| > 0 && ClearBefore(w, sep) && !Occurs(v, sep)
    ensures SplitOn(w + sep + v, sep) == [w, v]
  {
    SplitAtClear(w, sep, v);
    var fv := FirstIndex(v, sep);
    assert fv.None?;
    assert SplitOn(v, sep) == [v];
  }

  /** A piece without the ordinal-dot marker is tokenized from its
      restoration directly. */
  lemma PieceOfRestored(t: string, ts: string, table: seq<string>, cfg: Config, m: Matchers)
    requires !Occurs(t, NumberDot(cfg.escape))
    requires Restore(t, table, TokenExpansion(cfg, m)) == Ok(ts)
    ensures PieceTokens(t, table, cfg, m) == Ok(SubTokens(ts, NoSpaceAfter(cfg.escape)))
  {
    ReplaceAllAbsent(t, NumberDot(cfg.escape), ".");
  }

  /** A non-empty restored piece without the escape is one token. */
  lemma SingleSubToken(ts: string, nsa: string)
    requires |nsa| > 0 && ts != "" && !Occurs(ts, nsa)
    ensures SubTokens(ts, nsa) == [Token(ts, true)]
  {
    var fi := FirstIndex(ts, nsa);
    assert fi.None?;
    assert SplitOn(ts, nsa) == [ts];
    assert NonEmpty([ts]) == [ts];
  }

  /** Two non-empty parts around one escape are two tokens, the first glued
      to the second. */
  lemma TwoSubTokens(w: string, nsa: string, v: string)
    requires |nsa| > 0 && w != "" && v != ""
    requires ClearBefore(w, nsa) && !Occurs(v, nsa)
    ensures SubTokens(w + nsa + v, nsa) == [Token(w, false), Token(v, true)]
  {
    SplitAroundSeparator(w, nsa, v);
    NonEmptyKeepsAll([w, v]);
  }

  /** A word followed by the placeholder of a suffix (as in `dit-il`) gives
      two tokens: the word, with no space after it, then the suffix. */
  lemma SuffixAdjacency(w: string, k: nat, table: seq<string>, cfg: Config, m: Matchers)
    requires Strip(cfg.specialSuffix) != ""
    requires k < |table| && m.isSuffix(table[k])
    requires w != "" && '\\' !in w && table[k] != ""
    requires !Occurs(w + Marker(k), NumberDot(cfg.escape))
    requires ClearBefore(w, NoSpaceAfter(cfg.escape)) && !Occurs(table[k], NoSpaceAfter(cfg.escape))
    ensures PieceTokens(w + Marker(k), table, cfg, m) == Ok([Token(w, false), Token(table[k], true)])
  {
    var nsa := NoSpaceAfter(cfg.escape);
    var sfx := table[k];
    var e := TokenExpansion(cfg, m);
    assert e == MarkSuffixes(m.isSuffix, nsa);
    assert ExpandEntry(e, sfx) == nsa + sfx;
    MarkerRestores(k, table, e);
    RestoreLiteralPrefix(w, Marker(k), table, e);
    assert w + (nsa + sfx) == w + nsa + sfx;
    PieceOfRestored(w + Marker(k), w + nsa + sfx, table, cfg, m);
    TwoSubTokens(w, nsa, sfx);
  }

  /** A placeholder that is not a suffix (or when no suffixes are
      configured) restores to exactly one token, its table entry, followed
      by a space. */
  lemma PlainPlaceholder(k: nat, table: seq<string>, cfg: Config, m: Matchers)
    requires k < |table| && table[k] != ""
    requires Strip(cfg.specialSuffix) == "" || !m.isSuffix(table[k])
    requires !Occurs(Marker(k), NumberDot(cfg.escape))
    requires !Occurs(table[k], NoSpaceAfter(cfg.escape))
    ensures PieceTokens(Marker(k), table, cfg, m) == Ok([Token(table[k], true)])
  {
    var e := TokenExpansion(cfg, m);
    assert ExpandEntry(e, table[k]) == table[k];
    MarkerRestores(k, table, e);
    PieceOfRestored(Marker(k), table[k], table, cfg, m);
    SingleSubToken(table[k], NoSpaceAfter(cfg.escape));
  }

  /** The ordinal-dot marker never survives into a piece: replacing it by `.`
      leaves no occurrence, as long as the escape has no dot. */
  lemma NumberDotRestored(t: string, escape: string)
    requires '.' !in escape
    ensures !Occurs(ReplaceAll(t, NumberDot(escape), "."), NumberDot(escape))
  {
    var nd := NumberDot(escape);
    assert forall c :: c in nd ==> c in escape || c in "NUMBERDOT";
    ReplaceAllLeavesNone(t, nd, ".");
  }

  /** With the default `escape`, which has no dot, no ordinal-dot marker
      survives into a piece. */
  lemma DefaultsNumberDotRestored(t: string)
    ensures !Occurs(ReplaceAll(t, NumberDot(Defaults.escape), "."), NumberDot(Defaults.escape))
  {
    assert '.' !in Defaults.escape;
    NumberDotRestored(t, Defaults.escape);
  }
}
