/**
  The placeholder passes at the start of `tokenize` (text2conll.py lines
  60-85): configured whole words, then suffix, URL and number matches, are
  each replaced everywhere in the text by a marker naming their entry in the
  table `whole_words`.  The main result is that restoring the protected text
  from the table gives back the original text.
 */
module Protect {
  import opened Text
  import opened Decimal
  import opened Whitespace
  import opened Settings
  import opened Markers

  /** The local state of the passes: `ntext`, `whole_words` and `ind`. */
  datatype Protection = Protection(text: string, table: seq<string>, ind: nat)

  /** `whole_words.strip().split()`: the configured whole words, which are
      also the first entries of the table. */
  function WholeWordList(cfg: Config): seq<string> {
    Words(Strip(cfg.wholeWords))
  }

  /** The loop over the configured whole words: each one is replaced by the
      marker of the current `ind`, and `ind` advances whether or not the word
      occurs. */
  function ProtectWholeWords(st: Protection, words: seq<string>): (r: Protection)
    ensures r.table == st.table
    ensures r.ind == st.ind + |words|
    decreases |words|
  {
    if |words| == 0 then st
    else
      var next := Protection(ReplaceAll(st.text, words[0], Marker(st.ind)), st.table, st.ind + 1);
      ProtectWholeWords(next, words[1..])
  }

  /** One `finditer` loop: the matches are those of the snapshot the loop
      started from; each is replaced in the current text by the marker of
      `ind`, appended to the table, and `ind` advances.  The counter keeps
      naming the next free table slot. */
  function ProtectMatches(st: Protection, matches: seq<string>): (r: Protection)
    requires st.ind == |st.table|
    ensures r.table == st.table + matches
    ensures r.ind == |r.table|
    decreases |matches|
  {
    if |matches| == 0 then st
    else
      var next := Protection(
        ReplaceAll(st.text, matches[0], Marker(st.ind)), st.table + [matches[0]], st.ind + 1);
      assert st.table + matches == next.table + matches[1..];
      ProtectMatches(next, matches[1..])
  }

  /** A `finditer` pass that runs only when its option is on; the table
      only grows. */
  function OptionalPass(st: Protection, enabled: bool, matches: seq<string>): (r: Protection)
    requires st.ind == |st.table|
    ensures r.ind == |r.table|
    ensures r.table == if enabled then st.table + matches else st.table
  {
    if enabled then ProtectMatches(st, matches) else st
  }

  /** All four passes, in order.  The table starts with the configured
      words, and `ind` ends equal to the table's length. */
  function Protect(text: string, cfg: Config, m: Matchers): (r: Protection)
    ensures r.ind == |r.table|
    ensures |WholeWordList(cfg)| <= |r.table|
    ensures r.table[..|WholeWordList(cfg)|] == WholeWordList(cfg)
  {
    var words := WholeWordList(cfg);
    var st1 := ProtectWholeWords(Protection(text, words, 0), words);
    var st2 := OptionalPass(st1, Strip(cfg.specialSuffix) != "", m.suffixMatches(st1.text));
    var st3 := OptionalPass(st2, cfg.keepUrl, m.urlMatches(st2.text));
    var st4 := OptionalPass(st3, cfg.combineNumbers, m.numberMatches(st3.text));
    assert st4.table[..|words|] == words by {
      assert words <= st2.table <= st3.table <= st4.table;
    }
    st4
  }

  /** A span the marker encoding can protect: non-empty, without a backslash,
      and not made of digits alone (so that it cannot occur inside a
      marker).  The default whole words, suffixes, URLs (which contain a dot)
      and number groups (which contain a separator) all are. */
  predicate Protectable(w: string) {
    |w| > 0 && '\\' !in w && !AllDigits(w)
  }

  /** Every span the three patterns can return is protectable. */
  ghost predicate MatchersProtectable(m: Matchers) {
    && (forall t, w :: w in m.suffixMatches(t) ==> Protectable(w))
    && (forall t, w :: w in m.urlMatches(t) ==> Protectable(w))
    && (forall t, w :: w in m.numberMatches(t) ==> Protectable(w))
  }

  /** The pieces of a text that contains no marker yet. */
  function Lits(s: string): seq<Piece> {
    seq(|s|, i requires 0 <= i < |s| => Lit(s[i]))
  }

  lemma {:induction false} LitsRepresent(s: string, table: seq<string>)
    requires '\\' !in s
    ensures Render(Lits(s)) == s
    ensures NoBackslashLit(Lits(s)) && RefsBelow(Lits(s), |table|)
    ensures Expand(Lits(s), table, Plain) == s
    decreases |s|
  {
    if |s| > 0 {
      assert Lits(s)[1..] == Lits(s[1..]);
      LitsRepresent(s[1..], table);
      assert s == [s[0]] + s[1..];
    }
  }

  /** The first `|w|` pieces are the literal characters of `w`. */
  predicate SpellsPrefix(ps: seq<Piece>, w: string) {
    |w| <= |ps| && forall i :: 0 <= i < |w| ==> ps[i] == Lit(w[i])
  }

  /** `ReplaceAll` lifted to pieces: each run of literals spelling `w`
      becomes one reference to entry `k`. */
  function ReplacePieces(ps: seq<Piece>, w: string, k: nat): seq<Piece>
    requires |w| > 0
    decreases |ps|
  {
    if |ps| == 0 then []
    else if SpellsPrefix(ps, w) then [Ref(k)] + ReplacePieces(ps[|w|..], w, k)
    else [ps[0]] + ReplacePieces(ps[1..], w, k)
  }

  lemma RenderCons(p: Piece, ps: seq<Piece>)
    ensures Render([p] + ps) == PieceText(p) + Render(ps)
  {
    assert ([p] + ps)[1..] == ps;
  }

  /** Pieces spelling `w` start with its first letter, then spell the
      rest of it. */
  lemma SpellsTail(ps: seq<Piece>, w: string)
    requires |w| > 0 && SpellsPrefix(ps, w)
    ensures SpellsPrefix(ps[1..], w[1..])
    ensures Render(ps) == [w[0]] + Render(ps[1..])
  {
    assert ps[0] == Lit(w[0]);
  }

  lemma {:induction false} RenderSpelled(ps: seq<Piece>, w: string)
    requires SpellsPrefix(ps, w)
    ensures Render(ps) == w + Render(ps[|w|..])
    decreases |w|
  {
    if |w| > 0 {
      var rest := Render(ps[|w|..]);
      assert Render(ps) == [w[0]] + (w[1..] + rest) by {
        SpellsTail(ps, w);
        RenderSpelled(ps[1..], w[1..]);
        assert ps[1..][|w| - 1..] == ps[|w|..];
      }
      assert [w[0]] + (w[1..] + rest) == w + rest by {
        assert [w[0]] + (w[1..] + rest) == [w[0]] + w[1..] + rest;
        assert [w[0]] + w[1..] == w;
      }
    } else {
      assert ps[|w|..] == ps;
    }
  }

  /** A protectable span can only start at a run of literals spelling it. */
  lemma {:induction false} StartsWithSpells(ps: seq<Piece>, w: string)
    requires |w| > 0 && '\\' !in w
    ensures StartsWith(Render(ps), w) ==> SpellsPrefix(ps, w)
    decreases |w|
  {
    if |ps| == 0 {
      assert Render(ps) == "";
    } else {
      var rest := Render(ps[1..]);
      assert w[0] in w;
      match ps[0]
      case Ref(j) =>
        assert Render(ps)[0] == '\\';
        assert !StartsWith(Render(ps), w) by {
          if |w| <= |Render(ps)| {
            assert Render(ps)[..|w|][0] != w[0];
          }
        }
      case Lit(c) =>
        assert Render(ps) == [c] + rest;
        StartsWithCons(c, rest, w);
        if |w| > 1 {
          assert forall ch :: ch in w[1..] ==> ch in w;
          StartsWithSpells(ps[1..], w[1..]);
          if c == w[0] && SpellsPrefix(ps[1..], w[1..]) {
            forall i | 0 <= i < |w| ensures ps[i] == Lit(w[i]) {
              if i > 0 {
                assert ps[1..][i - 1] == ps[i];
              }
            }
          }
        }
    }
  }

  /** No occurrence of a protectable span starts inside a marker. */
  lemma NoMatchInMarker(j: nat, y: string, w: string)
    requires Protectable(w)
    ensures forall i :: 0 <= i < |Marker(j)| ==> !OccursAt(Marker(j) + y, w, i)
  {
    var m := Marker(j);
    var s := m + y;
    var t :| 0 <= t < |w| && !IsDigit(w[t]);
    forall i | 0 <= i < |m|
      ensures !OccursAt(s, w, i)
    {
      if |w| <= |s| - i {
        var v := s[i..][..|w|];
        if i == 0 || i == |m| - 1 {
          assert v[0] == '\\';
          assert w[0] in w;
        } else if |w| <= |m| - 1 - i {
          assert v[t] == m[1..|m| - 1][i + t - 1];
        } else {
          assert v[|m| - 1 - i] == '\\';
          assert w[|m| - 1 - i] in w;
        }
      }
    }
  }

  /** Replacing on the pieces and rendering is replacing on the text. */
  lemma {:induction false} RenderReplace(ps: seq<Piece>, w: string, k: nat)
    requires Protectable(w)
    ensures Render(ReplacePieces(ps, w, k)) == ReplaceAll(Render(ps), w, Marker(k))
    decreases |ps|
  {
    if |ps| > 0 {
      if SpellsPrefix(ps, w) {
        var tail := ps[|w|..];
        RenderReplace(tail, w, k);
        RenderSpelled(ps, w);
        ReplaceAllHead(w, Render(tail), Marker(k));
        RenderCons(Ref(k), ReplacePieces(tail, w, k));
      } else {
        RenderReplace(ps[1..], w, k);
        StartsWithSpells(ps, w);
        RenderCons(ps[0], ReplacePieces(ps[1..], w, k));
        assert ps == [ps[0]] + ps[1..];
        RenderCons(ps[0], ps[1..]);
        match ps[0]
        case Lit(c) =>
          assert ([c] + Render(ps[1..]))[1..] == Render(ps[1..]);
        case Ref(j) =>
          NoMatchInMarker(j, Render(ps[1..]), w);
          ReplaceAllSkip(Marker(j), Render(ps[1..]), w, Marker(k));
      }
    }
  }

  /** Replacing on the pieces keeps them well formed and, when entry `k` is
      the replaced span, does not change what they stand for. */
  lemma {:induction false} ExpandReplace(ps: seq<Piece>, w: string, k: nat, table: seq<string>)
    requires |w| > 0 && k < |table| && table[k] == w
    requires RefsBelow(ps, |table|) && NoBackslashLit(ps)
    ensures RefsBelow(ReplacePieces(ps, w, k), |table|)
    ensures NoBackslashLit(ReplacePieces(ps, w, k))
    ensures Expand(ReplacePieces(ps, w, k), table, Plain) == Expand(ps, table, Plain)
    decreases |ps|
  {
    if |ps| > 0 {
      if SpellsPrefix(ps, w) {
        var tail := ps[|w|..];
        ExpandReplace(tail, w, k, table);
        ExpandSpelled(ps, w, table);
        var out := [Ref(k)] + ReplacePieces(tail, w, k);
        assert out[1..] == ReplacePieces(tail, w, k);
      } else {
        ExpandReplace(ps[1..], w, k, table);
        var out := [ps[0]] + ReplacePieces(ps[1..], w, k);
        assert out[1..] == ReplacePieces(ps[1..], w, k);
      }
    }
  }

  lemma {:induction false} ExpandSpelled(ps: seq<Piece>, w: string, table: seq<string>)
    requires SpellsPrefix(ps, w) && RefsBelow(ps, |table|)
    ensures Expand(ps, table, Plain) == w + Expand(ps[|w|..], table, Plain)
    decreases |w|
  {
    if |w| > 0 {
      assert SpellsPrefix(ps[1..], w[1..]);
      ExpandSpelled(ps[1..], w[1..], table);
      assert ps[1..][|w| - 1..] == ps[|w|..];
      assert w == [w[0]] + w[1..];
    }
  }

  /** Entries appended to the table do not change what earlier pieces stand
      for. */
  lemma {:induction false} ExpandExtend(ps: seq<Piece>, table: seq<string>, extra: seq<string>)
    requires RefsBelow(ps, |table|)
    ensures RefsBelow(ps, |table + extra|)
    ensures Expand(ps, table + extra, Plain) == Expand(ps, table, Plain)
    decreases |ps|
  {
    if |ps| > 0 {
      ExpandExtend(ps[1..], table, extra);
    }
  }

  /** `st.text` is the rendering of pieces that stand for `text`. */
  ghost predicate Represents(st: Protection, ps: seq<Piece>, text: string) {
    && Render(ps) == st.text
    && NoBackslashLit(ps)
    && RefsBelow(ps, |st.table|)
    && Expand(ps, st.table, Plain) == text
  }

  /** One replacement by the marker of a table entry equal to the span keeps
      the text restorable. */
  lemma ReplaceStep(st: Protection, ps: seq<Piece>, text: string, w: string, k: nat)
    returns (ps': seq<Piece>)
    requires Represents(st, ps, text) && Protectable(w)
    requires k < |st.table| && st.table[k] == w
    ensures Represents(Protection(ReplaceAll(st.text, w, Marker(k)), st.table, st.ind), ps', text)
  {
    ps' := ReplacePieces(ps, w, k);
    RenderReplace(ps, w, k);
    ExpandReplace(ps, w, k, st.table);
  }

  lemma {:induction false} WholeWordsRepresent(st: Protection, words: seq<string>, ps: seq<Piece>, text: string)
    returns (ps': seq<Piece>)
    requires Represents(st, ps, text)
    requires st.ind + |words| <= |st.table|
    requires forall i :: 0 <= i < |words| ==> st.table[st.ind + i] == words[i]
    requires forall i :: 0 <= i < |words| ==> Protectable(words[i])
    ensures Represents(ProtectWholeWords(st, words), ps', text)
    decreases |words|
  {
    if |words| == 0 {
      ps' := ps;
    } else {
      var mid := ReplaceStep(st, ps, text, words[0], st.ind);
      var next := Protection(ReplaceAll(st.text, words[0], Marker(st.ind)), st.table, st.ind + 1);
      assert Represents(next, mid, text);
      forall i | 0 <= i < |words[1..]| ensures next.table[next.ind + i] == words[1..][i] {
        assert st.table[st.ind + (i + 1)] == words[i + 1];
      }
      ps' := WholeWordsRepresent(next, words[1..], mid, text);
    }
  }

  lemma {:induction false} MatchesRepresent(st: Protection, matches: seq<string>, ps: seq<Piece>, text: string)
    returns (ps': seq<Piece>)
    requires st.ind == |st.table| && Represents(st, ps, text)
    requires forall w :: w in matches ==> Protectable(w)
    ensures Represents(ProtectMatches(st, matches), ps', text)
    decreases |matches|
  {
    if |matches| == 0 {
      ps' := ps;
    } else {
      var w := matches[0];
      var grown := Protection(st.text, st.table + [w], st.ind);
      ExpandExtend(ps, st.table, [w]);
      assert Represents(grown, ps, text);
      var mid := ReplaceStep(grown, ps, text, w, st.ind);
      var next := Protection(ReplaceAll(st.text, w, Marker(st.ind)), st.table + [w], st.ind + 1);
      assert Represents(next, mid, text);
      ps' := MatchesRepresent(next, matches[1..], mid, text);
    }
  }

  /** Restoring the protected text from the table gives back the original
      text, provided the text has no backslash of its own and every span the
      passes replace is protectable. */
  lemma ProtectRestores(text: string, cfg: Config, m: Matchers)
    requires '\\' !in text
    requires forall w :: w in WholeWordList(cfg) ==> Protectable(w)
    requires MatchersProtectable(m)
    ensures Restore(Protect(text, cfg, m).text, Protect(text, cfg, m).table, Plain) == Ok(text)
  {
    var words := WholeWordList(cfg);
    var st0 := Protection(text, words, 0);
    LitsRepresent(text, words);
    var ps := WholeWordsRepresent(st0, words, Lits(text), text);
    var st1 := ProtectWholeWords(st0, words);
    var st2 := st1;
    if Strip(cfg.specialSuffix) != "" {
      ps := MatchesRepresent(st1, m.suffixMatches(st1.text), ps, text);
      st2 := ProtectMatches(st1, m.suffixMatches(st1.text));
    }
    var st3 := st2;
    if cfg.keepUrl {
      ps := MatchesRepresent(st2, m.urlMatches(st2.text), ps, text);
      st3 := ProtectMatches(st2, m.urlMatches(st2.text));
    }
    var st4 := st3;
    if cfg.combineNumbers {
      ps := MatchesRepresent(st3, m.numberMatches(st3.text), ps, text);
      st4 := ProtectMatches(st3, m.numberMatches(st3.text));
    }
    assert st4 == Protect(text, cfg, m);
    RestoreRender(ps, st4.table, Plain);
  }

  /** The marker written for a configured whole word names that word. */
  lemma WholeWordMarker(cfg: Config, text: string, m: Matchers, i: nat)
    requires i < |WholeWordList(cfg)|
    ensures Restore(Marker(i), Protect(text, cfg, m).table, Plain) == Ok(WholeWordList(cfg)[i])
  {
    var r := Protect(text, cfg, m);
    assert r.table[i] == r.table[..|WholeWordList(cfg)|][i];
    MarkerRestores(i, r.table, Plain);
  }
}
