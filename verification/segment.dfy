/**
  Sentence cutting (text2conll.py lines 91-121).  With `sent_cut` the text is
  split on that literal string.  Otherwise the list returned by splitting on
  the boundary pattern is padded with `''` and read two items at a time: a
  content segment and the boundary that follows it make one sentence, and a
  pair with an empty or missing half makes none.
 */
module Segment {
  import opened Text
  import opened Whitespace
  import opened Settings

  /** Python truthiness of an item of the split list: present and
      non-empty. */
  predicate Truthy(o: Option<string>) {
    o.Some? && o.value != ""
  }

  /** `(content.replace(sent_not_cut, '') + boundary).strip()`. */
  function SentenceOf(content: string, boundary: string, notCut: string): string {
    Strip(ReplaceAll(content, notCut, "") + boundary)
  }

  /** The loop `for i in range(0, len(doubsents), 2)` over an even-length
      padded list. */
  function PairUp(d: seq<Option<string>>, notCut: string): (r: seq<string>)
    requires |d| % 2 == 0
    decreases |d|
  {
    if |d| == 0 then []
    else
      (if Truthy(d[0]) && Truthy(d[1]) then [SentenceOf(d[0].value, d[1].value, notCut)] else [])
      + PairUp(d[2..], notCut)
  }

  /** At most one sentence per pair. */
  lemma {:induction false} PairUpBound(d: seq<Option<string>>, notCut: string)
    requires |d| % 2 == 0
    ensures 2 * |PairUp(d, notCut)| <= |d|
    decreases |d|
  {
    if |d| > 0 {
      PairUpBound(d[2..], notCut);
    }
  }

  /** `doubsents = re_sent_bounds.split(ntext) + ['']`, then the pairing
      loop. */
  function HeuristicSentences(split: SentenceSplit, notCut: string): (r: seq<string>)
    ensures 2 * |r| < |split|
  {
    var a := split[..|split| - 1];
    assert split + [Some("")] == a + [split[|split| - 1], Some("")] + [];
    DroppedPair(a, split[|split| - 1], Some(""), [], notCut);
    assert a + [] == a;
    PairUpBound(a, notCut);
    PairUp(split + [Some("")], notCut)
  }

  /** The sentence strings of the protected text. */
  function CutSentences(ntext: string, cfg: Config, m: Matchers): (r: seq<string>)
    ensures cfg.sentCut != "" ==> |r| >= 1
    ensures cfg.sentCut == "" ==> 2 * |r| < |m.splitSentences(ntext)|
  {
    if cfg.sentCut != "" then SplitOn(ntext, cfg.sentCut)
    else HeuristicSentences(m.splitSentences(ntext), cfg.sentNotCut)
  }

  /** Pair `j` of the list is kept. */
  predicate KeptAt(d: seq<Option<string>>, j: int)
    requires 0 <= j && 2 * j + 1 < |d|
  {
    Truthy(d[2 * j]) && Truthy(d[2 * j + 1])
  }

  /** The sentence pair `j` makes. */
  function SentenceAt(d: seq<Option<string>>, j: int, notCut: string): string
    requires 0 <= j && 2 * j + 1 < |d| && KeptAt(d, j)
  {
    SentenceOf(d[2 * j].value, d[2 * j + 1].value, notCut)
  }

  /** Reading pairs distributes over concatenation at an even position. */
  lemma {:induction false} PairUpAppend(a: seq<Option<string>>, b: seq<Option<string>>, notCut: string)
    requires |a| % 2 == 0 && |b| % 2 == 0
    ensures PairUp(a + b, notCut) == PairUp(a, notCut) + PairUp(b, notCut)
    decreases |a|
  {
    if |a| == 0 {
      assert a + b == b;
    } else {
      EvenNext(|a|);
      var h := if Truthy(a[0]) && Truthy(a[1]) then [SentenceOf(a[0].value, a[1].value, notCut)] else [];
      var x, y := PairUp(a[2..], notCut), PairUp(b, notCut);
      assert PairUp(a + b, notCut) == h + PairUp(a[2..] + b, notCut) by {
        assert (a + b)[0] == a[0] && (a + b)[1] == a[1] && (a + b)[2..] == a[2..] + b;
      }
      assert PairUp(a[2..] + b, notCut) == x + y by {
        PairUpAppend(a[2..], b, notCut);
      }
      assert PairUp(a, notCut) == h + x;
      assert h + (x + y) == h + x + y;
    }
  }

  /** One step of the loop. */
  lemma PairUpCons(x: Option<string>, y: Option<string>, b: seq<Option<string>>, notCut: string)
    requires |b| % 2 == 0
    ensures PairUp([x, y] + b, notCut)
      == (if Truthy(x) && Truthy(y) then [SentenceOf(x.value, y.value, notCut)] else []) + PairUp(b, notCut)
  {
    var c := [x, y] + b;
    assert c[0] == x && c[1] == y && c[2..] == b;
  }

  /** A pair with an empty or missing half contributes nothing, wherever it
      stands. */
  lemma DroppedPair(a: seq<Option<string>>, x: Option<string>, y: Option<string>,
                    b: seq<Option<string>>, notCut: string)
    requires |a| % 2 == 0 && |b| % 2 == 0
    requires !Truthy(x) || !Truthy(y)
    ensures PairUp(a + [x, y] + b, notCut) == PairUp(a + b, notCut)
  {
    assert a + [x, y] + b == a + ([x, y] + b);
    PairUpAppend(a, [x, y] + b, notCut);
    PairUpCons(x, y, b, notCut);
    PairUpAppend(a, b, notCut);
  }

  /** A pair with two non-empty halves contributes exactly its sentence. */
  lemma KeptPair(a: seq<Option<string>>, x: Option<string>, y: Option<string>,
                 b: seq<Option<string>>, notCut: string)
    requires |a| % 2 == 0 && |b| % 2 == 0
    requires Truthy(x) && Truthy(y)
    ensures PairUp(a + [x, y] + b, notCut)
      == PairUp(a, notCut) + ([SentenceOf(x.value, y.value, notCut)] + PairUp(b, notCut))
  {
    assert a + [x, y] + b == a + ([x, y] + b);
    PairUpAppend(a, [x, y] + b, notCut);
    PairUpCons(x, y, b, notCut);
  }

  /** Pair `j + 1` of a list is pair `j` of the list without its first
      pair. */
  lemma ShiftPair(d: seq<Option<string>>, j: nat, notCut: string)
    requires |d| % 2 == 0 && 2 * j + 3 < |d|
    ensures KeptAt(d[2..], j) == KeptAt(d, j + 1)
    ensures KeptAt(d, j + 1) ==> SentenceAt(d[2..], j, notCut) == SentenceAt(d, j + 1, notCut)
  {
    assert d[2..][2 * j] == d[2 * (j + 1)] && d[2..][2 * j + 1] == d[2 * (j + 1) + 1];
  }

  /** `s` is the sentence of some kept pair of `d`. */
  ghost predicate FromKeptPair(d: seq<Option<string>>, s: string, notCut: string) {
    exists j :: 0 <= j && 2 * j + 1 < |d| && KeptAt(d, j) && s == SentenceAt(d, j, notCut)
  }

  lemma FromKeptPairShift(d: seq<Option<string>>, s: string, notCut: string)
    requires |d| % 2 == 0 && |d| >= 2
    requires FromKeptPair(d[2..], s, notCut)
    ensures FromKeptPair(d, s, notCut)
  {
    var j :| 0 <= j && 2 * j + 1 < |d[2..]| && KeptAt(d[2..], j) && s == SentenceAt(d[2..], j, notCut);
    ShiftPair(d, j, notCut);
    assert KeptAt(d, j + 1) && s == SentenceAt(d, j + 1, notCut);
  }

  /** Every sentence comes from a kept pair. */
  lemma {:induction false} PairUpSound(d: seq<Option<string>>, notCut: string)
    requires |d| % 2 == 0
    ensures forall k :: 0 <= k < |PairUp(d, notCut)| ==> FromKeptPair(d, PairUp(d, notCut)[k], notCut)
    decreases |d|
  {
    if |d| > 0 {
      var rest := d[2..];
      PairUpSound(rest, notCut);
      var r := PairUp(d, notCut);
      var rr := PairUp(rest, notCut);
      var h := if KeptAt(d, 0) then 1 else 0;
      assert r[h..] == rr;
      forall k | 0 <= k < |r|
        ensures FromKeptPair(d, r[k], notCut)
      {
        if k < h {
          assert KeptAt(d, 0) && r[k] == SentenceAt(d, 0, notCut);
        } else {
          assert r[k] == rr[k - h];
          FromKeptPairShift(d, rr[k - h], notCut);
        }
      }
    }
  }

  /** Every kept pair yields its sentence. */
  lemma {:induction false} PairUpComplete(d: seq<Option<string>>, notCut: string)
    requires |d| % 2 == 0
    ensures forall j :: 0 <= j && 2 * j + 1 < |d| && KeptAt(d, j) ==>
      SentenceAt(d, j, notCut) in PairUp(d, notCut)
    decreases |d|
  {
    if |d| > 0 {
      var rest := d[2..];
      PairUpComplete(rest, notCut);
      var r := PairUp(d, notCut);
      var rr := PairUp(rest, notCut);
      var h := if KeptAt(d, 0) then 1 else 0;
      assert r[h..] == rr;
      forall j | 0 <= j && 2 * j + 1 < |d| && KeptAt(d, j)
        ensures SentenceAt(d, j, notCut) in r
      {
        if j == 0 {
          assert r[0] == SentenceAt(d, 0, notCut);
        } else {
          ShiftPair(d, j - 1, notCut);
          assert SentenceAt(rest, j - 1, notCut) in rr;
        }
      }
    }
  }

  /** The trailing content segment, which no boundary follows, never makes a
      sentence: whatever it is, the sentences are the same. */
  lemma TrailingSegmentIgnored(split: SentenceSplit, last: Option<string>, notCut: string)
    ensures HeuristicSentences(split, notCut)
      == HeuristicSentences(split[..|split| - 1] + [last], notCut)
  {
    var a := split[..|split| - 1];
    assert split + [Some("")] == a + [split[|split| - 1], Some("")] + [];
    assert a + [last] + [Some("")] == a + [last, Some("")] + [];
    DroppedPair(a, split[|split| - 1], Some(""), [], notCut);
    DroppedPair(a, last, Some(""), [], notCut);
  }

  /** The split list of the pattern with three groups used when
      `new_sent_upper` is set: content, whole boundary, then the two
      alternatives of which at most one matched. */
  predicate UpperShaped(s: seq<Option<string>>)
    decreases |s|
  {
    |s| == 1 || (|s| >= 5 && !(Truthy(s[2]) && Truthy(s[3])) && UpperShaped(s[4..]))
  }

  /** The same list without the two alternative groups of each match. */
  function WithoutAlternatives(s: seq<Option<string>>): (r: seq<Option<string>>)
    requires UpperShaped(s)
    ensures |r| % 2 == 1
    decreases |s|
  {
    if |s| == 1 then s else s[..2] + WithoutAlternatives(s[4..])
  }

  lemma EvenNext(n: int)
    requires n % 2 == 0 && n > 0
    ensures n >= 2 && (n - 2) % 2 == 0
  {
  }

  lemma OddNext(n: int)
    requires n % 2 == 1
    ensures (n + 1) % 2 == 0 && (n + 3) % 2 == 0 && (n + 4) % 2 == 1
  {
  }

  /** With a three-group split, the pairs of alternatives are all dropped:
      the sentences are those of the content and boundary items alone. */
  lemma {:induction false} UpperSplitPairs(s: seq<Option<string>>, notCut: string)
    requires UpperShaped(s)
    ensures |s| % 2 == 1
    ensures PairUp(s + [Some("")], notCut) == PairUp(WithoutAlternatives(s) + [Some("")], notCut)
    decreases |s|
  {
    if |s| > 1 {
      var tail := s[4..];
      UpperSplitPairs(tail, notCut);
      var t := tail + [Some("")];
      var w := WithoutAlternatives(tail) + [Some("")];
      OddNext(|tail|);
      OddNext(|WithoutAlternatives(tail)|);
      assert |t| == |tail| + 1 && |[s[2], s[3]] + t| == |tail| + 3 && |s| == |tail| + 4;
      assert |w| == |WithoutAlternatives(tail)| + 1;
      assert s + [Some("")] == [s[0], s[1]] + ([s[2], s[3]] + t);
      PairUpCons(s[0], s[1], [s[2], s[3]] + t, notCut);
      PairUpCons(s[2], s[3], t, notCut);
      assert s[..2] == [s[0], s[1]];
      assert WithoutAlternatives(s) + [Some("")] == [s[0], s[1]] + w;
      PairUpCons(s[0], s[1], w, notCut);
    }
  }

  /** Each match of the three-group pattern takes four items of the split
      and two of the list without alternatives. */
  lemma {:induction false} WithoutAlternativesLength(s: seq<Option<string>>)
    requires UpperShaped(s)
    ensures |s| + 1 == 2 * |WithoutAlternatives(s)|
    decreases |s|
  {
    if |s| > 1 {
      WithoutAlternativesLength(s[4..]);
    }
  }

  /** With the three-group pattern of `new_sent_upper` (the default), a split
      of `n` boundary matches has `4 * n + 1` items and yields at most `n`
      sentences: at most one per boundary match. */
  lemma UpperSentenceBound(s: SentenceSplit, notCut: string)
    requires UpperShaped(s)
    ensures 4 * |HeuristicSentences(s, notCut)| <= |s| - 1
  {
    UpperSplitPairs(s, notCut);
    WithoutAlternativesLength(s);
    var w: SentenceSplit := WithoutAlternatives(s);
    assert HeuristicSentences(s, notCut) == HeuristicSentences(w, notCut);
  }

  /** With `sent_cut` set, joining the sentences with the cut string gives
      back the text: cutting loses nothing. */
  lemma CutModeLossless(ntext: string, cfg: Config, m: Matchers)
    requires cfg.sentCut != ""
    ensures Join(CutSentences(ntext, cfg, m), cfg.sentCut) == ntext
    ensures forall k :: 0 <= k < |CutSentences(ntext, cfg, m)| ==>
      !Occurs(CutSentences(ntext, cfg, m)[k], cfg.sentCut)
  {
    JoinSplit(ntext, cfg.sentCut);
    SplitOnParts(ntext, cfg.sentCut);
  }

  /** With an empty `sent_not_cut`, removing it changes nothing. */
  lemma {:induction false} RemoveEmptyIsIdentity(s: string)
    ensures ReplaceAll(s, "", "") == s
    decreases |s|
  {
    if |s| > 0 {
      RemoveEmptyIsIdentity(s[1..]);
      assert s == [s[0]] + s[1..];
    }
  }
}
