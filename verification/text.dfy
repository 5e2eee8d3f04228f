/**
  The Python string primitives the tokenizer is built from, as functions on
  `string` (the ones that search for a separator require it to be
  non-empty): `startswith`, `in`, `str.replace`, `str.split(sep)`
  and `sep.join`.  Each is defined by the left-to-right scan Python performs,
  and the lemmas relate them to one another.
 */
module Text {

  datatype Option<T> = None | Some(value: T)

  /** `s.startswith(p)`. */
  predicate StartsWith(s: string, p: string) {
    |p| <= |s| && s[..|p|] == p
  }

  /** `w` occurs in `s` starting at position `i`. */
  predicate OccursAt(s: string, w: string, i: int) {
    0 <= i <= |s| && StartsWith(s[i..], w)
  }

  /** `w in s`. */
  predicate Occurs(s: string, w: string) {
    exists i :: 0 <= i <= |s| && OccursAt(s, w, i)
  }

  /** `s.replace(w, r)`: scan from the left, replace every non-overlapping
      occurrence of `w` by `r`.  An empty `w` matches between every two
      characters and at both ends, as in Python. */
  function ReplaceAll(s: string, w: string, r: string): (out: string)
    ensures |w| == 0 ==> |out| == |s| + (|s| + 1) * |r|
    decreases |s|
  {
    if |s| == 0 then
      (if |w| == 0 then r else "")
    else if |w| == 0 then
      r + [s[0]] + ReplaceAll(s[1..], w, r)
    else if StartsWith(s, w) then
      r + ReplaceAll(s[|w|..], w, r)
    else
      [s[0]] + ReplaceAll(s[1..], w, r)
  }

  /** `s.find(w)`, as an option: the leftmost occurrence of `w` in `s`. */
  function FirstIndex(s: string, w: string): (r: Option<nat>)
    requires |w| > 0
    ensures r.Some? ==> r.value + |w| <= |s| && OccursAt(s, w, r.value)
    ensures r.Some? ==> forall i :: 0 <= i < r.value ==> !OccursAt(s, w, i)
    ensures r.None? ==> !Occurs(s, w)
    decreases |s|
  {
    if StartsWith(s, w) then Some(0)
    else if |s| == 0 then None
    else
      OccursShift(s, w);
      match FirstIndex(s[1..], w)
      case None => None
      case Some(j) => Some(j + 1)
  }

  /** `s.split(sep)` for a non-empty separator: the pieces between the
      leftmost non-overlapping occurrences of `sep`. */
  function SplitOn(s: string, sep: string): (parts: seq<string>)
    requires |sep| > 0
    ensures |parts| >= 1
    decreases |s|
  {
    match FirstIndex(s, sep)
    case None => [s]
    case Some(i) => [s[..i]] + SplitOn(s[i + |sep|..], sep)
  }

  /** No piece of `s.split(sep)` contains `sep`. */
  lemma {:induction false} SplitOnParts(s: string, sep: string)
    requires |sep| > 0
    ensures forall k :: 0 <= k < |SplitOn(s, sep)| ==> !Occurs(SplitOn(s, sep)[k], sep)
    decreases |s|
  {
    match FirstIndex(s, sep)
    case None =>
    case Some(i) =>
      var tail := SplitOn(s[i + |sep|..], sep);
      SplitOnParts(s[i + |sep|..], sep);
      NoOccurrenceBefore(s, sep, i);
      assert SplitOn(s, sep) == [s[..i]] + tail;
  }

  /** No occurrence of `sep` starts inside `w` when `sep` follows `w`: the
      first occurrence of `sep` in `w + sep + ...` is the one right after
      `w`. */
  predicate ClearBefore(w: string, sep: string) {
    forall p :: 0 <= p < |w| ==> !OccursAt(w + sep, sep, p)
  }

  /** The split cuts at the leftmost occurrence: every piece but the last is
      followed by the first occurrence of `sep` after it, so an overlapping
      separator such as `aa` in `aaa` cuts at the front. */
  lemma {:induction false} SplitOnLeftmost(s: string, sep: string)
    requires |sep| > 0
    ensures forall k :: 0 <= k < |SplitOn(s, sep)| - 1 ==> ClearBefore(SplitOn(s, sep)[k], sep)
    decreases |s|
  {
    match FirstIndex(s, sep)
    case None =>
    case Some(i) =>
      var tail := SplitOn(s[i + |sep|..], sep);
      SplitOnLeftmost(s[i + |sep|..], sep);
      assert SplitOn(s, sep) == [s[..i]] + tail;
      var w := s[..i];
      assert w + sep == s[..i + |sep|];
      forall p | 0 <= p < |w| ensures !OccursAt(w + sep, sep, p) {
        assert !OccursAt(s, sep, p);
        if p + |sep| <= |w + sep| {
          assert (w + sep)[p..][..|sep|] == s[p..][..|sep|];
        }
      }
  }

  /** When `sep` first occurs right after `a`, the split of `a + sep + b`
      is `a` followed by the split of `b`. */
  lemma SplitAtClear(a: string, sep: string, b: string)
    requires |sep| > 0 && ClearBefore(a, sep)
    ensures SplitOn(a + sep + b, sep) == [a] + SplitOn(b, sep)
  {
    var s := a + sep + b;
    assert s[|a|..][..|sep|] == sep;
    forall p | 0 <= p < |a| ensures !OccursAt(s, sep, p) {
      assert !OccursAt(a + sep, sep, p);
      if p + |sep| <= |s| {
        assert s[p..][..|sep|] == (a + sep)[p..][..|sep|];
      }
    }
    assert OccursAt(s, sep, |a|);
    assert Occurs(s, sep);
    var fi := FirstIndex(s, sep);
    assert fi.value == |a|;
    assert s[..|a|] == a;
    assert s[|a| + |sep|..] == b;
  }

  /** `sep.join(parts)`. */
  function Join(parts: seq<string>, sep: string): (r: string)
    ensures |sep| == 0 ==> r == Concat(parts)
    decreases |parts|
  {
    if |parts| == 0 then ""
    else if |parts| == 1 then parts[0]
    else parts[0] + sep + Join(parts[1..], sep)
  }

  /** `''.join(parts)`. */
  function Concat(parts: seq<string>): string
    decreases |parts|
  {
    if |parts| == 0 then "" else parts[0] + Concat(parts[1..])
  }

  /** Occurrences in `s[1..]` are the occurrences in `s` shifted by one. */
  lemma OccursShift(s: string, w: string)
    requires |s| > 0
    ensures OccursAt(s, w, 0) <==> StartsWith(s, w)
    ensures forall i :: 1 <= i <= |s| ==> (OccursAt(s, w, i) <==> OccursAt(s[1..], w, i - 1))
  {
    assert s[0..] == s;
    forall i | 1 <= i <= |s| ensures s[i..] == s[1..][i - 1..] { }
  }

  /** A string starts with `w` exactly when its head is `w`'s head and its
      tail starts with the rest of `w`. */
  lemma StartsWithCons(c: char, t: string, w: string)
    requires |w| > 0
    ensures StartsWith([c] + t, w) <==> c == w[0] && StartsWith(t, w[1..])
  {
    if |w| <= |t| + 1 {
      assert ([c] + t)[..|w|] == [c] + t[..|w| - 1];
      if c == w[0] && StartsWith(t, w[1..]) {
        assert w == [w[0]] + w[1..];
      }
    }
  }

  /** A prefix of `s` that ends before the first occurrence of `w` does not
      contain `w`. */
  lemma NoOccurrenceBefore(s: string, w: string, i: nat)
    requires i <= |s|
    requires forall j :: 0 <= j < i ==> !OccursAt(s, w, j)
    requires |w| > 0
    ensures !Occurs(s[..i], w)
  {
    forall j | 0 <= j <= i ensures !OccursAt(s[..i], w, j) {
      if j + |w| <= i {
        assert !OccursAt(s, w, j);
        assert s[..i][j..][..|w|] == s[j..][..|w|];
      }
    }
  }

  /** Characters that no match of `w` starts at are copied unchanged by
      `ReplaceAll`. */
  lemma {:induction false} ReplaceAllSkip(x: string, y: string, w: string, r: string)
    requires |w| > 0
    requires forall i :: 0 <= i < |x| ==> !OccursAt(x + y, w, i)
    ensures ReplaceAll(x + y, w, r) == x + ReplaceAll(y, w, r)
    decreases |x|
  {
    if |x| == 0 {
      assert x + y == y;
    } else {
      assert (x + y)[0..] == x + y;
      assert !OccursAt(x + y, w, 0);
      assert (x + y)[1..] == x[1..] + y;
      forall i | 0 <= i < |x[1..]|
        ensures !OccursAt(x[1..] + y, w, i)
      {
        assert !OccursAt(x + y, w, i + 1);
        assert (x[1..] + y)[i..] == (x + y)[i + 1..];
      }
      ReplaceAllSkip(x[1..], y, w, r);
      var s := x + y;
      assert !StartsWith(s, w);
      assert ReplaceAll(s, w, r) == [s[0]] + ReplaceAll(s[1..], w, r);
      assert s[0] == x[0];
      calc {
        ReplaceAll(s, w, r);
        [x[0]] + ReplaceAll(x[1..] + y, w, r);
        [x[0]] + (x[1..] + ReplaceAll(y, w, r));
        { assert [x[0]] + x[1..] == x; }
        x + ReplaceAll(y, w, r);
      }
    }
  }

  /** Replacing a string that does not occur changes nothing. */
  lemma ReplaceAllAbsent(s: string, w: string, r: string)
    requires |w| > 0 && !Occurs(s, w)
    ensures ReplaceAll(s, w, r) == s
  {
    assert s + "" == s;
    ReplaceAllSkip(s, "", w, r);
  }

  /** A match at the head of `w + y` is consumed whole. */
  lemma ReplaceAllHead(w: string, y: string, r: string)
    requires |w| > 0
    ensures ReplaceAll(w + y, w, r) == r + ReplaceAll(y, w, r)
  {
    assert (w + y)[..|w|] == w;
    assert (w + y)[|w|..] == y;
  }

  /** `sep.join(s.split(sep)) == s`. */
  lemma {:induction false} JoinSplit(s: string, sep: string)
    requires |sep| > 0
    ensures Join(SplitOn(s, sep), sep) == s
    decreases |s|
  {
    match FirstIndex(s, sep)
    case None =>
    case Some(i) =>
      var x, rest := s[..i], s[i + |sep|..];
      JoinSplit(rest, sep);
      FirstMatchSplits(s, sep, i);
      calc {
        Join(SplitOn(s, sep), sep);
        Join([x] + SplitOn(rest, sep), sep);
        { JoinCons(x, SplitOn(rest, sep), sep); }
        x + sep + Join(SplitOn(rest, sep), sep);
        x + sep + rest;
      }
  }

  /** Joining a head onto a non-empty list puts the separator after it. */
  lemma JoinCons(x: string, tail: seq<string>, sep: string)
    requires |tail| >= 1
    ensures Join([x] + tail, sep) == x + sep + Join(tail, sep)
  {
    assert ([x] + tail)[1..] == tail;
  }

  /** Replacement copies everything before the first match, then replaces
      it. */
  lemma ReplaceAllAtFirst(x: string, sep: string, rest: string, r: string)
    requires |sep| > 0
    requires forall j :: 0 <= j < |x| ==> !OccursAt(x + (sep + rest), sep, j)
    ensures ReplaceAll(x + (sep + rest), sep, r) == x + r + ReplaceAll(rest, sep, r)
  {
    ReplaceAllSkip(x, sep + rest, sep, r);
    ReplaceAllHead(sep, rest, r);
  }

  /** The text around the first match of `sep`. */
  lemma FirstMatchSplits(s: string, sep: string, i: nat)
    requires |sep| > 0 && i + |sep| <= |s| && OccursAt(s, sep, i)
    requires forall j :: 0 <= j < i ==> !OccursAt(s, sep, j)
    ensures s == s[..i] + (sep + s[i + |sep|..])
    ensures s == s[..i] + sep + s[i + |sep|..]
  {
    assert s[i..][..|sep|] == sep;
    assert s[i..] == s[i..][..|sep|] + s[i + |sep|..];
    assert s == s[..i] + s[i..];
    assert s[..i + |sep|] == s[..i] + sep;
    assert s == s[..i + |sep|] + s[i + |sep|..];
  }

  /** `r.join(s.split(sep)) == s.replace(sep, r)`: splitting and joining with
      a different separator is replacement. */
  lemma {:induction false} JoinSplitIsReplace(s: string, sep: string, r: string)
    requires |sep| > 0
    ensures Join(SplitOn(s, sep), r) == ReplaceAll(s, sep, r)
    decreases |s|
  {
    match FirstIndex(s, sep)
    case None =>
      ReplaceAllAbsent(s, sep, r);
    case Some(i) =>
      var x, rest := s[..i], s[i + |sep|..];
      var tail := SplitOn(rest, sep);
      assert SplitOn(s, sep) == [x] + tail;
      assert Join([x] + tail, r) == x + r + Join(tail, r);
      JoinSplitIsReplace(rest, sep, r);
      FirstMatchSplits(s, sep, i);
      forall j | 0 <= j < |x|
        ensures !OccursAt(x + (sep + rest), sep, j)
      {
        assert !OccursAt(s, sep, j);
      }
      ReplaceAllAtFirst(x, sep, rest, r);
  }

  /** `s.split(c)` undoes `c.join(parts)` for a one-character separator that
      no part contains. */
  lemma {:induction false} SplitJoin(parts: seq<string>, c: char)
    requires |parts| >= 1
    requires forall k :: 0 <= k < |parts| ==> c !in parts[k]
    ensures SplitOn(Join(parts, [c]), [c]) == parts
    decreases |parts|
  {
    var s := Join(parts, [c]);
    if |parts| == 1 {
      forall i | 0 <= i <= |s| ensures !OccursAt(s, [c], i) {
        if i < |s| { assert s[i..][0] == s[i]; }
      }
    } else {
      var p := parts[0];
      var rest := Join(parts[1..], [c]);
      assert s == p + [c] + rest;
      assert OccursAt(s, [c], |p|) by {
        assert s[|p|..][..1] == [c];
      }
      forall i | 0 <= i < |p| ensures !OccursAt(s, [c], i) {
        assert s[i..][0] == p[i];
      }
      var fi := FirstIndex(s, [c]);
      assert fi == Some(|p|);
      assert s[..|p|] == p;
      assert s[|p| + 1..] == rest;
      SplitJoin(parts[1..], c);
    }
  }

  /** If the result of a replacement starts with a string built only from
      characters of `w`, and `r` shares no character with `w`, then so did
      the input. */
  lemma {:induction false} ReplacedPrefix(t: string, w: string, r: string, p: string)
    requires |w| > 0 && |r| > 0
    requires forall c :: c in r ==> c !in w
    requires forall c :: c in p ==> c in w
    ensures StartsWith(ReplaceAll(t, w, r), p) ==> StartsWith(t, p)
    decreases |t|
  {
    if |p| > 0 && |t| > 0 {
      var out := ReplaceAll(t, w, r);
      if StartsWith(t, w) {
        assert out[0] == r[0];
        assert p[0] in w;
      } else {
        assert out == [t[0]] + ReplaceAll(t[1..], w, r);
        ReplacedPrefix(t[1..], w, r, p[1..]);
        if StartsWith(out, p) {
          assert ReplaceAll(t[1..], w, r)[..|p| - 1] == out[1..|p|];
          assert t[..|p|] == [t[0]] + t[1..][..|p| - 1];
        }
      }
    }
  }

  /** After `s.replace(w, r)`, where `r` is non-empty and shares no character
      with `w`, no occurrence of `w` remains. */
  lemma {:induction false} ReplaceAllLeavesNone(s: string, w: string, r: string)
    requires |w| > 0 && |r| > 0
    requires forall c :: c in r ==> c !in w
    ensures !Occurs(ReplaceAll(s, w, r), w)
    decreases |s|
  {
    var out := ReplaceAll(s, w, r);
    if |s| == 0 {
      assert out == "";
      forall i | 0 <= i <= |out| ensures !OccursAt(out, w, i) {
      }
    } else if StartsWith(s, w) {
      var rest := ReplaceAll(s[|w|..], w, r);
      ReplaceAllLeavesNone(s[|w|..], w, r);
      assert out == r + rest;
      forall i | 0 <= i <= |out|
        ensures !OccursAt(out, w, i)
      {
        if i < |r| {
          assert out[i] == r[i];
          assert w[0] in w;
        } else {
          assert out[i..] == rest[i - |r|..];
          assert !OccursAt(rest, w, i - |r|);
        }
      }
    } else {
      var rest := ReplaceAll(s[1..], w, r);
      ReplaceAllLeavesNone(s[1..], w, r);
      assert out == [s[0]] + rest;
      forall i | 0 <= i <= |out|
        ensures !OccursAt(out, w, i)
      {
        if i == 0 {
          ReplacedPrefix(s[1..], w, r, w[1..]);
          assert s == [s[0]] + s[1..];
          StartsWithCons(s[0], s[1..], w);
          StartsWithCons(s[0], rest, w);
          assert out[0..] == out;
        } else {
          assert out[i..] == rest[i - 1..];
          assert !OccursAt(rest, w, i - 1);
        }
      }
    }
  }
}
