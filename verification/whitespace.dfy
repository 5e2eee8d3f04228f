/**
  Python's argument-less `str.split()` and `str.strip()`, over the characters
  `str.isspace()` accepts.
 */
module Whitespace {
  import opened Text

  /** The characters Python's `str.isspace()` accepts. */
  const SpaceChars: set<char> := {
    '\t', '\n', '\U{B}', '\U{C}', '\r', '\U{1C}', '\U{1D}', '\U{1E}', '\U{1F}', ' ',
    '\U{85}', '\U{A0}', '\U{1680}',
    '\U{2000}', '\U{2001}', '\U{2002}', '\U{2003}', '\U{2004}', '\U{2005}',
    '\U{2006}', '\U{2007}', '\U{2008}', '\U{2009}', '\U{200A}',
    '\U{2028}', '\U{2029}', '\U{202F}', '\U{205F}', '\U{3000}'
  }

  predicate IsSpace(c: char) {
    c in SpaceChars
  }

  predicate NoSpace(s: string) {
    forall i :: 0 <= i < |s| ==> !IsSpace(s[i])
  }

  predicate AllSpace(s: string) {
    forall i :: 0 <= i < |s| ==> IsSpace(s[i])
  }

  /** Length of the run of non-space characters at the head of `s`. */
  function WordLength(s: string): (n: nat)
    requires |s| > 0 && !IsSpace(s[0])
    ensures 0 < n <= |s|
    decreases |s|
  {
    if |s| == 1 || IsSpace(s[1]) then 1 else 1 + WordLength(s[1..])
  }

  /** The run is maximal: no space inside it, a space or the end after it. */
  lemma {:induction false} WordLengthMaximal(s: string)
    requires |s| > 0 && !IsSpace(s[0])
    ensures NoSpace(s[..WordLength(s)])
    ensures WordLength(s) == |s| || IsSpace(s[WordLength(s)])
    decreases |s|
  {
    if !(|s| == 1 || IsSpace(s[1])) {
      WordLengthMaximal(s[1..]);
      var n := WordLength(s[1..]);
      assert s[..n + 1] == [s[0]] + s[1..][..n];
    }
  }

  /** `s.split()`: the maximal runs of non-space characters, in order. */
  function Words(s: string): (ws: seq<string>)
    ensures ws == [] <==> AllSpace(s)
    decreases |s|
  {
    if |s| == 0 then []
    else if IsSpace(s[0]) then
      assert AllSpace(s) <==> AllSpace(s[1..]) by {
        assert forall i :: 1 <= i < |s| ==> s[i] == s[1..][i - 1];
      }
      Words(s[1..])
    else
      var n := WordLength(s);
      [s[..n]] + Words(s[n..])
  }

  /** Every word is non-empty and holds no space. */
  lemma {:induction false} WordsShape(s: string)
    ensures forall k :: 0 <= k < |Words(s)| ==> |Words(s)[k]| > 0 && NoSpace(Words(s)[k])
    decreases |s|
  {
    if |s| > 0 {
      if IsSpace(s[0]) {
        WordsShape(s[1..]);
      } else {
        var n := WordLength(s);
        WordLengthMaximal(s);
        WordsShape(s[n..]);
        var ws := Words(s);
        assert ws == [s[..n]] + Words(s[n..]);
        forall k | 1 <= k < |ws| ensures ws[k] == Words(s[n..])[k - 1] { }
      }
    }
  }

  /** The head run ends at the first space: an `n` with no space before it
      and a space or the end at it is the run's length. */
  lemma {:induction false} WordLengthOfRun(s: string, n: nat)
    requires 0 < n <= |s| && NoSpace(s[..n]) && (n == |s| || IsSpace(s[n]))
    ensures WordLength(s) == n
    decreases |s|
  {
    assert s[..n][0] == s[0];
    if n > 1 {
      assert s[..n][1] == s[1];
      assert s[1..][..n - 1] == s[..n][1..];
      WordLengthOfRun(s[1..], n - 1);
    }
  }

  /** A non-empty run of non-space characters is one word. */
  lemma WordsOfRun(w: string)
    requires w != "" && NoSpace(w)
    ensures Words(w) == [w]
  {
    assert w[..|w|] == w;
    WordLengthOfRun(w, |w|);
  }

  /** A space separates the words before it from the words after it. */
  lemma {:induction false} WordsAtSpace(a: string, c: char, b: string)
    requires IsSpace(c)
    ensures Words(a + [c] + b) == Words(a) + Words(b)
    decreases |a|
  {
    var s := a + [c] + b;
    if |a| == 0 {
      assert s[1..] == b;
    } else if IsSpace(a[0]) {
      assert s[1..] == a[1..] + [c] + b;
      WordsAtSpace(a[1..], c, b);
    } else {
      var n := WordLength(a);
      WordLengthMaximal(a);
      assert s[..n] == a[..n];
      assert s[n] == if n < |a| then a[n] else c;
      WordLengthOfRun(s, n);
      assert s[n..] == a[n..] + [c] + b;
      WordsAtSpace(a[n..], c, b);
      assert [a[..n]] + (Words(a[n..]) + Words(b)) == [a[..n]] + Words(a[n..]) + Words(b);
    }
  }

  /** `s` with every space character deleted. */
  function RemoveSpaces(s: string): (r: string)
    decreases |s|
  {
    if |s| == 0 then ""
    else if IsSpace(s[0]) then RemoveSpaces(s[1..])
    else [s[0]] + RemoveSpaces(s[1..])
  }

  lemma {:induction false} RemoveSpacesAppend(a: string, b: string)
    ensures RemoveSpaces(a + b) == RemoveSpaces(a) + RemoveSpaces(b)
    decreases |a|
  {
    if |a| > 0 {
      assert (a + b)[1..] == a[1..] + b;
      RemoveSpacesAppend(a[1..], b);
    } else {
      assert a + b == b;
    }
  }

  lemma {:induction false} RemoveSpacesOfWord(s: string)
    requires NoSpace(s)
    ensures RemoveSpaces(s) == s
    decreases |s|
  {
    if |s| > 0 {
      RemoveSpacesOfWord(s[1..]);
      assert s == [s[0]] + s[1..];
    }
  }

  /** `''.join(s.split())` is `s` with its whitespace deleted: splitting
      loses nothing but whitespace. */
  lemma {:induction false} WordsCover(s: string)
    ensures Concat(Words(s)) == RemoveSpaces(s)
    decreases |s|
  {
    if |s| > 0 {
      if IsSpace(s[0]) {
        WordsCover(s[1..]);
      } else {
        var n := WordLength(s);
        WordLengthMaximal(s);
        WordsCover(s[n..]);
        assert s == s[..n] + s[n..];
        RemoveSpacesAppend(s[..n], s[n..]);
        RemoveSpacesOfWord(s[..n]);
      }
    }
  }

  /** Number of space characters at the head of `s`. */
  function LeadingSpaces(s: string): (n: nat)
    ensures n <= |s|
    decreases |s|
  {
    if |s| == 0 || !IsSpace(s[0]) then 0 else 1 + LeadingSpaces(s[1..])
  }

  /** The leading run is all spaces and maximal. */
  lemma {:induction false} LeadingSpacesMaximal(s: string)
    ensures AllSpace(s[..LeadingSpaces(s)])
    ensures LeadingSpaces(s) == |s| || !IsSpace(s[LeadingSpaces(s)])
    decreases |s|
  {
    if !(|s| == 0 || !IsSpace(s[0])) {
      LeadingSpacesMaximal(s[1..]);
      var n := LeadingSpaces(s[1..]);
      assert s[..n + 1] == [s[0]] + s[1..][..n];
    }
  }

  /** Number of space characters at the tail of `s`. */
  function TrailingSpaces(s: string): (n: nat)
    ensures n <= |s|
    decreases |s|
  {
    if |s| == 0 || !IsSpace(s[|s| - 1]) then 0 else 1 + TrailingSpaces(s[..|s| - 1])
  }

  /** The trailing run is all spaces and maximal. */
  lemma {:induction false} TrailingSpacesMaximal(s: string)
    ensures AllSpace(s[|s| - TrailingSpaces(s)..])
    ensures TrailingSpaces(s) == |s| || !IsSpace(s[|s| - TrailingSpaces(s) - 1])
    decreases |s|
  {
    if !(|s| == 0 || !IsSpace(s[|s| - 1])) {
      var m := TrailingSpaces(s[..|s| - 1]);
      TrailingSpacesMaximal(s[..|s| - 1]);
      assert s[|s| - (m + 1)..] == s[..|s| - 1][|s| - 1 - m..] + [s[|s| - 1]];
    }
  }

  /** `s.strip()`. */
  function Strip(s: string): (r: string)
    ensures |r| <= |s|
  {
    var t := s[LeadingSpaces(s)..];
    t[..|t| - TrailingSpaces(t)]
  }

  /** `s.strip()` sits right after the leading spaces, and only spaces
      follow it. */
  lemma StripSlice(s: string)
    ensures LeadingSpaces(s) + |Strip(s)| <= |s|
    ensures Strip(s) == s[LeadingSpaces(s)..LeadingSpaces(s) + |Strip(s)|]
    ensures AllSpace(s[LeadingSpaces(s) + |Strip(s)|..])
  {
    var a := LeadingSpaces(s);
    var t := s[a..];
    var b := TrailingSpaces(t);
    TrailingSpacesMaximal(t);
    assert s[a + (|t| - b)..] == t[|t| - b..];
  }

  /** `s.strip()` neither starts nor ends with a space. */
  lemma StripEnds(s: string)
    ensures |Strip(s)| > 0 ==> !IsSpace(Strip(s)[0]) && !IsSpace(Strip(s)[|Strip(s)| - 1])
  {
    var a := LeadingSpaces(s);
    var t := s[a..];
    var b := TrailingSpaces(t);
    var r := t[..|t| - b];
    assert Strip(s) == r;
    if |r| > 0 {
      assert !IsSpace(r[0]) by {
        LeadingSpacesMaximal(s);
        assert r[0] == s[a];
      }
      assert !IsSpace(r[|r| - 1]) by {
        TrailingSpacesMaximal(t);
        assert r[|r| - 1] == t[|t| - b - 1];
      }
    }
  }

  /** `s.strip()` is empty exactly when `s` is all spaces. */
  lemma StripEmpty(s: string)
    ensures |Strip(s)| == 0 <==> AllSpace(s)
  {
    var a := LeadingSpaces(s);
    var t := s[a..];
    var b := TrailingSpaces(t);
    LeadingSpacesMaximal(s);
    TrailingSpacesMaximal(t);
    assert |Strip(s)| == |t| - b;
    if AllSpace(s) {
      assert a == |s|;
    }
    if |t| - b == 0 {
      assert AllSpace(t);
      assert s == s[..a] + t;
    }
  }

  /** `s` is the leading spaces, then `s.strip()`, then only spaces; the
      result neither starts nor ends with a space, and is empty exactly when
      `s` is all spaces. */
  lemma StripSpec(s: string)
    ensures AllSpace(s[..LeadingSpaces(s)])
    ensures LeadingSpaces(s) + |Strip(s)| <= |s|
    ensures Strip(s) == s[LeadingSpaces(s)..LeadingSpaces(s) + |Strip(s)|]
    ensures AllSpace(s[LeadingSpaces(s) + |Strip(s)|..])
    ensures |Strip(s)| > 0 ==> !IsSpace(Strip(s)[0]) && !IsSpace(Strip(s)[|Strip(s)| - 1])
    ensures |Strip(s)| == 0 <==> AllSpace(s)
  {
    LeadingSpacesMaximal(s);
    StripSlice(s);
    StripEnds(s);
    StripEmpty(s);
  }
}
