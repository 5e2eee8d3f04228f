/**
  Placeholder markers: a protected span is written into the text as a
  backslash, its table index in decimal, and a backslash.  `Restore` is the
  `rerematch.sub(...)` scan that expands every marker back from the table.
 */
module Markers {
  import opened Text
  import opened Decimal

  /** The only failure of the tokenizer: `whole_words[k]` with `k` past the
      end of the table raises `IndexError`. */
  datatype Error = IndexOutOfRange(index: nat, size: nat)

  datatype Result<T> = Ok(value: T) | Err(error: Error)

  /** A match of the pattern `\\\d+\\`: backslash, digits, backslash.  Only
      ASCII digits are recognised. */
  predicate MarkerShaped(m: string) {
    |m| >= 3 && m[0] == '\\' && m[|m| - 1] == '\\' && AllDigits(m[1..|m| - 1])
  }

  /** `'\\{ind}\\'.format(ind=k)`. */
  function Marker(k: nat): (m: string)
    ensures MarkerShaped(m)
  {
    var m := "\\" + NatToString(k) + "\\";
    assert m[1..|m| - 1] == NatToString(k);
    m
  }

  /** `int(m[1:-1])`. */
  function MarkerIndex(m: string): nat
    requires MarkerShaped(m)
  {
    ParseNat(m[1..|m| - 1])
  }

  /** A marker decodes to the index it was built from. */
  lemma MarkerRoundTrip(k: nat)
    ensures MarkerIndex(Marker(k)) == k
  {
    var m := Marker(k);
    assert m[1..|m| - 1] == NatToString(k);
    ParseNatToString(k);
  }

  /** Every marker-shaped string without a leading zero is the marker of the
      index it decodes to. */
  lemma MarkerOfIndex(m: string)
    requires MarkerShaped(m) && (m[1] != '0' || |m| == 3)
    ensures Marker(MarkerIndex(m)) == m
  {
    NatToStringParse(m[1..|m| - 1]);
    assert m == "\\" + m[1..|m| - 1] + "\\";
  }

  /** Length of the run of digits at the head of `s`. */
  function DigitRun(s: string): (n: nat)
    ensures n <= |s| && AllDigits(s[..n]) && (n == |s| || !IsDigit(s[n]))
    decreases |s|
  {
    if |s| == 0 || !IsDigit(s[0]) then 0 else 1 + DigitRun(s[1..])
  }

  /** A marker-shaped prefix is exactly a backslash, the digit run after it,
      and a backslash. */
  lemma ShapedPrefix(s: string, n: nat)
    requires n <= |s|
    ensures MarkerShaped(s[..n]) ==>
      s[0] == '\\' && n >= 3 && DigitRun(s[1..]) == n - 2 && s[n - 1] == '\\'
  {
    if MarkerShaped(s[..n]) {
      var d := DigitRun(s[1..]);
      assert forall i :: 1 <= i < n - 1 ==> s[..n][1..n - 1][i - 1] == s[i];
      assert forall i :: 0 <= i < n - 2 ==> IsDigit(s[1..][i]);
      assert !IsDigit(s[1..][n - 2]);
    }
  }

  /** Where the pattern `\\\d+\\` matches at the head of `s`: the length of
      the match, or `None` when no prefix of `s` is marker-shaped. */
  function LeadingMarker(s: string): (r: Option<nat>)
    ensures r.Some? ==> 3 <= r.value <= |s| && MarkerShaped(s[..r.value])
    ensures r.None? ==> forall n :: 0 <= n <= |s| ==> !MarkerShaped(s[..n])
  {
    forall n | 0 <= n <= |s| {
      ShapedPrefix(s, n);
    }
    if |s| > 0 && s[0] == '\\' then
      var d := DigitRun(s[1..]);
      if d >= 1 && d + 1 < |s| && s[d + 1] == '\\' then
        assert s[..d + 2][1..d + 1] == s[1..][..d];
        Some(d + 2)
      else None
    else None
  }

  /** What a table entry expands to: its text, with the no-space-after
      escape in front when the tokens are being built and it is a suffix
      (`rematchreplace`), or its plain text (`simplerematchreplace`). */
  datatype Expansion = Plain | MarkSuffixes(isSuffix: string -> bool, noSpaceAfter: string)

  function ExpandEntry(e: Expansion, w: string): string {
    match e
    case Plain => w
    case MarkSuffixes(isSuffix, noSpaceAfter) => if isSuffix(w) then noSpaceAfter + w else w
  }

  /** `rerematch.sub(replace, s)`: scan left to right, expand each marker
      from the table, keep every other character; the first marker whose
      index is past the table's end raises. */
  function Restore(s: string, table: seq<string>, e: Expansion): (r: Result<string>)
    ensures r.Err? ==> r.error.index >= r.error.size == |table|
    decreases |s|
  {
    if |s| == 0 then Ok("")
    else
      match LeadingMarker(s)
      case Some(n) =>
        var k := MarkerIndex(s[..n]);
        if k < |table| then
          match Restore(s[n..], table, e)
          case Ok(rest) => Ok(ExpandEntry(e, table[k]) + rest)
          case Err(x) => Err(x)
        else Err(IndexOutOfRange(k, |table|))
      case None =>
        match Restore(s[1..], table, e)
        case Ok(rest) => Ok([s[0]] + rest)
        case Err(x) => Err(x)
  }

  /** Prepends `p` to a successful result. */
  function Prepend(p: string, r: Result<string>): Result<string> {
    match r
    case Ok(v) => Ok(p + v)
    case Err(x) => Err(x)
  }

  /** A character other than a backslash is kept as it is. */
  lemma RestoreLiteralHead(c: char, rest: string, table: seq<string>, e: Expansion)
    requires c != '\\'
    ensures Restore([c] + rest, table, e) == Prepend([c], Restore(rest, table, e))
  {
    assert ([c] + rest)[1..] == rest;
  }

  /** A marker at the head expands to its table entry, or raises when its
      index is out of range. */
  lemma RestoreMarkerHead(k: nat, rest: string, table: seq<string>, e: Expansion)
    ensures k < |table| ==>
      Restore(Marker(k) + rest, table, e) == Prepend(ExpandEntry(e, table[k]), Restore(rest, table, e))
    ensures k >= |table| ==>
      Restore(Marker(k) + rest, table, e) == Err(IndexOutOfRange(k, |table|))
  {
    var m := Marker(k);
    var s := m + rest;
    assert s[..|m|] == m;
    assert s[|m|..] == rest;
    var lm := LeadingMarker(s);
    assert lm.Some?;
    ShapedPrefix(s, |m|);
    ShapedPrefix(s, lm.value);
    assert lm.value == |m|;
    MarkerRoundTrip(k);
  }

  /** Text without backslashes has no marker and is restored unchanged. */
  lemma {:induction false} RestoreLiteral(s: string, table: seq<string>, e: Expansion)
    requires '\\' !in s
    ensures Restore(s, table, e) == Ok(s)
    decreases |s|
  {
    if |s| > 0 {
      RestoreLiteral(s[1..], table, e);
      assert s == [s[0]] + s[1..];
      RestoreLiteralHead(s[0], s[1..], table, e);
    }
  }

  /** `rerematch.search(s)`: some substring of `s` is marker-shaped. */
  predicate HasMarker(s: string) {
    exists i, j :: 0 <= i <= j <= |s| && MarkerShaped(s[i..j])
  }

  /** A marker at the head is a marker the search finds. */
  lemma LeadingMarkerFound(s: string)
    requires LeadingMarker(s).Some?
    ensures HasMarker(s)
  {
    var n := LeadingMarker(s).value;
    assert s[0..n] == s[..n];
  }

  /** Text in which the pattern finds no marker is restored unchanged, so
      skipping the substitution when the search fails changes nothing. */
  lemma {:induction false} RestoreWithoutMarker(s: string, table: seq<string>, e: Expansion)
    requires !HasMarker(s)
    ensures Restore(s, table, e) == Ok(s)
    decreases |s|
  {
    if |s| > 0 {
      match LeadingMarker(s)
      case Some(_) =>
        LeadingMarkerFound(s);
        assert false;
      case None =>
        forall i, j | 0 <= i <= j <= |s[1..]|
          ensures !MarkerShaped(s[1..][i..j])
        {
          assert s[1..][i..j] == s[i + 1..j + 1];
        }
        RestoreWithoutMarker(s[1..], table, e);
        assert s == [s[0]] + s[1..];
    }
  }

  /** A lone marker restores to exactly its table entry, expanded. */
  lemma MarkerRestores(k: nat, table: seq<string>, e: Expansion)
    requires k < |table|
    ensures Restore(Marker(k), table, e) == Ok(ExpandEntry(e, table[k]))
  {
    assert Marker(k) + "" == Marker(k);
    RestoreMarkerHead(k, "", table, e);
    assert Restore("", table, e) == Ok("");
    assert ExpandEntry(e, table[k]) + "" == ExpandEntry(e, table[k]);
  }

  /** A protected text seen as what it was built from: literal characters
      and references to table entries. */
  datatype Piece = Lit(c: char) | Ref(k: nat)

  /** The text one piece is written as. */
  function PieceText(p: Piece): string {
    match p case Lit(c) => [c] case Ref(k) => Marker(k)
  }

  /** The text the pieces are written as. */
  function Render(ps: seq<Piece>): string
    decreases |ps|
  {
    if |ps| == 0 then "" else PieceText(ps[0]) + Render(ps[1..])
  }

  predicate RefsBelow(ps: seq<Piece>, n: nat) {
    forall i :: 0 <= i < |ps| && ps[i].Ref? ==> ps[i].k < n
  }

  predicate NoBackslashLit(ps: seq<Piece>) {
    forall i :: 0 <= i < |ps| && ps[i].Lit? ==> ps[i].c != '\\'
  }

  /** The text the pieces stand for. */
  function Expand(ps: seq<Piece>, table: seq<string>, e: Expansion): string
    requires RefsBelow(ps, |table|)
    decreases |ps|
  {
    if |ps| == 0 then ""
    else
      (match ps[0] case Lit(c) => [c] case Ref(k) => ExpandEntry(e, table[k]))
      + Expand(ps[1..], table, e)
  }

  /** Restoring the rendering of the pieces expands each reference and keeps
      each literal: the marker encoding loses nothing. */
  lemma {:induction false} RestoreRender(ps: seq<Piece>, table: seq<string>, e: Expansion)
    requires RefsBelow(ps, |table|) && NoBackslashLit(ps)
    ensures Restore(Render(ps), table, e) == Ok(Expand(ps, table, e))
    decreases |ps|
  {
    if |ps| > 0 {
      RestoreRender(ps[1..], table, e);
      match ps[0]
      case Lit(c) =>
        RestoreLiteralHead(c, Render(ps[1..]), table, e);
      case Ref(k) =>
        RestoreMarkerHead(k, Render(ps[1..]), table, e);
    }
  }
}
