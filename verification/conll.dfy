/**
  `conllize` (text2conll.py lines 152-164): one CoNLL-U block per entry, a
  `sent_id` comment numbered from `start`, a `text` comment, then one line
  of ten tab-separated columns (plus a trailing tab) per token; blocks are
  separated by an empty line and the document ends with a newline.
 */
module Conll {
  import opened Text
  import opened Decimal
  import opened Tokens
  import opened Tokenizer

  /** The MISC column: `_` when a space follows, `SpaceAfter=No` otherwise. */
  function SpaceAfterField(spaceAfter: bool): string {
    if spaceAfter then "_" else "SpaceAfter=No"
  }

  /** The columns of the `i`-th token (counted from 0) of a sentence: ID,
      FORM, seven `_` columns, MISC, and the empty field after the trailing
      tab of the format string. */
  function TokenFields(i: nat, t: Token): (f: seq<string>)
    ensures |f| == 11
  {
    [NatToString(i + 1), t.text, "_", "_", "_", "_", "_", "_", "_", SpaceAfterField(t.spaceAfter), ""]
  }

  /** The line of the `i`-th token: its columns separated by tabs. */
  function TokenLine(i: nat, t: Token): (r: string)
    ensures |r| > 0 && r[|r| - 1] == '\t'
  {
    var f := TokenFields(i, t);
    assert f == f[..10] + [""];
    JoinEmptyLast(f[..10], "\t");
    Join(f, "\t")
  }

  /** `# sent_id = {id}__{ind}`. */
  function SentIdLine(id: string, counter: int): string {
    "# sent_id = " + id + "__" + IntToString(counter)
  }

  /** `# text = {s}`. */
  function TextLine(s: string): string {
    "# text = " + s
  }

  function TokenLines(toks: seq<Token>): seq<string> {
    seq(|toks|, i requires 0 <= i < |toks| => TokenLine(i, toks[i]))
  }

  /** `conllines` of one entry. */
  function BlockLines(e: Entry, id: string, counter: int): (r: seq<string>)
    ensures |r| == |e.tokens| + 2
    ensures forall k :: 2 <= k < |r| ==> r[k] == TokenLine(k - 2, e.tokens[k - 2])
  {
    [SentIdLine(id, counter), TextLine(e.text)] + TokenLines(e.tokens)
  }

  /** The lines of every block, counters from `start`. */
  function DocBlocks(doc: seq<Entry>, id: string, start: int): seq<seq<string>> {
    seq(|doc|, j requires 0 <= j < |doc| => BlockLines(doc[j], id, start + j))
  }

  /** Each block's lines joined by newlines (`conlls`). */
  function JoinEach(blocks: seq<seq<string>>, sep: string): seq<string> {
    seq(|blocks|, j requires 0 <= j < |blocks| => Join(blocks[j], sep))
  }

  /** `conllize(sent2toks, id, start)`, with the same default arguments. */
  function Conllize(doc: seq<Entry>, id: string := "my_sample", start: int := 1): (r: string)
    ensures |r| > 0 && r[|r| - 1] == '\n'
  {
    Join(JoinEach(DocBlocks(doc, id, start), "\n"), "\n\n") + "\n"
  }

  /** No tab or newline in a string. */
  predicate NoControl(s: string) {
    '\t' !in s && '\n' !in s
  }

  /** Splitting a token line on tabs gives back the token's number, its
      text and its space-after flag (MISC is `_` with a space after and
      `SpaceAfter=No` without one), with the trailing tab as an empty last
      field. */
  lemma TokenLineFields(i: nat, t: Token)
    requires '\t' !in t.text
    ensures var f := SplitOn(TokenLine(i, t), "\t");
      |f| == 11 && AllDigits(f[0]) && ParseNat(f[0]) == i + 1 && f[1] == t.text &&
      (forall c :: 2 <= c < 9 ==> f[c] == "_") &&
      (f[9] == "_" <==> t.spaceAfter) && (f[9] == "SpaceAfter=No" <==> !t.spaceAfter) &&
      f[10] == ""
  {
    TokenLineSplit(i, t);
    ParseNatToString(i + 1);
  }

  /** A token line splits on tabs into exactly its columns. */
  lemma TokenLineSplit(i: nat, t: Token)
    requires '\t' !in t.text
    ensures SplitOn(TokenLine(i, t), "\t") == TokenFields(i, t)
  {
    var f := TokenFields(i, t);
    forall k | 0 <= k < |f| ensures '\t' !in f[k] {
      if k == 0 { assert forall c :: c in f[0] ==> IsDigit(c); }
    }
    SplitJoin(f, '\t');
  }

  /** An empty dictionary gives a lone newline. */
  lemma ConllizeEmpty(id: string, start: int)
    ensures Conllize([], id, start) == "\n"
  {
    assert JoinEach(DocBlocks([], id, start), "\n") == [];
  }

  /** The lines of a document: each block's lines, an empty line between
      two blocks. */
  function Stack(blocks: seq<seq<string>>): seq<string>
    requires |blocks| >= 1
    decreases |blocks|
  {
    if |blocks| == 1 then blocks[0] else blocks[0] + [""] + Stack(blocks[1..])
  }

  lemma {:induction false} JoinAppend(a: seq<string>, b: seq<string>, sep: string)
    requires |a| >= 1 && |b| >= 1
    ensures Join(a + b, sep) == Join(a, sep) + sep + Join(b, sep)
    decreases |a|
  {
    if |a| == 1 {
      assert (a + b)[1..] == b;
    } else {
      assert (a + b)[1..] == a[1..] + b;
      JoinAppend(a[1..], b, sep);
    }
  }

  lemma JoinEmptyLast(first: seq<string>, sep: string)
    requires |first| >= 1
    ensures Join(first + [""], sep) == Join(first, sep) + sep
  {
    JoinAppend(first, [""], sep);
    assert Join([""], sep) == "";
  }

  /** Two newlines in a row are the blank-line separator. */
  lemma DoubleNewline(x: string, r: string)
    ensures x + "\n" + "\n" + r == x + "\n\n" + r
  {
  }

  /** A block followed by a blank line and more lines. */
  lemma BlankLineJoin(first: seq<string>, rest: seq<string>)
    requires |first| >= 1 && |rest| >= 1
    ensures Join(first + [""] + rest, "\n") == Join(first, "\n") + "\n\n" + Join(rest, "\n")
  {
    JoinEmptyLast(first, "\n");
    JoinAppend(first + [""], rest, "\n");
    DoubleNewline(Join(first, "\n"), Join(rest, "\n"));
  }

  /** Blocks joined by blank lines are the stacked lines joined by
      newlines. */
  lemma {:induction false} StackJoin(blocks: seq<seq<string>>)
    requires |blocks| >= 1
    requires forall j :: 0 <= j < |blocks| ==> |blocks[j]| >= 1
    ensures |Stack(blocks)| >= 1
    ensures Join(JoinEach(blocks, "\n"), "\n\n") == Join(Stack(blocks), "\n")
    decreases |blocks|
  {
    if |blocks| > 1 {
      var rest := Stack(blocks[1..]);
      assert JoinEach(blocks, "\n")[1..] == JoinEach(blocks[1..], "\n");
      var joined := JoinEach(blocks, "\n");
      assert Join(joined, "\n\n") == joined[0] + "\n\n" + Join(joined[1..], "\n\n");
      StackJoin(blocks[1..]);
      BlankLineJoin(blocks[0], rest);
    }
  }

  /** No line of the stack holds `c` when no line of a block does. */
  lemma {:induction false} StackLacks(blocks: seq<seq<string>>, c: char)
    requires |blocks| >= 1
    requires forall j, k :: 0 <= j < |blocks| && 0 <= k < |blocks[j]| ==> c !in blocks[j][k]
    ensures forall k :: 0 <= k < |Stack(blocks)| ==> c !in Stack(blocks)[k]
    decreases |blocks|
  {
    if |blocks| > 1 {
      StackLacks(blocks[1..], c);
      LinesAround(blocks[0], Stack(blocks[1..]));
    }
  }

  /** Every line of an entry's block is free of newlines when its text, its
      tokens and the document id are. */
  predicate EntryClean(e: Entry) {
    '\n' !in e.text && forall i :: 0 <= i < |e.tokens| ==> NoControl(e.tokens[i].text)
  }

  lemma BlockLinesClean(e: Entry, id: string, counter: int)
    requires '\n' !in id && EntryClean(e)
    ensures forall k :: 0 <= k < |BlockLines(e, id, counter)| ==> '\n' !in BlockLines(e, id, counter)[k]
  {
    var lines := BlockLines(e, id, counter);
    SentIdLineClean(id, counter);
    forall k | 2 <= k < |lines| ensures '\n' !in lines[k] {
      TokenLineClean(k - 2, e.tokens[k - 2]);
    }
  }

  lemma SentIdLineClean(id: string, counter: int)
    requires '\n' !in id
    ensures '\n' !in SentIdLine(id, counter)
  {
    assert forall c :: c in IntToString(counter) ==> c == '-' || IsDigit(c);
  }

  lemma TokenLineClean(i: nat, t: Token)
    requires NoControl(t.text)
    ensures '\n' !in TokenLine(i, t)
  {
    var f := TokenFields(i, t);
    assert forall c :: c in NatToString(i + 1) ==> IsDigit(c);
    forall j | 0 <= j < |f| ensures '\n' !in f[j] { }
    JoinNoChar(f, "\t", '\n');
  }

  lemma {:induction false} JoinNoChar(parts: seq<string>, sep: string, c: char)
    requires c !in sep && forall j :: 0 <= j < |parts| ==> c !in parts[j]
    ensures c !in Join(parts, sep)
    decreases |parts|
  {
    if |parts| > 1 {
      JoinNoChar(parts[1..], sep, c);
    }
  }

  /** Reading the output back line by line gives exactly the blocks' lines,
      an empty line between two blocks, and a final empty string after the
      closing newline. */
  lemma ConllizeLines(doc: seq<Entry>, id: string, start: int)
    requires |doc| >= 1 && '\n' !in id
    requires forall j :: 0 <= j < |doc| ==> EntryClean(doc[j])
    ensures SplitOn(Conllize(doc, id, start), "\n") == Stack(DocBlocks(doc, id, start)) + [""]
  {
    var blocks := DocBlocks(doc, id, start);
    forall j | 0 <= j < |blocks| ensures |blocks[j]| >= 1 && forall k :: 0 <= k < |blocks[j]| ==> '\n' !in blocks[j][k] {
      BlockLinesClean(doc[j], id, start + j);
    }
    StackJoin(blocks);
    var lines := Stack(blocks);
    JoinEmptyLast(lines, "\n");
    StackLacks(blocks, '\n');
    LinesAround(lines, []);
    assert lines + [""] + [] == lines + [""];
    SplitJoin(lines + [""], '\n');
  }

  /** Where block `j` starts among the stacked lines. */
  function Offset(blocks: seq<seq<string>>, j: nat): nat
    requires j <= |blocks|
  {
    if j == 0 then 0 else Offset(blocks, j - 1) + |blocks[j - 1]| + 1
  }

  lemma {:induction false} OffsetShift(blocks: seq<seq<string>>, j: nat)
    requires 1 <= j <= |blocks|
    ensures Offset(blocks, j) == |blocks[0]| + 1 + Offset(blocks[1..], j - 1)
    decreases j
  {
    if j > 1 {
      OffsetShift(blocks, j - 1);
    }
  }

  /** Positions in `a`, a blank line, then `b`. */
  lemma LinesAround(a: seq<string>, b: seq<string>)
    ensures |a + [""] + b| == |a| + 1 + |b|
    ensures forall k :: 0 <= k < |a| ==> (a + [""] + b)[k] == a[k]
    ensures forall k :: 0 <= k < |b| ==> (a + [""] + b)[|a| + 1 + k] == b[k]
  {
  }

  lemma SliceRight(a: seq<string>, b: seq<string>, x: nat, y: nat)
    requires x <= y <= |b|
    ensures (a + b)[|a| + x..|a| + y] == b[x..y]
  {
  }

  /** Block `j` is the slice of the stack that starts at line
      `Offset(blocks, j)`. */
  lemma {:induction false} StackAt(blocks: seq<seq<string>>, j: nat)
    requires j < |blocks|
    ensures Offset(blocks, j) + |blocks[j]| <= |Stack(blocks)|
    ensures Stack(blocks)[Offset(blocks, j)..Offset(blocks, j) + |blocks[j]|] == blocks[j]
    decreases j
  {
    if j == 0 {
      if |blocks| > 1 {
        var rest := Stack(blocks[1..]);
        assert Stack(blocks) == blocks[0] + ([""] + rest);
        assert (blocks[0] + ([""] + rest))[..|blocks[0]|] == blocks[0];
      }
    } else {
      var rest := Stack(blocks[1..]);
      var o := Offset(blocks[1..], j - 1);
      StackAt(blocks[1..], j - 1);
      OffsetShift(blocks, j);
      assert blocks[1..][j - 1] == blocks[j];
      var head := blocks[0] + [""];
      assert Stack(blocks) == head + rest;
      SliceRight(head, rest, o, o + |blocks[j]|);
    }
  }

  /** Starting at line `o`, `lines` holds the header lines `a` and `b` and
      then the lines of `body`. */
  predicate BlockAt(lines: seq<string>, o: nat, a: string, b: string, body: seq<string>) {
    o + 2 + |body| <= |lines| && lines[o] == a && lines[o + 1] == b
    && lines[o + 2..o + 2 + |body|] == body
  }

  /** The layout of the output: block `j` starts at line `Offset(.., j)` with
      its `sent_id` line, whose counter is `start + j`, then its `text` line,
      then the lines of its tokens in order (`TokenLines` numbers them from
      1). */
  lemma DocLayout(doc: seq<Entry>, id: string, start: int, j: nat)
    requires j < |doc|
    ensures BlockAt(Stack(DocBlocks(doc, id, start)), Offset(DocBlocks(doc, id, start), j),
      SentIdLine(id, start + j), TextLine(doc[j].text), TokenLines(doc[j].tokens))
  {
    var blocks := DocBlocks(doc, id, start);
    var a, b, body := SentIdLine(id, start + j), TextLine(doc[j].text), TokenLines(doc[j].tokens);
    assert blocks[j] == [a, b] + body;
    BlockInStack(blocks, j, a, b, body);
  }

  /** The `sent_id` line of entry `j` among the output lines. */
  lemma SentIdAt(doc: seq<Entry>, id: string, start: int, j: nat)
    requires j < |doc| && '\n' !in id
    requires forall k :: 0 <= k < |doc| ==> EntryClean(doc[k])
    ensures Offset(DocBlocks(doc, id, start), j) < |SplitOn(Conllize(doc, id, start), "\n")|
    ensures SplitOn(Conllize(doc, id, start), "\n")[Offset(DocBlocks(doc, id, start), j)] == SentIdLine(id, start + j)
  {
    var blocks := DocBlocks(doc, id, start);
    var stack, o := Stack(blocks), Offset(blocks, j);
    ConllizeLines(doc, id, start);
    DocLayout(doc, id, start, j);
    assert (stack + [""])[o] == stack[o];
  }

  /** The `sent_id` line of the default document id. */
  lemma DefaultSentId(n: nat)
    ensures SentIdLine("my_sample", n) == "# sent_id = my_sample__" + NatToString(n)
  {
    assert "# sent_id = " + "my_sample" + "__" == "# sent_id = my_sample__";
  }

  /** Called with its default arguments, `conllize` numbers the sentences
      `my_sample__1`, `my_sample__2`, ... in order: the `sent_id` line of
      entry `j` reads `# sent_id = my_sample__{j + 1}`. */
  lemma ConllizeDefaults(doc: seq<Entry>, j: nat)
    requires j < |doc|
    requires forall k :: 0 <= k < |doc| ==> EntryClean(doc[k])
    ensures Offset(DocBlocks(doc, "my_sample", 1), j) < |SplitOn(Conllize(doc), "\n")|
    ensures SplitOn(Conllize(doc), "\n")[Offset(DocBlocks(doc, "my_sample", 1), j)]
      == "# sent_id = my_sample__" + NatToString(j + 1)
  {
    SentIdAt(doc, "my_sample", 1, j);
    DefaultSentId(j + 1);
  }

  /** A block made of two header lines and a body, placed in the stack. */
  lemma BlockInStack(blocks: seq<seq<string>>, j: nat, a: string, b: string, body: seq<string>)
    requires j < |blocks| && blocks[j] == [a, b] + body
    ensures BlockAt(Stack(blocks), Offset(blocks, j), a, b, body)
  {
    StackAt(blocks, j);
    SliceHead(Stack(blocks), Offset(blocks, j), a, b, body);
  }

  /** The first two lines and the rest of a slice. */
  lemma SliceHead(lines: seq<string>, o: nat, a: string, b: string, rest: seq<string>)
    requires o + 2 + |rest| <= |lines| && lines[o..o + 2 + |rest|] == [a, b] + rest
    ensures lines[o] == a && lines[o + 1] == b
    ensures lines[o + 2..o + 2 + |rest|] == rest
  {
    assert lines[o..o + 2 + |rest|][1] == lines[o + 1];
    assert lines[o + 2..o + 2 + |rest|] == lines[o..o + 2 + |rest|][2..];
  }
}
