/**
 The commit message parser: the text produced by the generator is split on
 line breaks, the first line becomes the commit head and the remaining lines,
 re-joined with line breaks, become the body.
 */
module Message {
  import opened Lines

  const NewLine: char := '\n'

  /** A commit message split into its head line and its body. */
  datatype CommitMessage = CommitMessage(head: string, body: string)

  /** The parser. The `|lines| > 0` fallback mirrors the source's guard; it
      never fires, because splitting always yields at least one piece. */
  function HeadAndBody(text: string): (m: CommitMessage)
    ensures NewLine !in m.head
    ensures NewLine in text ==> m.head + [NewLine] + m.body == text
    ensures NewLine !in text ==> m == CommitMessage(text, "")
  {
    var lines := Split(text, NewLine);
    var head := if |lines| > 0 then lines[0] else "";
    var body := if |lines| > 1 then Join(lines[1..], NewLine) else "";
    ParsedPieces(text);
    CommitMessage(head, body)
  }

  /** The facts behind HeadAndBody's contract, stated about the split itself. */
  lemma ParsedPieces(text: string)
    ensures var lines := Split(text, NewLine);
      && (NewLine !in text ==> lines == [text])
      && (NewLine in text ==> |lines| > 1 && lines[0] + [NewLine] + Join(lines[1..], NewLine) == text)
  {
    var lines := Split(text, NewLine);
    if NewLine !in text {
      SplitNoSeparator(text, NewLine);
    } else {
      SplitLength(text, NewLine);
      JoinSplit(text, NewLine);
      JoinCons(lines[0], lines[1..], NewLine);
      assert lines == [lines[0]] + lines[1..];
    }
  }

  /** The parser is exactly "cut at the first line break": any text made of a
      line-break-free head, one line break and an arbitrary body parses back
      into that head and that body. */
  lemma {:induction false} ParseFirstLine(h: string, b: string)
    requires NewLine !in h
    ensures HeadAndBody(h + [NewLine] + b) == CommitMessage(h, b)
  {
    var text := h + [NewLine] + b;
    SplitAtFirst(h, b, NewLine);
    var lines := Split(text, NewLine);
    assert lines[1..] == Split(b, NewLine);
    JoinSplit(b, NewLine);
  }

  /** A head and a body separated by a blank line, as the prompt asks for,
      do not parse back to that body: the blank line stays in the body as a
      leading line break, so the body is never exactly `b`. */
  lemma BlankLineKept(h: string, b: string)
    requires NewLine !in h
    ensures HeadAndBody(h + "\n\n" + b) == CommitMessage(h, "\n" + b)
    ensures HeadAndBody(h + "\n\n" + b).body != b
  {
    assert h + "\n\n" + b == h + [NewLine] + ("\n" + b);
    ParseFirstLine(h, "\n" + b);
  }

  /** Empty text parses to an empty head and an empty body. */
  lemma EmptyText()
    ensures HeadAndBody("") == CommitMessage("", "")
  {
    SplitNoSeparator("", NewLine);
  }

  /** Nothing in the parser prevents an empty head: a text that starts with a
      line break yields one, body intact. */
  lemma EmptyHeadPossible(b: string)
    ensures HeadAndBody([NewLine] + b) == CommitMessage("", b)
  {
    assert [NewLine] + b == "" + [NewLine] + b;
    ParseFirstLine("", b);
  }
}
