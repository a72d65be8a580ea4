/**
 The argument vector of the `git commit` invocation: the head always goes in
 as the first `-m` message segment, and the body as a second one only when it
 is non-empty.
 */
module Commit {
  import opened Lines
  import opened Message

  const Flag := "-m"

  /** The argv passed to the commit process for message `m`. */
  function CommitArgs(m: CommitMessage): (argv: seq<string>)
    ensures |argv| >= 4 && argv[..3] == ["git", "commit", Flag]
    ensures argv[3] == m.head
    ensures |argv| == 2 + 2 * |MessageSegments(argv)|
    ensures MessageSegments(argv) == if m.body == "" then [m.head] else [m.head, m.body]
  {
    var argv := if m.body != "" then ["git", "commit", Flag, m.head, Flag, m.body]
                else ["git", "commit", Flag, m.head];
    SegmentsAfterCommand(argv[2..]);
    argv
  }

  /** The command words before the first flag contribute no segment. */
  lemma SegmentsAfterCommand(rest: seq<string>)
    ensures MessageSegments(["git", "commit"] + rest) == MessageSegments(rest)
  {
    var argv := ["git", "commit"] + rest;
    assert argv[1..] == ["commit"] + rest;
    assert argv[1..][1..] == rest;
  }

  /** The message segments an argv hands to git: the value after each `-m`,
      in order. A segment value is never itself read as a flag. */
  function MessageSegments(argv: seq<string>): (segs: seq<string>)
    ensures |segs| <= |argv| / 2
    decreases |argv|
  {
    if |argv| < 2 then []
    else if argv[0] == Flag then [argv[1]] + MessageSegments(argv[2..])
    else MessageSegments(argv[1..])
  }

  /** An empty body is never handed to git as a segment of its own. */
  lemma {:induction false} NoEmptyBodySegment(m: CommitMessage)
    ensures forall i :: 1 <= i < |MessageSegments(CommitArgs(m))| ==> MessageSegments(CommitArgs(m))[i] != ""
  {
    var segs := MessageSegments(CommitArgs(m));
    assert segs == if m.body == "" then [m.head] else [m.head, m.body];
  }

  /** The segments of the commit built from a generated text, joined with
      line breaks, give back that text, or that text less one trailing line
      break: parsing and building the argv lose nothing else. */
  lemma {:induction false} SegmentsReassembleText(text: string)
    ensures var joined := Join(MessageSegments(CommitArgs(HeadAndBody(text))), NewLine);
      text == joined || text == joined + [NewLine]
  {
    var m := HeadAndBody(text);
    var segs := MessageSegments(CommitArgs(m));
    if m.body == "" {
      assert segs == [m.head];
    } else {
      assert segs == [m.head, m.body];
      JoinCons(m.head, [m.body], NewLine);
      assert [m.head] + [m.body] == segs;
    }
  }
}
