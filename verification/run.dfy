/**
 One invocation of the tool, from reading the API key to the commit decision,
 as a pure function of what it reads from outside: the key from the
 environment, the staged diff, the generator (a function from prompt to
 generated text, `None` when no text comes back) and the user's reply.
 */
module Run {
  import opened Wrappers
  import opened Message
  import opened Commit
  import opened Confirm
  import opened Prompt

  /** How a run ends. */
  datatype Outcome =
    | MissingApiKey                    // the key is unset or empty: a fatal error
    | NothingStaged                    // the staged diff is empty: a clean exit
    | GenerationFailed                 // the generator gave no text: a fatal error
    | Committed(argv: seq<string>)     // the commit process was started with argv
    | NotCommitted                     // the reply did not confirm: a clean exit
  {
    predicate IsError() {
      MissingApiKey? || GenerationFailed?
    }
  }

  /** An API key counts as present when it is set and not empty. */
  predicate HasKey(apiKey: Option<string>) {
    apiKey.Some? && apiKey.value != ""
  }

  /** The run: key guard, then diff guard, then generation from the prompt,
      parsing, and the confirmation check. */
  function RunOnce(apiKey: Option<string>, diff: string,
                   generate: string -> Option<string>, reply: string): (o: Outcome)
    ensures o.MissingApiKey? <==> !HasKey(apiKey)
    ensures o.NothingStaged? <==> HasKey(apiKey) && diff == ""
    ensures o.Committed? <==>
      HasKey(apiKey) && diff != "" && generate(BuildPrompt(diff)).Some? && Confirms(reply)
    ensures o.GenerationFailed? <==>
      HasKey(apiKey) && diff != "" && generate(BuildPrompt(diff)).None?
    ensures o.Committed? ==>
      o.argv == CommitArgs(HeadAndBody(generate(BuildPrompt(diff)).value))
  {
    if !HasKey(apiKey) then MissingApiKey
    else if diff == "" then NothingStaged
    else
      match generate(BuildPrompt(diff))
      case None => GenerationFailed
      case Some(text) =>
        var m := HeadAndBody(text);
        if Confirms(reply) then Committed(CommitArgs(m)) else NotCommitted
  }

  /** The process exit status: non-zero exactly for the two fatal errors. A
      started commit exits with 0 whatever git itself reports. */
  function ExitStatus(o: Outcome): (code: int)
    ensures code == 0 <==> !o.IsError()
  {
    if o.IsError() then 1 else 0
  }

  /** The key error happens exactly when the environment variable is unset
      or set to the empty string, the two values Python's `not api_key`
      rejects. */
  lemma KeyErrorIffUnsetOrEmpty(apiKey: Option<string>, diff: string,
                                generate: string -> Option<string>, reply: string)
    ensures RunOnce(apiKey, diff, generate, reply).MissingApiKey?
            <==> apiKey == None || apiKey == Some("")
  {
  }

  /** A run exits with a non-zero status exactly when the key is missing or,
      with a key and a staged diff, the generator returns no text; nothing
      staged, a declined reply and a started commit all exit with 0. */
  lemma ExitStatusOfRun(apiKey: Option<string>, diff: string,
                        generate: string -> Option<string>, reply: string)
    ensures ExitStatus(RunOnce(apiKey, diff, generate, reply)) != 0
            <==> apiKey == None || apiKey == Some("")
                 || (diff != "" && generate(BuildPrompt(diff)).None?)
  {
  }

  /** The key is checked before the diff: without a key the run fails even
      when nothing is staged, and never reaches the generator. */
  lemma KeyCheckedFirst(apiKey: Option<string>, diff: string,
                        g1: string -> Option<string>, g2: string -> Option<string>,
                        r1: string, r2: string)
    requires !HasKey(apiKey)
    ensures RunOnce(apiKey, diff, g1, r1) == RunOnce(apiKey, diff, g2, r2) == MissingApiKey
    ensures ExitStatus(RunOnce(apiKey, diff, g1, r1)) != 0
  {
  }

  /** With a key and an empty diff the run exits cleanly without consulting
      the generator or the user, and nothing is committed. */
  lemma EmptyDiffExitsCleanly(apiKey: Option<string>,
                              g1: string -> Option<string>, g2: string -> Option<string>,
                              r1: string, r2: string)
    requires HasKey(apiKey)
    ensures RunOnce(apiKey, "", g1, r1) == RunOnce(apiKey, "", g2, r2) == NothingStaged
    ensures ExitStatus(RunOnce(apiKey, "", g1, r1)) == 0
  {
  }

  /** The generator only ever sees the prompt for the diff, so two runs with
      the same diff and generator generate the same text, and the prompt
      carries the diff verbatim. */
  lemma GeneratorSeesDiff(apiKey: Option<string>, diff: string,
                          generate: string -> Option<string>, reply: string)
    requires HasKey(apiKey) && diff != ""
    ensures var p := BuildPrompt(diff);
      && DiffOf(p) == Some(diff)
      && (RunOnce(apiKey, diff, generate, reply).GenerationFailed? <==> generate(p).None?)
  {
    DiffOfBuildPrompt(diff);
  }

  /** Any case variant of the keyword commits the generated message: the
      commit gets the text's first line as head and the rest as body. */
  lemma {:induction false} CaseVariantCommits(apiKey: Option<string>, diff: string,
                                              generate: string -> Option<string>, reply: string)
    requires HasKey(apiKey) && diff != "" && generate(BuildPrompt(diff)).Some?
    requires IsCaseVariant(reply, Keyword)
    ensures RunOnce(apiKey, diff, generate, reply)
            == Committed(CommitArgs(HeadAndBody(generate(BuildPrompt(diff)).value)))
  {
    ConfirmsIffCaseVariant(reply);
  }

  /** Any reply other than a case variant of the keyword commits nothing and
      is not an error. */
  lemma {:induction false} OtherReplyDeclines(apiKey: Option<string>, diff: string,
                                              generate: string -> Option<string>, reply: string)
    requires HasKey(apiKey) && diff != "" && generate(BuildPrompt(diff)).Some?
    requires !IsCaseVariant(reply, Keyword)
    ensures RunOnce(apiKey, diff, generate, reply) == NotCommitted
    ensures ExitStatus(RunOnce(apiKey, diff, generate, reply)) == 0
  {
    ConfirmsIffCaseVariant(reply);
  }

  /** A committed run hands git the whole generated text, save at most one
      trailing line break, split into its head and body segments. */
  lemma {:induction false} CommitKeepsGeneratedText(apiKey: Option<string>, diff: string,
                                                    generate: string -> Option<string>, reply: string)
    requires RunOnce(apiKey, diff, generate, reply).Committed?
    ensures var text := generate(BuildPrompt(diff)).value;
      var joined := Lines.Join(MessageSegments(RunOnce(apiKey, diff, generate, reply).argv), NewLine);
      text == joined || text == joined + [NewLine]
  {
    SegmentsReassembleText(generate(BuildPrompt(diff)).value);
  }

  /** An empty response, once confirmed, is committed with an empty head:
      nothing between generation and commit rejects it. */
  lemma EmptyResponseCommitsEmptyHead(apiKey: Option<string>, diff: string,
                                      generate: string -> Option<string>, reply: string)
    requires HasKey(apiKey) && diff != "" && Confirms(reply)
    requires generate(BuildPrompt(diff)) == Some("")
    ensures RunOnce(apiKey, diff, generate, reply) == Committed(["git", "commit", "-m", ""])
  {
    EmptyText();
  }

  /** A generated "head, blank line, body" text is committed with the blank
      line still at the front of the second segment. */
  lemma {:induction false} BlankLineReachesGit(apiKey: Option<string>, diff: string,
                                               generate: string -> Option<string>, reply: string,
                                               h: string, b: string)
    requires HasKey(apiKey) && diff != "" && Confirms(reply)
    requires NewLine !in h
    requires generate(BuildPrompt(diff)) == Some(h + "\n\n" + b)
    ensures RunOnce(apiKey, diff, generate, reply)
            == Committed(["git", "commit", "-m", h, "-m", "\n" + b])
  {
    BlankLineKept(h, b);
  }
}
