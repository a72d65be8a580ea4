/**
 The prompt sent to the generator: a fixed German instruction text with the
 staged diff inserted verbatim between a fixed prefix and a fixed suffix.
 */
module Prompt {
  import opened Wrappers

  /** The template text before the diff (it opens with a line break). */
  const PromptPrefix: string :=
    "\nSchreibe eine pr\U{00E4}gnante Commit-Message basierend auf folgendem Git-Diff:\n"

  /** The template text after the diff; the third line keeps its trailing
      space and "z. B." is written with a narrow no-break space. */
  const PromptSuffix: string :=
    "\nDie Commit-Message soll dem Conventional Commits Standard entsprechen.\n"
    + "Gib den Commit so zur\U{00FC}ck, dass die erste Zeile den Commit-Header darstellt (z.\U{202F}B. feat: ...) \n"
    + "und darunter (durch eine Leerzeile getrennt) ein optionaler Body folgt, der die \U{00C4}nderung bei Bedarf genauer beschreibt.\n"

  /** The prompt for a staged diff. */
  function BuildPrompt(diff: string): (p: string)
    ensures |p| == |PromptPrefix| + |diff| + |PromptSuffix|
    ensures p[..|PromptPrefix|] == PromptPrefix
    ensures p[|PromptPrefix|..|PromptPrefix| + |diff|] == diff
    ensures p[|PromptPrefix| + |diff|..] == PromptSuffix
  {
    PromptPrefix + diff + PromptSuffix
  }

  /** The diff a prompt was built from, if it has the template's shape. */
  function DiffOf(p: string): (d: Option<string>)
    ensures d.Some? ==> |d.value| + |PromptPrefix| + |PromptSuffix| == |p|
  {
    if |p| >= |PromptPrefix| + |PromptSuffix|
       && p[..|PromptPrefix|] == PromptPrefix
       && p[|p| - |PromptSuffix|..] == PromptSuffix
    then Some(p[|PromptPrefix|..|p| - |PromptSuffix|])
    else None
  }

  /** The diff is recoverable from its prompt. */
  lemma DiffOfBuildPrompt(diff: string)
    ensures DiffOf(BuildPrompt(diff)) == Some(diff)
  {
    var p := BuildPrompt(diff);
    assert |p| - |PromptSuffix| == |PromptPrefix| + |diff|;
  }

  /** Every prompt-shaped text is the prompt of the diff read back from it. */
  lemma BuildPromptOfDiff(p: string)
    requires DiffOf(p).Some?
    ensures BuildPrompt(DiffOf(p).value) == p
  {
    var d := DiffOf(p).value;
    assert p == p[..|PromptPrefix|] + d + p[|p| - |PromptSuffix|..];
  }

  /** Distinct diffs give distinct prompts, so the prompt determines the diff
      it embeds and nothing but the diff varies between prompts. */
  lemma BuildPromptInjective(d1: string, d2: string)
    requires BuildPrompt(d1) == BuildPrompt(d2)
    ensures d1 == d2
  {
    DiffOfBuildPrompt(d1);
    DiffOfBuildPrompt(d2);
  }
}
