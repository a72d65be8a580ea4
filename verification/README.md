# gemmit, modelled in Dafny

gemmit is a single Python script that writes a git commit message with a
generative text model. It runs in five steps:

1. It reads the API key from the environment.
2. It reads the staged diff.
3. It builds a German prompt around the diff and sends it to the generator.
4. It splits the generated text into a head line and a body.
5. It commits with that head and body if the user types `gemmit`, in any
   mix of cases.

This project models the pure decisions in these steps as Dafny functions and
proves properties about them:

- `lines.dfy` (module `Lines`): Python's `str.split('\n')` and
  `'\n'.join(...)`. The lemmas prove that each undoes the other and count the
  pieces.
- `message.dfy` (module `Message`): the parser `get_head_and_body`, with its
  round-trip and blank-line lemmas.
- `commit.dfy` (module `Commit`): the `git commit` argv that
  `execute_commit` builds. `MessageSegments` reads the `-m` values back out
  of an argv.
- `confirm.dfy` (module `Confirm`): the case-insensitive check of the reply
  against `gemmit`.
- `prompt.dfy` (module `Prompt`): the prompt template. `DiffOf` reads the
  diff back out of a prompt.
- `run.dfy` (module `Run`): the run as a whole. `RunOnce` maps the key, the
  diff, the generator and the reply to an `Outcome`. `ExitStatus` maps an
  outcome to the exit code.
- `wrappers.dfy` (module `Wrappers`): `Option`.

Facts about this script that a reader might not expect, each proved below:

- The script has no edit loop and no language argument. It reads the key
  only from the environment, and the prompt holds only the diff, with no
  file list or commit log.
- The only reply that commits is the keyword `gemmit`.
- Parsing `h + "\n\n" + b` keeps the blank line: the body comes back as
  `"\n" + b`, not `b` (`Message.BlankLineKept`).
- Nothing stops an empty head from reaching `git commit`. An empty (or
  all-whitespace, once stripped) response parses to an empty head
  (`Message.EmptyText`), and a confirmed run commits it as
  `git commit -m ""` (`Run.EmptyResponseCommitsEmptyHead`).
- The exit status after a commit is 0 whatever git reports, because the
  return value of `subprocess.run` is ignored.

## Model

| member | source | states |
|---|---|---|
| `Lines.Split` | gemmit.py:23 | splitting always yields at least one piece, and no piece contains the separator |
| `Lines.Join` | gemmit.py:25 | joining no pieces gives the empty string; joining n > 0 pieces gives a string as long as the pieces together plus n - 1 separators |
| `Lines.SplitAtFirst` | gemmit.py:23 | splitting `h + sep + b`, with `h` free of the separator, yields `h` followed by the split of `b` |
| `Lines.SplitNoSeparator` | gemmit.py:23 | a string without the separator splits into a list holding only that string |
| `Lines.JoinSplit` | gemmit.py:23-25 | joining the pieces of a split with the separator gives back the original string |
| `Lines.SplitJoin` | gemmit.py:23-25 | splitting the join of a non-empty list of separator-free pieces gives back that list |
| `Lines.SplitLength` | gemmit.py:23 | a string with n separators splits into n + 1 pieces |
| `Message.HeadAndBody` | gemmit.py:21-26 | the head never contains a line break; with a line break in the input, head, line break and body rebuild the input exactly; without one, the head is the whole input and the body is empty |
| `Message.ParseFirstLine` | gemmit.py:23-25 | any line-break-free head, one line break and any body parse back to exactly that head and body |
| `Message.BlankLineKept` | gemmit.py:23-25 | `h + "\n\n" + b` parses to head `h` and body `"\n" + b`, which is never `b` |
| `Message.EmptyText` | gemmit.py:23-25 | empty text parses to an empty head and an empty body, so the `if lines` fallback never fires |
| `Message.EmptyHeadPossible` | gemmit.py:23-25 | text that starts with a line break parses to an empty head with the rest as body (a parser fact: the `.strip()` of the response removes such a leading line break before parsing) |
| `Commit.CommitArgs` | gemmit.py:28-33 | the argv starts with `git commit -m`, has the head at index 3, holds nothing but `git commit` and the `-m` pairs, and hands git one segment (the head) when the body is empty and two (head, body) otherwise |
| `Commit.MessageSegments` | gemmit.py:30-33 | git's reading of the argv: the value after each `-m`, in order, at most one per two arguments; the independent reader through which `CommitArgs` is pinned to the two argv shapes |
| `Commit.NoEmptyBodySegment` | gemmit.py:30-33 | every segment after the head is non-empty: an empty body is never passed |
| `Commit.SegmentsReassembleText` | gemmit.py:23-33 | the segments of the commit built from a text, joined with line breaks, give back the text, or the text less one trailing line break |
| `Confirm.LowerChar` | gemmit.py:64 | lower-casing leaves no ASCII capital, turns a capital into its lower-case letter, and leaves every other character unchanged |
| `Confirm.UpperChar` | gemmit.py:64 | the capital of a lower-case letter is a capital that lower-cases back to that letter |
| `Confirm.Confirms` | gemmit.py:64 | a confirming reply is exactly as long as the keyword `gemmit` |
| `Confirm.LowerCharTo` | gemmit.py:64 | a character lower-cases to a given lower-case letter exactly when it is that letter or its capital |
| `Confirm.ConfirmsIffCaseVariant` | gemmit.py:63-65 | a reply confirms exactly when it spells `gemmit` with each letter in either case |
| `Confirm.ConfirmExamples` | gemmit.py:63-65 | `gemmit`, `GEMMIT` and `GeMmIt` confirm; `gemmit ` (with a trailing space), `yes` and the empty reply do not |
| `Prompt.BuildPrompt` | gemmit.py:45-51 | the prompt is the fixed prefix, then the diff verbatim as one contiguous piece, then the fixed suffix |
| `Prompt.DiffOf` | gemmit.py:45-51 | a diff read back from a prompt is as long as the prompt less the template text |
| `Prompt.DiffOfBuildPrompt` | gemmit.py:45-51 | the diff can be read back out of its prompt |
| `Prompt.BuildPromptOfDiff` | gemmit.py:45-51 | every text of the prompt's shape is the prompt of the diff read out of it |
| `Prompt.BuildPromptInjective` | gemmit.py:45-51 | different diffs give different prompts |
| `Run.RunOnce` | gemmit.py:36-65 | the key error happens exactly when the key is unset or empty; the clean "nothing staged" exit happens exactly when there is a key and the diff is empty; generation fails exactly when there is a key, the diff is non-empty and the generator returns no text; a commit happens exactly when there is a key, the diff is non-empty, the generator returns text and the reply confirms, and it commits the argv built from the parsed generated text |
| `Run.KeyErrorIffUnsetOrEmpty` | gemmit.py:36-38 | a run ends in the key error exactly when the environment variable is unset or empty, as Python's `not api_key` decides |
| `Run.ExitStatusOfRun` | gemmit.py:36-55 | a run exits non-zero exactly when the key is unset or empty, or the diff is non-empty and the generator returns no text; nothing staged, a decline and a commit exit with 0 |
| `Run.KeyCheckedFirst` | gemmit.py:36-43 | without a key, every run fails with the key error, whatever the diff, the generator and the reply |
| `Run.EmptyDiffExitsCleanly` | gemmit.py:40-43 | with a key and an empty diff, every run exits with 0 and commits nothing, whatever the generator and the reply |
| `Run.GeneratorSeesDiff` | gemmit.py:12-19 | the generator gets the prompt of the diff, the diff can be read back from that prompt, and generation fails exactly when the generator returns no text for it |
| `Run.CaseVariantCommits` | gemmit.py:63-65 | any case variant of `gemmit` commits the parsed generated message |
| `Run.OtherReplyDeclines` | gemmit.py:63-66 | any other reply commits nothing and exits with 0 |
| `Run.CommitKeepsGeneratedText` | gemmit.py:59-65 | a commit hands git all of the generated text, except at most one trailing line break |
| `Run.EmptyResponseCommitsEmptyHead` | gemmit.py:55-65 | a confirmed run whose response is empty commits with `git commit -m ""` |
| `Run.BlankLineReachesGit` | gemmit.py:59-65 | a confirmed `h + "\n\n" + b` is committed as `git commit -m h -m "\n" + b` |

## Left out

- Running `git diff --cached` and `git commit` (gemmit.py:7-9, 31, 33): this is process I/O. The diff is an input string and the commit is the argv value. Decoding the diff as UTF-8 is not modelled.
- The request to the generation service (gemmit.py:12-19): this is a remote call. It becomes the parameter `generate: string -> Option<string>`, where `None` stands for any failure or missing text. The source's `generate_commit_message` ignores its `diff` argument and sends the module-level `prompt`. The model passes that prompt directly.
- The `.strip()` on the response (gemmit.py:19): Python's Unicode whitespace set is not modelled. The generator's result is not constrained, so the lemmas quantify over all texts, including ones `.strip()` never produces (such as a text that starts with a line break).
- `os.getenv`, `input`, `print` and `exit` (gemmit.py:36, 42-43, 56-57, 63, 66): environment and console I/O. They become the parameters of `RunOnce` and the values of `Outcome` and `ExitStatus`. The messages the script prints are not modelled.
- Confirm.LowerChar: lower-cases only ASCII capitals and leaves every other character unchanged. Python's `str.lower` also lower-cases non-ASCII letters, some of them into several characters.
