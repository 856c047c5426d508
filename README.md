# Coding agents: a verified model of the code agent's core

The repository automates work on a tracker issue. A *code agent* reads the
issue and asks a language model two things. First it asks for a plan naming
the files to touch. Then it asks for patch blocks replacing those files. It
writes the patches on a branch named after the issue, commits, pushes, and
opens a pull request against `main`. A *reviewer agent* turns a model reply
into a fail-closed verdict with inline comments. An *iteration policy* decides
when the surrounding loop stops.

This project models that core in Dafny:

- `outcomes.dfy` (`Outcomes`): `Option`, the error kinds the code raises, and `Result`.
- `text.dfy` (`Text`) and `string_order.dfy` (`StringOrder`) hold the Python
  string operations the core relies on. These are `strip`, `upper`/`lower`,
  `startswith`, `in`, `split`, `join`, `replace`, `int`/`str` of integers and
  the code-point order of `sorted`.
- `code_agent.dfy` (`CodeAgent`) holds the run of the code agent:
  - the plan parser (`_parse_plan_output`) and the patch parser (`_parse_patches`);
  - the choice of the files shown to the model;
  - the branch recovery;
  - writing, staging, committing and pushing;
  - the `CodeAgentResult` of `_run_impl`.
- `git_repo.dfy` (`GitRepos`): the branch-name slug, and a class `Repo`.
  `Repo` is an in-memory working copy: the working tree, the index,
  branches with their commits, the checked-out branch, and a remote whose
  answers to pushes are scripted. Its methods are the wrapper's operations,
  including the push with its retries.
- `review_output.dfy` (`ReviewOutputs`): `ReviewOutput.from_llm_output`.
- `iteration_policy.dfy` (`IterationPolicies`): `StopReason`, `should_stop`, `can_retry`.
- `github_client.dfy` (`GitHubClient`): `ensure_http_url` and `_with_retry`.

The language model, the pull-request call and the remote's answers are
parameters. `llm` maps a prompt, given by the values filled into its
template, to the reply text. `openPull` maps a pull request to its number or
an error. `script` lists the remote's answers to successive pushes. The
properties hold for every choice of these parameters.

Both parsers classify each line once into a small datatype (`PlanLine`,
`LineKind`). The scanning loops and the lemmas reason about these
classifications, and each classification's contract ties it back to the
character-level tests of the source.

The first half of a run (inventory, plan, file choice, contents, patch
reply, patches) is specified by the ghost function
`CodeAgent.ChosenPatches`. It composes the specification functions of each
step against the repository's files and `llm`, and both `ChoosePatches` and
`RunImpl` are proved against it. The inventory it uses is `SortedSeq` of
the listed files, which `StringOrder.SortedUnique` shows to be the listing
`list_files` returns, whatever the walk order.

## Model

| member | source | states |
|---|---|---|
| CodeAgent.ClassifyPlanLine | agents/code_agent/chain.py:36-44 | A line is a plan marker exactly when its stripped, upper-cased text starts with `PLAN:`. It is a files marker exactly when that fails and the text starts with `FILES:`. A plan marker keeps the line with every case-sensitive `PLAN:` removed, stripped. A plain line keeps the line and its stripped form. |
| CodeAgent.KeepCandidates | agents/code_agent/chain.py:49 | The final filter keeps exactly the names that are non-empty and do not start with `#`, and never adds any. |
| CodeAgent.KeepCandidatesOrder | agents/code_agent/chain.py:49 | The filter keeps its input's order: each kept name sits at a strictly increasing position of the input. |
| CodeAgent.ScanPlanLine | agents/code_agent/chain.py:35-48 | One line moves the scan state to that of one more line: the plan and files flags, the plan text so far, the files collected so far. |
| CodeAgent.ScanPlan | agents/code_agent/chain.py:31-48 | The line loop yields the plan text and the file lines of the whole reply. |
| CodeAgent.ParsePlanOutput | agents/code_agent/chain.py:29-49 | The plan is the stripped plan text. The files are the file lines with blank and `#` entries removed. |
| CodeAgent.NothingBeforeMarkers | agents/code_agent/chain.py:33-48 | Lines before the first marker are in neither section and add nothing to either output. |
| CodeAgent.PlanStopsFiles | agents/code_agent/chain.py:36-38 | After a `PLAN:` line the scan is in the plan section, and no file is collected until a later `FILES:` line. |
| CodeAgent.FileLinesOrigin | agents/code_agent/chain.py:45-48 | The collected files come, in order, from strictly increasing line positions. Each is a plain, non-blank line inside the files section, whose stripped text is the name. |
| CodeAgent.CandidateOrigin | agents/code_agent/chain.py:41-49 | Every returned file is the stripped text of a reply line that is non-blank, lies in the files section and is no marker. The file does not start with `#`. |
| CodeAgent.CandidatesInOrder | agents/code_agent/chain.py:45-49 | The returned files keep the order of the lines they come from. |
| CodeAgent.LowerCasePlanMarkerKept | agents/code_agent/chain.py:36-39 | The marker test ignores case but the removal does not. A line marked `plan:` in lower case keeps its marker text in the plan. |
| CodeAgent.Classify | agents/code_agent/chain.py:55 | A line is a block header exactly when it is a `---`…`FILE:` marker with a non-blank path, and it then carries that stripped path. It is text exactly when it is neither a `FILE:` nor an `END FILE` marker. |
| CodeAgent.NextBoundary | agents/code_agent/chain.py:55 | The lazy body runs up to the first later marker line or the end of the reply, and holds only text lines. |
| CodeAgent.BlocksFromWellFormed | agents/code_agent/chain.py:55-56 | Every block starts at a header with a line after it. Its body holds only text lines and ends at a marker line (`END FILE` or the next `FILE:`) or at the end of the reply. Blocks follow each other without overlapping. |
| CodeAgent.HeaderOpensBlock | agents/code_agent/chain.py:55-56 | Every header with a line after it is the start of one of the blocks the scan finds from any earlier line: block bodies hold only text, so the scan never passes over a header. |
| CodeAgent.EveryHeaderOpensBlock | agents/code_agent/chain.py:55-56 | Every header with a line after it starts one of the reply's blocks: `finditer` skips no file block. |
| CodeAgent.Matches | agents/code_agent/chain.py:56-57 | One match per block, in order, each carrying its block's stripped path. |
| CodeAgent.MatchBody | agents/code_agent/chain.py:53-59 | A match's body is the text from the line after its header up to where the lookahead matches, stripped: the block's body lines and, when a marker line closes the block, that line's lead, joined by newlines. Such a closing line starts with `---` after its blanks. |
| CodeAgent.MarkerLeadShape | agents/code_agent/chain.py:53 | On a marker line the lookahead's `---` first matches right after the lead: the three hyphens are there, the marker follows them after blanks, and at every earlier position the line holds a blank or `---` is followed by a further hyphen. |
| CodeAgent.ExactMarkerLead | agents/code_agent/chain.py:53 | A marker line that starts with exactly three hyphens has an empty lead, so it adds nothing to the previous body. |
| CodeAgent.ExtraHyphenLead | agents/code_agent/chain.py:53-59 | Each hyphen in front of a marker line's run goes to its lead, and so into the body of the block it closes. For example, `---- END FILE` leaves `-` at the end of the body. The rest after the hyphens is unchanged. |
| CodeAgent.ExtraHyphenKind | agents/code_agent/chain.py:53 | A longer hyphen run does not change whether a line is a header, a boundary or text, nor the header's path. |
| CodeAgent.PatchedEntries | agents/code_agent/chain.py:56-59 | A path has a patch exactly when it is allowed and some match names it. The patch is the body of the last match naming it. |
| CodeAgent.PatchedDomain | agents/code_agent/chain.py:56-58 | A path is a key of the dictionary exactly when it is allowed and some match names it. |
| CodeAgent.PatchedLast | agents/code_agent/chain.py:58-59 | A key's value is the body of a match naming that path after which no match names it. |
| CodeAgent.KeyOrderLists | agents/code_agent/chain.py:54-60 | The dictionary's key order lists each patched path exactly once. |
| CodeAgent.ParsePatches | agents/code_agent/chain.py:52-60 | The loop over the matches yields the last-wins dictionary and its keys in first-insertion order. |
| CodeAgent.PatchesAllowed | agents/code_agent/chain.py:58-59 | Only allowed paths get a patch, and the key order lists exactly the patched paths without repetition. |
| CodeAgent.Inventory | agents/code_agent/chain.py:90-92 | The inventory is never empty: the listed files, or `.gitkeep` alone when nothing is listed. |
| CodeAgent.KeepAllowed | agents/code_agent/chain.py:105 | Keeps exactly the candidates that are inventory paths, never more than given. |
| CodeAgent.KeepAllowedAppend | agents/code_agent/chain.py:105 | The filter distributes over concatenation, so the allowed candidates keep their order and their repeats. |
| CodeAgent.SelectFiles | agents/code_agent/chain.py:105-107 | When some candidate is in the inventory, the result is the first 20 allowed candidates in order: a prefix of the filtered list of length min(20, its length). With none, it is the first inventory file. So it has at most 20 files, all from the inventory, and is never empty for a non-empty inventory. |
| CodeAgent.ContentsFail | agents/code_agent/chain.py:109-112 | Gathering the contents fails, with an OSError, exactly when a chosen path exists without being a file (file contents are text, so a decoding error cannot arise; see Left out). |
| CodeAgent.FileContents | agents/code_agent/chain.py:109-112 | The loop yields one section per chosen path that exists, in order, or the first read error. |
| CodeAgent.ContentsStop | agents/code_agent/chain.py:110-112 | A read error on a prefix of the chosen files is the error of the whole list. |
| CodeAgent.AgentBranchRecovers | agents/code_agent/chain.py:132-141 | An agent branch name is never `main`. Recovery then succeeds exactly when `main` exists and the name is free or not checked out in another worktree. |
| CodeAgent.CreateBranchRecovering | agents/code_agent/chain.py:133-141 | Succeeds exactly when the first creation succeeds or the recovery can succeed, and the branch is then checked out. It starts from HEAD's commits in the first case and from `main`'s in the second. A failure is a GitCommandError and leaves the branches as they were or with that branch deleted. No other branch ever changes. After the recovery's checkout of `main` the index holds `main`'s tip; otherwise it is unchanged. |
| CodeAgent.ChoosePatches | agents/code_agent/chain.py:88-122 | The result is `ChosenPatches` of the repository and the two replies. The inventory is the sorted listing (or `.gitkeep`). The files shown are those `SelectFiles` picks from the candidates of the plan reply. A read error of a shown file is the result, an OSError. Otherwise the patches are the last-wins dictionary, with its key order, of the inventory paths named by the blocks of the reply to the patch prompt over the shown files and their contents (`(new file)` when empty). Also: only inventory paths are patched, each once in the key order, and 1 to 20 shown files, all from the inventory. |
| CodeAgent.WriteAllAt | agents/code_agent/chain.py:143-144 | Writing gives each named file its patch and leaves every other file as it was. |
| CodeAgent.WriteAllMerges | agents/code_agent/chain.py:143-144 | Writing every patch once merges the patches into the working tree. |
| CodeAgent.WritePatches | agents/code_agent/chain.py:143-144 | After the loop the working tree is the old tree with every patch written. |
| CodeAgent.CommitPatches | agents/code_agent/chain.py:143-146 | Cannot fail: every staged path has just been written. The tree is the old tree plus the patches. The staged pathspecs are the patch paths (or `.`) followed by `.`. The index is the old index plus the whole working tree. The checked-out branch gains exactly one commit, with the message and that index as its tree, under the next identifier. So the commit records every patch and every other working-tree file. |
| CodeAgent.PublishBranch | agents/code_agent/chain.py:147-172 | Pushes go only to the branch. The run succeeds exactly when the push run succeeds, and the pull request is then `[Agent] title`, `Closes #id` from the branch to `main`, with message `PR #n created`. A failed push gives an unsuccessful result with no number and a `Push failed: ` message. An error comes only after a successful push and is the error of the pull-request call. |
| CodeAgent.CommitOnBranch | agents/code_agent/chain.py:132-146 | Succeeds exactly when the branch step does (`BranchOpens`: the first creation, or the recovery). An error is a GitCommandError and leaves the tree unchanged. On success the issue's branch is checked out, the tree is the old tree plus the patches, and its tip commit is `Implement issue #id` plus the title and records every patch. No branch but the issue's changes. |
| CodeAgent.Deliver | agents/code_agent/chain.py:132-172 | Fails exactly when the branch step fails, or the push succeeds and the pull-request call fails. A branch-step error is a GitCommandError with no file written and nothing pushed. Otherwise an error is the pull-request call's. Whenever the branch step succeeds, the branch is checked out and its tip commit records every patch. A result names the issue's branch, and pushes go only to it. It is successful exactly when the push run over the remote's next answers succeeds, and it then carries the number the pull-request call returned. A push failure gives `success=False` with `Push failed: …`. No branch but the issue's changes. |
| CodeAgent.RunImpl | agents/code_agent/chain.py:87-172 | When `ChosenPatches` of the starting repository fails, the run returns that error and changes no file, branch, HEAD or push. Otherwise the patches are its dictionary. The result has no branch exactly when that dictionary is empty, and it is then the fixed no-patches result with the repository untouched. With patches, the run fails exactly when the branch step fails (a GitCommandError, nothing written or pushed) or the push succeeds and `openPull` fails (its error). When the branch step succeeds, every patch is committed on the issue's branch. A result pushes only that branch and succeeds exactly when the push run succeeds, with the number `openPull` returns for `[Agent] title`. A push failure is `success=False`. A run writes only inventory paths, deletes nothing, changes no branch but the issue's, and reports iteration 0. |
| GitRepos.KeepSlugChars | coding_agents/core/git/repo.py:18 | The first substitution keeps exactly the word characters, whitespace and hyphens of the title, never adding any. |
| GitRepos.KeepSlugCharsAppend | coding_agents/core/git/repo.py:18 | The deletion distributes over concatenation, so the kept characters stay in their order. |
| GitRepos.CollapseShape | coding_agents/core/git/repo.py:19 | After collapsing, only word characters and hyphens remain, never two hyphens in a row. A leading hyphen comes only from a leading separator. |
| GitRepos.Slug | coding_agents/core/git/repo.py:16-20 | Every slug has 1 to 30 characters, holds only lower-case letters, digits, `_` and `-`, has no leading or doubled hyphen, and so no whitespace. It is `issue` when normalisation leaves nothing. Otherwise it is a prefix of the normalised title: all of it, or its first 30 characters. |
| GitRepos.StripHyphensShape | coding_agents/core/git/repo.py:19 | `strip("-")` keeps the hyphenated-words shape. |
| GitRepos.LowerShape | coding_agents/core/git/repo.py:19 | `lower()` turns the shape into slug characters and keeps the hyphens where they were. |
| GitRepos.NormalizedShape | coding_agents/core/git/repo.py:18-19 | The normalised title holds only lower-case letters, digits, `_` and `-`, does not start with a hyphen and never has two hyphens in a row. |
| GitRepos.BranchName | coding_agents/core/git/repo.py:36-39 | Every branch name starts with `agent/issue-`. |
| GitRepos.BranchNameInjective | coding_agents/core/git/repo.py:36-39 | The branch name determines the (non-negative) issue number and the slug. |
| GitRepos.Pathspecs | coding_agents/core/git/repo.py:49-56 | `add` stages the given paths, or `.` (everything) when the list is missing or empty. |
| GitRepos.FirstMissing | coding_agents/core/git/repo.py:52-53 | The position of the first pathspec the index cannot add. Every earlier one resolves. |
| GitRepos.StageCovers | coding_agents/core/git/repo.py:49-56 | Whatever order the pathspecs come in, a working-tree file is staged, with its content, exactly when a pathspec names it or one is `.`. Other index entries stay. |
| GitRepos.StageThenAll | coding_agents/core/git/repo.py:49-62 | Staging `.` after any pathspecs gives the old index plus the whole working tree. |
| GitRepos.PushRef | coding_agents/core/git/repo.py:66 | The ref pushed is the branch given, or the active branch. |
| GitRepos.ForcedOutcome | coding_agents/core/git/repo.py:89-94 | The force-with-lease push returns on acceptance and propagates its GitCommandError otherwise. |
| GitRepos.AttemptStep | coding_agents/core/git/repo.py:76-95 | An attempt goes round again exactly when its error is transient. |
| GitRepos.PushLogRef | coding_agents/core/git/repo.py:75-93 | A push run sends only its ref, at least once per plain attempt. |
| GitRepos.PushPlainBound | coding_agents/core/git/repo.py:75-88 | A run makes between one and three plain pushes, and every one but the last met a transient error. |
| GitRepos.PushSleeps | coding_agents/core/git/repo.py:86-88 | One sleep follows each transient error, of 5, 10 and 15 seconds by attempt, including after the third. |
| GitRepos.PushOutcome | coding_agents/core/git/repo.py:75-97 | The last plain push decides the run. Acceptance means success. A transient error at the third attempt gives RuntimeError naming it. A rejection gives exactly one force-with-lease push, whose outcome is the run's. Any other error is re-raised unchanged. |
| GitRepos.PushFacts | coding_agents/core/git/repo.py:64-97 | A whole run: one to three plain pushes, all but the last transient. The sleeps are 5, 10, 15 in turn. RuntimeError comes exactly when the last error was transient, and a forced push exactly when it was a rejection. |
| GitRepos.PushExhausted | coding_agents/core/git/repo.py:75-97 | Three transient errors give three plain pushes, sleeps of 5, 10 and 15 seconds, no forced push, and `Push failed after retries:` with the third error. |
| GitRepos.TransientBeforeRejected | coding_agents/core/git/repo.py:86-91 | An error that is both transient and a rejection is retried after a sleep, not forced. |
| GitRepos.GitInRootHidesAll | coding_agents/core/git/repo.py:124-126 | A working copy whose path contains `.git` lists no file. |
| GitRepos.HiddenNotListed | coding_agents/core/git/repo.py:131-132 | A file with a path component starting with a dot is never listed. |
| GitRepos.TopLevelListed | coding_agents/core/git/repo.py:124-132 | A top-level file of a working copy whose path holds no `.git` is listed unless its name starts with a dot. |
| GitRepos.Repo.constructor | coding_agents/core/git/repo.py:26-34 | Opening a repository: the given state, the index holding the tip of the checked-out branch, nothing pushed. |
| GitRepos.Repo.CreateBranch | coding_agents/core/git/repo.py:41-43 | Succeeds exactly when HEAD has a commit and the name is no branch. The new branch starts at HEAD's commits and is checked out. A failure is a GitCommandError and changes nothing. |
| GitRepos.Repo.Checkout | coding_agents/core/git/repo.py:45-47 | Succeeds exactly when the branch exists, and then checks it out with the index holding its tip. A failure is a GitCommandError and changes neither. |
| GitRepos.Repo.DeleteHead | agents/code_agent/chain.py:138 | Force deletion succeeds exactly when the branch exists, is not checked out and is not checked out elsewhere, and it removes only that branch. |
| GitRepos.Repo.WriteFile | coding_agents/core/git/repo.py:137-141 | The file is created or replaced with the content and nothing else changes (the failures of `mkdir` and `write_text` are not modelled; see Left out). |
| GitRepos.Repo.ReadFile | coding_agents/core/git/repo.py:143-145 | The file's content, or an OSError exactly when there is no such file (a decoding error is not modelled; see Left out). |
| GitRepos.Repo.FileExists | coding_agents/core/git/repo.py:147-149 | Every file exists. Whatever exists is the root, a file or a prefix of a file's path. |
| GitRepos.Repo.Add | coding_agents/core/git/repo.py:49-56 | The pathspecs are staged in turn. A pathspec naming nothing raises OSError and leaves the rest unstaged. |
| GitRepos.Repo.Commit | coding_agents/core/git/repo.py:58-62 | Stages as `add` does, then appends a commit of the index with the message to the checked-out branch and returns its fresh identifier. A staging error changes no branch. |
| GitRepos.Repo.SendPush | coding_agents/core/git/repo.py:77-81 | One push is logged and gets the remote's next answer. |
| GitRepos.Repo.TryPush | coding_agents/core/git/repo.py:76-95 | One loop pass does exactly the pushes and the sleep of the pass that the answers call for. |
| GitRepos.Repo.Push | coding_agents/core/git/repo.py:64-97 | The outcome, the pushes sent and the sleeps taken are those of the push run over the remote's next answers. |
| GitRepos.Repo.ListFiles | coding_agents/core/git/repo.py:121-135 | Sorted without duplicates, and lists exactly the working-tree files that pass the walk filter. |
| GitRepos.Repo.FileInventory | coding_agents/core/git/repo.py:100-119 | Sorted, listing exactly the files of HEAD's commit not starting with `.git`. ValueError exactly when HEAD has no commit. |
| StringOrder.SortedUnique | coding_agents/core/git/repo.py:135 | A set of paths has one sorted listing, so a listing is determined by its files and not by the walk order. |
| StringOrder.SortedSeq | coding_agents/core/git/repo.py:135 | `sorted()` of a set of distinct paths: strictly increasing and holding exactly the set's elements. |
| ReviewOutputs.EventFor | agents/reviewer_agent/review_output.py:51 | The event is an approval exactly for a Pass verdict. |
| ReviewOutputs.AfterFirstColon | agents/reviewer_agent/review_output.py:28 | The text after the first colon, or the whole line when it has none. |
| ReviewOutputs.CommentOf | agents/reviewer_agent/review_output.py:38-48 | A comment line yields a comment exactly when it is a `FILE:` line with two colons. The path is the stripped text between them. The line number is `int()` of the first word of the stripped rest, or 1 when the rest is blank or that word is no integer. The body is the text after that word, or `See review.` when there is none. |
| ReviewOutputs.SplitFileLine | agents/reviewer_agent/review_output.py:39 | A `FILE:` line whose path part holds no colon splits on its first two colons into the marker word, the path part and the rest. |
| ReviewOutputs.FileLine | agents/reviewer_agent/review_output.py:38-48 | Such a line carrying the marker yields the comment on the stripped path, with line number and body read from the stripped rest. |
| ReviewOutputs.NumberedCommentText | agents/reviewer_agent/review_output.py:42-47 | The text `12 fix it` gives line 12 and body `fix it`. |
| ReviewOutputs.DefaultCommentTexts | agents/reviewer_agent/review_output.py:42-47 | A blank text, and a lone word that is no integer, give line 1 and body `See review.`. |
| ReviewOutputs.FirstCommentsFound | agents/reviewer_agent/review_output.py:35-36 | The scan stops at a `COMMENTS:` line and at no earlier line. |
| ReviewOutputs.OnChangedFiles | agents/reviewer_agent/review_output.py:56 | Keeps exactly the comments on changed files. |
| ReviewOutputs.OnChangedFilesAppend | agents/reviewer_agent/review_output.py:56 | The filter works comment by comment in order: one more comment is appended to the result exactly when its path is a changed file. |
| ReviewOutputs.Capped | agents/reviewer_agent/review_output.py:56 | `[:10]` is a prefix holding the first ten comments, or all of them when there are fewer. |
| ReviewOutputs.OnChangedFilesAll | agents/reviewer_agent/review_output.py:56 | The filter drops nothing when every comment is on a changed file. |
| ReviewOutputs.Assemble | agents/reviewer_agent/review_output.py:50-58 | The scanned verdict and reason are kept. The inline comments are the first ten of the block's comments on changed files, in their order. The summary is `**Verdict: v**`, `Reason: r` and `CI: c` separated by blank lines. Approval exactly on Pass. All block comments are kept when there are at most 10 and all are on changed files. |
| ReviewOutputs.Review | agents/reviewer_agent/review_output.py:20-58 | Approval exactly on Pass. The summary quotes verdict, reason and CI conclusion. The inline comments are the first ten comments on changed files, in order, of the lines after the first `COMMENTS:` line. |
| ReviewOutputs.MarkersExclusive | agents/reviewer_agent/review_output.py:27-35 | A `COMMENTS:` line is neither a `VERDICT:` nor a `REASON:` line. |
| ReviewOutputs.CollectComments | agents/reviewer_agent/review_output.py:36-48 | The inner loop yields the comments of every later line, in order. |
| ReviewOutputs.ScanLines | agents/reviewer_agent/review_output.py:22-49 | Verdict and reason as set by the lines up to and including the first `COMMENTS:` line, and the comment block after it. |
| ReviewOutputs.FromLlmOutput | agents/reviewer_agent/review_output.py:20-58 | The method builds the review the scan defines. |
| ReviewOutputs.LastVerdictWins | agents/reviewer_agent/review_output.py:27-32 | The verdict is the one set by the last `VERDICT:` line scanned. |
| ReviewOutputs.NoVerdictFails | agents/reviewer_agent/review_output.py:22 | Fail closed: with no `VERDICT:` line the verdict is Fail. |
| ReviewOutputs.LastReasonWins | agents/reviewer_agent/review_output.py:33-34 | The reason is the one set by the last `REASON:` line scanned. |
| ReviewOutputs.NoReasonEmpty | agents/reviewer_agent/review_output.py:23 | With no `REASON:` line the reason is empty. |
| ReviewOutputs.ScanEndFields | agents/reviewer_agent/review_output.py:26-49 | Reading the `COMMENTS:` line itself changes neither verdict nor reason. |
| ReviewOutputs.ReviewFields | agents/reviewer_agent/review_output.py:26-49 | A review's verdict and reason are those of the lines before the first `COMMENTS:` line. |
| ReviewOutputs.IgnoresAfterComments | agents/reviewer_agent/review_output.py:35-49 | Nothing after the first `COMMENTS:` line can change the verdict or the reason. |
| ReviewOutputs.MarkedLine | agents/reviewer_agent/review_output.py:27-35 | A line made of an upper-case marker ending in a colon, followed by text not ending in whitespace, carries that marker and no marker with another first letter. |
| ReviewOutputs.AfterMarker | agents/reviewer_agent/review_output.py:28 | The text after the first colon of such a line is what follows the marker. |
| ReviewOutputs.VerdictLine | agents/reviewer_agent/review_output.py:27-32 | A `VERDICT:` line passes exactly when the upper-cased, stripped text after the marker contains `PASS`. |
| ReviewOutputs.ReasonLine | agents/reviewer_agent/review_output.py:33-34 | A `REASON:` line gives the stripped text after the marker. |
| ReviewOutputs.ThreeLineReply | agents/reviewer_agent/review_output.py:20-58 | A reply of a `VERDICT:` line, a `REASON:` line and a `COMMENTS:` line has the first line's verdict, the second line's reason and no inline comments. |
| ReviewOutputs.PassingTestVerdict | tests/test_review_output.py:6-13 | The verdict text ` PASS` of the first unit test passes. |
| ReviewOutputs.FailingTestVerdict | tests/test_review_output.py:18-26 | The verdict text ` FAIL` of the second unit test fails. |
| IterationPolicies.IterationPolicy.ShouldStop | coding_agents/core/policies/iterations.py:28-43 | Stops exactly at the cap or when CI and review both passed. MaxIterations exactly at the cap. CiFail exactly below it when green CI is required and missing. Success exactly below it when both passed. ReviewerFail otherwise. Never ReviewerApprove or Manual. |
| IterationPolicies.IterationPolicy.CanRetry | coding_agents/core/policies/iterations.py:45-47 | Another iteration is allowed exactly when a loop whose CI and review both failed would not stop. |
| IterationPolicies.RetriesBounded | coding_agents/core/policies/iterations.py:45-47 | If `can_retry` permitted every cycle 0 .. n-1 of a loop, then n is at most `max_iterations`, and the cycle at the cap is refused. |
| IterationPolicies.PolicyExamples | tests/test_policies.py:6-31 | The four unit tests of the policy hold. |
| GitHubClient.DropUnsafe | coding_agents/core/github/client.py:24 | The URL parser first removes every tab, carriage return and line feed: none is left. |
| GitHubClient.DropUnsafeMembers | coding_agents/core/github/client.py:24 | The deletion keeps exactly the characters other than tab, carriage return and line feed. |
| GitHubClient.DropUnsafeAppend | coding_agents/core/github/client.py:24 | The deletion distributes over concatenation, so the kept characters stay in their order. |
| GitHubClient.LStripControl | coding_agents/core/github/client.py:24 | The URL parser then drops leading control characters and spaces: the result is a suffix, everything dropped is at most a space, and the result is empty or starts above the space. |
| GitHubClient.SchemeOfPrefix | coding_agents/core/github/client.py:24-25 | A run of lower-case letters followed by a colon is the scheme, and the parser goes on after the colon with tabs and line breaks removed. |
| GitHubClient.EnsureHttpUrl | coding_agents/core/github/client.py:20-27 | A missing or blank URL gives the default API address. Otherwise the stripped URL is accepted exactly when `urlparse` does not raise (no unmatched bracket in the host) and its scheme is `http` or `https`. An accepted URL is returned stripped. Every refusal is a ValueError. |
| GitHubClient.AcceptsWebScheme | coding_agents/core/github/client.py:20-27 | A URL whose stripped form starts with `http://` or `https://`, and that `urlparse` does not refuse, is accepted as stripped. |
| GitHubClient.RefusesMissingScheme | coding_agents/core/github/client.py:24-26 | A URL with no colon (a bare host name) is refused. |
| GitHubClient.RefusesOtherScheme | coding_agents/core/github/client.py:24-26 | A URL with a scheme other than `http` and `https` is refused. |
| GitHubClient.RefusesUnmatchedBracket | coding_agents/core/github/client.py:24 | A URL whose host holds one of `[` and `]` but not the other is refused with the `Invalid IPv6 URL` ValueError, whatever its scheme. |
| GitHubClient.Propagated | coding_agents/core/github/client.py:48-55 | A returned value is the result, and a raised error is re-raised unchanged with its status and text. |
| GitHubClient.WithRetry | coding_agents/core/github/client.py:45-56 | Makes between 1 and `max_retries` calls, every one but the last rate limited and followed by a 60-second sleep. The last call's reply is the result. With no attempts permitted, RuntimeError(`Unreachable`) without a call. |

## Left out

- The language-model adapters, the prompt templates and the tracing spans are not modelled. The model is the parameter `llm`, and a prompt is the tuple of values filled into its template.
- Fetching the issue is left out: `RunImpl` takes its title and body as parameters. `get_repo` and `create_pull` become the parameter `openPull`.
- The plan text `_run_impl` computes is never used by the source (chain.py:104). The model computes it and discards it too. `max_iterations` of the chain is unused in the source and left out.
- The regular expression of `_parse_patches` is modelled on lines. A marker is recognised only at the start of a line, after leading blanks. The `\s*` after `FILE:` does not cross into the next line, so a header with a blank path only ends a block. A marker in the middle of a line is not seen. A marker line's lead (its blanks and the hyphens beyond the last three) goes to the body of the block it closes, as the lookahead leaves it there. The `\s*` between `---` and `FILE:` or `END FILE` is also kept within one line, while the regular expression lets it cross line breaks. The trailing blanks of the lazy path group are removed by `strip`, as in the source.
- `\w`, `upper` and `lower` are modelled on the ASCII range only. Whitespace is Python's full `isspace` set.
- The push's environment-token URL is left out, as are the difference between `git push --porcelain` and `remote.push`. At this level both are one push of the ref.
- The sleeps are recorded in a ghost log instead of being taken. The remote's answers are a scripted sequence, and commit identifiers are a counter, not hashes.
- Checkout: it resets the index to the branch's tip but does not rewrite the working tree. The run writes its patches after the branch step, and the model keeps one tree. So after the recovery's `checkout("main")` (agents/code_agent/chain.py:136) the working tree is not reset to `main`'s files, and the commit records the working tree as it was plus the patches.
- Git's ref-name validity rules, path normalisation (`a/../b`, `./a`) and directory pathspecs other than `.` are not modelled.
- Exception texts are abstracted: an error's message is `Error.Message()`, its recorded text, not GitPython's formatting.
- `file_exists` treats a path as existing when it is a file, a directory holding one, or the root. Reading an existing directory raises OSError.
- Staging: `_run_impl` stages the patch paths, then `commit` calls `add(None)`, which stages `.`. The commit records the whole working tree (`CodeAgent.CommitPatches`).
- tests/test_review_output.py:15 expects the `COMMENTS:` line's own text in the summary. The summary holds only verdict, reason and CI conclusion, so that test is not modelled.
- `run_code_agent`, the command-line entry points and the reviewer's chain are not part of this model.
- `get_repo` and `create_pull` are both folded into `openPull`. An error from either ends the run with that error, as the exception does in the source. The retry that `get_repo` goes through is modelled on its own in `GitHubClient.WithRetry`.
- ParseInt: `int()` is modelled on the ASCII digits, with an optional sign, single underscores between digits and surrounding whitespace. The other Unicode decimal digits, which `int()` also accepts, are not.
- ReadFile: file contents are modelled as decoded text, so the UnicodeDecodeError that `read_text(encoding="utf-8")` raises for a file that is not valid UTF-8 is not modelled.
- ContentsFail: for the same reason, a shown file that is not valid UTF-8 does not end the run in the model.
- WriteFile: never fails. The model's tree holds files only, so the errors of `mkdir` and `write_text` when a parent of the path is a file or the path is a directory are not modelled. In a run the written paths are listed files or `.gitkeep`, so such a failure needs a tree where a path is both a file and a directory, or a directory named `.gitkeep`.
- `git commit` failures other than a pathspec that names nothing (hooks, a missing identity, an empty commit) are not modelled. Every path a run stages has just been written, so the commit step of a run cannot fail (`CodeAgent.CommitPatches`).
- EnsureHttpUrl: of `urlparse`'s own errors only the unmatched bracket of the host is modelled. The further checks Python 3.12 makes on a bracketed host (that it is a valid IPv6 or IPvFuture address) and the port check are left out.
- AcceptsWebScheme: requires that `urlparse` does not refuse the URL, since a URL such as `http://[::1` with an unmatched bracket raises ValueError in `urlparse` itself (`GitHubClient.RefusesUnmatchedBracket`).
- PassingTestVerdict, FailingTestVerdict: the unit tests' whole replies are not evaluated as one literal. Their verdict and reason follow from these lemmas with `MarkedLine`, `VerdictLine`, `ReasonLine`, `StripAfterSpace` and `ThreeLineReply`, applied to the test's three lines.
