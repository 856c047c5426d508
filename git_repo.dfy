/** The repository helper (coding_agents/core/git/repo.py): the branch-name
    slug, and a working copy with an index, branches, commits and a remote
    whose answers to pushes are scripted. */
module GitRepos {
  import opened Outcomes
  import opened Text
  import opened StringOrder

  // ---------------------------------------------------------------------
  // Branch names

  /** `\w` for the ASCII range: letters, digits and the underscore. */
  predicate IsWordChar(c: char) {
    IsAsciiLetter(c) || IsDigit(c) || c == '_'
  }

  /** The characters `[-\s]` that the slug collapses into one hyphen. */
  predicate IsSeparator(c: char) {
    c == '-' || IsSpace(c)
  }

  /** The first step of the slug: every character that is not a word
      character, whitespace or a hyphen is deleted, the rest keep their order. */
  function KeepSlugChars(s: string): (r: string)
    ensures |r| <= |s|
    ensures forall k :: 0 <= k < |r| ==> IsWordChar(r[k]) || IsSeparator(r[k])
    ensures forall c :: c in r <==> c in s && (IsWordChar(c) || IsSeparator(c))
    decreases |s|
  {
    if s == [] then []
    else if IsWordChar(s[0]) || IsSeparator(s[0]) then [s[0]] + KeepSlugChars(s[1..])
    else KeepSlugChars(s[1..])
  }

  /** The deletion works character by character: it distributes over
      concatenation, so the kept characters appear in their original order. */
  lemma {:induction false} KeepSlugCharsAppend(a: string, b: string)
    ensures KeepSlugChars(a + b) == KeepSlugChars(a) + KeepSlugChars(b)
    decreases |a|
  {
    if a == [] {
      assert a + b == b;
    } else {
      assert (a + b)[1..] == a[1..] + b;
      KeepSlugCharsAppend(a[1..], b);
    }
  }

  /** The text after its leading run of separators. */
  function DropSeparators(s: string): (r: string)
    ensures |r| <= |s| && r == s[|s| - |r|..]
    ensures r == [] || !IsSeparator(r[0])
    decreases |s|
  {
    if s != [] && IsSeparator(s[0]) then DropSeparators(s[1..]) else s
  }

  /** The second step of the slug: every maximal run of hyphens and
      whitespace becomes a single hyphen. */
  function Collapse(s: string): (r: string)
    decreases |s|
  {
    if s == [] then []
    else if IsSeparator(s[0]) then "-" + Collapse(DropSeparators(s[1..]))
    else [s[0]] + Collapse(s[1..])
  }

  /** No two hyphens in a row. */
  predicate NoDoubleHyphen(s: string) {
    forall k :: 0 <= k < |s| - 1 ==> !(s[k] == '-' && s[k + 1] == '-')
  }

  /** After collapsing, the text holds only word characters and hyphens,
      never two hyphens in a row, and starts with a hyphen only when the
      input started with a separator. */
  lemma {:induction false} CollapseShape(s: string)
    requires forall k :: 0 <= k < |s| ==> IsWordChar(s[k]) || IsSeparator(s[k])
    ensures HyphenatedWords(Collapse(s))
    ensures Collapse(s) != [] && Collapse(s)[0] == '-' ==> IsSeparator(s[0])
    decreases |s|
  {
    if s != [] {
      var r := Collapse(s);
      if IsSeparator(s[0]) {
        var t := DropSeparators(s[1..]);
        assert forall k :: 0 <= k < |t| ==> t[k] == s[1..][|s[1..]| - |t| + k];
        CollapseShape(t);
        var c := Collapse(t);
        assert r == "-" + c;
        assert c != [] ==> c[0] != '-';
        assert forall k :: 0 < k < |r| ==> r[k] == c[k - 1];
      } else {
        CollapseShape(s[1..]);
        var c := Collapse(s[1..]);
        assert r == [s[0]] + c;
        assert forall k :: 0 < k < |r| ==> r[k] == c[k - 1];
      }
    }
  }

  /** The branch slug keeps at most this many characters. */
  const MaxSlugLength: nat := 30

  /** The title after deletion, collapsing, `strip("-")` and `lower()`. */
  function Normalized(title: string): string {
    Lower(StripChar(Collapse(KeepSlugChars(title)), '-'))
  }

  /** `_slug(title)`: the normalised title cut to 30 characters, or `issue`
      when normalisation leaves nothing. Every slug is non-empty and at most
      30 characters long, holds only lower-case letters, digits, `_` and `-`
      (so no whitespace), does not start with a hyphen and never has two
      hyphens in a row; a cut at 30 characters may leave a hyphen at the end. */
  function Slug(title: string): (r: string)
    ensures 0 < |r| <= MaxSlugLength && SlugShaped(r)
    ensures Normalized(title) == [] ==> r == "issue"
    ensures Normalized(title) != [] ==> r <= Normalized(title)
    ensures Normalized(title) != [] ==> |r| == MaxSlugLength || r == Normalized(title)
  {
    NormalizedShape(title);
    var s := Normalized(title);
    if s != [] then
      var n := if |s| < MaxSlugLength then |s| else MaxSlugLength;
      PrefixShaped(s, n);
      s[..n]
    else
      "issue"
  }

  /** A character a slug may hold: a lower-case letter, a digit, `_` or `-`. */
  predicate IsSlugChar(c: char) {
    ('a' <= c <= 'z') || IsDigit(c) || c == '_' || c == '-'
  }

  /** Word characters and hyphens only, never two hyphens in a row. */
  predicate HyphenatedWords(s: string) {
    (forall k :: 0 <= k < |s| ==> IsWordChar(s[k]) || s[k] == '-') && NoDoubleHyphen(s)
  }

  /** Any piece of hyphenated words is hyphenated words. */
  lemma SliceShape(c: string, a: nat, b: nat)
    requires a <= b <= |c| && HyphenatedWords(c)
    ensures HyphenatedWords(c[a..b])
  {
    var t := c[a..b];
    assert forall k :: 0 <= k < |t| ==> t[k] == c[a + k];
  }

  /** `strip("-")` keeps a piece of the collapsed text, so it keeps its shape. */
  lemma StripHyphensShape(c: string)
    requires HyphenatedWords(c)
    ensures HyphenatedWords(StripChar(c, '-'))
  {
    var l := LStripChar(c, '-');
    SliceShape(c, |c| - |l|, |c|);
    SliceShape(l, 0, |RStripChar(l, '-')|);
  }

  /** `lower()` turns the word characters into slug characters and leaves the
      hyphens where they were. */
  lemma LowerShape(t: string)
    requires HyphenatedWords(t) && (t == [] || t[0] != '-')
    ensures SlugShaped(Lower(t))
  {
    var s := Lower(t);
    assert forall k :: 0 <= k < |s| ==> IsSlugChar(s[k]) && (s[k] == '-' <==> t[k] == '-');
  }

  /** Only slug characters, no leading hyphen, never two hyphens in a row. */
  predicate SlugShaped(s: string) {
    (forall k :: 0 <= k < |s| ==> IsSlugChar(s[k])) && NoDoubleHyphen(s) && (s == [] || s[0] != '-')
  }

  /** The normalised title holds only slug characters, does not start with
      a hyphen and never has two in a row. */
  lemma NormalizedShape(title: string)
    ensures SlugShaped(Normalized(title))
  {
    var kept := KeepSlugChars(title);
    CollapseShape(kept);
    var c := Collapse(kept);
    StripHyphensShape(c);
    LowerShape(StripChar(c, '-'));
  }

  /** A non-empty prefix keeps the shape. */
  lemma PrefixShaped(s: string, n: nat)
    requires SlugShaped(s) && n <= |s|
    ensures SlugShaped(s[..n])
  {
    var t := s[..n];
    assert forall k :: 0 <= k < |t| ==> t[k] == s[k];
  }

  /** The prefix every agent branch name starts with. */
  const BranchPrefix: string := "agent/issue-"

  /** `branch_name(issue_id, title)`: `agent/issue-<id>-<slug>`. */
  function BranchName(issueId: int, title: string): (r: string)
    ensures StartsWith(r, BranchPrefix)
  {
    var r := BranchPrefix + (IntToString(issueId) + ("-" + Slug(title)));
    assert r[..|BranchPrefix|] == BranchPrefix;
    r
  }

  /** Two texts that each start with a run of digits and a hyphen split
      there the same way. */
  lemma SplitAtHyphen(d1: string, s1: string, d2: string, s2: string)
    requires forall k :: 0 <= k < |d1| ==> IsDigit(d1[k])
    requires forall k :: 0 <= k < |d2| ==> IsDigit(d2[k])
    requires d1 + ("-" + s1) == d2 + ("-" + s2)
    ensures d1 == d2 && s1 == s2
  {
    var x := d1 + ("-" + s1);
    assert '-' !in d1 && '-' !in d2;
    FindPast(d1, "-" + s1, '-');
    FindPast(d2, "-" + s2, '-');
    assert d1 == x[..|d1|] && d2 == x[..|d2|];
    assert s1 == x[|d1| + 1..] && s2 == x[|d2| + 1..];
  }

  /** The name of an agent branch determines the issue number and the slug:
      two issues never share a branch. */
  lemma BranchNameInjective(id1: nat, title1: string, id2: nat, title2: string)
    requires BranchName(id1, title1) == BranchName(id2, title2)
    ensures id1 == id2 && Slug(title1) == Slug(title2)
  {
    var n := |BranchPrefix|;
    var d1, d2 := NatToString(id1), NatToString(id2);
    var r1 := d1 + ("-" + Slug(title1));
    var r2 := d2 + ("-" + Slug(title2));
    assert IntToString(id1) == d1 && IntToString(id2) == d2;
    assert (BranchPrefix + r1)[n..] == r1 && (BranchPrefix + r2)[n..] == r2;
    SplitAtHyphen(d1, Slug(title1), d2, Slug(title2));
    NatToStringValue(id1);
    NatToStringValue(id2);
  }

  // ---------------------------------------------------------------------
  // The working copy

  /** A commit: its identifier, its message and the tree it records
      (path to content). */
  datatype CommitObject = CommitObject(sha: nat, message: string, tree: map<string, string>)

  /** What the remote answers to one push: acceptance, or a GitCommandError
      with its text (`str(e)`). */
  datatype PushReply = Accepted | Refused(text: string)

  /** One push sent to the remote: the ref, and whether it was the
      `--force-with-lease` push. */
  datatype PushAttempt = PushAttempt(ref: string, force: bool)

  /** A branch exists once it has a commit; an unborn branch is only a name. */
  predicate HasBranch(branches: map<string, seq<CommitObject>>, name: string) {
    name in branches && branches[name] != []
  }

  /** Every commit identifier handed out so far is below `next`. */
  predicate ShasBelow(branches: map<string, seq<CommitObject>>, next: nat) {
    forall b, k :: b in branches && 0 <= k < |branches[b]| ==> branches[b][k].sha < next
  }

  /** The pathspecs `add(paths)` hands to the index: the given list, or `.`
      (everything) when the list is missing or empty. */
  function Pathspecs(paths: Option<seq<string>>): (specs: seq<string>)
    ensures specs != []
    ensures paths.Some? && paths.value != [] ==> specs == paths.value
    ensures paths.None? || paths.value == [] ==> specs == ["."]
  {
    if paths.Some? && paths.value != [] then paths.value else ["."]
  }

  /** `.` names the whole working tree. */
  predicate Resolves(files: map<string, string>, spec: string) {
    spec == "." || spec in files
  }

  /** The position of the first pathspec that names nothing, or the length
      when all of them resolve. */
  function FirstMissing(files: map<string, string>, specs: seq<string>): (n: nat)
    ensures n <= |specs|
    ensures forall k :: 0 <= k < n ==> Resolves(files, specs[k])
    ensures n < |specs| ==> !Resolves(files, specs[n])
    decreases |specs|
  {
    if specs == [] || !Resolves(files, specs[0]) then 0 else 1 + FirstMissing(files, specs[1..])
  }

  /** The index after `index.add([s])`. */
  function StageOne(index: map<string, string>, files: map<string, string>, s: string): map<string, string> {
    if s == "." then index + files
    else if s in files then index[s := files[s]]
    else index
  }

  /** The index after `index.add([s])` for each pathspec `s` in turn. */
  function Stage(index: map<string, string>, files: map<string, string>, specs: seq<string>): map<string, string>
    decreases |specs|
  {
    if specs == [] then index
    else StageOne(Stage(index, files, specs[..|specs| - 1]), files, specs[|specs| - 1])
  }

  /** Staging one more pathspec of a list. */
  lemma StageStep(index: map<string, string>, files: map<string, string>, specs: seq<string>, i: nat)
    requires i < |specs|
    ensures Stage(index, files, specs[..i + 1]) == StageOne(Stage(index, files, specs[..i]), files, specs[i])
  {
    assert specs[..i + 1][..i] == specs[..i];
  }

  /** Whatever order the pathspecs come in, staging puts a working-tree file
      into the index exactly when some pathspec names it or one of them is
      `.`, with its working-tree content; every other entry stays as it was. */
  lemma {:induction false} StageCovers(index: map<string, string>, files: map<string, string>, specs: seq<string>, p: string)
    ensures var staged := p in files && (p in specs || "." in specs);
            (p in Stage(index, files, specs) <==> p in index || staged)
            && (staged ==> Stage(index, files, specs)[p] == files[p])
            && (!staged && p in index ==> Stage(index, files, specs)[p] == index[p])
    decreases |specs|
  {
    if specs != [] {
      var init := specs[..|specs| - 1];
      StageCovers(index, files, init, p);
      assert specs == init + [specs[|specs| - 1]];
    }
  }

  /** Staging `.` after any pathspecs leaves the index as staging `.` alone
      would: the earlier entries all come from the working tree. */
  lemma StageThenAll(index: map<string, string>, files: map<string, string>, specs: seq<string>)
    ensures Stage(index, files, specs) + files == index + files
  {
    forall p ensures (p in Stage(index, files, specs) + files <==> p in index + files)
      && (p in index + files ==> (Stage(index, files, specs) + files)[p] == (index + files)[p])
    {
      StageCovers(index, files, specs, p);
    }
  }

  /** The state of a repository tip: the tree of its last commit. */
  function TipTree(history: seq<CommitObject>): map<string, string> {
    if history == [] then map[] else history[|history| - 1].tree
  }

  /** The branch a push goes to: the one given, or the active branch when
      none (or an empty name) is given. */
  function PushRef(branch: Option<string>, head: string): (r: string)
    ensures branch.Some? && branch.value != [] ==> r == branch.value
    ensures branch.None? || branch.value == [] ==> r == head
  {
    if branch.Some? && branch.value != [] then branch.value else head
  }

  /** The remote's answer to the k-th push; one that is not scripted succeeds. */
  function ReplyAt(script: seq<PushReply>, k: nat): (r: PushReply)
    ensures k >= |script| ==> r == Accepted
  {
    if k < |script| then script[k] else Accepted
  }

  /** The errors `push` treats as transient, judged by the lower-cased text. */
  predicate Transient(msg: string) {
    Contains(msg, "rpc failed") || Contains(msg, "http 500") || Contains(msg, "hung up")
    || Contains(msg, "internal server error")
  }

  /** A refusal the retry loop treats as transient. */
  predicate IsTransient(reply: PushReply) {
    reply.Refused? && Transient(Lower(reply.text))
  }

  /** A refusal that is a rejection and not transient: it is forced. */
  predicate IsRejected(reply: PushReply) {
    reply.Refused? && !Transient(Lower(reply.text)) && Contains(Lower(reply.text), "rejected")
  }

  /** What the caller sees of the force-with-lease push. */
  function ForcedOutcome(reply: PushReply): (r: Result<()>)
    ensures r.Ok? <==> reply.Accepted?
    ensures reply.Refused? ==> r == Err(GitCommandError(reply.text))
  {
    if reply.Accepted? then Ok(()) else Err(GitCommandError(reply.text))
  }

  /** The number of plain pushes `push` makes at most. */
  const PushAttempts: nat := 3

  /** The remote's next answers, as many as one run of `push` can consume. */
  function Window(script: seq<PushReply>, base: nat): (w: seq<PushReply>)
    ensures |w| == PushAttempts + 1
    ensures forall k :: 0 <= k < |w| ==> w[k] == ReplyAt(script, base + k)
  {
    seq(PushAttempts + 1, (k: int) requires 0 <= k => ReplyAt(script, base + k))
  }

  /** How a run of `push` goes: its outcome, the number of plain pushes made,
      whether the force-with-lease push was made, and the sleeps taken. */
  datatype PushRun = PushRun(outcome: Result<()>, plain: nat, forced: bool, sleeps: seq<nat>)

  /** What one pass of the loop body of `push` does with the answer to its
      plain push: finish (with the outcome, and whether the force-with-lease
      push was made), or sleep and go round again after a transient error. */
  datatype Step = Finished(outcome: Result<()>, forced: bool) | Retried(text: string, pause: nat)

  /** The pass for attempt `a`, where `w[a]` answers its plain push and
      `w[a + 1]` a force-with-lease push. */
  function AttemptStep(w: seq<PushReply>, a: nat): (step: Step)
    requires |w| == PushAttempts + 1 && a < PushAttempts
    ensures step.Retried? <==> IsTransient(w[a])
  {
    var reply := w[a];
    if reply.Accepted? then Finished(Ok(()), false)
    else if IsTransient(reply) then Retried(reply.text, 5 * (a + 1))
    else if IsRejected(reply) then Finished(ForcedOutcome(w[a + 1]), true)
    else Finished(Err(GitCommandError(reply.text)), false)
  }

  /** The run of `push` from plain attempt `attempt` on, where `w[attempt..]`
      are the answers still to come, `last` is the text of the latest error
      and `slept` the sleeps taken so far. */
  function PushLoop(w: seq<PushReply>, attempt: nat, last: string, slept: seq<nat>): PushRun
    requires |w| == PushAttempts + 1 && attempt <= PushAttempts
    decreases PushAttempts - attempt
  {
    if attempt == PushAttempts then
      PushRun(Err(RuntimeError("Push failed after retries: " + last)), attempt, false, slept)
    else
      match AttemptStep(w, attempt)
      case Finished(outcome, forced) => PushRun(outcome, attempt + 1, forced, slept)
      case Retried(text, pause) => PushLoop(w, attempt + 1, text, slept + [pause])
  }

  /** A whole run of `push` against the answers `w`. */
  function PushRunOf(w: seq<PushReply>): PushRun
    requires |w| == PushAttempts + 1
  {
    PushLoop(w, 0, "", [])
  }

  /** The pushes a run sends to the remote, in order. */
  function PushLog(ref: string, run: PushRun): seq<PushAttempt> {
    PlainPushes(ref, run.plain) + if run.forced then [PushAttempt(ref, true)] else []
  }

  /** A run pushes only the ref it was given, and at least once per plain
      attempt. */
  lemma PushLogRef(ref: string, run: PushRun)
    ensures |PushLog(ref, run)| >= run.plain
    ensures forall k :: 0 <= k < |PushLog(ref, run)| ==> PushLog(ref, run)[k].ref == ref
  {
    var log := PushLog(ref, run);
    forall k | 0 <= k < |log| ensures log[k].ref == ref {
      if k < run.plain { assert log[k] == PlainPushes(ref, run.plain)[k]; }
    }
  }

  lemma AppendAssoc<T>(a: seq<T>, b: seq<T>, c: seq<T>)
    ensures (a + b) + c == a + (b + c)
  {
  }

  /** `n` plain pushes of `ref`. */
  function PlainPushes(ref: string, n: nat): (log: seq<PushAttempt>)
    ensures |log| == n && forall k :: 0 <= k < n ==> log[k] == PushAttempt(ref, false)
  {
    if n == 0 then [] else PlainPushes(ref, n - 1) + [PushAttempt(ref, false)]
  }

  /** From attempt `a` on, between `a+1` and three plain pushes are made, and
      every one but the last met a transient error. */
  lemma {:induction false} PushPlainBound(w: seq<PushReply>, a: nat, last: string, slept: seq<nat>)
    requires |w| == PushAttempts + 1 && a < PushAttempts
    ensures a < PushLoop(w, a, last, slept).plain <= PushAttempts
    ensures forall j :: a <= j < PushLoop(w, a, last, slept).plain - 1 ==> IsTransient(w[j])
    decreases PushAttempts - a
  {
    if IsTransient(w[a]) && a + 1 < PushAttempts {
      PushPlainBound(w, a + 1, w[a].text, slept + [5 * (a + 1)]);
    }
  }

  /** The sleeps: one per transient error, of 5, 10, 15 seconds by attempt,
      also after the third, added after those taken before. */
  lemma {:induction false} PushSleeps(w: seq<PushReply>, a: nat, last: string, slept: seq<nat>)
    requires |w| == PushAttempts + 1 && a < PushAttempts
    ensures var run := PushLoop(w, a, last, slept);
            a < run.plain <= PushAttempts && |slept| <= |run.sleeps| && run.sleeps[..|slept|] == slept
            && |run.sleeps| - |slept| == (if IsTransient(w[run.plain - 1]) then run.plain else run.plain - 1) - a
            && forall j :: |slept| <= j < |run.sleeps| ==> run.sleeps[j] == 5 * (a + (j - |slept|) + 1)
    decreases PushAttempts - a
  {
    var run := PushLoop(w, a, last, slept);
    if IsTransient(w[a]) {
      var more := slept + [5 * (a + 1)];
      if a + 1 < PushAttempts {
        PushSleeps(w, a + 1, w[a].text, more);
        assert run.sleeps[..|more|][..|slept|] == slept;
      } else {
        assert run.sleeps == more;
      }
    }
  }

  /** The answer to the last plain push decides the outcome: success,
      exhaustion after a transient error, exactly one force-with-lease push
      after a rejection, or the error re-raised unchanged. */
  lemma {:induction false} PushOutcome(w: seq<PushReply>, a: nat, last: string, slept: seq<nat>)
    requires |w| == PushAttempts + 1 && a < PushAttempts
    ensures var run := PushLoop(w, a, last, slept);
            a < run.plain <= PushAttempts &&
            var reply := w[run.plain - 1];
            (reply.Accepted? ==> run.outcome == Ok(()) && !run.forced)
            && (IsTransient(reply) ==>
                  run.plain == PushAttempts && !run.forced
                  && run.outcome == Err(RuntimeError("Push failed after retries: " + reply.text)))
            && (IsRejected(reply) ==> run.forced && run.outcome == ForcedOutcome(w[run.plain]))
            && (reply.Refused? && !IsTransient(reply) && !IsRejected(reply) ==>
                  !run.forced && run.outcome == Err(GitCommandError(reply.text)))
    decreases PushAttempts - a
  {
    if IsTransient(w[a]) && a + 1 < PushAttempts {
      PushOutcome(w, a + 1, w[a].text, slept + [5 * (a + 1)]);
    }
  }

  /** A whole run: one to three plain pushes, all but the last met a
      transient error, the sleeps are 5, 10, 15 seconds in turn, and the run
      ends in RuntimeError exactly when the last plain push met a transient
      error, and with a force-with-lease push exactly when it was rejected. */
  lemma PushFacts(w: seq<PushReply>)
    requires |w| == PushAttempts + 1
    ensures var run := PushRunOf(w);
            1 <= run.plain <= PushAttempts
            && (forall j :: 0 <= j < run.plain - 1 ==> IsTransient(w[j]))
            && (forall j :: 0 <= j < |run.sleeps| ==> run.sleeps[j] == 5 * (j + 1))
            && (run.outcome.Err? && run.outcome.error.RuntimeError? <==> IsTransient(w[run.plain - 1]))
            && (run.forced <==> IsRejected(w[run.plain - 1]))
  {
    PushPlainBound(w, 0, "", []);
    PushSleeps(w, 0, "", []);
    PushOutcome(w, 0, "", []);
  }

  /** Three transient errors in a row exhaust the retries: three plain
      pushes, sleeps of 5, 10 and 15 seconds, no forced push, and a
      RuntimeError naming the third error. */
  lemma PushExhausted(w: seq<PushReply>)
    requires |w| == PushAttempts + 1 && IsTransient(w[0]) && IsTransient(w[1]) && IsTransient(w[2])
    ensures PushRunOf(w) ==
              PushRun(Err(RuntimeError("Push failed after retries: " + w[2].text)), 3, false, [5, 10, 15])
  {
  }

  /** An error that is both transient and a rejection is retried after a
      sleep, never forced. */
  lemma TransientBeforeRejected(w: seq<PushReply>)
    requires |w| == PushAttempts + 1 && IsTransient(w[0])
    ensures PushRunOf(w).plain >= 2
    ensures |PushRunOf(w).sleeps| >= 1 && PushRunOf(w).sleeps[0] == 5
  {
    PushPlainBound(w, 1, w[0].text, [5]);
  }

  /** The directory part of a relative path: what precedes its last `/`. */
  function DirPart(p: string): (d: string)
    ensures |d| <= |p|
    decreases |p|
  {
    if p == [] then []
    else if p[|p| - 1] == '/' then p[..|p| - 1]
    else DirPart(p[..|p| - 1])
  }

  /** The directory `os.walk` reports as `root` when it yields the file `p`. */
  function WalkRoot(root: string, p: string): string {
    if DirPart(p) == [] then root else root + "/" + DirPart(p)
  }

  /** The filter of `list_files`: the walk root must not contain `.git`
      anywhere, and no component of the relative path may start with a dot. */
  predicate Listed(root: string, p: string) {
    !Contains(WalkRoot(root, p), ".git") && forall c :: c in Split(p, '/') ==> !StartsWith(c, ".")
  }

  /** The filter of `file_inventory`. */
  predicate Inventoried(p: string) {
    !StartsWith(p, ".git")
  }

  /** A text that holds `t` still holds it with anything after it. */
  lemma {:induction false} ContainsExtended(s: string, u: string, t: string)
    requires Contains(s, t)
    ensures Contains(s + u, t)
    decreases |s|
  {
    if StartsWith(s, t) {
      assert (s + u)[..|t|] == s[..|t|];
    } else {
      assert (s + u)[1..] == s[1..] + u;
      ContainsExtended(s[1..], u, t);
    }
  }

  /** A working copy whose own path contains `.git` lists nothing. */
  lemma GitInRootHidesAll(root: string, p: string)
    requires Contains(root, ".git")
    ensures !Listed(root, p)
  {
    if DirPart(p) != [] {
      ContainsExtended(root, "/" + DirPart(p), ".git");
      assert WalkRoot(root, p) == root + ("/" + DirPart(p));
    }
  }

  /** Neither listing ever yields a path inside `.git` and, for the working
      tree listing, a hidden file or a file in a hidden directory. */
  lemma HiddenNotListed(root: string, p: string, c: string)
    requires c in Split(p, '/') && StartsWith(c, ".")
    ensures !Listed(root, p)
  {
  }

  /** A path with no directory part has none. */
  lemma {:induction false} NoDirPart(p: string)
    requires '/' !in p
    ensures DirPart(p) == []
    decreases |p|
  {
    if p != [] {
      assert '/' !in p[..|p| - 1];
      NoDirPart(p[..|p| - 1]);
    }
  }

  /** The other direction of the filter: a file at the top of a working copy
      whose path does not contain `.git` is listed unless its name starts
      with a dot. */
  lemma TopLevelListed(root: string, name: string)
    requires !Contains(root, ".git") && '/' !in name && !StartsWith(name, ".")
    ensures Listed(root, name)
  {
    NoDirPart(name);
    assert Split(name, '/') == [name];
  }

  /** An in-memory repository: the working tree, the index, the branches
      with their histories, the checked-out branch, and a remote whose
      answers to pushes are fixed in advance. */
  class Repo {
    /** The path of the working copy. */
    const root: string
    /** The working tree: relative path to content. */
    var files: map<string, string>
    /** The index: what the next commit records. */
    var index: map<string, string>
    /** Every pathspec handed to the index so far, in order. */
    var staged: seq<string>
    /** Every branch with its commits, oldest first. */
    var branches: map<string, seq<CommitObject>>
    /** The checked-out branch. */
    var head: string
    /** Branches checked out in another worktree, which git will not delete. */
    const lockedElsewhere: set<string>
    /** The identifier the next commit gets. */
    var nextSha: nat
    /** The remote's answers to the pushes, in order. */
    const script: seq<PushReply>
    /** Every push sent to the remote so far. */
    var pushes: seq<PushAttempt>
    /** The seconds slept between pushes. */
    ghost var sleeps: seq<nat>

    ghost predicate Valid()
      reads this
    {
      head in branches && ShasBelow(branches, nextSha)
    }

    /** Opening a repository in the given state; the index holds the tip of
        the checked-out branch. */
    constructor (root: string, files: map<string, string>, branches: map<string, seq<CommitObject>>, head: string,
                 lockedElsewhere: set<string>, nextSha: nat, script: seq<PushReply>)
      requires head in branches && ShasBelow(branches, nextSha)
      ensures Valid()
      ensures this.root == root && this.files == files && this.branches == branches && this.head == head
      ensures this.lockedElsewhere == lockedElsewhere && this.nextSha == nextSha && this.script == script
      ensures index == TipTree(branches[head]) && staged == [] && pushes == [] && sleeps == []
    {
      this.root := root;
      this.files := files;
      this.index := TipTree(branches[head]);
      this.staged := [];
      this.branches := branches;
      this.head := head;
      this.lockedElsewhere := lockedElsewhere;
      this.nextSha := nextSha;
      this.script := script;
      this.pushes := [];
      this.sleeps := [];
    }

    /** `create_branch(name)`, i.e. `git checkout -b name HEAD`: refused when
        the branch exists or HEAD has no commit yet; otherwise the new branch
        starts at HEAD's commit and is checked out. */
    method CreateBranch(name: string) returns (r: Result<()>)
      requires Valid()
      modifies this`branches, this`head
      ensures Valid()
      ensures r.Ok? <==> old(branches[head]) != [] && !HasBranch(old(branches), name)
      ensures r.Err? ==> r.error.GitCommandError? && branches == old(branches) && head == old(head)
      ensures r.Ok? ==> branches == old(branches)[name := old(branches[head])] && head == name
    {
      if branches[head] == [] {
        return Err(GitCommandError("fatal: 'HEAD' is not a commit and a branch '" + name + "' cannot be created from it"));
      }
      if HasBranch(branches, name) {
        return Err(GitCommandError("fatal: a branch named '" + name + "' already exists"));
      }
      branches := branches[name := branches[head]];
      head := name;
      r := Ok(());
    }

    /** `checkout(ref)`: refused when no such branch exists; otherwise the
        branch is checked out and the index holds its tip. */
    method Checkout(ref: string) returns (r: Result<()>)
      requires Valid()
      modifies this`head, this`index
      ensures Valid()
      ensures r.Ok? <==> HasBranch(branches, ref)
      ensures r.Err? ==> r.error.GitCommandError? && head == old(head) && index == old(index)
      ensures r.Ok? ==> head == ref && index == TipTree(branches[ref])
    {
      if !HasBranch(branches, ref) {
        return Err(GitCommandError("error: pathspec '" + ref + "' did not match any file(s) known to git"));
      }
      head := ref;
      index := TipTree(branches[ref]);
      r := Ok(());
    }

    /** `delete_head(name, force=True)`, i.e. `git branch -D name`: refused for
        a missing branch, the checked-out one, or one checked out elsewhere. */
    method DeleteHead(name: string) returns (r: Result<()>)
      requires Valid()
      modifies this`branches
      ensures Valid()
      ensures r.Ok? <==> HasBranch(old(branches), name) && name != head && name !in lockedElsewhere
      ensures r.Err? ==> r.error.GitCommandError? && branches == old(branches)
      ensures r.Ok? ==> branches == old(branches) - {name}
    {
      if !HasBranch(branches, name) {
        return Err(GitCommandError("error: branch '" + name + "' not found"));
      }
      if name == head || name in lockedElsewhere {
        return Err(GitCommandError("error: cannot delete branch '" + name + "' used by worktree"));
      }
      branches := branches - {name};
      r := Ok(());
    }

    /** `write_file(path, content)`: the file is created or replaced. */
    method WriteFile(path: string, content: string)
      modifies this`files
      ensures files == old(files)[path := content]
    {
      files := files[path := content];
    }

    /** `read_file(path)`: the content, or OSError for a missing file. */
    function ReadFile(path: string): (r: Result<string>)
      reads this
      ensures r.Ok? <==> path in files
      ensures r.Ok? ==> r.value == files[path]
      ensures r.Err? ==> r.error.OSError?
    {
      if path in files then Ok(files[path]) else Err(OSError("No such file or directory: " + path))
    }

    /** `file_exists(path)`: a file, a directory holding one, or the root. */
    predicate FileExists(path: string): (b: bool)
      reads this
      ensures path in files ==> b
      ensures b ==> path == "" || path == "." || exists q :: q in files && StartsWith(q, path)
    {
      assert path in files ==> StartsWith(path, path);
      assert forall q :: StartsWith(q, path + "/") ==> StartsWith(q, path) by {
        forall q | StartsWith(q, path + "/") ensures StartsWith(q, path) {
          assert q[..|path|] == q[..|path| + 1][..|path|];
        }
      }

      path == "" || path == "." || path in files || exists q :: q in files && StartsWith(q, path + "/")
    }

    /** `add(paths)`: each pathspec in turn goes to the index, `.` standing for
        the whole tree; a pathspec naming nothing raises OSError and leaves
        the ones after it unstaged. */
    method Add(paths: Option<seq<string>>) returns (r: Result<()>)
      requires Valid()
      modifies this`index, this`staged
      ensures Valid()
      ensures var specs := Pathspecs(paths); var n := FirstMissing(files, specs);
              (r.Ok? <==> n == |specs|) && (r.Err? ==> r.error.OSError?)
              && staged == old(staged) + specs[..n] && index == Stage(old(index), files, specs[..n])
    {
      var specs := Pathspecs(paths);
      var i := 0;
      while i < |specs|
        invariant i <= |specs| && i <= FirstMissing(files, specs)
        invariant staged == old(staged) + specs[..i] && index == Stage(old(index), files, specs[..i])
      {
        var p := specs[i];
        if p != "." && p !in files {
          return Err(OSError("No such file or directory: " + p));
        }
        StageStep(old(index), files, specs, i);
        if p == "." {
          index := index + files;
        } else {
          index := index[p := files[p]];
        }
        assert specs[..i + 1] == specs[..i] + [p];
        AppendAssoc(old(staged), specs[..i], [p]);
        staged := staged + [p];
        i := i + 1;
      }
      assert specs[..i] == specs;
      r := Ok(());
    }

    /** `commit(message, paths)`: stage as `add(paths)` does, then record the
        index as a new commit on the checked-out branch and return its
        identifier. */
    method Commit(message: string, paths: Option<seq<string>>) returns (r: Result<nat>)
      requires Valid()
      modifies this`index, this`staged, this`branches, this`nextSha
      ensures Valid()
      ensures var specs := Pathspecs(paths); var n := FirstMissing(files, specs);
              (r.Ok? <==> n == |specs|)
              && staged == old(staged) + specs[..n] && index == Stage(old(index), files, specs[..n])
      ensures r.Err? ==> r.error.OSError? && branches == old(branches) && nextSha == old(nextSha)
      ensures r.Ok? ==> r.value == old(nextSha) && nextSha == old(nextSha) + 1
                        && branches == old(branches)[head := old(branches[head]) + [CommitObject(old(nextSha), message, index)]]
    {
      var added := Add(paths);
      if added.Err? {
        return Err(added.error);
      }
      var c := CommitObject(nextSha, message, index);
      branches := branches[head := branches[head] + [c]];
      r := Ok(nextSha);
      nextSha := nextSha + 1;
    }

    /** One push of `ref` to the remote, plain or with `--force-with-lease`:
        it is logged and gets the remote's next answer. */
    method SendPush(ref: string, force: bool) returns (reply: PushReply)
      modifies this`pushes
      ensures reply == ReplyAt(script, |old(pushes)|)
      ensures pushes == old(pushes) + [PushAttempt(ref, force)]
    {
      reply := ReplyAt(script, |pushes|);
      pushes := pushes + [PushAttempt(ref, force)];
    }

    /** The body of the retry loop of `push` for attempt `attempt`, whose
        answers are `w[attempt]` and `w[attempt + 1]`: the plain push, then the
        sleep after a transient error, the force-with-lease push after a
        rejection, or the error to re-raise. */
    method TryPush(ref: string, attempt: nat, ghost w: seq<PushReply>) returns (step: Step)
      requires |w| == PushAttempts + 1 && attempt < PushAttempts
      requires w[attempt] == ReplyAt(script, |pushes|) && w[attempt + 1] == ReplyAt(script, |pushes| + 1)
      modifies this`pushes, this`sleeps
      ensures step == AttemptStep(w, attempt)
      ensures pushes == old(pushes) + [PushAttempt(ref, false)]
                        + if step.Finished? && step.forced then [PushAttempt(ref, true)] else []
      ensures sleeps == old(sleeps) + if step.Retried? then [step.pause] else []
    {
      var reply := SendPush(ref, false);
      if reply.Accepted? {
        return Finished(Ok(()), false);
      }
      if IsTransient(reply) {
        sleeps := sleeps + [5 * (attempt + 1)];
        return Retried(reply.text, 5 * (attempt + 1));
      }
      if IsRejected(reply) {
        var forced := SendPush(ref, true);
        return Finished(ForcedOutcome(forced), true);
      }
      step := Finished(Err(GitCommandError(reply.text)), false);
    }

    /** `push(branch=...)`: up to three plain pushes of the ref, with a sleep
        after each transient error, one force-with-lease push after a
        rejection, any other error re-raised, and RuntimeError once the
        attempts are used up. */
    method Push(branch: Option<string>) returns (r: Result<()>)
      requires Valid()
      modifies this`pushes, this`sleeps
      ensures Valid()
      ensures var run := PushRunOf(Window(script, |old(pushes)|));
              r == run.outcome && pushes == old(pushes) + PushLog(PushRef(branch, head), run)
              && sleeps == old(sleeps) + run.sleeps
    {
      var ref := PushRef(branch, head);
      ghost var w := Window(script, |pushes|);
      ghost var run := PushRunOf(w);
      ghost var taken: seq<nat> := [];
      var attempt := 0;
      var last := "";
      while attempt < PushAttempts
        invariant attempt <= PushAttempts
        invariant pushes == old(pushes) + PlainPushes(ref, attempt)
        invariant sleeps == old(sleeps) + taken
        invariant PushLoop(w, attempt, last, taken) == run
      {
        var step := TryPush(ref, attempt, w);
        AppendAssoc(old(pushes), PlainPushes(ref, attempt), [PushAttempt(ref, false)]);
        if step.Finished? {
          AppendAssoc(old(pushes), PlainPushes(ref, attempt + 1), if step.forced then [PushAttempt(ref, true)] else []);
          return step.outcome;
        }
        AppendAssoc(old(sleeps), taken, [step.pause]);
        taken := taken + [step.pause];
        last := step.text;
        attempt := attempt + 1;
      }
      r := Err(RuntimeError("Push failed after retries: " + last));
      assert PushLog(ref, run) == PlainPushes(ref, attempt) + [];
    }

    /** `list_files()`: the working-tree files that pass the walk filter,
        sorted. */
    method ListFiles() returns (out: seq<string>)
      ensures Sorted(out)
      ensures forall p :: p in out <==> p in files && Listed(root, p)
    {
      var todo := files.Keys;
      out := [];
      while todo != {}
        invariant todo <= files.Keys
        invariant Sorted(out)
        invariant forall p :: p in out <==> p in files && p !in todo && Listed(root, p)
        decreases |todo|
      {
        var p :| p in todo;
        if Listed(root, p) {
          out := Insert(out, p);
        }
        todo := todo - {p};
      }
    }

    /** `file_inventory()`: the files recorded in HEAD's commit whose path does
        not start with `.git`, sorted; ValueError when HEAD has no commit. */
    method FileInventory() returns (r: Result<seq<string>>)
      requires Valid()
      ensures r.Err? <==> branches[head] == []
      ensures r.Err? ==> r.error.ValueError?
      ensures r.Ok? ==> Sorted(r.value) && forall p :: p in r.value <==> p in TipTree(branches[head]) && Inventoried(p)
    {
      if branches[head] == [] {
        return Err(ValueError("Reference at 'refs/heads/" + head + "' does not exist"));
      }
      var tree := TipTree(branches[head]);
      var todo := tree.Keys;
      var out: seq<string> := [];
      while todo != {}
        invariant todo <= tree.Keys
        invariant Sorted(out)
        invariant forall p :: p in out <==> p in tree && p !in todo && Inventoried(p)
        decreases |todo|
      {
        var p :| p in todo;
        if Inventoried(p) {
          out := Insert(out, p);
        }
        todo := todo - {p};
      }
      r := Ok(out);
    }
  }
}
