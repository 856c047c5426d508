/** The reviewer's structured result (agents/reviewer_agent/review_output.py):
    a line scanner over the model's reply that yields a fail-closed verdict,
    a reason, inline comments restricted to the changed files and capped at
    ten, a summary, and the review event derived from the verdict. */
module ReviewOutputs {
  import opened Outcomes
  import opened Text

  datatype Verdict = Pass | Fail
  datatype ReviewEvent = Approve | RequestChanges

  /** One inline review comment: file path, line number (as `int()` read it), text. */
  datatype InlineComment = InlineComment(path: string, line: int, body: string)

  datatype ReviewOutput = ReviewOutput(
    verdict: Verdict,
    reason: string,
    summary: string,
    inlineComments: seq<InlineComment>,
    event: ReviewEvent)

  const MaxInlineComments: nat := 10
  const DefaultCommentBody: string := "See review."

  function VerdictText(v: Verdict): string {
    if v == Pass then "Pass" else "Fail"
  }

  /** The event posted with the review: approval on Pass only. */
  function EventFor(v: Verdict): (e: ReviewEvent)
    ensures e == Approve <==> v == Pass
  {
    if v == Pass then Approve else RequestChanges
  }

  /** `line.split(":", 1)[-1]`: the text after the first colon, or the whole
      line when it has none. */
  function AfterFirstColon(line: string): (r: string)
    ensures ':' in line ==> r == line[Find(line, ':') + 1..]
    ensures ':' !in line ==> r == line
  {
    var parts := SplitLimit(line, ':', 1);
    parts[|parts| - 1]
  }

  /** The verdict a `VERDICT:` line sets: Pass exactly when the upper-cased,
      stripped text after its first colon contains `PASS`. */
  function VerdictOf(line: string): Verdict {
    if Contains(Upper(Strip(AfterFirstColon(line))), "PASS") then Pass else Fail
  }

  /** The reason a `REASON:` line sets. */
  function ReasonOf(line: string): string {
    Strip(AfterFirstColon(line))
  }

  /** The line number of a comment, from the stripped text after the second
      colon: its first word read by `int()`, or 1 when the text is blank or
      its first word is not an integer. */
  function CommentLine(rest: string): int {
    var words := SplitWordOnce(rest);
    if words == [] then 1
    else match ParseInt(words[0]) case Some(n) => n case None => 1
  }

  /** The body of a comment, from the same text: what follows its first word,
      or a stock text when nothing does. */
  function CommentBody(rest: string): (b: string)
    ensures b != []
  {
    var words := SplitWordOnce(rest);
    if |words| > 1 then words[1] else DefaultCommentBody
  }

  /** The comment a line of the comment block yields, if any: the line must
      start (after strip and upper-case) with `FILE:` and split on its first
      two colons into three parts; the path is the stripped second part, and
      line number and body come from the stripped third part. */
  function CommentOf(l2: string): (r: Option<InlineComment>)
    ensures r.Some? <==> HasMarker(l2, "FILE:") && |SplitLimit(l2, ':', 2)| == 3
    ensures r.Some? ==> r.value.path == Strip(SplitLimit(l2, ':', 2)[1]) && r.value.body != []
    ensures r.Some? ==> r.value.line == CommentLine(Strip(SplitLimit(l2, ':', 2)[2]))
    ensures r.Some? ==> r.value.body == CommentBody(Strip(SplitLimit(l2, ':', 2)[2]))
  {
    if HasMarker(l2, "FILE:") && ':' in l2 then
      var parts := SplitLimit(l2, ':', 2);
      if |parts| >= 3 then
        // `rest.split()[0]` is the first word, and `len(rest.split()) > 1`
        // exactly when `rest.split(maxsplit=1)` has a second element; a
        // stripped text is blank exactly when it has no word.
        var rest := Strip(parts[2]);
        Some(InlineComment(Strip(parts[1]), CommentLine(rest), CommentBody(rest)))
      else None
    else None
  }

  /** How the scan reads one line: the marker test and the parsers of the
      three kinds of marked line. The scanning functions, their lemmas and the
      loop take the reader as a parameter, so that their proofs need not look
      inside the character-level tests; the review reads with `Standard`. */
  datatype LineReader = LineReader(
    isMarker: (string, string) -> bool,
    verdictOf: string -> Verdict,
    reasonOf: string -> string,
    commentOf: string -> Option<InlineComment>)

  const Standard: LineReader := LineReader(HasMarker, VerdictOf, ReasonOf, CommentOf)

  /** Index of the first `COMMENTS:` line at or after `i`, or the number of
      lines when there is none. */
  function FirstCommentsFrom(rd: LineReader, lines: seq<string>, i: nat): (c: nat)
    requires i <= |lines|
    ensures i <= c <= |lines|
    decreases |lines| - i
  {
    if i == |lines| then i
    else if rd.isMarker(lines[i], "COMMENTS:") then i
    else FirstCommentsFrom(rd, lines, i + 1)
  }

  /** Index of the first `COMMENTS:` line, or the number of lines when there is none. */
  function FirstComments(rd: LineReader, lines: seq<string>): nat {
    FirstCommentsFrom(rd, lines, 0)
  }

  /** The search stops at a `COMMENTS:` line, and at no earlier one. */
  lemma {:induction false} FirstCommentsFound(rd: LineReader, lines: seq<string>, i: nat, k: nat)
    requires i <= |lines| && i <= k <= FirstCommentsFrom(rd, lines, i)
    ensures k < FirstCommentsFrom(rd, lines, i) ==> !rd.isMarker(lines[k], "COMMENTS:")
    ensures k == FirstCommentsFrom(rd, lines, i) < |lines| ==> rd.isMarker(lines[k], "COMMENTS:")
    decreases k - i
  {
    if k > i {
      FirstCommentsFound(rd, lines, i + 1, k);
    }
  }

  /** Where the scan stops: just past the first `COMMENTS:` line, which is
      itself read for a verdict and a reason, or at the end of the text. */
  function ScanEnd(rd: LineReader, lines: seq<string>): (e: nat)
    ensures e <= |lines|
  {
    var c := FirstComments(rd, lines);
    if c < |lines| then c + 1 else c
  }

  /** The verdict after scanning the first `n` lines: set by each `VERDICT:`
      line, Fail by default. */
  function VerdictUpTo(rd: LineReader, lines: seq<string>, n: nat): Verdict
    requires n <= |lines|
  {
    if n == 0 then Fail
    else if rd.isMarker(lines[n - 1], "VERDICT:") then rd.verdictOf(lines[n - 1])
    else VerdictUpTo(rd, lines, n - 1)
  }

  /** The reason after scanning the first `n` lines: set by each `REASON:`
      line, empty by default. */
  function ReasonUpTo(rd: LineReader, lines: seq<string>, n: nat): string
    requires n <= |lines|
  {
    if n == 0 then []
    else if rd.isMarker(lines[n - 1], "REASON:") then rd.reasonOf(lines[n - 1])
    else ReasonUpTo(rd, lines, n - 1)
  }

  /** The comments `parse` finds on lines `lo` .. `hi` - 1, in order. */
  function CommentsBetween(parse: string -> Option<InlineComment>, lines: seq<string>, lo: nat, hi: nat): seq<InlineComment>
    requires lo <= hi <= |lines|
    decreases hi
  {
    if hi == lo then []
    else
      var c := parse(lines[hi - 1]);
      CommentsBetween(parse, lines, lo, hi - 1) + (if c.Some? then [c.value] else [])
  }

  /** One line scanned: the unfoldings the scanning loop steps through. */
  lemma ScanStep(rd: LineReader, lines: seq<string>, n: nat)
    requires n < |lines|
    ensures VerdictUpTo(rd, lines, n + 1) ==
            if rd.isMarker(lines[n], "VERDICT:") then rd.verdictOf(lines[n]) else VerdictUpTo(rd, lines, n)
    ensures ReasonUpTo(rd, lines, n + 1) ==
            if rd.isMarker(lines[n], "REASON:") then rd.reasonOf(lines[n]) else ReasonUpTo(rd, lines, n)
    ensures FirstCommentsFrom(rd, lines, n) ==
            if rd.isMarker(lines[n], "COMMENTS:") then n else FirstCommentsFrom(rd, lines, n + 1)
  {
  }

  lemma CommentsBetweenStep(parse: string -> Option<InlineComment>, lines: seq<string>, lo: nat, hi: nat)
    requires lo <= hi < |lines|
    ensures CommentsBetween(parse, lines, lo, hi + 1) ==
            CommentsBetween(parse, lines, lo, hi) + (if parse(lines[hi]).Some? then [parse(lines[hi]).value] else [])
  {
  }

  /** The comments whose path is one of the changed files, order kept. */
  function OnChangedFiles(cs: seq<InlineComment>, changedFiles: seq<string>): (r: seq<InlineComment>)
    ensures |r| <= |cs|
    ensures forall c :: c in r <==> c in cs && c.path in changedFiles
    decreases |cs|
  {
    if cs == [] then []
    else (if cs[0].path in changedFiles then [cs[0]] else []) + OnChangedFiles(cs[1..], changedFiles)
  }

  /** The comments of the lines after the first `COMMENTS:` line; none when there is no such line. */
  function CommentBlock(rd: LineReader, lines: seq<string>): seq<InlineComment> {
    var c := FirstComments(rd, lines);
    if c < |lines| then CommentsBetween(rd.commentOf, lines, c + 1, |lines|) else []
  }

  /** When every comment is on a changed file, the filter keeps them all. */
  lemma {:induction false} OnChangedFilesAll(cs: seq<InlineComment>, changedFiles: seq<string>)
    ensures (forall k :: 0 <= k < |cs| ==> cs[k].path in changedFiles) ==> OnChangedFiles(cs, changedFiles) == cs
    decreases |cs|
  {
    if cs != [] && forall k :: 0 <= k < |cs| ==> cs[k].path in changedFiles {
      assert forall k :: 0 <= k < |cs[1..]| ==> cs[1..][k].path in changedFiles;
      OnChangedFilesAll(cs[1..], changedFiles);
    }
  }

  /** The filter works comment by comment, in order: appending a comment
      appends it to the result exactly when its path is a changed file. With
      `OnChangedFiles([], f) == []` this determines the filter, so it keeps
      order and duplicates. */
  lemma {:induction false} OnChangedFilesAppend(cs: seq<InlineComment>, c: InlineComment, changedFiles: seq<string>)
    ensures OnChangedFiles(cs + [c], changedFiles) ==
            OnChangedFiles(cs, changedFiles) + (if c.path in changedFiles then [c] else [])
    decreases |cs|
  {
    if cs == [] {
      assert cs + [c] == [c];
      assert [c][1..] == [];
    } else {
      assert (cs + [c])[0] == cs[0];
      assert (cs + [c])[1..] == cs[1..] + [c];
      OnChangedFilesAppend(cs[1..], c, changedFiles);
    }
  }

  /** `[:10]`: the first ten comments, or all of them when there are fewer. */
  function Capped(cs: seq<InlineComment>): (r: seq<InlineComment>)
    ensures r <= cs
    ensures |r| == if |cs| < MaxInlineComments then |cs| else MaxInlineComments
  {
    cs[..if |cs| < MaxInlineComments then |cs| else MaxInlineComments]
  }

  function Summary(v: Verdict, reason: string, ciConclusion: string): string {
    "**Verdict: " + VerdictText(v) + "**\n\nReason: " + reason + "\n\nCI: " + ciConclusion
  }

  /** The output assembled from the scanned verdict, reason and comment
      block: the comments on changed files, in their order, of which the
      first ten are kept; the summary quoting verdict, reason and CI
      conclusion; and the event that follows the verdict. */
  function Assemble(verdict: Verdict, reason: string, block: seq<InlineComment>,
                    ciConclusion: string, changedFiles: seq<string>): (out: ReviewOutput)
    ensures out.verdict == verdict && out.reason == reason
    ensures out.event == Approve <==> out.verdict == Pass
    ensures out.inlineComments == Capped(OnChangedFiles(block, changedFiles))
    ensures out.summary == "**Verdict: " + VerdictText(verdict) + "**\n\nReason: " + reason + "\n\nCI: " + ciConclusion
    ensures |out.inlineComments| <= MaxInlineComments
    ensures forall c :: c in out.inlineComments ==> c in block && c.path in changedFiles
    ensures (forall k :: 0 <= k < |block| ==> block[k].path in changedFiles) && |block| <= MaxInlineComments ==>
              out.inlineComments == block
  {
    OnChangedFilesAll(block, changedFiles);
    var kept := Capped(OnChangedFiles(block, changedFiles));
    assert forall c :: c in kept ==> c in OnChangedFiles(block, changedFiles);
    ReviewOutput(verdict, reason, Summary(verdict, reason, ciConclusion), kept, EventFor(verdict))
  }

  /** What `from_llm_output` builds from the reply: the lines up to and
      including the first `COMMENTS:` line decide verdict and reason, the
      lines after it are the comment block. */
  function Review(text: string, ciConclusion: string, changedFiles: seq<string>): (out: ReviewOutput)
    ensures out.event == Approve <==> out.verdict == Pass
    ensures out.summary == Summary(out.verdict, out.reason, ciConclusion)
    ensures out.inlineComments == Capped(OnChangedFiles(CommentBlock(Standard, Split(text, '\n')), changedFiles))
    ensures |out.inlineComments| <= MaxInlineComments
    ensures forall c :: c in out.inlineComments ==> c.path in changedFiles
  {
    var lines := Split(text, '\n');
    var e := ScanEnd(Standard, lines);
    Assemble(VerdictUpTo(Standard, lines, e), ReasonUpTo(Standard, lines, e), CommentBlock(Standard, lines),
             ciConclusion, changedFiles)
  }

  /** A `COMMENTS:` line is neither a `VERDICT:` nor a `REASON:` line: the
      markers differ in their first letter. */
  lemma MarkersExclusive(line: string)
    ensures HasMarker(line, "COMMENTS:") ==> !HasMarker(line, "VERDICT:") && !HasMarker(line, "REASON:")
  {
    var u := Upper(Strip(line));
    if HasMarker(line, "COMMENTS:") {
      assert u[0] == u[..9][0] == 'C';
      assert u[..8][0] == u[0] && u[..7][0] == u[0];
    }
  }

  /** The inner loop of `from_llm_output`: the comments of every line from
      `start` to the end, in order. */
  method CollectComments(parse: string -> Option<InlineComment>, lines: seq<string>, start: nat)
    returns (comments: seq<InlineComment>)
    requires start <= |lines|
    ensures comments == CommentsBetween(parse, lines, start, |lines|)
  {
    comments := [];
    var j := start;
    while j < |lines|
      invariant start <= j <= |lines|
      invariant comments == CommentsBetween(parse, lines, start, j)
    {
      var c := parse(lines[j]);
      if c.Some? {
        comments := comments + [c.value];
      }
      CommentsBetweenStep(parse, lines, start, j);
      j := j + 1;
    }
  }

  /** The scanning loop of `ReviewOutput.from_llm_output`: each `VERDICT:` and
      `REASON:` line overrides the previous value, and the first `COMMENTS:`
      line has the comments of all later lines collected and ends the scan. */
  method ScanLines(rd: LineReader, lines: seq<string>)
    returns (verdict: Verdict, reason: string, comments: seq<InlineComment>)
    ensures verdict == VerdictUpTo(rd, lines, ScanEnd(rd, lines))
    ensures reason == ReasonUpTo(rd, lines, ScanEnd(rd, lines))
    ensures comments == CommentBlock(rd, lines)
  {
    verdict := Fail;
    reason := "";
    comments := [];
    var i := 0;
    while i < |lines|
      invariant i <= |lines| && FirstCommentsFrom(rd, lines, i) == FirstComments(rd, lines)
      invariant verdict == VerdictUpTo(rd, lines, i) && reason == ReasonUpTo(rd, lines, i)
      invariant comments == []
    {
      var line := lines[i];
      ScanStep(rd, lines, i);
      if rd.isMarker(line, "VERDICT:") {
        verdict := rd.verdictOf(line);
      }
      if rd.isMarker(line, "REASON:") {
        reason := rd.reasonOf(line);
      }
      if rd.isMarker(line, "COMMENTS:") {
        comments := CollectComments(rd.commentOf, lines, i + 1);
        return;
      }
      i := i + 1;
    }
  }

  /** `ReviewOutput.from_llm_output`: the scan of the reply's lines, then the
      filtered, capped comments, the summary and the event. */
  method FromLlmOutput(text: string, ciConclusion: string, changedFiles: seq<string>) returns (out: ReviewOutput)
    ensures out == Review(text, ciConclusion, changedFiles)
  {
    var lines := Split(text, '\n');
    var verdict, reason, comments := ScanLines(Standard, lines);
    out := Assemble(verdict, reason, comments, ciConclusion, changedFiles);
  }

  /** The verdict is the one set by the last `VERDICT:` line scanned. */
  lemma {:induction false} LastVerdictWins(rd: LineReader, lines: seq<string>, n: nat, k: nat)
    requires k < n <= |lines| && rd.isMarker(lines[k], "VERDICT:")
    requires forall j :: k < j < n ==> !rd.isMarker(lines[j], "VERDICT:")
    ensures VerdictUpTo(rd, lines, n) == rd.verdictOf(lines[k])
    decreases n
  {
    if n - 1 > k {
      LastVerdictWins(rd, lines, n - 1, k);
    }
  }

  /** Fail closed: with no `VERDICT:` line scanned the verdict is Fail. */
  lemma {:induction false} NoVerdictFails(rd: LineReader, lines: seq<string>, n: nat)
    requires n <= |lines|
    requires forall j :: 0 <= j < n ==> !rd.isMarker(lines[j], "VERDICT:")
    ensures VerdictUpTo(rd, lines, n) == Fail
    decreases n
  {
    if n > 0 {
      NoVerdictFails(rd, lines, n - 1);
    }
  }

  /** The reason is the one set by the last `REASON:` line scanned. */
  lemma {:induction false} LastReasonWins(rd: LineReader, lines: seq<string>, n: nat, k: nat)
    requires k < n <= |lines| && rd.isMarker(lines[k], "REASON:")
    requires forall j :: k < j < n ==> !rd.isMarker(lines[j], "REASON:")
    ensures ReasonUpTo(rd, lines, n) == rd.reasonOf(lines[k])
    decreases n
  {
    if n - 1 > k {
      LastReasonWins(rd, lines, n - 1, k);
    }
  }

  /** With no `REASON:` line scanned the reason is empty. */
  lemma {:induction false} NoReasonEmpty(rd: LineReader, lines: seq<string>, n: nat)
    requires n <= |lines|
    requires forall j :: 0 <= j < n ==> !rd.isMarker(lines[j], "REASON:")
    ensures ReasonUpTo(rd, lines, n) == []
    decreases n
  {
    if n > 0 {
      NoReasonEmpty(rd, lines, n - 1);
    }
  }

  /** Verdict and reason after `n` lines depend on those lines only. */
  lemma {:induction false} UpToPrefix(rd: LineReader, a: seq<string>, b: seq<string>, n: nat)
    requires n <= |a|
    ensures VerdictUpTo(rd, a + b, n) == VerdictUpTo(rd, a, n)
    ensures ReasonUpTo(rd, a + b, n) == ReasonUpTo(rd, a, n)
    decreases n
  {
    if n > 0 {
      assert (a + b)[n - 1] == a[n - 1];
      UpToPrefix(rd, a, b, n - 1);
    }
  }

  /** Lines without a `COMMENTS:` marker are skipped by the search for one,
      which ends at the end of `a` when `b` is empty or starts with one. */
  lemma {:induction false} FirstCommentsSkips(rd: LineReader, a: seq<string>, b: seq<string>, i: nat)
    requires i <= |a|
    requires forall k :: 0 <= k < |a| ==> !rd.isMarker(a[k], "COMMENTS:")
    requires b == [] || rd.isMarker(b[0], "COMMENTS:")
    ensures FirstCommentsFrom(rd, a + b, i) == |a|
    decreases |a| - i
  {
    if i < |a| {
      assert (a + b)[i] == a[i];
      FirstCommentsSkips(rd, a, b, i + 1);
    } else if b != [] {
      assert (a + b)[i] == b[0];
    }
  }

  /** With the standard reader, reading the `COMMENTS:` line itself changes
      neither verdict nor reason: they are those of the lines before it. */
  lemma ScanEndFields(lines: seq<string>)
    ensures VerdictUpTo(Standard, lines, ScanEnd(Standard, lines)) ==
            VerdictUpTo(Standard, lines, FirstComments(Standard, lines))
    ensures ReasonUpTo(Standard, lines, ScanEnd(Standard, lines)) ==
            ReasonUpTo(Standard, lines, FirstComments(Standard, lines))
  {
    var c := FirstComments(Standard, lines);
    if c < |lines| {
      FirstCommentsFound(Standard, lines, 0, c);
      MarkersExclusive(lines[c]);
    }
  }

  /** The verdict and reason of a review are those of the lines before the
      first `COMMENTS:` line. */
  lemma ReviewFields(text: string, ciConclusion: string, changedFiles: seq<string>)
    ensures Review(text, ciConclusion, changedFiles).verdict ==
            VerdictUpTo(Standard, Split(text, '\n'), FirstComments(Standard, Split(text, '\n')))
    ensures Review(text, ciConclusion, changedFiles).reason ==
            ReasonUpTo(Standard, Split(text, '\n'), FirstComments(Standard, Split(text, '\n')))
  {
    ScanEndFields(Split(text, '\n'));
  }

  /** Whatever follows the first `COMMENTS:` line cannot change the verdict or
      the reason: they are those of the text before it alone. */
  lemma IgnoresAfterComments(head: string, rest: string, ciConclusion: string, changedFiles: seq<string>)
    requires forall k :: 0 <= k < |Split(head, '\n')| ==> !HasMarker(Split(head, '\n')[k], "COMMENTS:")
    requires HasMarker(Split(rest, '\n')[0], "COMMENTS:")
    ensures Review(head + "\n" + rest, ciConclusion, changedFiles).verdict == Review(head, ciConclusion, changedFiles).verdict
    ensures Review(head + "\n" + rest, ciConclusion, changedFiles).reason == Review(head, ciConclusion, changedFiles).reason
  {
    var a, b := Split(head, '\n'), Split(rest, '\n');
    SplitAppend(head, rest, '\n');
    FirstCommentsSkips(Standard, a, b, 0);
    FirstCommentsSkips(Standard, a, [], 0);
    assert a + [] == a;
    UpToPrefix(Standard, a, b, |a|);
    ReviewFields(head + "\n" + rest, ciConclusion, changedFiles);
    ReviewFields(head, ciConclusion, changedFiles);
  }

  /** A line made of an upper-case marker ending in its only colon, followed
      by text that does not end in whitespace, carries that marker and no
      marker with another first letter. */
  lemma MarkedLine(marker: string, rest: string)
    requires |marker| >= 2 && marker[|marker| - 1] == ':'
    requires forall k :: 0 <= k < |marker| - 1 ==> 'A' <= marker[k] <= 'Z'
    requires rest == [] || !IsSpace(rest[|rest| - 1])
    ensures HasMarker(marker + rest, marker)
    ensures forall m :: m != [] && m[0] != marker[0] ==> !HasMarker(marker + rest, m)
  {
    var line := marker + rest;
    assert line[0] == marker[0];
    assert line[|line| - 1] == if rest == [] then ':' else rest[|rest| - 1];
    StripKeeps(line);
    var u := Upper(line);
    assert forall k :: 0 <= k < |marker| ==> u[k] == marker[k];
    assert u[..|marker|] == marker;
  }

  /** The text after the first colon of such a line is what follows the marker. */
  lemma AfterMarker(marker: string, rest: string)
    requires |marker| >= 1 && marker[|marker| - 1] == ':' && ':' !in marker[..|marker| - 1]
    ensures AfterFirstColon(marker + rest) == rest
  {
    var line := marker + rest;
    var head := marker[..|marker| - 1];
    assert line == head + ([':'] + rest);
    FindPast(head, [':'] + rest, ':');
    assert line[|head| + 1..] == rest;
  }

  /** Text without a line break is one line. */
  lemma OneLine(l: string)
    requires '\n' !in l
    ensures Split(l, '\n') == [l]
  {
  }

  /** A reply made of a `VERDICT:` line, a `REASON:` line and a `COMMENTS:`
      line has the verdict of the first, the reason of the second and no
      inline comments. */
  lemma ThreeLineReply(l1: string, l2: string, l3: string, ciConclusion: string, changedFiles: seq<string>)
    requires '\n' !in l1 && '\n' !in l2 && '\n' !in l3
    requires HasMarker(l1, "VERDICT:") && !HasMarker(l1, "REASON:") && !HasMarker(l1, "COMMENTS:")
    requires HasMarker(l2, "REASON:") && !HasMarker(l2, "VERDICT:") && !HasMarker(l2, "COMMENTS:")
    requires HasMarker(l3, "COMMENTS:")
    ensures Review(l1 + "\n" + l2 + "\n" + l3, ciConclusion, changedFiles).verdict == VerdictOf(l1)
    ensures Review(l1 + "\n" + l2 + "\n" + l3, ciConclusion, changedFiles).reason == ReasonOf(l2)
    ensures Review(l1 + "\n" + l2 + "\n" + l3, ciConclusion, changedFiles).inlineComments == []
  {
    var text := l1 + "\n" + l2 + "\n" + l3;
    OneLine(l1);
    OneLine(l2);
    OneLine(l3);
    SplitAppend(l1, l2, '\n');
    SplitAppend(l1 + "\n" + l2, l3, '\n');
    var lines := Split(text, '\n');
    assert lines == [l1, l2, l3];
    MarkersExclusive(l3);
    assert FirstCommentsFrom(Standard, lines, 2) == 2;
    assert FirstCommentsFrom(Standard, lines, 1) == 2;
    assert FirstComments(Standard, lines) == 2;
    assert ScanEnd(Standard, lines) == 3;
    assert VerdictUpTo(Standard, lines, 2) == VerdictOf(l1);
    assert ReasonUpTo(Standard, lines, 2) == ReasonOf(l2);
    assert CommentBlock(Standard, lines) == [];
  }

  /** A `VERDICT:` line passes exactly when the upper-cased, stripped text
      after the marker contains `PASS`. */
  lemma VerdictLine(rest: string)
    ensures VerdictOf("VERDICT:" + rest) == if Contains(Upper(Strip(rest)), "PASS") then Pass else Fail
  {
    AfterMarker("VERDICT:", rest);
  }

  /** A `REASON:` line gives the stripped text after the marker. */
  lemma ReasonLine(rest: string)
    ensures ReasonOf("REASON:" + rest) == Strip(rest)
  {
    AfterMarker("REASON:", rest);
  }

  /** Text after one leading space, with no whitespace at its ends, strips to itself. */
  lemma StripAfterSpace(x: string)
    requires x != [] && !IsSpace(x[0]) && !IsSpace(x[|x| - 1])
    ensures Strip(" " + x) == x
  {
    assert (" " + x)[1..] == x;
    assert LStrip(" " + x) == x;
    StripKeeps(x);
  }

  /** The verdict text of the first unit-test reply, ` PASS`, passes. With
      `MarkedLine`, `VerdictLine`, `ReasonLine`, `StripAfterSpace` and
      `ThreeLineReply` this gives the verdict and reason the test expects. */
  lemma PassingTestVerdict()
    ensures Contains(Upper(Strip(" PASS")), "PASS")
  {
    assert Strip(" PASS") == "PASS";
    assert Upper("PASS") == "PASS";
  }

  /** The verdict text of the second unit-test reply, ` FAIL`, fails. */
  lemma FailingTestVerdict()
    ensures !Contains(Upper(Strip(" FAIL")), "PASS")
  {
    assert Strip(" FAIL") == "FAIL";
    assert Upper("FAIL") == "FAIL";
  }

  /** A `FILE:` line whose path part holds no colon splits on its first two
      colons into the marker word, the path part and the rest. */
  lemma SplitFileLine(path: string, rest: string)
    requires ':' !in path
    ensures SplitLimit("FILE:" + path + ":" + rest, ':', 2) == ["FILE", path, rest]
  {
    var line := "FILE:" + path + ":" + rest;
    var after := path + ([':'] + rest);
    assert line == "FILE" + ([':'] + after);
    FindPast("FILE", [':'] + after, ':');
    assert line[5..] == after;
    FindPast(path, [':'] + rest, ':');
    assert after[..|path|] == path && after[|path| + 1..] == rest;
    assert SplitLimit(after, ':', 1) == [path] + SplitLimit(rest, ':', 0);
  }

  /** Such a line, when it carries the `FILE:` marker, yields the comment on
      the stripped path, with line number and body from the stripped text
      after the second colon. */
  lemma FileLine(path: string, rest: string)
    requires ':' !in path
    requires HasMarker("FILE:" + path + ":" + rest, "FILE:")
    ensures CommentOf("FILE:" + path + ":" + rest) ==
            Some(InlineComment(Strip(path), CommentLine(Strip(rest)), CommentBody(Strip(rest))))
  {
    SplitFileLine(path, rest);
    assert ("FILE:" + path + ":" + rest)[4] == ':';
  }

  /** `12 fix it` gives line 12 and body `fix it`. */
  lemma NumberedCommentText()
    ensures CommentLine("12 fix it") == 12 && CommentBody("12 fix it") == "fix it"
  {
    var s := "12 fix it";
    assert WordLength(s[2..]) == 0;
    assert WordLength(s) == 2;
    assert s[..2] == "12" && s[2..] == " fix it";
    assert LStrip(" fix it") == "fix it";
    assert SplitWordOnce(s) == ["12", "fix it"];
    assert Strip("12") == "12";
    assert WellFormedDigits("12");
    assert DigitsValue("12") == DigitsValue("1") * 10 + 2;
    assert ParseInt("12") == Some(12);
  }

  /** A blank text and a lone word that is not a number both give line 1
      and the stock body. */
  lemma DefaultCommentTexts()
    ensures CommentLine("") == 1 && CommentBody("") == DefaultCommentBody
    ensures CommentLine("x") == 1 && CommentBody("x") == DefaultCommentBody
  {
    assert LStrip("x") == "x" && WordLength("x") == 1;
    assert "x"[1..] == [] && "x"[..1] == "x";
    assert LStrip([]) == [];
    assert SplitWordOnce("x") == ["x"];
    assert Strip("x") == "x";
    assert ParseInt("x") == None;
  }
}
