/** The code agent's run (agents/code_agent/chain.py): two parsers of the
    model's replies (the plan with its candidate files, and the patch
    blocks), the choice of files to show the model, and the fixed sequence
    that turns the patches into a branch, a commit, a push and a pull
    request. */
module CodeAgent {
  import opened Outcomes
  import opened Text
  import opened GitRepos
  import opened StringOrder

  // ---------------------------------------------------------------------
  // The plan reply

  /** The section a line of the plan reply belongs to. */
  datatype Mode = Outside | InPlan | InFiles

  /** How the plan scan reads one line: a `PLAN:` line (its text with every
      case-sensitive `PLAN:` removed, stripped), a `FILES:` line, or a plain
      line (as it is, and stripped). The marker tests strip the line and
      ignore case, `PLAN:` first. */
  datatype PlanLine = PlanMarker(rest: string) | FilesMarker | Plain(line: string, stripped: string)

  function ClassifyPlanLine(line: string): (k: PlanLine)
    ensures k.PlanMarker? <==> HasMarker(line, "PLAN:")
    ensures k.FilesMarker? <==> !HasMarker(line, "PLAN:") && HasMarker(line, "FILES:")
    ensures k.PlanMarker? ==> k.rest == Strip(ReplaceAll(line, "PLAN:", ""))
    ensures k.Plain? ==> k.line == line && k.stripped == Strip(line)
  {
    if HasMarker(line, "PLAN:") then PlanMarker(Strip(ReplaceAll(line, "PLAN:", "")))
    else if HasMarker(line, "FILES:") then FilesMarker
    else Plain(line, Strip(line))
  }

  function PlanLines(lines: seq<string>): (ks: seq<PlanLine>)
    ensures |ks| == |lines| && forall k :: 0 <= k < |lines| ==> ks[k] == ClassifyPlanLine(lines[k])
  {
    seq(|lines|, k requires 0 <= k < |lines| => ClassifyPlanLine(lines[k]))
  }

  /** The section in force after the first `n` lines: the one opened by the
      last marker line among them, none before the first marker. */
  function ModeAfter(ks: seq<PlanLine>, n: nat): Mode
    requires n <= |ks|
  {
    if n == 0 then Outside
    else if ks[n - 1].PlanMarker? then InPlan
    else if ks[n - 1].FilesMarker? then InFiles
    else ModeAfter(ks, n - 1)
  }

  /** What line `k` adds to the plan text: a `PLAN:` line its remaining text,
      a plain line inside the plan section itself, each with a newline;
      nothing otherwise. */
  function PlanPiece(ks: seq<PlanLine>, k: nat): string
    requires k < |ks|
  {
    match ks[k]
    case PlanMarker(rest) => rest + "\n"
    case FilesMarker => ""
    case Plain(line, _) => if ModeAfter(ks, k) == InPlan then line + "\n" else ""
  }

  /** The plan text gathered from the first `n` lines. */
  function PlanText(ks: seq<PlanLine>, n: nat): string
    requires n <= |ks|
  {
    if n == 0 then "" else PlanText(ks, n - 1) + PlanPiece(ks, n - 1)
  }

  /** Line `k` is a file line: a plain, non-blank line inside the files
      section. */
  predicate IsFileLine(ks: seq<PlanLine>, k: nat)
    requires k < |ks|
  {
    ks[k].Plain? && ModeAfter(ks, k) == InFiles && ks[k].stripped != []
  }

  /** The stripped file lines among the first `n` lines, in order. */
  function FileLines(ks: seq<PlanLine>, n: nat): seq<string>
    requires n <= |ks|
  {
    if n == 0 then []
    else FileLines(ks, n - 1) + if IsFileLine(ks, n - 1) then [ks[n - 1].stripped] else []
  }

  /** A file name the final filter keeps: non-empty and not a `#` comment. */
  predicate IsCandidate(f: string) {
    f != [] && !StartsWith(f, "#")
  }

  /** The collected names that pass the final filter, in their order. */
  function KeepCandidates(files: seq<string>): (r: seq<string>)
    ensures |r| <= |files|
    ensures forall f :: f in r <==> f in files && IsCandidate(f)
  {
    if files == [] then []
    else KeepCandidates(files[..|files| - 1])
         + if IsCandidate(files[|files| - 1]) then [files[|files| - 1]] else []
  }

  /** The state the plan scan keeps after the first `i` lines. */
  predicate PlanScanned(ks: seq<PlanLine>, i: nat, inPlan: bool, inFiles: bool, plan: string, collected: seq<string>)
    requires i <= |ks|
  {
    (inPlan <==> ModeAfter(ks, i) == InPlan) && (inFiles <==> ModeAfter(ks, i) == InFiles)
    && plan == PlanText(ks, i) && collected == FileLines(ks, i)
  }

  /** One line of the plan scan, read through its classification. */
  method ScanPlanLine(ks: seq<PlanLine>, i: nat, inPlan: bool, inFiles: bool, plan: string, collected: seq<string>)
    returns (inPlan': bool, inFiles': bool, plan': string, collected': seq<string>)
    requires i < |ks| && PlanScanned(ks, i, inPlan, inFiles, plan, collected)
    ensures PlanScanned(ks, i + 1, inPlan', inFiles', plan', collected')
  {
    assert PlanText(ks, i + 1) == plan + PlanPiece(ks, i);
    match ks[i]
    case PlanMarker(rest) =>
      assert FileLines(ks, i + 1) == collected + [];
      return true, false, plan + (rest + "\n"), collected;
    case FilesMarker =>
      assert FileLines(ks, i + 1) == collected + [];
      return false, true, plan, collected;
    case Plain(line, stripped) =>
      plan' := if inPlan then plan + (line + "\n") else plan + "";
      collected' := if inFiles && stripped != [] then collected + [stripped] else collected + [];
      inPlan', inFiles' := inPlan, inFiles;
  }

  /** The line loop of `_parse_plan_output`: the raw plan text and the
      collected file lines. */
  method ScanPlan(lines: seq<string>) returns (plan: string, collected: seq<string>)
    ensures plan == PlanText(PlanLines(lines), |lines|) && collected == FileLines(PlanLines(lines), |lines|)
  {
    var ks := PlanLines(lines);
    plan, collected := "", [];
    var inPlan, inFiles := false, false;
    for i := 0 to |ks|
      invariant PlanScanned(ks, i, inPlan, inFiles, plan, collected)
    {
      inPlan, inFiles, plan, collected := ScanPlanLine(ks, i, inPlan, inFiles, plan, collected);
    }
  }

  /** `_parse_plan_output(text)`: the stripped plan text and the candidate
      files. */
  method ParsePlanOutput(text: string) returns (plan: string, files: seq<string>)
    ensures plan == Strip(PlanText(PlanLines(Split(text, '\n')), |Split(text, '\n')|))
    ensures files == KeepCandidates(FileLines(PlanLines(Split(text, '\n')), |Split(text, '\n')|))
  {
    var raw, collected := ScanPlan(Split(text, '\n'));
    plan := Strip(raw);
    files := KeepCandidates(collected);
  }

  /** Lines before the first marker go to neither output. */
  lemma {:induction false} NothingBeforeMarkers(ks: seq<PlanLine>, n: nat)
    requires n <= |ks|
    requires forall k :: 0 <= k < n ==> ks[k].Plain?
    ensures ModeAfter(ks, n) == Outside
    ensures PlanText(ks, n) == [] && FileLines(ks, n) == []
  {
    if n > 0 {
      NothingBeforeMarkers(ks, n - 1);
    }
  }

  /** After a `PLAN:` line no file is collected until the next `FILES:` line. */
  lemma {:induction false} PlanStopsFiles(ks: seq<PlanLine>, k: nat, m: nat)
    requires k < m <= |ks| && ks[k].PlanMarker?
    requires forall j :: k < j < m ==> !ks[j].FilesMarker?
    ensures ModeAfter(ks, m) == InPlan
    ensures FileLines(ks, m) == FileLines(ks, k)
  {
    if m == k + 1 {
      assert FileLines(ks, m) == FileLines(ks, k) + [];
    } else {
      PlanStopsFiles(ks, k, m - 1);
      assert !IsFileLine(ks, m - 1);
      assert FileLines(ks, m) == FileLines(ks, m - 1) + [];
    }
  }

  /** Where each collected file comes from: an increasing run of line
      indices, each a plain, non-blank line inside the files section, whose
      stripped text is the file name. */
  lemma {:induction false} FileLinesOrigin(ks: seq<PlanLine>, n: nat) returns (origin: seq<nat>)
    requires n <= |ks|
    ensures |origin| == |FileLines(ks, n)|
    ensures forall j :: 0 <= j < |origin| ==>
              origin[j] < n && IsFileLine(ks, origin[j]) && FileLines(ks, n)[j] == ks[origin[j]].stripped
    ensures forall i, j :: 0 <= i < j < |origin| ==> origin[i] < origin[j]
  {
    if n == 0 {
      origin := [];
    } else {
      var before := FileLinesOrigin(ks, n - 1);
      if IsFileLine(ks, n - 1) {
        origin := before + [n - 1];
        forall j | 0 <= j < |origin|
          ensures origin[j] < n && IsFileLine(ks, origin[j]) && FileLines(ks, n)[j] == ks[origin[j]].stripped
        {
          if j < |before| { assert origin[j] == before[j]; }
        }
      } else {
        origin := before;
        assert FileLines(ks, n) == FileLines(ks, n - 1) + [];
      }
    }
  }

  /** Every candidate file is the stripped text of a non-blank line of the
      reply that is no marker and lies inside the files section; it does not
      start with `#`. */
  lemma CandidateOrigin(lines: seq<string>, f: string) returns (k: nat)
    requires f in KeepCandidates(FileLines(PlanLines(lines), |lines|))
    ensures IsCandidate(f)
    ensures k < |lines| && IsFileLine(PlanLines(lines), k) && f == Strip(lines[k])
    ensures !HasMarker(lines[k], "PLAN:") && !HasMarker(lines[k], "FILES:")
  {
    var ks := PlanLines(lines);
    var origin := FileLinesOrigin(ks, |lines|);
    var fs := FileLines(ks, |lines|);
    var j :| 0 <= j < |fs| && fs[j] == f;
    k := origin[j];
    assert ks[k] == ClassifyPlanLine(lines[k]);
  }

  /** The candidate filter keeps its input's order: each kept name sits at
      an increasing position of the input. */
  lemma {:induction false} KeepCandidatesOrder(fs: seq<string>) returns (idx: seq<nat>)
    ensures |idx| == |KeepCandidates(fs)|
    ensures forall j :: 0 <= j < |idx| ==> idx[j] < |fs| && fs[idx[j]] == KeepCandidates(fs)[j]
    ensures forall i, j :: 0 <= i < j < |idx| ==> idx[i] < idx[j]
    decreases |fs|
  {
    if fs == [] {
      idx := [];
    } else {
      var init := fs[..|fs| - 1];
      var before := KeepCandidatesOrder(init);
      if IsCandidate(fs[|fs| - 1]) {
        idx := before + [|fs| - 1];
        forall j | 0 <= j < |idx|
          ensures idx[j] < |fs| && fs[idx[j]] == KeepCandidates(fs)[j]
        {
          if j < |before| { assert idx[j] == before[j] && fs[idx[j]] == init[before[j]]; }
        }
      } else {
        idx := before;
        assert KeepCandidates(fs) == KeepCandidates(init) + [];
        forall j | 0 <= j < |idx|
          ensures idx[j] < |fs| && fs[idx[j]] == KeepCandidates(fs)[j]
        {
          assert fs[idx[j]] == init[before[j]];
        }
      }
    }
  }

  /** The candidate files appear in the order of the lines they come from. */
  lemma CandidatesInOrder(lines: seq<string>) returns (origin: seq<nat>)
    ensures |origin| == |KeepCandidates(FileLines(PlanLines(lines), |lines|))|
    ensures forall j :: 0 <= j < |origin| ==>
              origin[j] < |lines| && IsFileLine(PlanLines(lines), origin[j])
              && KeepCandidates(FileLines(PlanLines(lines), |lines|))[j] == PlanLines(lines)[origin[j]].stripped
    ensures forall i, j :: 0 <= i < j < |origin| ==> origin[i] < origin[j]
  {
    var ks := PlanLines(lines);
    var fs := FileLines(ks, |lines|);
    var at := FileLinesOrigin(ks, |lines|);
    var idx := KeepCandidatesOrder(fs);
    origin := seq(|idx|, j requires 0 <= j < |idx| => at[idx[j]]);
  }

  /** The marker test ignores case but the removal does not: a `plan:` line
      keeps its marker text in the plan. */
  lemma LowerCasePlanMarkerKept(line: string)
    requires HasMarker(line, "PLAN:") && !Contains(line, "PLAN:")
    ensures ClassifyPlanLine(line) == PlanMarker(Strip(line))
  {
    ReplaceAbsent(line, "PLAN:", "");
  }

  // ---------------------------------------------------------------------
  // The patch reply

  /** A line with its leading blanks and hyphens and the blanks after them
      removed. */
  function MarkerRest(line: string): string {
    LStrip(LStripChar(LStrip(line), '-'))
  }

  /** A marker line of the patch reply: after its leading blanks, a run of
      (at least three) hyphens, optional blanks, then `marker`. */
  predicate MarkerLine(line: string, marker: string) {
    StartsWith(LStrip(line), "---") && StartsWith(MarkerRest(line), marker)
  }

  /** The text of a marker line before the three hyphens where the
      pattern's lookahead matches: its leading blanks and the hyphens beyond
      the last three of its run. The body of the block the line ends runs
      up to there. */
  function MarkerLead(line: string): string {
    var t := LStrip(line);
    var u := LStripChar(t, '-');
    if |u| + 3 <= |t| then line[..|line| - |u| - 3] else []
  }

  /** A text starting with `---` starts with three hyphens. */
  lemma ThreeHyphens(t: string)
    requires StartsWith(t, "---")
    ensures |t| >= 3 && t[0] == '-' && t[1] == '-' && t[2] == '-'
  {
    assert t[0] == t[..3][0] && t[1] == t[..3][1] && t[2] == t[..3][2];
  }

  /** A text starting with `---` loses at least three hyphens to `lstrip("-")`. */
  lemma HyphenRun(t: string)
    requires StartsWith(t, "---")
    ensures |LStripChar(t, '-')| + 3 <= |t|
  {
    ThreeHyphens(t);
  }

  /** On a marker line, `---` followed by the marker (after blanks) first
      matches right after the lead: at every earlier position the line holds
      a blank, or `---` there is followed by a further hyphen. */
  lemma MarkerLeadShape(line: string)
    requires StartsWith(LStrip(line), "---")
    ensures |MarkerLead(line)| + 3 <= |line|
    ensures line[|MarkerLead(line)|..|MarkerLead(line)| + 3] == "---"
    ensures LStrip(line[|MarkerLead(line)| + 3..]) == MarkerRest(line)
    ensures forall k :: 0 <= k < |MarkerLead(line)| ==> IsSpace(line[k]) || line[k + 3] == '-'
  {
    var t := LStrip(line);
    var u := LStripChar(t, '-');
    LStripSuffix(line);
    LStripCharRun(t, '-');
    HyphenRun(t);
    var s0 := |line| - |t|;
    var n := |line| - |u| - 3;
    assert t == line[s0..];
    assert u == line[n + 3..];
    assert MarkerLead(line) == line[..n];
    forall k | s0 <= k < n + 3 ensures line[k] == '-' {
      assert line[k] == t[k - s0];
    }
    forall k | 0 <= k < n ensures IsSpace(line[k]) || line[k + 3] == '-' {
      if k >= s0 {
        assert line[k + 3] == '-';
      }
    }
    assert line[n..n + 3] == [line[n], line[n + 1], line[n + 2]];
  }

  /** The path named by a `FILE:` line: its text after the marker, stripped. */
  function HeaderPath(line: string): string {
    var t := MarkerRest(line);
    if |t| < |"FILE:"| then [] else Strip(t[|"FILE:"|..])
  }

  /** How the block scan reads one line: a `FILE:` line naming a path, a
      line that only ends a block (`END FILE`, or `FILE:` with a blank path),
      or text. */
  datatype LineKind = Header(path: string) | Boundary | Text

  function Classify(line: string): (k: LineKind)
    ensures k.Header? <==> MarkerLine(line, "FILE:") && HeaderPath(line) != []
    ensures k.Header? ==> k.path == HeaderPath(line)
    ensures k.Text? <==> !MarkerLine(line, "FILE:") && !MarkerLine(line, "END FILE")
  {
    if MarkerLine(line, "FILE:") then
      if HeaderPath(line) != [] then Header(HeaderPath(line)) else Boundary
    else if MarkerLine(line, "END FILE") then Boundary
    else Text
  }

  function Kinds(lines: seq<string>): (ks: seq<LineKind>)
    ensures |ks| == |lines| && forall k :: 0 <= k < |lines| ==> ks[k] == Classify(lines[k])
  {
    seq(|lines|, k requires 0 <= k < |lines| => Classify(lines[k]))
  }

  /** Line `i` opens a file block: a header with a line after it. */
  predicate Opens(kinds: seq<LineKind>, i: nat) {
    i + 1 < |kinds| && kinds[i].Header?
  }

  /** The first line at or after `j` that is not text, or the end of the reply. */
  function NextBoundary(kinds: seq<LineKind>, j: nat): (e: nat)
    requires j <= |kinds|
    ensures j <= e <= |kinds|
    ensures forall k :: j <= k < e ==> kinds[k].Text?
    ensures e < |kinds| ==> !kinds[e].Text?
    decreases |kinds| - j
  {
    if j == |kinds| || !kinds[j].Text? then j else NextBoundary(kinds, j + 1)
  }

  /** One file block: the path, and the lines it spans (the header at
      `start`, the body up to `end`). */
  datatype Block = Block(path: string, start: nat, end: nat)

  /** The text of a block up to the lookahead: its body lines and, when a
      marker line ends it, that line's lead. */
  function BodyLines(lines: seq<string>, b: Block): seq<string>
    requires b.start < b.end <= |lines|
  {
    lines[b.start + 1..b.end] + if b.end < |lines| then [MarkerLead(lines[b.end])] else []
  }

  /** A block's patch text: its text up to the lookahead, stripped. */
  function Body(lines: seq<string>, b: Block): string
    requires b.start < b.end <= |lines|
  {
    Strip(Join(BodyLines(lines, b), '\n'))
  }

  /** The file blocks found scanning from line `i`: a header opens a block
      whose body runs to the next non-text line, where the scan resumes. */
  function BlocksFrom(kinds: seq<LineKind>, i: nat): seq<Block>
    requires i <= |kinds|
    decreases |kinds| - i
  {
    if i == |kinds| then []
    else if Opens(kinds, i) then
      var e := NextBoundary(kinds, i + 1);
      [Block(kinds[i].path, i, e)] + BlocksFrom(kinds, e)
    else BlocksFrom(kinds, i + 1)
  }

  /** The file blocks of a patch reply, in the order they appear. */
  function Blocks(lines: seq<string>): seq<Block> {
    BlocksFrom(Kinds(lines), 0)
  }

  /** What a block says about the lines it spans. */
  predicate BlockShape(kinds: seq<LineKind>, b: Block) {
    b.start < b.end <= |kinds| && Opens(kinds, b.start) && b.path == kinds[b.start].path
    && (forall k :: b.start < k < b.end ==> kinds[k].Text?)
    && (b.end < |kinds| ==> !kinds[b.end].Text?)
  }

  /** Blocks found from line `i` start at a header at or after `i`, their
      bodies hold only text lines and end at a marker line or at the end of
      the reply, and they follow each other without overlap. */
  lemma {:induction false} BlocksFromWellFormed(kinds: seq<LineKind>, i: nat)
    requires i <= |kinds|
    ensures forall k :: 0 <= k < |BlocksFrom(kinds, i)| ==>
              i <= BlocksFrom(kinds, i)[k].start && BlockShape(kinds, BlocksFrom(kinds, i)[k])
    ensures forall k :: 0 <= k < |BlocksFrom(kinds, i)| - 1 ==>
              BlocksFrom(kinds, i)[k].end <= BlocksFrom(kinds, i)[k + 1].start
    decreases |kinds| - i
  {
    if i < |kinds| {
      if Opens(kinds, i) {
        BlocksFromWellFormed(kinds, NextBoundary(kinds, i + 1));
      } else {
        BlocksFromWellFormed(kinds, i + 1);
      }
    }
  }

  /** Every header with a line after it opens a block: block bodies hold
      only text, so no scan step passes over a header, and the header at
      line `h` is the start of one of the blocks found from any `i <= h`. */
  lemma {:induction false} HeaderOpensBlock(kinds: seq<LineKind>, i: nat, h: nat) returns (k: nat)
    requires i <= h && Opens(kinds, h)
    ensures k < |BlocksFrom(kinds, i)| && BlocksFrom(kinds, i)[k].start == h
    decreases h - i
  {
    if i == h {
      k := 0;
    } else if Opens(kinds, i) {
      var e := NextBoundary(kinds, i + 1);
      assert !kinds[h].Text?;
      var j := HeaderOpensBlock(kinds, e, h);
      k := j + 1;
      assert BlocksFrom(kinds, i) == [Block(kinds[i].path, i, e)] + BlocksFrom(kinds, e);
    } else {
      k := HeaderOpensBlock(kinds, i + 1, h);
      assert BlocksFrom(kinds, i) == BlocksFrom(kinds, i + 1);
    }
  }

  /** Every header with a line after it starts one of the reply's blocks. */
  lemma EveryHeaderOpensBlock(kinds: seq<LineKind>, h: nat)
    requires Opens(kinds, h)
    ensures exists k :: 0 <= k < |BlocksFrom(kinds, 0)| && BlocksFrom(kinds, 0)[k].start == h
  {
    var k := HeaderOpensBlock(kinds, 0, h);
  }

  /** One match of the patch pattern: the stripped path and body. */
  datatype Patch = Patch(path: string, body: string)

  /** The matches of a patch reply's lines, in the order they appear. */
  function Matches(lines: seq<string>): (ps: seq<Patch>)
    ensures |ps| == |Blocks(lines)|
    ensures forall k :: 0 <= k < |ps| ==> ps[k].path == Blocks(lines)[k].path
  {
    var bs := Blocks(lines);
    BlocksFromWellFormed(Kinds(lines), 0);
    seq(|bs|, k requires 0 <= k < |bs| => Patch(bs[k].path, Body(lines, bs[k])))
  }

  /** A match's body is the stripped text of its block's body lines,
      followed, when a marker line ends the block, by that line's lead. */
  lemma MatchBody(lines: seq<string>, k: nat) returns (b: Block)
    requires k < |Matches(lines)|
    ensures b == Blocks(lines)[k] && b.start < b.end <= |lines|
    ensures b.end < |lines| ==> StartsWith(LStrip(lines[b.end]), "---")
    ensures Matches(lines)[k].body ==
              Strip(Join(lines[b.start + 1..b.end] + (if b.end < |lines| then [MarkerLead(lines[b.end])] else []), '\n'))
  {
    BlocksFromWellFormed(Kinds(lines), 0);
    b := Blocks(lines)[k];
    if b.end < |lines| {
      assert !Classify(lines[b.end]).Text?;
    }
  }

  /** A marker line that starts with exactly three hyphens has no lead: its
      whole text is marker. */
  lemma ExactMarkerLead(line: string)
    requires StartsWith(line, "---") && (|line| == 3 || line[3] != '-')
    ensures MarkerLead(line) == []
  {
    ThreeHyphens(line);
    var t1, t2, t3 := line[1..], line[2..], line[3..];
    assert t1[1..] == t2 && t2[1..] == t3;
    assert LStripChar(t3, '-') == t3;
    assert LStripChar(t2, '-') == t3;
    assert LStripChar(t1, '-') == t3;
    assert LStripChar(line, '-') == t3;
    assert LStrip(line) == line;
  }

  /** Each hyphen beyond the first three goes to the lead, and so to the
      body of the block the line ends: with `---- END FILE` closing it, a
      block's text ends in `-`. */
  lemma ExtraHyphenLead(line: string)
    requires StartsWith(line, "---")
    ensures MarkerLead("-" + line) == "-" + MarkerLead(line)
    ensures MarkerRest("-" + line) == MarkerRest(line)
  {
    ThreeHyphens(line);
    var longer := "-" + line;
    assert LStrip(longer) == longer && LStrip(line) == line;
    assert longer[1..] == line;
    assert LStripChar(longer, '-') == LStripChar(line, '-');
    HyphenRun(line);
    var n := |line| - |LStripChar(line, '-')| - 3;
    assert longer[..n + 1] == "-" + line[..n];
  }

  /** A longer hyphen run does not change how the line is read. */
  lemma ExtraHyphenKind(line: string)
    requires StartsWith(line, "---")
    ensures Classify("-" + line) == Classify(line)
  {
    ThreeHyphens(line);
    var longer := "-" + line;
    ExtraHyphenLead(line);
    assert LStrip(longer) == longer && LStrip(line) == line;
    assert longer[..3] == [longer[0], longer[1], longer[2]];
    assert StartsWith(LStrip(longer), "---");
  }

  /** The patches kept from the matches: one whose path is allowed sets that
      path's entry, a later match replacing an earlier one. */
  function Patched(ps: seq<Patch>, allowed: set<string>): map<string, string> {
    if ps == [] then map[]
    else
      var m := Patched(ps[..|ps| - 1], allowed);
      var p := ps[|ps| - 1];
      if p.path in allowed then m[p.path := p.body] else m
  }

  /** The order of the patches' keys: each allowed path where it first appears. */
  function KeyOrder(ps: seq<Patch>, allowed: set<string>): seq<string> {
    if ps == [] then []
    else
      var o := KeyOrder(ps[..|ps| - 1], allowed);
      var p := ps[|ps| - 1];
      if p.path in allowed && p.path !in o then o + [p.path] else o
  }

  /** A path has a patch exactly when it is allowed and some match names it. */
  lemma {:induction false} PatchedDomain(ps: seq<Patch>, allowed: set<string>, path: string)
    ensures path in Patched(ps, allowed) <==> path in allowed && exists k :: 0 <= k < |ps| && ps[k].path == path
    decreases |ps|
  {
    if ps != [] {
      var init := ps[..|ps| - 1];
      var last := ps[|ps| - 1];
      PatchedDomain(init, allowed, path);
      assert forall k :: 0 <= k < |init| ==> init[k] == ps[k];
      if path in allowed && exists k :: 0 <= k < |ps| && ps[k].path == path {
        var k :| 0 <= k < |ps| && ps[k].path == path;
        if k < |init| { assert init[k].path == path; }
      }
    }
  }

  /** A patched path's patch is the body of the last match naming it. */
  lemma {:induction false} PatchedLast(ps: seq<Patch>, allowed: set<string>, path: string) returns (k: nat)
    requires path in Patched(ps, allowed)
    ensures k < |ps| && ps[k] == Patch(path, Patched(ps, allowed)[path])
    ensures forall j :: k < j < |ps| ==> ps[j].path != path
    decreases |ps|
  {
    PatchedDomain(ps, allowed, path);
    var init := ps[..|ps| - 1];
    var last := ps[|ps| - 1];
    if last.path == path {
      k := |ps| - 1;
    } else {
      assert path in Patched(init, allowed) && Patched(ps, allowed)[path] == Patched(init, allowed)[path];
      k := PatchedLast(init, allowed, path);
      assert ps[k] == init[k];
      assert forall j :: k < j < |init| ==> ps[j] == init[j];
    }
  }

  /** A path has a patch exactly when it is allowed and some match names it,
      and the patch is the body of the last match naming it. */
  lemma PatchedEntries(ps: seq<Patch>, allowed: set<string>, path: string)
    ensures path in Patched(ps, allowed) <==> path in allowed && exists k :: 0 <= k < |ps| && ps[k].path == path
    ensures path in Patched(ps, allowed) ==>
              exists k :: 0 <= k < |ps| && ps[k] == Patch(path, Patched(ps, allowed)[path])
                          && forall j :: k < j < |ps| ==> ps[j].path != path
  {
    PatchedDomain(ps, allowed, path);
    if path in Patched(ps, allowed) {
      var k := PatchedLast(ps, allowed, path);
    }
  }

  /** The key order lists every patched path once. */
  lemma {:induction false} KeyOrderLists(ps: seq<Patch>, allowed: set<string>)
    ensures forall p :: p in KeyOrder(ps, allowed) <==> p in Patched(ps, allowed)
    ensures Distinct(KeyOrder(ps, allowed))
    decreases |ps|
  {
    if ps != [] {
      KeyOrderLists(ps[..|ps| - 1], allowed);
    }
  }

  /** No element occurs twice. */
  predicate Distinct(s: seq<string>) {
    forall i, j :: 0 <= i < j < |s| ==> s[i] != s[j]
  }

  /** `_parse_patches(text, allowed)`: the dictionary from allowed paths to
      patch bodies, with its keys in insertion order. */
  method ParsePatches(text: string, allowed: set<string>) returns (out: map<string, string>, order: seq<string>)
    ensures out == Patched(Matches(Split(text, '\n')), allowed)
    ensures order == KeyOrder(Matches(Split(text, '\n')), allowed)
  {
    var ps := Matches(Split(text, '\n'));
    out, order := map[], [];
    for k := 0 to |ps|
      invariant out == Patched(ps[..k], allowed) && order == KeyOrder(ps[..k], allowed)
    {
      var p := ps[k];
      assert ps[..k + 1][..k] == ps[..k];
      if p.path in allowed {
        if p.path !in order {
          order := order + [p.path];
        }
        out := out[p.path := p.body];
      }
    }
    assert ps[..|ps|] == ps;
  }

  /** Only allowed paths get a patch, and the key order lists each of them
      once. */
  lemma PatchesAllowed(ps: seq<Patch>, allowed: set<string>)
    ensures Patched(ps, allowed).Keys <= allowed
    ensures forall p :: p in KeyOrder(ps, allowed) <==> p in Patched(ps, allowed)
    ensures Distinct(KeyOrder(ps, allowed))
  {
    forall p | p in Patched(ps, allowed) ensures p in allowed {
      PatchedEntries(ps, allowed, p);
    }
    KeyOrderLists(ps, allowed);
  }

  // ---------------------------------------------------------------------
  // Choosing the files shown to the model

  /** At most this many candidate files are shown to the model. */
  const MaxFilesToTouch: nat := 20

  /** At most this many inventory lines go into the plan prompt. */
  const MaxInventoryLines: nat := 200

  /** The inventory of the run: the listed files, or `.gitkeep` alone when
      none is listed. */
  function Inventory(listed: seq<string>): (inv: seq<string>)
    ensures inv != []
    ensures listed != [] ==> inv == listed
    ensures listed == [] ==> inv == [".gitkeep"]
  {
    if listed == [] then [".gitkeep"] else listed
  }

  /** The inventory as the plan prompt shows it: its first 200 entries, one
      per line. */
  function InventoryText(inventory: seq<string>): string {
    Join(if |inventory| <= MaxInventoryLines then inventory else inventory[..MaxInventoryLines], '\n')
  }

  /** The candidates that name an inventory file, in their order. */
  function KeepAllowed(candidates: seq<string>, allowed: set<string>): (r: seq<string>)
    ensures |r| <= |candidates|
    ensures forall f :: f in r <==> f in candidates && f in allowed
  {
    if candidates == [] then []
    else
      var last := candidates[|candidates| - 1];
      KeepAllowed(candidates[..|candidates| - 1], allowed) + if last in allowed then [last] else []
  }

  /** Filtering distributes over concatenation: the kept candidates keep
      their order and their repeats. */
  lemma {:induction false} KeepAllowedAppend(xs: seq<string>, ys: seq<string>, allowed: set<string>)
    ensures KeepAllowed(xs + ys, allowed) == KeepAllowed(xs, allowed) + KeepAllowed(ys, allowed)
    decreases |ys|
  {
    if ys == [] {
      assert xs + ys == xs;
    } else {
      var init := ys[..|ys| - 1];
      assert (xs + ys)[..|xs + ys| - 1] == xs + init;
      assert (xs + ys)[|xs + ys| - 1] == ys[|ys| - 1];
      KeepAllowedAppend(xs, init, allowed);
    }
  }

  /** The files to touch: the first 20 candidates that are in the inventory,
      or the first inventory file when there is none. */
  function SelectFiles(candidates: seq<string>, inventory: seq<string>): (r: seq<string>)
    ensures |r| <= MaxFilesToTouch
    ensures inventory != [] ==> r != []
    ensures forall f :: f in r ==> f in inventory
    ensures (exists f :: f in candidates && f in inventory) ==> forall f :: f in r ==> f in candidates
    ensures inventory != [] && (forall f :: f in candidates ==> f !in inventory) ==> r == [inventory[0]]
    ensures |KeepAllowed(candidates, set f | f in inventory)| <= MaxFilesToTouch ==>
              forall f :: f in candidates && f in inventory ==> f in r
    ensures KeepAllowed(candidates, set f | f in inventory) != [] ==>
              r <= KeepAllowed(candidates, set f | f in inventory)
              && |r| == if |KeepAllowed(candidates, set f | f in inventory)| < MaxFilesToTouch
                        then |KeepAllowed(candidates, set f | f in inventory)| else MaxFilesToTouch
  {
    var kept := KeepAllowed(candidates, set f | f in inventory);
    var top := if |kept| <= MaxFilesToTouch then kept else kept[..MaxFilesToTouch];
    assert forall f :: f in top ==> f in kept;
    assert top != [] ==> top[0] in candidates && top[0] in inventory;
    if top != [] then top
    else if inventory != [] then [inventory[0]]
    else []
  }

  /** How one file is shown in the patch prompt. */
  function Section(path: string, content: string): string {
    "### " + path + "\n```\n" + content + "\n```\n"
  }

  /** The file contents shown with the patch prompt: one section for each
      chosen path that exists, in order; reading a path that exists but is
      no file (a directory) raises, and that error ends the run. */
  function ContentsOf(repo: Repo, fs: seq<string>): Result<string>
    reads repo
  {
    if fs == [] then Ok("")
    else
      var f := fs[|fs| - 1];
      match ContentsOf(repo, fs[..|fs| - 1])
      case Err(e) => Err(e)
      case Ok(text) =>
        if !repo.FileExists(f) then Ok(text)
        else match repo.ReadFile(f)
          case Err(e) => Err(e)
          case Ok(content) => Ok(text + Section(f, content))
  }

  /** The contents fail exactly when a chosen path exists without being a
      file. */
  lemma {:induction false} ContentsFail(repo: Repo, fs: seq<string>)
    ensures ContentsOf(repo, fs).Err? <==> exists f :: f in fs && repo.FileExists(f) && f !in repo.files
    ensures ContentsOf(repo, fs).Err? ==> ContentsOf(repo, fs).error.OSError?
    decreases |fs|
  {
    if fs != [] {
      var init := fs[..|fs| - 1];
      ContentsFail(repo, init);
      assert fs == init + [fs[|fs| - 1]];
      if exists f :: f in fs && repo.FileExists(f) && f !in repo.files {
        var f :| f in fs && repo.FileExists(f) && f !in repo.files;
        if f != fs[|fs| - 1] { assert f in init; }
      }
    }
  }

  /** The loop of `_run_impl` that gathers the file contents. */
  method FileContents(repo: Repo, fs: seq<string>) returns (r: Result<string>)
    ensures r == ContentsOf(repo, fs)
  {
    var text := "";
    for i := 0 to |fs|
      invariant ContentsOf(repo, fs[..i]) == Ok(text)
    {
      var f := fs[i];
      assert fs[..i + 1][..i] == fs[..i];
      if repo.FileExists(f) {
        var content := repo.ReadFile(f);
        if content.Err? {
          ContentsStop(repo, fs, i + 1);
          return Err(content.error);
        }
        text := text + Section(f, content.value);
      }
    }
    assert fs[..|fs|] == fs;
    r := Ok(text);
  }

  /** Once the contents of a prefix fail, so do those of the whole list. */
  lemma {:induction false} ContentsStop(repo: Repo, fs: seq<string>, n: nat)
    requires n <= |fs| && ContentsOf(repo, fs[..n]).Err?
    ensures ContentsOf(repo, fs) == ContentsOf(repo, fs[..n])
    decreases |fs| - n
  {
    if n < |fs| {
      assert fs[..n + 1][..n] == fs[..n];
      ContentsStop(repo, fs, n + 1);
    } else {
      assert fs[..n] == fs;
    }
  }

  // ---------------------------------------------------------------------
  // Branch, commit, push, pull request

  /** The branch pull requests are opened against, and the recovery checks out. */
  const MainBranch: string := "main"

  /** The first `create_branch` succeeds: the active branch has a commit and
      no branch of that name has one. */
  predicate CreatesDirectly(branches: map<string, seq<CommitObject>>, head: string, name: string)
    requires head in branches
  {
    branches[head] != [] && !HasBranch(branches, name)
  }

  /** After a failed `create_branch`, the recovery (check out `main`, delete
      the branch, create it again) succeeds: `main` exists and the name is
      free, or is a branch that can be deleted (neither `main` nor checked out
      in another worktree). */
  predicate Recovers(branches: map<string, seq<CommitObject>>, locked: set<string>, name: string) {
    HasBranch(branches, MainBranch)
    && (!HasBranch(branches, name) || (name != MainBranch && name !in locked))
  }

  /** The branch step of a run succeeds: the first creation does, or the
      recovery after it. */
  predicate BranchOpens(branches: map<string, seq<CommitObject>>, head: string, locked: set<string>, name: string)
    requires head in branches
  {
    CreatesDirectly(branches, head, name) || Recovers(branches, locked, name)
  }

  /** The commits the new branch starts from. */
  function BranchBase(branches: map<string, seq<CommitObject>>, head: string, name: string): seq<CommitObject>
    requires head in branches
  {
    if CreatesDirectly(branches, head, name) then branches[head]
    else if MainBranch in branches then branches[MainBranch]
    else []
  }

  /** A branch name of the agent is never `main`, so the recovery fails only
      when `main` is missing or the name is a branch checked out elsewhere. */
  lemma AgentBranchRecovers(branches: map<string, seq<CommitObject>>, locked: set<string>, issueId: int, title: string)
    ensures BranchName(issueId, title) != MainBranch
    ensures Recovers(branches, locked, BranchName(issueId, title)) <==>
              HasBranch(branches, MainBranch)
              && (!HasBranch(branches, BranchName(issueId, title)) || BranchName(issueId, title) !in locked)
  {
    var name := BranchName(issueId, title);
    assert StartsWith(name, BranchPrefix);
    assert name[..|BranchPrefix|] == BranchPrefix;
  }

  /** The branch step of `_run_impl`: create the branch; when that fails,
      check out `main`, delete the branch (ignoring a failure), and create it
      again. A failure of the checkout or of the second creation is the
      run's error. */
  method CreateBranchRecovering(repo: Repo, name: string) returns (r: Result<()>)
    requires repo.Valid()
    modifies repo`branches, repo`head, repo`index
    ensures repo.Valid()
    ensures r.Ok? <==> old(BranchOpens(repo.branches, repo.head, repo.lockedElsewhere, name))
    ensures r.Err? ==> r.error.GitCommandError?
    ensures r.Ok? ==> repo.head == name
                      && repo.branches == old(repo.branches)[name := BranchBase(old(repo.branches), old(repo.head), name)]
    ensures r.Err? ==> repo.branches == old(repo.branches) || repo.branches == old(repo.branches) - {name}
    ensures repo.branches - {name} == old(repo.branches) - {name}
    ensures CreatesDirectly(old(repo.branches), old(repo.head), name) || !HasBranch(old(repo.branches), MainBranch) ==>
              repo.index == old(repo.index)
    ensures !CreatesDirectly(old(repo.branches), old(repo.head), name) && HasBranch(old(repo.branches), MainBranch) ==>
              repo.index == TipTree(old(repo.branches)[MainBranch])
  {
    var first := repo.CreateBranch(name);
    if first.Ok? {
      assert repo.branches - {name} == old(repo.branches) - {name};
      return Ok(());
    }
    var back := repo.Checkout(MainBranch);
    if back.Err? {
      return Err(back.error);
    }
    ghost var before := repo.branches;
    var dropped := repo.DeleteHead(name);
    if dropped.Ok? {
      assert (before - {name})[name := before[MainBranch]] == before[name := before[MainBranch]];
      assert before - {name} - {name} == before - {name};
    }
    r := repo.CreateBranch(name);
    if r.Ok? {
      assert repo.branches - {name} == (repo.branches - {name}) - {name};
    }
  }

  // ---------------------------------------------------------------------
  // The run

  /** The two prompts of a run, by the values filled into their templates. */
  datatype Prompt =
    | PlanPrompt(title: string, body: string, inventory: string)
    | PatchPrompt(title: string, body: string, filesToModify: string, fileContents: string)

  /** The request that opens a pull request. */
  datatype PullRequest = PullRequest(title: string, body: string, head: string, base: string)

  /** `CodeAgentResult`. */
  datatype CodeAgentResult = CodeAgentResult(success: bool, branch: string, prNumber: Option<int>, message: string, iteration: int)

  /** The patches chosen for a run: the path-to-text dictionary, its keys in
      insertion order, and the files shown to the model. */
  datatype Patches = Patches(files: map<string, string>, order: seq<string>, shown: seq<string>)

  const NoPatchesMessage: string := "No valid patches generated; agent only uses file inventory paths."

  /** The result of a run whose patch reply held no usable block. */
  const NoPatchesResult: CodeAgentResult := CodeAgentResult(false, "", None, NoPatchesMessage, 0)

  function CommitMessage(issueId: int, title: string): string {
    "Implement issue #" + IntToString(issueId) + "\n\n" + title
  }

  function PullFor(issueId: int, title: string, body: string, branch: string): PullRequest {
    PullRequest("[Agent] " + title, "Closes #" + IntToString(issueId) + "\n\n" + body, branch, MainBranch)
  }

  /** The files `list_files` reports. */
  function Listing(root: string, files: map<string, string>): set<string> {
    set p | p in files.Keys && Listed(root, p)
  }

  /** The paths a run may write: the listed files, or `.gitkeep` alone when
      none is listed. */
  function InventorySet(root: string, files: map<string, string>): set<string> {
    if Listing(root, files) == {} then {".gitkeep"} else Listing(root, files)
  }

  /** The last commit of `history` has the message and holds every patch. */
  predicate TipHolds(history: seq<CommitObject>, message: string, patches: map<string, string>) {
    history != [] && history[|history| - 1].message == message
    && forall p :: p in patches ==> p in history[|history| - 1].tree && history[|history| - 1].tree[p] == patches[p]
  }

  /** The file candidates `_parse_plan_output` takes from a plan reply. */
  function PlanCandidates(reply: string): seq<string> {
    KeepCandidates(FileLines(PlanLines(Split(reply, '\n')), |Split(reply, '\n')|))
  }

  /** The patch prompt for the files shown and their gathered contents;
      empty contents are shown as `(new file)`. */
  function PatchPromptFor(title: string, body: string, shown: seq<string>, contents: string): Prompt {
    PatchPrompt(title, body, Join(shown, '\n'), if contents == [] then "(new file)" else contents)
  }

  /** The inventory of a run: the sorted listing, or `.gitkeep` when empty. */
  ghost function RunInventory(repo: Repo): seq<string>
    reads repo
  {
    Inventory(SortedSeq(Listing(repo.root, repo.files)))
  }

  /** What the first half of `_run_impl` yields against the repository's
      current files and the model `llm`: the files shown are those the plan
      reply picks from the inventory; reading one of them may fail; otherwise
      the patches are the inventory paths the patch reply fills in. */
  ghost function ChosenPatches(repo: Repo, title: string, body: string, llm: Prompt -> string): Result<Patches>
    reads repo
  {
    var inventory := RunInventory(repo);
    var shown := SelectFiles(PlanCandidates(llm(PlanPrompt(title, body, InventoryText(inventory)))), inventory);
    match ContentsOf(repo, shown)
    case Err(e) => Err(e)
    case Ok(text) =>
      var ps := Matches(Split(llm(PatchPromptFor(title, body, shown, text)), '\n'));
      var allowed := InventorySet(repo.root, repo.files);
      Ok(Patches(Patched(ps, allowed), KeyOrder(ps, allowed), shown))
  }

  /** The first half of `_run_impl`: inventory, plan, file choice, file
      contents, patch reply, patches. The repository is only read. */
  method ChoosePatches(repo: Repo, title: string, body: string, llm: Prompt -> string) returns (r: Result<Patches>)
    ensures r == ChosenPatches(repo, title, body, llm)
    ensures r.Err? ==> r.error.OSError?
    ensures r.Ok? ==> r.value.files.Keys <= InventorySet(repo.root, repo.files)
    ensures r.Ok? ==> (forall p :: p in r.value.order <==> p in r.value.files) && Distinct(r.value.order)
    ensures r.Ok? ==> |r.value.shown| <= MaxFilesToTouch && r.value.shown != []
                      && forall f :: f in r.value.shown ==> f in InventorySet(repo.root, repo.files)
  {
    var listed := repo.ListFiles();
    SortedUnique(listed, SortedSeq(Listing(repo.root, repo.files)));
    var inventory := Inventory(listed);
    var allowed := set f | f in inventory;
    assert allowed == InventorySet(repo.root, repo.files) by {
      if listed == [] {
        assert Listing(repo.root, repo.files) == {};
      } else {
        assert listed[0] in Listing(repo.root, repo.files);
      }
    }
    var planReply := llm(PlanPrompt(title, body, InventoryText(inventory)));
    var _, candidates := ParsePlanOutput(planReply);
    var shown := SelectFiles(candidates, inventory);
    var contents := FileContents(repo, shown);
    if contents.Err? {
      ContentsFail(repo, shown);
      return Err(contents.error);
    }
    var patchReply := llm(PatchPromptFor(title, body, shown, contents.value));
    var files, order := ParsePatches(patchReply, allowed);
    PatchesAllowed(Matches(Split(patchReply, '\n')), allowed);
    r := Ok(Patches(files, order, shown));
  }

  /** The files after writing the patches named by `order`, in turn. */
  function WriteAll(files: map<string, string>, patches: map<string, string>, order: seq<string>): map<string, string>
    requires forall p :: p in order ==> p in patches
  {
    if order == [] then files
    else
      var p := order[|order| - 1];
      WriteAll(files, patches, order[..|order| - 1])[p := patches[p]]
  }

  /** Writing leaves a file untouched unless it is named, and gives a named
      file its patch. */
  lemma {:induction false} WriteAllAt(files: map<string, string>, patches: map<string, string>, order: seq<string>, q: string)
    requires forall p :: p in order ==> p in patches
    ensures q in WriteAll(files, patches, order) <==> q in files || q in order
    ensures q in order ==> WriteAll(files, patches, order)[q] == patches[q]
    ensures q !in order && q in files ==> WriteAll(files, patches, order)[q] == files[q]
    decreases |order|
  {
    if order != [] {
      var init := order[..|order| - 1];
      assert order == init + [order[|order| - 1]];
      WriteAllAt(files, patches, init, q);
    }
  }

  /** Writing every patch once merges the patches into the files. */
  lemma WriteAllMerges(files: map<string, string>, patches: map<string, string>, order: seq<string>)
    requires forall p :: p in order <==> p in patches
    ensures WriteAll(files, patches, order) == files + patches
  {
    forall q ensures (q in WriteAll(files, patches, order) <==> q in files + patches)
      && (q in files + patches ==> WriteAll(files, patches, order)[q] == (files + patches)[q])
    {
      WriteAllAt(files, patches, order, q);
    }
  }

  /** The writing loop of `_run_impl`: every patch goes to its file, in key
      order. */
  method WritePatches(repo: Repo, patches: map<string, string>, order: seq<string>)
    requires forall p :: p in order <==> p in patches
    modifies repo`files
    ensures repo.files == old(repo.files) + patches
  {
    for k := 0 to |order|
      invariant repo.files == WriteAll(old(repo.files), patches, order[..k])
    {
      var p := order[k];
      assert order[..k + 1][..k] == order[..k];
      repo.WriteFile(p, patches[p]);
    }
    assert order[..|order|] == order;
    WriteAllMerges(old(repo.files), patches, order);
  }

  /** Write the patches, stage their paths and commit the whole tree on the
      checked-out branch. Every staged path has just been written, so the
      staging, and with it the commit, succeeds. */
  method CommitPatches(repo: Repo, message: string, patches: map<string, string>, order: seq<string>)
    requires repo.Valid() && forall p :: p in order <==> p in patches
    modifies repo`files, repo`index, repo`staged, repo`branches, repo`nextSha
    ensures repo.Valid()
    ensures repo.files == old(repo.files) + patches
    ensures repo.index == old(repo.index) + repo.files
            && repo.staged == old(repo.staged) + Pathspecs(Some(order)) + ["."]
            && repo.nextSha == old(repo.nextSha) + 1
            && repo.branches == old(repo.branches)[repo.head := old(repo.branches[repo.head])
                                                     + [CommitObject(old(repo.nextSha), message, repo.index)]]
    ensures TipHolds(repo.branches[repo.head], message, patches)
            && TipTree(repo.branches[repo.head]) == old(repo.index) + repo.files
  {
    WritePatches(repo, patches, order);
    var added := repo.Add(Some(order));
    assert forall k :: 0 <= k < |Pathspecs(Some(order))| ==> Resolves(repo.files, Pathspecs(Some(order))[k]);
    assert added.Ok?;
    ghost var staged := repo.index;
    var committed := repo.Commit(message, None);
    assert ["."][..1] == ["."];
    assert committed.Ok?;
    assert Pathspecs(Some(order))[..|Pathspecs(Some(order))|] == Pathspecs(Some(order));
    assert Stage(staged, repo.files, ["."]) == staged + repo.files by {
      assert ["."][..0] == [];
    }
    StageThenAll(old(repo.index), repo.files, Pathspecs(Some(order)));
  }

  /** Changing one branch leaves the others as they were. */
  lemma UpdateOutside(branches: map<string, seq<CommitObject>>, name: string, history: seq<CommitObject>)
    ensures branches[name := history] - {name} == branches - {name}
  {
  }

  /** Push the branch and open the pull request. A failed push is a result,
      not an error. */
  method PublishBranch(repo: Repo, issueId: int, title: string, body: string, name: string,
                       openPull: PullRequest -> Result<int>) returns (r: Result<CodeAgentResult>)
    requires repo.Valid() && name != []
    modifies repo`pushes, repo`sleeps
    ensures repo.Valid()
    ensures r.Ok? ==> r.value.iteration == 0 && r.value.branch == name && |repo.pushes| > |old(repo.pushes)|
    ensures forall k :: |old(repo.pushes)| <= k < |repo.pushes| ==> repo.pushes[k].ref == name
    ensures r.Ok? ==> (r.value.success <==> PushRunOf(Window(repo.script, |old(repo.pushes)|)).outcome.Ok?)
    ensures r.Ok? && r.value.success ==>
              r.value.prNumber.Some? && openPull(PullFor(issueId, title, body, name)) == Ok(r.value.prNumber.value)
              && r.value.message == "PR #" + IntToString(r.value.prNumber.value) + " created"
    ensures r.Ok? && !r.value.success ==> r.value.prNumber.None? && StartsWith(r.value.message, "Push failed: ")
    ensures r.Err? ==> PushRunOf(Window(repo.script, |old(repo.pushes)|)).outcome.Ok?
                       && openPull(PullFor(issueId, title, body, name)) == Err(r.error)
  {
    ghost var run := PushRunOf(Window(repo.script, |repo.pushes|));
    var pushed := repo.Push(Some(name));
    PushLogRef(name, run);
    PushFacts(Window(repo.script, |old(repo.pushes)|));
    if pushed.Err? {
      return Ok(CodeAgentResult(false, name, None, "Push failed: " + pushed.error.Message(), 0));
    }
    var pr := openPull(PullFor(issueId, title, body, name));
    if pr.Err? {
      return Err(pr.error);
    }
    r := Ok(CodeAgentResult(true, name, Some(pr.value), "PR #" + IntToString(pr.value) + " created", 0));
  }

  /** The branch and commit steps of `_run_impl`: create the issue's branch
      (recovering once), write the patches and commit them on it. Only the
      branch step can fail, and then nothing is written. Only that branch
      changes. */
  method CommitOnBranch(repo: Repo, issueId: int, title: string, patches: map<string, string>, order: seq<string>)
    returns (r: Result<()>)
    requires repo.Valid() && (forall p :: p in order <==> p in patches)
    modifies repo`files, repo`index, repo`staged, repo`branches, repo`head, repo`nextSha
    ensures repo.Valid()
    ensures r.Ok? <==> old(BranchOpens(repo.branches, repo.head, repo.lockedElsewhere, BranchName(issueId, title)))
    ensures r.Err? ==> r.error.GitCommandError? && repo.files == old(repo.files)
    ensures r.Ok? ==> repo.head == BranchName(issueId, title) && repo.files == old(repo.files) + patches
                      && TipHolds(repo.branches[repo.head], CommitMessage(issueId, title), patches)
    ensures repo.branches - {BranchName(issueId, title)} == old(repo.branches) - {BranchName(issueId, title)}
  {
    var name := BranchName(issueId, title);
    var created := CreateBranchRecovering(repo, name);
    if created.Err? {
      return Err(created.error);
    }
    ghost var onBranch := repo.branches;
    assert repo.head == name && onBranch - {name} == old(repo.branches) - {name};
    CommitPatches(repo, CommitMessage(issueId, title), patches, order);
    assert repo.branches == onBranch[name := repo.branches[name]];
    UpdateOutside(onBranch, name, repo.branches[name]);
    r := Ok(());
  }

  /** The second half of `_run_impl` for a non-empty set of patches: branch,
      write, stage, commit, push, and the pull request. */
  method Deliver(repo: Repo, issueId: int, title: string, body: string, patches: map<string, string>, order: seq<string>,
                 openPull: PullRequest -> Result<int>) returns (r: Result<CodeAgentResult>)
    requires repo.Valid() && (forall p :: p in order <==> p in patches)
    modifies repo`files, repo`index, repo`staged, repo`branches, repo`head, repo`nextSha, repo`pushes, repo`sleeps
    ensures repo.Valid()
    ensures repo.files == old(repo.files) || repo.files == old(repo.files) + patches
    ensures r.Err? <==> !old(BranchOpens(repo.branches, repo.head, repo.lockedElsewhere, BranchName(issueId, title)))
                        || (PushRunOf(Window(repo.script, |old(repo.pushes)|)).outcome.Ok?
                            && openPull(PullFor(issueId, title, body, BranchName(issueId, title))).Err?)
    ensures r.Err? && !old(BranchOpens(repo.branches, repo.head, repo.lockedElsewhere, BranchName(issueId, title))) ==>
              r.error.GitCommandError? && repo.files == old(repo.files) && repo.pushes == old(repo.pushes)
    ensures r.Err? && old(BranchOpens(repo.branches, repo.head, repo.lockedElsewhere, BranchName(issueId, title))) ==>
              r == Err(openPull(PullFor(issueId, title, body, BranchName(issueId, title))).error)
    ensures old(BranchOpens(repo.branches, repo.head, repo.lockedElsewhere, BranchName(issueId, title))) ==>
              repo.head == BranchName(issueId, title) && repo.files == old(repo.files) + patches
              && TipHolds(repo.branches[repo.head], CommitMessage(issueId, title), patches)
    ensures r.Ok? ==> r.value.iteration == 0 && r.value.branch == BranchName(issueId, title) && repo.head == r.value.branch
                      && repo.files == old(repo.files) + patches
                      && TipHolds(repo.branches[repo.head], CommitMessage(issueId, title), patches)
    ensures r.Ok? ==> forall k :: |old(repo.pushes)| <= k < |repo.pushes| ==> repo.pushes[k].ref == r.value.branch
    ensures r.Ok? && r.value.success ==>
              r.value.prNumber.Some? && openPull(PullFor(issueId, title, body, r.value.branch)) == Ok(r.value.prNumber.value)
              && r.value.message == "PR #" + IntToString(r.value.prNumber.value) + " created"
    ensures r.Ok? && !r.value.success ==> r.value.prNumber.None? && StartsWith(r.value.message, "Push failed: ")
    ensures r.Ok? ==> (r.value.success <==> PushRunOf(Window(repo.script, |old(repo.pushes)|)).outcome.Ok?)
    ensures repo.branches - {BranchName(issueId, title)} == old(repo.branches) - {BranchName(issueId, title)}
  {
    var committed := CommitOnBranch(repo, issueId, title, patches, order);
    if committed.Err? {
      return Err(committed.error);
    }
    var name := BranchName(issueId, title);
    assert StartsWith(name, BranchPrefix);
    r := PublishBranch(repo, issueId, title, body, name, openPull);
  }

  /** `_run_impl(issue_id)`: the issue's title and body, the model and the
      pull-request call are given. A run writes only inventory paths, never
      deletes a file, and leaves the repository as it was when no patch is
      usable; a delivered run commits every patch on the issue's branch. */
  method RunImpl(repo: Repo, issueId: int, title: string, body: string, llm: Prompt -> string,
                 openPull: PullRequest -> Result<int>) returns (r: Result<CodeAgentResult>, ghost patches: map<string, string>)
    requires repo.Valid()
    modifies repo`files, repo`index, repo`staged, repo`branches, repo`head, repo`nextSha, repo`pushes, repo`sleeps
    ensures repo.Valid()
    ensures patches.Keys <= InventorySet(repo.root, old(repo.files))
    ensures repo.files == old(repo.files) || repo.files == old(repo.files) + patches
    ensures r.Ok? ==> r.value.iteration == 0
    ensures r.Ok? && r.value.branch == [] ==>
              patches == map[] && r.value == NoPatchesResult && repo.files == old(repo.files)
              && repo.branches == old(repo.branches) && repo.head == old(repo.head) && repo.pushes == old(repo.pushes)
    ensures r.Ok? && r.value.branch != [] ==>
              patches != map[] && r.value.branch == BranchName(issueId, title) && repo.head == r.value.branch
              && repo.files == old(repo.files) + patches
              && TipHolds(repo.branches[repo.head], CommitMessage(issueId, title), patches)
              && forall k :: |old(repo.pushes)| <= k < |repo.pushes| ==> repo.pushes[k].ref == r.value.branch
    ensures r.Ok? && r.value.success ==>
              r.value.prNumber.Some? && r.value.message == "PR #" + IntToString(r.value.prNumber.value) + " created"
    ensures r.Ok? && r.value.branch != [] && !r.value.success ==> StartsWith(r.value.message, "Push failed: ")
    ensures old(ChosenPatches(repo, title, body, llm)).Err? ==>
              r == Err(old(ChosenPatches(repo, title, body, llm)).error) && repo.files == old(repo.files)
              && repo.branches == old(repo.branches) && repo.head == old(repo.head) && repo.pushes == old(repo.pushes)
    ensures old(ChosenPatches(repo, title, body, llm)).Ok? ==> patches == old(ChosenPatches(repo, title, body, llm)).value.files
    ensures (r.Ok? && r.value.branch == []) <==> old(ChosenPatches(repo, title, body, llm)).Ok? && patches == map[]
    ensures r.Ok? && r.value.branch != [] ==>
              (r.value.success <==> PushRunOf(Window(repo.script, |old(repo.pushes)|)).outcome.Ok?)
    ensures r.Ok? && r.value.success ==>
              openPull(PullFor(issueId, title, body, r.value.branch)) == Ok(r.value.prNumber.value)
    ensures old(ChosenPatches(repo, title, body, llm)).Ok? && patches != map[] ==>
              (r.Err? <==> !old(BranchOpens(repo.branches, repo.head, repo.lockedElsewhere, BranchName(issueId, title)))
                           || (PushRunOf(Window(repo.script, |old(repo.pushes)|)).outcome.Ok?
                               && openPull(PullFor(issueId, title, body, BranchName(issueId, title))).Err?))
    ensures old(ChosenPatches(repo, title, body, llm)).Ok? && patches != map[] && r.Err? ==>
              if old(BranchOpens(repo.branches, repo.head, repo.lockedElsewhere, BranchName(issueId, title)))
              then r == Err(openPull(PullFor(issueId, title, body, BranchName(issueId, title))).error)
              else r.error.GitCommandError? && repo.files == old(repo.files) && repo.pushes == old(repo.pushes)
    ensures old(ChosenPatches(repo, title, body, llm)).Ok? && patches != map[]
            && old(BranchOpens(repo.branches, repo.head, repo.lockedElsewhere, BranchName(issueId, title))) ==>
              repo.head == BranchName(issueId, title) && repo.files == old(repo.files) + patches
              && TipHolds(repo.branches[repo.head], CommitMessage(issueId, title), patches)
    ensures repo.branches - {BranchName(issueId, title)} == old(repo.branches) - {BranchName(issueId, title)}
  {
    patches := map[];
    var chosen := ChoosePatches(repo, title, body, llm);
    if chosen.Err? {
      return Err(chosen.error), patches;
    }
    var files := chosen.value.files;
    patches := files;
    if files == map[] {
      return Ok(NoPatchesResult), patches;
    }
    r := Deliver(repo, issueId, title, body, files, chosen.value.order, openPull);
    assert StartsWith(BranchName(issueId, title), BranchPrefix);
  }
}

