/** The draft compiler: draft texts are split into lines, each line is classified
    into a unit (title, scene, dialogue, description, ...) by a small state machine,
    each unit becomes at most one output line with its sentence-final punctuation
    completed, and the lines are joined in the default or the web-novel layout. */
module NovelCompiler {
  import opened Text

  // ---------------------------------------------------------------------------
  // The line patterns, first match wins
  // ---------------------------------------------------------------------------

  // `/^# .*/`: a title heading.
  predicate BeginHead1(line: string) { StartsWith(line, "# ") }

  // `/^## .*/`: a scene heading.
  predicate BeginHead2(line: string) { StartsWith(line, "## ") }

  // `/^###* .*/`: two `#`, any further `#`, then a space.
  predicate BeginHead3Over(line: string)
  {
    var h := LeadingHashes(line);
    2 <= h < |line| && line[h] == ' '
  }

  // What the regular expression `/^###* .*/` accepts, stated directly.
  ghost predicate Head3OverRegex(line: string)
  {
    exists k :: 2 <= k < |line| && line[k] == ' ' && forall m :: 0 <= m < k ==> line[m] == '#'
  }

  lemma BeginHead3OverIsRegex(line: string)
    ensures BeginHead3Over(line) <==> Head3OverRegex(line)
  {
    if Head3OverRegex(line) {
      var k :| 2 <= k < |line| && line[k] == ' ' && forall m :: 0 <= m < k ==> line[m] == '#';
      var h := LeadingHashes(line);
      assert h == k;
    }
  }

  // `/^!P .*/`: a line to be copied as plain text.
  predicate BeginInstP(line: string) { StartsWith(line, "!P ") }

  // `/^「.*/`, `/^『.*/`, `/^（.*/`: the three opening brackets.
  predicate BeginBracket1(line: string) { StartsWith(line, "「") }
  predicate BeginBracket2(line: string) { StartsWith(line, "『") }
  predicate BeginBracket3(line: string) { StartsWith(line, "（") }

  // `/.*:.*/`: unanchored, and `.*` may match nothing, so any line holding a colon.
  predicate BeginScriptDialogue(line: string) { ':' in line }

  predicate OpensAt(line: string, i: nat) { At(line, i, "<!--") }

  predicate ClosesAt(line: string, j: nat) { At(line, j, "-->>") }

  /** Scanning from `p` inside an opened comment: `-->>` follows before any line terminator. */
  predicate CommentCloseFrom(line: string, p: nat)
    decreases |line| - p
  {
    p + 4 <= |line| && (ClosesAt(line, p) || (!IsLineTerminator(line[p]) && CommentCloseFrom(line, p + 1)))
  }

  /** Some `<!--` at or after `i` is followed by its `-->>`. */
  predicate CommentOpenFrom(line: string, i: nat)
    decreases |line| - i
  {
    i + 4 <= |line| && ((OpensAt(line, i) && CommentCloseFrom(line, i + 4)) || CommentOpenFrom(line, i + 1))
  }

  /** `/<!--.*-->>/`: unanchored, and the closing mark is `-->>`, not `-->`. */
  predicate BeginComment(line: string) { CommentOpenFrom(line, 0) }

  /** `-->>` starts at some `j >= p` with no line terminator in between. */
  ghost predicate ClosesFrom(line: string, p: nat)
  {
    exists j :: p <= j && ClosesAt(line, j) && NoLineTerminatorIn(line, p, j)
  }

  /** What the regular expression `/<!--.*-->>/` accepts, stated directly. */
  ghost predicate CommentRegexFrom(line: string, i: nat)
  {
    exists a, j :: i <= a && a + 4 <= j && OpensAt(line, a) && ClosesAt(line, j) && NoLineTerminatorIn(line, a + 4, j)
  }

  lemma {:induction false} CommentCloseFromIsRegex(line: string, p: nat)
    ensures CommentCloseFrom(line, p) <==> ClosesFrom(line, p)
    decreases |line| - p
  {
    if p + 4 <= |line| {
      CommentCloseFromIsRegex(line, p + 1);
      if ClosesAt(line, p) {
        assert NoLineTerminatorIn(line, p, p);
      } else {
        if CommentCloseFrom(line, p) {
          var j :| p + 1 <= j && ClosesAt(line, j) && NoLineTerminatorIn(line, p + 1, j);
          assert NoLineTerminatorIn(line, p, j);
        }
        if ClosesFrom(line, p) {
          var j :| p <= j && ClosesAt(line, j) && NoLineTerminatorIn(line, p, j);
          assert NoLineTerminatorIn(line, p + 1, j);
        }
      }
    }
  }

  lemma {:induction false} CommentOpenFromIsRegex(line: string, i: nat)
    ensures CommentOpenFrom(line, i) <==> CommentRegexFrom(line, i)
    decreases |line| - i
  {
    if i + 4 <= |line| {
      CommentOpenFromIsRegex(line, i + 1);
      CommentCloseFromIsRegex(line, i + 4);
      if OpensAt(line, i) && CommentCloseFrom(line, i + 4) {
        var j :| i + 4 <= j && ClosesAt(line, j) && NoLineTerminatorIn(line, i + 4, j);
        assert i <= i && i + 4 <= j;
      }
      if CommentRegexFrom(line, i) {
        var a, j :| i <= a && a + 4 <= j && OpensAt(line, a) && ClosesAt(line, j) && NoLineTerminatorIn(line, a + 4, j);
        if a > i {
          assert CommentRegexFrom(line, i + 1);
        } else {
          assert ClosesFrom(line, i + 4);
        }
      }
    }
  }

  /** The hand-coded comment test accepts exactly what the regular expression does. */
  lemma BeginCommentIsRegex(line: string)
    ensures BeginComment(line) <==> CommentRegexFrom(line, 0)
  {
    CommentOpenFromIsRegex(line, 0);
  }

  /** The classification of one line: the first pattern that matches. */
  datatype LineKind =
    | TitleLine | SceneLine | SubInfoLine | PlainLine
    | DialogueLine | VoiceLine | ThinkLine | ScriptLine | CommentLine
    | TextLine | EmptyLine

  function LineKindOf(line: string): (k: LineKind)
    ensures k == EmptyLine <==> line == ""
  {
    if BeginHead1(line) then TitleLine
    else if BeginHead2(line) then SceneLine
    else if BeginHead3Over(line) then SubInfoLine
    else if BeginInstP(line) then PlainLine
    else if BeginBracket1(line) then DialogueLine
    else if BeginBracket2(line) then VoiceLine
    else if BeginBracket3(line) then ThinkLine
    else if BeginScriptDialogue(line) then ScriptLine
    else if BeginComment(line) then CommentLine
    else if line != "" then TextLine
    else EmptyLine
  }

  // ---------------------------------------------------------------------------
  // Units and the classifier
  // ---------------------------------------------------------------------------

  datatype DocType =
    | Title | Scene | SubInfo | Plain | Dialogue | Voice | Think | Comment | Break | Description

  /** One classified unit: its kind, its raw fragments and, for a `Name:` line, the speaker. */
  datatype DocInfo = DocInfo(docType: DocType, descs: seq<string>, subject: Option<string>)

  predicate IsBracketType(t: DocType) { t == Dialogue || t == Voice || t == Think }

  /** A break has no fragment and every other unit has one or more; titles, scenes and
      single-line units have exactly one, and a title's or scene's starts with its heading mark. */
  predicate WellFormedUnit(u: DocInfo)
  {
    (u.docType == Break <==> u.descs == [])
    && (u.docType in {Title, Scene, SubInfo, Plain, Comment} ==> |u.descs| == 1)
    && (u.docType == Title ==> BeginHead1(u.descs[0]))
    && (u.docType == Scene ==> BeginHead2(u.descs[0]))
  }

  predicate WellFormed(units: seq<DocInfo>)
  {
    forall k :: 0 <= k < |units| ==> WellFormedUnit(units[k])
  }

  /** A scene heading is never followed directly by a break. */
  predicate NoBreakAfterScene(units: seq<DocInfo>)
  {
    forall k :: 0 <= k < |units| - 1 && units[k].docType == Scene ==> units[k + 1].docType != Break
  }

  /** The units found so far and the three flags of the classifier loop. */
  datatype Classifier = Classifier(contents: seq<DocInfo>, inDesc: bool, inDialogue: bool, inScene: bool)

  const Start: Classifier := Classifier([], false, false, false)

  /** The classifier's invariant: at most one continuation flag, and an open
      continuation always has a unit of the right kind to continue. */
  predicate Valid(st: Classifier)
  {
    WellFormed(st.contents)
    && NoBreakAfterScene(st.contents)
    && !(st.inDesc && st.inDialogue)
    && (st.inDesc ==> st.contents != [] && Last(st.contents).docType == Description)
    && (st.inDialogue ==> st.contents != [] && IsBracketType(Last(st.contents).docType))
    && (st.contents != [] && Last(st.contents).docType == Scene ==> st.inScene)
  }

  function AppendToLast(units: seq<DocInfo>, line: string): (r: seq<DocInfo>)
    requires units != []
    ensures |r| == |units| && r[..|r| - 1] == units[..|units| - 1]
    ensures Last(r) == Last(units).(descs := Last(units).descs + [line])
  {
    units[..|units| - 1] + [Last(units).(descs := Last(units).descs + [line])]
  }

  /** One iteration of the classifier loop. */
  function Step(st: Classifier, line: string): Classifier
    requires Valid(st)
  {
    match LineKindOf(line)
    case TitleLine => Classifier(st.contents + [DocInfo(Title, [line], None)], false, false, false)
    case SceneLine => Classifier(st.contents + [DocInfo(Scene, [line], None)], false, false, true)
    case SubInfoLine => Classifier(st.contents + [DocInfo(SubInfo, [line], None)], false, false, false)
    case PlainLine => Classifier(st.contents + [DocInfo(Plain, [line[3..]], None)], false, false, false)
    case DialogueLine => Classifier(st.contents + [DocInfo(Dialogue, [line], None)], false, true, false)
    case VoiceLine => Classifier(st.contents + [DocInfo(Voice, [line], None)], false, true, false)
    case ThinkLine => Classifier(st.contents + [DocInfo(Think, [line], None)], false, true, false)
    case ScriptLine =>
      SplitHasTwoPieces(line, ':');
      var data := Split(line, ':');
      Classifier(st.contents + [DocInfo(Dialogue, [data[1]], Some(data[0]))], false, true, false)
    case CommentLine => Classifier(st.contents + [DocInfo(Comment, [line], None)], false, false, false)
    case TextLine =>
      if st.inDesc || st.inDialogue then st.(contents := AppendToLast(st.contents, line))
      else Classifier(st.contents + [DocInfo(Description, [line], None)], true, false, st.inScene)
    case EmptyLine =>
      if st.inScene then st
      else if st.inDialogue || st.inDesc then Classifier(st.contents, false, false, false)
      else Classifier(st.contents + [DocInfo(Break, [], None)], false, false, false)
  }

  lemma PushKeepsShape(units: seq<DocInfo>, u: DocInfo)
    requires WellFormed(units) && NoBreakAfterScene(units) && WellFormedUnit(u)
    requires units != [] && Last(units).docType == Scene ==> u.docType != Break
    ensures WellFormed(units + [u]) && NoBreakAfterScene(units + [u])
  {
    var r := units + [u];
    forall k | 0 <= k < |r| ensures WellFormedUnit(r[k]) {
      if k < |units| { assert r[k] == units[k]; }
    }
    forall k | 0 <= k < |r| - 1 && r[k].docType == Scene ensures r[k + 1].docType != Break {
      assert r[k] == units[k];
      if k + 1 < |units| { assert r[k + 1] == units[k + 1]; }
    }
  }

  lemma AppendKeepsShape(units: seq<DocInfo>, line: string)
    requires WellFormed(units) && NoBreakAfterScene(units)
    requires units != [] && (Last(units).docType == Description || IsBracketType(Last(units).docType))
    ensures WellFormed(AppendToLast(units, line)) && NoBreakAfterScene(AppendToLast(units, line))
    ensures Last(AppendToLast(units, line)).docType == Last(units).docType
  {
    var r := AppendToLast(units, line);
    forall k | 0 <= k < |r| ensures WellFormedUnit(r[k]) {
      if k < |units| - 1 { assert r[k] == r[..|r| - 1][k] == units[k]; }
    }
    forall k | 0 <= k < |r| - 1 && r[k].docType == Scene ensures r[k + 1].docType != Break {
      assert r[k] == r[..|r| - 1][k] == units[k];
      if k + 1 < |units| - 1 { assert r[k + 1] == r[..|r| - 1][k + 1] == units[k + 1]; }
    }
  }

  /** Every step keeps the classifier's invariant. */
  lemma StepKeepsValid(st: Classifier, line: string)
    requires Valid(st)
    ensures Valid(Step(st, line))
  {
    var k := LineKindOf(line);
    if k == TextLine {
      TextStepKeepsValid(st, line);
    } else if k == EmptyLine {
      if !st.inScene && !st.inDialogue && !st.inDesc {
        PushKeepsShape(st.contents, DocInfo(Break, [], None));
      }
    } else if k == ScriptLine {
      SplitHasTwoPieces(line, ':');
      var data := Split(line, ':');
      PushKeepsShape(st.contents, DocInfo(Dialogue, [data[1]], Some(data[0])));
    } else {
      HeadStepKeepsValid(st, line);
    }
  }

  lemma TextStepKeepsValid(st: Classifier, line: string)
    requires Valid(st) && LineKindOf(line) == TextLine
    ensures Valid(Step(st, line))
  {
    if st.inDesc || st.inDialogue {
      AppendKeepsShape(st.contents, line);
    } else {
      PushKeepsShape(st.contents, DocInfo(Description, [line], None));
    }
  }

  /** The kinds that push a unit holding the line (the rest of it for a `!P ` line). */
  lemma HeadStepKeepsValid(st: Classifier, line: string)
    requires Valid(st) && LineKindOf(line) !in {TextLine, EmptyLine, ScriptLine}
    ensures Valid(Step(st, line))
  {
    var c := st.contents;
    match LineKindOf(line)
    case TitleLine => PushKeepsShape(c, DocInfo(Title, [line], None));
    case SceneLine => PushKeepsShape(c, DocInfo(Scene, [line], None));
    case SubInfoLine => PushKeepsShape(c, DocInfo(SubInfo, [line], None));
    case PlainLine => PushKeepsShape(c, DocInfo(Plain, [line[3..]], None));
    case DialogueLine => PushKeepsShape(c, DocInfo(Dialogue, [line], None));
    case VoiceLine => PushKeepsShape(c, DocInfo(Voice, [line], None));
    case ThinkLine => PushKeepsShape(c, DocInfo(Think, [line], None));
    case CommentLine => PushKeepsShape(c, DocInfo(Comment, [line], None));
  }


  /** The classifier loop run over `lines` from state `st`. */
  function RunFrom(st: Classifier, lines: seq<string>): (r: Classifier)
    requires Valid(st)
    ensures Valid(r)
    decreases |lines|
  {
    if lines == [] then st
    else
      StepKeepsValid(st, lines[0]);
      RunFrom(Step(st, lines[0]), lines[1..])
  }

  lemma RunFromCons(st: Classifier, line: string, rest: seq<string>)
    requires Valid(st) && Valid(Step(st, line))
    ensures RunFrom(st, [line] + rest) == RunFrom(Step(st, line), rest)
  {
    assert ([line] + rest)[1..] == rest;
  }

  /** All lines of all files in order; the flags are not reset between files. */
  function AllLines(texts: seq<string>): seq<string>
  {
    if texts == [] then [] else Split(texts[0], '\n') + AllLines(texts[1..])
  }

  /** The units of the draft texts: well formed, so every unit the pre-formatter reads
      has the fragments it needs. */
  function Classify(texts: seq<string>): (units: seq<DocInfo>)
    ensures WellFormed(units)
  {
    RunFrom(Start, AllLines(texts)).contents
  }

  /** The body of the `_convDocInfo` loop for one line: the pattern tests in
      order, the new unit or the appended fragment, and the new flags. */
  method ClassifyLine(contents0: seq<DocInfo>, inDesc0: bool, inDialogue0: bool, inScene0: bool, line: string)
    returns (contents: seq<DocInfo>, inDesc: bool, inDialogue: bool, inScene: bool)
    requires Valid(Classifier(contents0, inDesc0, inDialogue0, inScene0))
    ensures Classifier(contents, inDesc, inDialogue, inScene) == Step(Classifier(contents0, inDesc0, inDialogue0, inScene0), line)
  {
    contents, inDesc, inDialogue, inScene := contents0, inDesc0, inDialogue0, inScene0;
    if BeginHead1(line) {
      assert LineKindOf(line) == TitleLine;
      contents := contents + [DocInfo(Title, [line], None)];
      inDesc, inDialogue, inScene := false, false, false;
    } else if BeginHead2(line) {
      assert LineKindOf(line) == SceneLine;
      contents := contents + [DocInfo(Scene, [line], None)];
      inDesc, inDialogue, inScene := false, false, false;
      inScene := true;
    } else if BeginHead3Over(line) {
      assert LineKindOf(line) == SubInfoLine;
      contents := contents + [DocInfo(SubInfo, [line], None)];
      inDesc, inDialogue, inScene := false, false, false;
    } else if BeginInstP(line) {
      assert LineKindOf(line) == PlainLine;
      contents := contents + [DocInfo(Plain, [line[3..]], None)];
      inDesc, inDialogue, inScene := false, false, false;
    } else if BeginBracket1(line) {
      assert LineKindOf(line) == DialogueLine;
      inDesc, inDialogue, inScene := false, false, false;
      contents := contents + [DocInfo(Dialogue, [line], None)];
      inDialogue := true;
    } else if BeginBracket2(line) {
      assert LineKindOf(line) == VoiceLine;
      inDesc, inDialogue, inScene := false, false, false;
      contents := contents + [DocInfo(Voice, [line], None)];
      inDialogue := true;
    } else if BeginBracket3(line) {
      assert LineKindOf(line) == ThinkLine;
      inDesc, inDialogue, inScene := false, false, false;
      contents := contents + [DocInfo(Think, [line], None)];
      inDialogue := true;
    } else if BeginScriptDialogue(line) {
      assert LineKindOf(line) == ScriptLine;
      inDesc, inDialogue, inScene := false, false, false;
      SplitHasTwoPieces(line, ':');
      var data := Split(line, ':');
      contents := contents + [DocInfo(Dialogue, [data[1]], Some(data[0]))];
      inDialogue := true;
    } else if BeginComment(line) {
      assert LineKindOf(line) == CommentLine;
      contents := contents + [DocInfo(Comment, [line], None)];
      inDesc, inDialogue, inScene := false, false, false;
    } else if line != "" {
      assert LineKindOf(line) == TextLine;
      if inDesc || inDialogue {
        var last := contents[|contents| - 1];
        contents := contents[..|contents| - 1] + [last.(descs := last.descs + [line])];
      } else {
        contents := contents + [DocInfo(Description, [line], None)];
        inDesc := true;
      }
    } else {
      assert LineKindOf(line) == EmptyLine;
      if inScene {
      } else if inDialogue || inDesc {
        inDesc, inDialogue, inScene := false, false, false;
      } else {
        contents := contents + [DocInfo(Break, [], None)];
      }
    }
  }

  /** `_convDocInfo`: the imperative loop over files and lines with its three flags. */
  method ConvDocInfo(texts: seq<string>) returns (contents: seq<DocInfo>)
    ensures contents == Classify(texts)
    ensures WellFormed(contents)
  {
    contents := [];
    var inDesc, inDialogue, inScene := false, false, false;
    ghost var total := RunFrom(Start, AllLines(texts));
    for i := 0 to |texts|
      invariant Valid(Classifier(contents, inDesc, inDialogue, inScene))
      invariant RunFrom(Classifier(contents, inDesc, inDialogue, inScene), AllLines(texts[i..])) == total
    {
      var lines := Split(texts[i], '\n');
      ghost var later := AllLines(texts[i + 1..]);
      AllLinesFrom(texts, i);
      for j := 0 to |lines|
        invariant Valid(Classifier(contents, inDesc, inDialogue, inScene))
        invariant RunFrom(Classifier(contents, inDesc, inDialogue, inScene), lines[j..] + later) == total
      {
        var line := lines[j];
        ClassifierAdvances(Classifier(contents, inDesc, inDialogue, inScene), lines, j, later);
        contents, inDesc, inDialogue, inScene := ClassifyLine(contents, inDesc, inDialogue, inScene, line);
      }
      assert lines[|lines|..] + later == later;
    }
  }

  lemma AllLinesFrom(texts: seq<string>, i: nat)
    requires i < |texts|
    ensures AllLines(texts[i..]) == Split(texts[i], '\n') + AllLines(texts[i + 1..])
  {
    assert texts[i..][1..] == texts[i + 1..];
  }

  /** One classifier step on `lines[j]` moves the run over the remaining lines along. */
  lemma ClassifierAdvances(st: Classifier, lines: seq<string>, j: nat, later: seq<string>)
    requires Valid(st) && j < |lines|
    ensures Valid(Step(st, lines[j]))
    ensures RunFrom(st, lines[j..] + later) == RunFrom(Step(st, lines[j]), lines[j + 1..] + later)
  {
    assert lines[j..] + later == [lines[j]] + (lines[j + 1..] + later);
    StepKeepsValid(st, lines[j]);
    RunFromCons(st, lines[j], lines[j + 1..] + later);
  }


  // ---------------------------------------------------------------------------
  // What the classifier guarantees over whole runs
  // ---------------------------------------------------------------------------

  /** Running over `a + b` is running over `a`, then over `b`. */
  lemma {:induction false} RunFromAppend(st: Classifier, a: seq<string>, b: seq<string>)
    requires Valid(st)
    ensures RunFrom(st, a + b) == RunFrom(RunFrom(st, a), b)
    decreases |a|
  {
    if a == [] {
      assert a + b == b;
    } else {
      StepKeepsValid(st, a[0]);
      assert (a + b)[1..] == a[1..] + b;
      RunFromAppend(Step(st, a[0]), a[1..], b);
    }
  }

  /** `newer` keeps every unit of `older` and its order; only the last unit of
      `older` may have gained fragments. */
  predicate Extends(older: seq<DocInfo>, newer: seq<DocInfo>)
  {
    |older| <= |newer|
    && (forall k :: 0 <= k < |older| - 1 ==> newer[k] == older[k])
    && (older != [] ==>
          var o := Last(older);
          newer[|older| - 1].docType == o.docType && newer[|older| - 1].subject == o.subject
          && o.descs <= newer[|older| - 1].descs)
  }

  lemma ExtendsTrans(a: seq<DocInfo>, b: seq<DocInfo>, c: seq<DocInfo>)
    requires Extends(a, b) && Extends(b, c)
    ensures Extends(a, c)
  {
    if a != [] && |a| < |b| {
      assert c[|a| - 1] == b[|a| - 1];
    }
  }

  lemma StepExtends(st: Classifier, line: string)
    requires Valid(st)
    ensures Extends(st.contents, Step(st, line).contents)
  {
    var c := st.contents;
    var r := Step(st, line).contents;
    StepCases(st, line);
    if |r| == |c| + 1 && r[..|c|] == c {
      assert forall k :: 0 <= k < |c| ==> r[k] == r[..|c|][k];
    } else if r != c {
      assert forall k :: 0 <= k < |c| - 1 ==> r[k] == r[..|r| - 1][k];
    }
  }

  /** A step leaves the units alone, appends the line to the last unit, or pushes one
      unit that holds one fragment (none for a break). */
  lemma StepCases(st: Classifier, line: string)
    requires Valid(st)
    ensures var c, r := st.contents, Step(st, line).contents;
      (line == "" && r == c)
      || (line != "" && c != [] && r == AppendToLast(c, line))
      || (|r| == |c| + 1 && r[..|c|] == c && |Last(r).descs| == (if line == "" then 0 else 1))
  {
    var r := Step(st, line).contents;
    if |r| == |st.contents| + 1 {
      assert r[..|st.contents|] == st.contents;
    }
  }


  /** Units come out in input order: a run never removes, reorders or rewrites an
      earlier unit, and the unit that was last only gains fragments. */
  lemma {:induction false} RunExtends(st: Classifier, lines: seq<string>)
    requires Valid(st)
    ensures Extends(st.contents, RunFrom(st, lines).contents)
    decreases |lines|
  {
    if lines == [] {
      assert Extends(st.contents, st.contents);
    } else {
      StepKeepsValid(st, lines[0]);
      StepExtends(st, lines[0]);
      RunExtends(Step(st, lines[0]), lines[1..]);
      ExtendsTrans(st.contents, Step(st, lines[0]).contents, RunFrom(Step(st, lines[0]), lines[1..]).contents);
    }
  }

  /** The number of fragments held by all units. */
  function TotalFragments(units: seq<DocInfo>): nat
  {
    if units == [] then 0 else TotalFragments(units[..|units| - 1]) + |Last(units).descs|
  }

  function NonEmptyLines(lines: seq<string>): nat
  {
    if lines == [] then 0 else (if lines[0] != "" then 1 else 0) + NonEmptyLines(lines[1..])
  }

  lemma StepFragments(st: Classifier, line: string)
    requires Valid(st)
    ensures TotalFragments(Step(st, line).contents) == TotalFragments(st.contents) + (if line != "" then 1 else 0)
    ensures |Step(st, line).contents| <= |st.contents| + 1
  {
    var c := st.contents;
    var r := Step(st, line).contents;
    StepCases(st, line);
    if |r| == |c| + 1 && r[..|c|] == c {
    } else if r != c {
      assert r[..|r| - 1] == c[..|c| - 1];
    }
  }


  /** Every non-empty line yields exactly one fragment (a new unit or a continuation),
      an empty line none, and no line yields more than one unit. */
  lemma {:induction false} RunCounts(st: Classifier, lines: seq<string>)
    requires Valid(st)
    ensures TotalFragments(RunFrom(st, lines).contents) == TotalFragments(st.contents) + NonEmptyLines(lines)
    ensures |RunFrom(st, lines).contents| <= |st.contents| + |lines|
    decreases |lines|
  {
    if lines != [] {
      StepKeepsValid(st, lines[0]);
      StepFragments(st, lines[0]);
      RunCounts(Step(st, lines[0]), lines[1..]);
    }
  }

  /** The fragment a non-empty line contributes: the rest of the line after `!P ` for a
      plain line, the text between the first and second colon for a `Name:` line, and
      the line itself for every other kind. */
  function LineFragment(line: string): string
  {
    match LineKindOf(line)
    case PlainLine => line[3..]
    case ScriptLine =>
      SplitHasTwoPieces(line, ':');
      Split(line, ':')[1]
    case _ => line
  }

  /** The fragments of the non-empty lines, in order. */
  function LineFragments(lines: seq<string>): seq<string>
  {
    if lines == [] then []
    else (if lines[0] == "" then [] else [LineFragment(lines[0])]) + LineFragments(lines[1..])
  }

  /** The fragments of all units, in unit order. */
  function AllFragments(units: seq<DocInfo>): seq<string>
  {
    if units == [] then [] else AllFragments(units[..|units| - 1]) + Last(units).descs
  }

  lemma PushFragments(units: seq<DocInfo>, u: DocInfo)
    ensures AllFragments(units + [u]) == AllFragments(units) + u.descs
  {
    assert (units + [u])[..|units|] == units;
  }

  lemma AppendFragments(units: seq<DocInfo>, line: string)
    requires units != []
    ensures AllFragments(AppendToLast(units, line)) == AllFragments(units) + [line]
  {
    var r := AppendToLast(units, line);
    AppendAssoc(AllFragments(units[..|units| - 1]), Last(units).descs, [line]);
    assert AllFragments(r) == AllFragments(r[..|r| - 1]) + Last(r).descs;
  }

  /** One step adds exactly the line's own fragment, or nothing for an empty line. */
  lemma StepFragmentsContent(st: Classifier, line: string)
    requires Valid(st)
    ensures AllFragments(Step(st, line).contents)
      == AllFragments(st.contents) + (if line == "" then [] else [LineFragment(line)])
  {
    var c := st.contents;
    var k := LineKindOf(line);
    if k == TextLine {
      if st.inDesc || st.inDialogue {
        AppendFragments(c, line);
      } else {
        PushFragments(c, DocInfo(Description, [line], None));
      }
    } else if k == EmptyLine {
      if !st.inScene && !st.inDialogue && !st.inDesc {
        PushFragments(c, DocInfo(Break, [], None));
      } else {
        assert AllFragments(c) + [] == AllFragments(c);
      }
    } else if k == ScriptLine {
      SplitHasTwoPieces(line, ':');
      var data := Split(line, ':');
      PushFragments(c, DocInfo(Dialogue, [data[1]], Some(data[0])));
    } else {
      HeadStepFragments(st, line);
    }
  }

  lemma HeadStepFragments(st: Classifier, line: string)
    requires Valid(st) && LineKindOf(line) !in {TextLine, EmptyLine, ScriptLine}
    ensures AllFragments(Step(st, line).contents) == AllFragments(st.contents) + [LineFragment(line)]
  {
    var c := st.contents;
    match LineKindOf(line)
    case TitleLine => PushFragments(c, DocInfo(Title, [line], None));
    case SceneLine => PushFragments(c, DocInfo(Scene, [line], None));
    case SubInfoLine => PushFragments(c, DocInfo(SubInfo, [line], None));
    case PlainLine => PushFragments(c, DocInfo(Plain, [line[3..]], None));
    case DialogueLine => PushFragments(c, DocInfo(Dialogue, [line], None));
    case VoiceLine => PushFragments(c, DocInfo(Voice, [line], None));
    case ThinkLine => PushFragments(c, DocInfo(Think, [line], None));
    case CommentLine => PushFragments(c, DocInfo(Comment, [line], None));
  }

  /** Over any run, the units' fragments, read in order, are the fragments of the
      non-empty lines in input order: nothing is lost, reordered or invented. */
  lemma {:induction false} RunFragments(st: Classifier, lines: seq<string>)
    requires Valid(st)
    ensures AllFragments(RunFrom(st, lines).contents) == AllFragments(st.contents) + LineFragments(lines)
    decreases |lines|
  {
    if lines == [] {
      assert AllFragments(st.contents) + [] == AllFragments(st.contents);
    } else {
      var l := lines[0];
      StepKeepsValid(st, l);
      StepFragmentsContent(st, l);
      RunFragments(Step(st, l), lines[1..]);
      AppendAssoc(AllFragments(st.contents), if l == "" then [] else [LineFragment(l)], LineFragments(lines[1..]));
    }
  }

  /** The classified units of the draft texts hold the fragments of all their non-empty
      lines, in order. */
  lemma ClassifyFragments(texts: seq<string>)
    ensures AllFragments(Classify(texts)) == LineFragments(AllLines(texts))
  {
    RunFragments(Start, AllLines(texts));
    assert AllFragments(Start.contents) == [];
  }

  /** After a scene heading every blank line is swallowed: the state does not change. */
  lemma {:induction false} SceneSwallowsBlankLines(st: Classifier, n: nat)
    requires Valid(st) && st.inScene
    ensures RunFrom(st, seq(n, _ => "")) == st
    decreases n
  {
    if n > 0 {
      var blanks := seq(n, _ => "");
      assert blanks == [""] + seq(n - 1, _ => "");
      RunFromCons(st, "", seq(n - 1, _ => ""));
      SceneSwallowsBlankLines(st, n - 1);
    }
  }

  function Continued(st: Classifier, ls: seq<string>): Classifier
    requires st.contents != []
  {
    var c := st.contents;
    st.(contents := c[..|c| - 1] + [Last(c).(descs := Last(c).descs + ls)])
  }

  lemma ContinuedStep(st: Classifier, line: string, rest: seq<string>)
    requires Valid(st) && (st.inDesc || st.inDialogue) && LineKindOf(line) == TextLine
    ensures Step(st, line) == Continued(st, [line])
    ensures Valid(Step(st, line)) && Step(st, line).contents != []
    ensures Continued(Step(st, line), rest) == Continued(st, [line] + rest)
  {
    var c := st.contents;
    var c' := AppendToLast(c, line);
    assert Step(st, line) == st.(contents := c');
    StepKeepsValid(st, line);
    assert c'[..|c'| - 1] == c[..|c| - 1];
    AppendAssoc(Last(c).descs, [line], rest);
  }


  /** An open description or utterance takes every following unmatched line as a
      fragment of its last unit: no unit is added and no flag changes. */
  lemma ContinuedNothing(st: Classifier)
    requires st.contents != []
    ensures Continued(st, []) == st
  {
    var c := st.contents;
    assert Last(c).(descs := Last(c).descs + []) == Last(c);
    assert c[..|c| - 1] + [Last(c)] == c;
  }

  lemma {:induction false} ContinuationAbsorbs(st: Classifier, ls: seq<string>)
    requires Valid(st) && (st.inDesc || st.inDialogue)
    requires forall k :: 0 <= k < |ls| ==> LineKindOf(ls[k]) == TextLine
    ensures RunFrom(st, ls) == Continued(st, ls)
    decreases |ls|
  {
    if ls == [] {
      ContinuedNothing(st);
    } else {
      var s1 := Step(st, ls[0]);
      ContinuedStep(st, ls[0], ls[1..]);
      assert s1.inDesc == st.inDesc && s1.inDialogue == st.inDialogue;
      assert ls == [ls[0]] + ls[1..];
      RunFromCons(st, ls[0], ls[1..]);
      forall k | 0 <= k < |ls[1..]| ensures LineKindOf(ls[1..][k]) == TextLine {
        assert ls[1..][k] == ls[k + 1];
      }
      ContinuationAbsorbs(s1, ls[1..]);
    }
  }

  /** A line holding a colon (and none of the earlier marks) opens a dialogue whose
      subject is the text before the first colon and whose one fragment is the text
      between the first and the second colon; any later text is dropped. */
  lemma ColonLineSplitsAtColons(st: Classifier, line: string, i: nat, k: nat)
    requires Valid(st) && LineKindOf(line) == ScriptLine
    requires i < k <= |line| && line[i] == ':' && ':' !in line[..i]
    requires ':' !in line[i + 1..k] && (k == |line| || line[k] == ':')
    ensures Step(st, line) == Classifier(st.contents + [DocInfo(Dialogue, [line[i + 1..k]], Some(line[..i]))], false, true, false)
  {
    SplitHead(line, ':', i);
    var rest := line[i + 1..];
    assert rest[..k - i - 1] == line[i + 1..k];
    SplitHead(rest, ':', k - i - 1);
  }

  // Worked examples of the classifier's rules and quirks.

  lemma {:induction false} NoOpenerNoComment(line: string, i: nat)
    requires '<' !in line
    ensures !CommentOpenFrom(line, i)
    decreases |line| - i
  {
    if i + 4 <= |line| {
      assert line[i] in line;
      NoOpenerNoComment(line, i + 1);
    }
  }

  /** A line that starts with none of the marks and holds neither a colon nor `<`
      is ordinary text. */
  lemma OrdinaryTextLine(line: string)
    requires line != [] && line[0] !in "#!「『（" && ':' !in line && '<' !in line
    ensures LineKindOf(line) == TextLine
  {
    NoOpenerNoComment(line, 0);
  }

  /** The blank line right after a scene heading is swallowed, not turned into a break. */
  lemma SceneHeadingSwallowsBlankLine()
    ensures RunFrom(Start, ["## 朝", "", "窓を開ける"]).contents
      == [DocInfo(Scene, ["## 朝"], None), DocInfo(Description, ["窓を開ける"], None)]
  {
    ExampleSceneLine();
    OrdinaryTextLine("窓を開ける");
    SceneBlankText("## 朝", "窓を開ける");
  }

  /** A scene heading, an empty line and a text line, for any such lines. */
  lemma SceneBlankText(scene: string, text: string)
    requires LineKindOf(scene) == SceneLine && LineKindOf(text) == TextLine
    ensures RunFrom(Start, [scene, "", text]).contents
      == [DocInfo(Scene, [scene], None), DocInfo(Description, [text], None)]
  {
    var u := DocInfo(Scene, [scene], None);
    var s1 := Classifier([u], false, false, true);
    assert Step(Start, scene) == s1 by { assert [] + [u] == [u]; }
    StepKeepsValid(Start, scene);
    assert [scene, "", text] == [scene] + ["", text];
    RunFromCons(Start, scene, ["", text]);
    assert LineKindOf("") == EmptyLine;
    assert Step(s1, "") == s1;
    assert ["", text] == [""] + [text];
    RunFromCons(s1, "", [text]);
    RunFromOne(s1, text);
    assert Step(s1, text).contents == [u] + [DocInfo(Description, [text], None)];
  }

  lemma ExampleSceneLine()
    ensures LineKindOf("## 朝") == SceneLine
  {
    var scene := "## 朝";
    assert scene[1] == '#' && scene[..3] == "## ";
  }

  /** A run over one line is one step. */
  lemma RunFromOne(st: Classifier, line: string)
    requires Valid(st)
    ensures RunFrom(st, [line]) == Step(st, line)
  {
    assert [line][1..] == [];
  }

  /** `inDialogue` is set even when the closing bracket is on the same line, so the
      next unmatched line is still appended to that dialogue. */
  lemma ClosedDialogueStillContinues()
    ensures RunFrom(Start, ["「はい」", "と答えた"]).contents == [DocInfo(Dialogue, ["「はい」", "と答えた"], None)]
  {
    ExampleDialogueLine();
    OrdinaryTextLine("と答えた");
    DialogueThenText("「はい」", "と答えた");
  }

  /** A `「` line and a text line, for any such lines. */
  lemma DialogueThenText(open: string, next: string)
    requires LineKindOf(open) == DialogueLine && LineKindOf(next) == TextLine
    ensures RunFrom(Start, [open, next]).contents == [DocInfo(Dialogue, [open, next], None)]
  {
    var u := DocInfo(Dialogue, [open], None);
    var s1 := Classifier([u], false, true, false);
    assert Step(Start, open) == s1 by { assert [] + [u] == [u]; }
    StepKeepsValid(Start, open);
    assert [open, next] == [open] + [next];
    RunFromCons(Start, open, [next]);
    RunFromOne(s1, next);
    var r := AppendToLast([u], next);
    assert Step(s1, next).contents == r;
    assert r == [r[0]] && r[0] == Last(r);
  }

  lemma ExampleDialogueLine()
    ensures LineKindOf("「はい」") == DialogueLine
  {
    var open := "「はい」";
    assert open[0] == '「' && open[..1] == "「";
  }

  lemma {:induction false} NoDoubleArrowNoClose(line: string, p: nat)
    requires line != [] && '>' !in line[..|line| - 1]
    ensures !CommentCloseFrom(line, p)
    decreases |line| - p
  {
    if p + 4 <= |line| {
      assert line[p + 2] in line[..|line| - 1];
      assert line[p..p + 4][2] == line[p + 2];
      NoDoubleArrowNoClose(line, p + 1);
    }
  }

  lemma {:induction false} NoDoubleArrowNoOpen(line: string, i: nat)
    requires line != [] && '>' !in line[..|line| - 1]
    ensures !CommentOpenFrom(line, i)
    decreases |line| - i
  {
    if i + 4 <= |line| {
      NoDoubleArrowNoClose(line, i + 4);
      NoDoubleArrowNoOpen(line, i + 1);
    }
  }

  /** A comment needs the closing mark `-->>`: an HTML-style `<!-- ... -->` line
      whose body holds no `>` and no colon is ordinary text. */
  lemma HtmlCommentIsText(body: string)
    requires '>' !in body && ':' !in body
    ensures LineKindOf("<!--" + body + "-->") == TextLine
  {
    var line := "<!--" + body + "-->";
    assert line[..|line| - 1] == "<!--" + body + "--";
    NoDoubleArrowNoOpen(line, 0);
    assert line[0] == '<';
  }

  /** The colon test comes before the comment test: a comment holding a colon
      becomes a dialogue although it matches the comment pattern. */
  lemma ColonCommentIsDialogue()
    ensures BeginComment("<!-- 9:00 -->>")
    ensures LineKindOf("<!-- 9:00 -->>") == ScriptLine
  {
    ExampleCommentMatches();
    ExampleColonLine();
  }

  lemma ExampleCommentMatches()
    ensures BeginComment("<!-- 9:00 -->>")
  {
    var line := "<!-- 9:00 -->>";
    assert line[0..4] == "<!--";
    assert line[10..14] == "-->>";
    assert NoLineTerminatorIn(line, 4, 10);
    BeginCommentIsRegex(line);
  }

  lemma ExampleColonLine()
    ensures LineKindOf("<!-- 9:00 -->>") == ScriptLine
  {
    var line := "<!-- 9:00 -->>";
    assert line[6] == ':';
    assert line[0] == '<';
  }


  // ---------------------------------------------------------------------------
  // Completing sentence-final punctuation
  // ---------------------------------------------------------------------------

  /** The last character of `s` is one of `chars`: the end-anchored patterns
      `/(。|、)$/`, `/(！|？)$/`, `/(」|』|）)$/` and `/。$/`. */
  predicate EndsInOneOf(s: string, chars: string) { s != [] && Last(s) in chars }

  /** `/(！|？)　$/`: a full-width exclamation or question mark, then a full-width space, at the end. */
  predicate EndsMarkSpace(s: string) { |s| >= 2 && s[|s| - 2] in "！？" && s[|s| - 1] == '　' }

  /** What the completion loops append for one fragment: the fragment itself when it
      already ends a clause (or, inside brackets, with a closing bracket), followed by
      a full-width space after `！` or `？`, closed with `。` otherwise; an empty
      fragment adds nothing. */
  function Terminated(desc: string, inBrackets: bool): (t: string)
    ensures desc <= t && |t| <= |desc| + 1
    ensures t == "" <==> desc == ""
  {
    if EndsInOneOf(desc, "。、") then desc
    else if EndsInOneOf(desc, "！？") then desc + "　"
    else if inBrackets && EndsInOneOf(desc, "」』）") then desc
    else if desc != "" then desc + "。"
    else ""
  }

  /** The string the completion loops build: every fragment terminated, in order. */
  function Joined(descs: seq<string>, inBrackets: bool): string
  {
    if descs == [] then "" else Joined(descs[..|descs| - 1], inBrackets) + Terminated(Last(descs), inBrackets)
  }

  /** The step after the `_completeDialogue` loop: a trailing `。`, or the space after a
      trailing `！`/`？`, becomes the closing bracket. */
  function CloseUtterance(docs: string, bracket: char): string
  {
    if EndsMarkSpace(docs) || EndsInOneOf(docs, "。") then docs[..|docs| - 1] + [bracket] else docs
  }

  /** The step after the `_completeDesc` loop: the space after a trailing `！`/`？` is dropped. */
  function TrimMarkSpace(docs: string): string
  {
    if EndsMarkSpace(docs) then docs[..|docs| - 1] else docs
  }

  /** `_completeDialogue`. */
  function CompletedDialogue(descs: seq<string>, bracket: char): string
  {
    CloseUtterance(Joined(descs, true), bracket)
  }

  /** `_completeDesc`. */
  function CompletedDesc(descs: seq<string>): string
  {
    TrimMarkSpace(Joined(descs, false))
  }

  method CompleteDialogue(descs: seq<string>, bracket: char) returns (docs: string)
    ensures docs == CompletedDialogue(descs, bracket)
  {
    docs := "";
    for i := 0 to |descs|
      invariant docs == Joined(descs[..i], true)
    {
      var desc := descs[i];
      assert descs[..i + 1][..i] == descs[..i];
      if EndsInOneOf(desc, "。、") {
        docs := docs + desc;
      } else if EndsInOneOf(desc, "！？") {
        docs := docs + (desc + "　");
      } else if EndsInOneOf(desc, "」』）") {
        docs := docs + desc;
      } else if desc != "" {
        docs := docs + (desc + "。");
      }
    }
    assert descs[..|descs|] == descs;
    if EndsMarkSpace(docs) {
      docs := docs[..|docs| - 1] + [bracket];
    } else if EndsInOneOf(docs, "。") {
      docs := docs[..|docs| - 1] + [bracket];
    }
  }

  method CompleteDesc(descs: seq<string>) returns (docs: string)
    ensures docs == CompletedDesc(descs)
  {
    docs := "";
    for i := 0 to |descs|
      invariant docs == Joined(descs[..i], false)
    {
      var desc := descs[i];
      assert descs[..i + 1][..i] == descs[..i];
      if EndsInOneOf(desc, "。、") {
        docs := docs + desc;
      } else if EndsInOneOf(desc, "！？") {
        docs := docs + (desc + "　");
      } else if desc != "" {
        docs := docs + (desc + "。");
      }
    }
    assert descs[..|descs|] == descs;
    if EndsMarkSpace(docs) {
      docs := docs[..|docs| - 1];
    }
  }

  /** The last fragment that is not empty, if any. */
  function LastNonEmpty(descs: seq<string>): (r: Option<string>)
    ensures r.Some? ==> r.value != "" && r.value in descs
    ensures r == None <==> forall k :: 0 <= k < |descs| ==> descs[k] == ""
  {
    if descs == [] then None
    else if Last(descs) != "" then Some(Last(descs))
    else LastNonEmpty(descs[..|descs| - 1])
  }

  /** The joined string ends with the terminated last non-empty fragment; with no
      such fragment it is empty. */
  lemma {:induction false} JoinedEnd(descs: seq<string>, inBrackets: bool)
    ensures LastNonEmpty(descs) == None ==> Joined(descs, inBrackets) == ""
    ensures LastNonEmpty(descs).Some? ==>
      EndsWith(Joined(descs, inBrackets), Terminated(LastNonEmpty(descs).value, inBrackets))
    decreases |descs|
  {
    if descs != [] {
      var pre := descs[..|descs| - 1];
      var docs := Joined(descs, inBrackets);
      JoinedEnd(pre, inBrackets);
      if Last(descs) == "" {
        assert docs == Joined(pre, inBrackets) + "" == Joined(pre, inBrackets);
        assert LastNonEmpty(descs) == LastNonEmpty(pre);
      } else {
        var t := Terminated(Last(descs), inBrackets);
        assert docs == Joined(pre, inBrackets) + t;
        assert docs[|docs| - |t|..] == t;
      }
    }
  }

  lemma CloseUtteranceAfter(pre: string, l: string, bracket: char)
    requires l != ""
    ensures EndsInOneOf(l, "、」』）") ==> CloseUtterance(pre + Terminated(l, true), bracket) == pre + l
    ensures EndsInOneOf(l, "。") ==> CloseUtterance(pre + Terminated(l, true), bracket) == pre + (l[..|l| - 1] + [bracket])
    ensures !EndsInOneOf(l, "。、」』）") ==> CloseUtterance(pre + Terminated(l, true), bracket) == pre + (l + [bracket])
  {
    if EndsInOneOf(l, "、」』）") {
      LastAfterPrefix(pre, l);
    } else if EndsInOneOf(l, "。") {
      LastAfterPrefix(pre, l);
      AppendAssoc(pre, l[..|l| - 1], [bracket]);
    } else if EndsInOneOf(l, "！？") {
      assert Terminated(l, true) == l + "　";
      AppendedCharAfter(pre, l, '　');
      AppendAssoc(pre, l, [bracket]);
    } else {
      assert Terminated(l, true) == l + "。";
      AppendedCharAfter(pre, l, '。');
      AppendAssoc(pre, l, [bracket]);
    }
  }

  /** Appending a non-empty `l` makes its last character the last one, and dropping that
      character drops it from `l`. */
  lemma LastAfterPrefix(pre: string, l: string)
    requires l != ""
    ensures Last(pre + l) == Last(l)
    ensures (pre + l)[..|pre + l| - 1] == pre + l[..|l| - 1]
  {
  }


  lemma TrimMarkSpaceAfter(pre: string, l: string)
    requires l != ""
    ensures EndsInOneOf(l, "。、！？") ==> TrimMarkSpace(pre + Terminated(l, false)) == pre + l
    ensures !EndsInOneOf(l, "。、！？") ==> TrimMarkSpace(pre + Terminated(l, false)) == pre + (l + "。")
  {
    var docs := pre + Terminated(l, false);
    if EndsInOneOf(l, "。、") {
      assert docs == pre + l && Last(docs) == Last(l);
    } else if EndsInOneOf(l, "！？") {
      assert docs == (pre + l) + "　";
      assert docs[|docs| - 2] == Last(l);
      assert docs[..|docs| - 1] == pre + l;
    } else {
      assert docs == (pre + l) + "。";
    }
  }

  /** How an utterance ends: the final `。` of its last non-empty fragment becomes the
      closing bracket; after `！`, `？` or no mark at all the bracket is added; a final
      `、` or closing bracket is left alone; with no text the result is empty. */
  lemma DialogueEnding(descs: seq<string>, bracket: char)
    ensures LastNonEmpty(descs) == None ==> CompletedDialogue(descs, bracket) == ""
    ensures LastNonEmpty(descs).Some? ==>
      var l := LastNonEmpty(descs).value;
      var r := CompletedDialogue(descs, bracket);
      (EndsInOneOf(l, "、」』）") ==> EndsWith(r, l))
      && (EndsInOneOf(l, "。") ==> EndsWith(r, l[..|l| - 1] + [bracket]))
      && (!EndsInOneOf(l, "。、」』）") ==> EndsWith(r, l + [bracket]))
  {
    JoinedEnd(descs, true);
    if LastNonEmpty(descs).Some? {
      var l := LastNonEmpty(descs).value;
      var docs := Joined(descs, true);
      var t := Terminated(l, true);
      EndsWithSplit(docs, t);
      CloseUtteranceEnds(docs[..|docs| - |t|], l, bracket);
    }
  }

  lemma CloseUtteranceEnds(pre: string, l: string, bracket: char)
    requires l != ""
    ensures var r := CloseUtterance(pre + Terminated(l, true), bracket);
      (EndsInOneOf(l, "、」』）") ==> EndsWith(r, l))
      && (EndsInOneOf(l, "。") ==> EndsWith(r, l[..|l| - 1] + [bracket]))
      && (!EndsInOneOf(l, "。、」』）") ==> EndsWith(r, l + [bracket]))
  {
    CloseUtteranceAfter(pre, l, bracket);
    if EndsInOneOf(l, "、」』）") {
      EndsWithAppend(pre, l);
    } else if EndsInOneOf(l, "。") {
      EndsWithAppend(pre, l[..|l| - 1] + [bracket]);
    } else {
      EndsWithAppend(pre, l + [bracket]);
    }
  }


  /** Completing an utterance rewrites at most its last character. */
  lemma DialogueRewritesOnlyLastChar(descs: seq<string>, bracket: char)
    ensures |CompletedDialogue(descs, bracket)| == |Joined(descs, true)|
    ensures Joined(descs, true) != "" ==>
      CompletedDialogue(descs, bracket)[..|Joined(descs, true)| - 1] == Joined(descs, true)[..|Joined(descs, true)| - 1]
  {
  }

  /** How a description ends: its last non-empty fragment, closed with `。` unless it
      already ends in `。`, `、`, `！` or `？`; with no text the result is empty. */
  lemma DescriptionEnding(descs: seq<string>)
    ensures LastNonEmpty(descs) == None ==> CompletedDesc(descs) == ""
    ensures LastNonEmpty(descs).Some? ==>
      var l := LastNonEmpty(descs).value;
      var r := CompletedDesc(descs);
      (EndsInOneOf(l, "。、！？") ==> EndsWith(r, l))
      && (!EndsInOneOf(l, "。、！？") ==> EndsWith(r, l + "。"))
    ensures CompletedDesc(descs) != "" ==> EndsInOneOf(CompletedDesc(descs), "。、！？")
  {
    JoinedEnd(descs, false);
    if LastNonEmpty(descs).Some? {
      var l := LastNonEmpty(descs).value;
      var docs := Joined(descs, false);
      var t := Terminated(l, false);
      var pre := docs[..|docs| - |t|];
      assert docs == pre + t;
      TrimMarkSpaceAfter(pre, l);
    }
  }

  /** The number of marks the loops insert: one per non-empty fragment that does not
      already end a clause (or, inside brackets, with a closing bracket). */
  function Inserted(descs: seq<string>, inBrackets: bool): nat
  {
    if descs == [] then 0
    else
      var d := Last(descs);
      Inserted(descs[..|descs| - 1], inBrackets)
      + (if d == "" || EndsInOneOf(d, "。、") || (inBrackets && EndsInOneOf(d, "」』）")) then 0 else 1)
  }

  /** Joining only inserts marks: every character of every fragment is kept, in order,
      and exactly the counted marks are added. */
  lemma {:induction false} JoinedKeepsFragments(descs: seq<string>, inBrackets: bool)
    ensures IsSubseq(Concat(descs), Joined(descs, inBrackets))
    ensures |Joined(descs, inBrackets)| == |Concat(descs)| + Inserted(descs, inBrackets)
    decreases |descs|
  {
    if descs == [] {
      SubseqEmpty<char>([]);
    } else {
      var pre := descs[..|descs| - 1];
      var d := Last(descs);
      var t := Terminated(d, inBrackets);
      JoinedKeepsFragments(pre, inBrackets);
      assert t == d + t[|d|..];
      SubseqEmpty(t[|d|..]);
      SubseqRefl(d);
      SubseqConcat(d, d, [], t[|d|..]);
      assert d + [] == d;
      SubseqConcat(Concat(pre), Joined(pre, inBrackets), d, t);
    }
  }

  /** A description keeps every character of its fragments, in order. */
  lemma DescriptionKeepsFragments(descs: seq<string>)
    ensures IsSubseq(Concat(descs), CompletedDesc(descs))
  {
    JoinedKeepsFragments(descs, false);
    var docs := Joined(descs, false);
    if EndsMarkSpace(docs) {
      DescriptionDropsOnlyInsertedSpace(descs);
    }
  }

  lemma {:induction false} DescriptionDropsOnlyInsertedSpace(descs: seq<string>)
    requires EndsMarkSpace(Joined(descs, false))
    ensures IsSubseq(Concat(descs), CompletedDesc(descs))
    decreases |descs|
  {
    var pre := descs[..|descs| - 1];
    var d := Last(descs);
    if d == "" {
      EmptyFragmentAddsNothing(descs);
      DescriptionDropsOnlyInsertedSpace(pre);
    } else {
      MarkSpaceIsInserted(pre, d);
      JoinedKeepsFragments(pre, false);
      SubseqRefl(d);
      SubseqConcat(Concat(pre), Joined(pre, false), d, d);
      TrimmedDescription(descs);
    }
  }

  lemma EmptyFragmentAddsNothing(descs: seq<string>)
    requires descs != [] && Last(descs) == ""
    ensures Joined(descs, false) == Joined(descs[..|descs| - 1], false)
    ensures Concat(descs) == Concat(descs[..|descs| - 1])
    ensures CompletedDesc(descs) == CompletedDesc(descs[..|descs| - 1])
  {
    assert Joined(descs, false) == Joined(descs[..|descs| - 1], false) + "";
    assert Concat(descs) == Concat(descs[..|descs| - 1]) + "";
  }

  /** When the joined text ends in a mark and a space, the space came from the last fragment. */
  lemma MarkSpaceIsInserted(pre: seq<string>, d: string)
    requires d != "" && EndsMarkSpace(Joined(pre, false) + Terminated(d, false))
    ensures Terminated(d, false) == d + "　"
  {
    var t := Terminated(d, false);
    var docs := Joined(pre, false) + t;
    assert Last(docs) == Last(t);
  }

  lemma TrimmedDescription(descs: seq<string>)
    requires descs != [] && Last(descs) != ""
    requires Terminated(Last(descs), false) == Last(descs) + "　"
    ensures Concat(descs) == Concat(descs[..|descs| - 1]) + Last(descs)
    ensures CompletedDesc(descs) == Joined(descs[..|descs| - 1], false) + Last(descs)
  {
    var pre := descs[..|descs| - 1];
    var d := Last(descs);
    var j := Joined(pre, false);
    MarkBeforeInsertedSpace(d);
    var docs := j + (d + "　");
    assert Joined(descs, false) == docs;
    AppendedCharAfter(j, d, '　');
    assert EndsMarkSpace(docs);
    assert TrimMarkSpace(docs) == j + d;
  }

  lemma AppendedCharAfter(j: string, d: string, c: char)
    requires d != []
    ensures |j + (d + [c])| >= 2
    ensures (j + (d + [c]))[|j + (d + [c])| - 2] == d[|d| - 1]
    ensures (j + (d + [c]))[..|j + (d + [c])| - 1] == j + d
  {
  }

  lemma MarkBeforeInsertedSpace(d: string)
    requires d != "" && Terminated(d, false) == d + "　"
    ensures d[|d| - 1] in "！？"
  {
    assert Terminated(d, false)[|d|] == '　';
  }



  /** A single fragment that already closes its bracket is left as it is. */
  lemma ClosedUtteranceUnchanged(desc: string, bracket: char)
    requires EndsInOneOf(desc, "」』）")
    ensures CompletedDialogue([desc], bracket) == desc
  {
    JoinedSingle(desc, true);
    TerminatedClosed(desc);
    CloseUtteranceKeepsClosed(desc, bracket);
  }

  lemma TerminatedClosed(desc: string)
    requires EndsInOneOf(desc, "」』）")
    ensures Terminated(desc, true) == desc
  {
    assert !EndsInOneOf(desc, "。、！？");
  }

  lemma CloseUtteranceKeepsClosed(docs: string, bracket: char)
    requires EndsInOneOf(docs, "」』）")
    ensures CloseUtterance(docs, bracket) == docs
  {
    assert Last(docs) == docs[|docs| - 1];
  }

  lemma JoinedSingle(d: string, inBrackets: bool)
    ensures Joined([d], inBrackets) == Terminated(d, inBrackets)
  {
    assert [d][..0] == [];
    assert Joined([d], inBrackets) == "" + Terminated(d, inBrackets);
  }

  lemma ClosedUtteranceExample()
    ensures CompletedDialogue(["hello」"], '」') == "hello」"
  {
    ClosedUtteranceUnchanged("hello」", '」');
  }

  /** Two lines of one utterance: the first is closed with `。` and the two are joined
      without a space; the final `。` becomes the bracket. */
  lemma TwoLineUtteranceExample()
    ensures CompletedDialogue(["「Hello", "world"], '」') == "「Hello。world」"
  {
    var descs := ["「Hello", "world"];
    assert descs[..1] == ["「Hello"] && descs[..1][..0] == [];
    assert Joined(descs, true) == "「Hello。world。";
  }

  // ---------------------------------------------------------------------------
  // The pre-formatter: one output line per shown unit
  // ---------------------------------------------------------------------------

  /** `_convSceneInfoFromDesc`: the heading mark `## ` becomes `○`; any other text is kept. */
  function SceneInfoFromDesc(desc: string): (r: string)
    ensures BeginHead2(desc) ==> r != "" && r[0] == '○' && "## " + r[1..] == desc
    ensures !BeginHead2(desc) ==> r == desc
  {
    if BeginHead2(desc) then "○" + desc[3..] else desc
  }

  /** The line a unit contributes, if any: scene headings only for screenplays,
      comments only when they are shown, never the sub-information lines. */
  function FormatUnit(u: DocInfo, isScreenplay: bool, isShowComment: bool): Option<string>
    requires WellFormedUnit(u)
  {
    match u.docType
    case Title => Some(u.descs[0])
    case Scene => if isScreenplay then Some(SceneInfoFromDesc(u.descs[0])) else None
    case SubInfo => None
    case Plain => Some(u.descs[0])
    case Dialogue => Some(CompletedDialogue(u.descs, '」'))
    case Voice => Some(CompletedDialogue(u.descs, '』'))
    case Think => Some(CompletedDialogue(u.descs, '）'))
    case Comment => if isShowComment then Some(u.descs[0]) else None
    case Break => Some("")
    case Description => Some("　" + CompletedDesc(u.descs))
  }

  /** The pre-formatted lines of `units`, in order. */
  function PreFormatted(units: seq<DocInfo>, isScreenplay: bool, isShowComment: bool): seq<string>
    requires WellFormed(units)
  {
    if units == [] then []
    else
      var pre := PreFormatted(units[..|units| - 1], isScreenplay, isShowComment);
      match FormatUnit(Last(units), isScreenplay, isShowComment)
      case None => pre
      case Some(line) => pre + [line]
  }

  /** `_convDocPreFormat`. */
  method ConvDocPreFormat(docInfos: seq<DocInfo>, isScreenplay: bool, isShowComment: bool)
    returns (formatted: seq<string>)
    requires WellFormed(docInfos)
    ensures formatted == PreFormatted(docInfos, isScreenplay, isShowComment)
  {
    formatted := [];
    for i := 0 to |docInfos|
      invariant formatted == PreFormatted(docInfos[..i], isScreenplay, isShowComment)
    {
      var info := docInfos[i];
      var descs := info.descs;
      assert docInfos[..i + 1][..i] == docInfos[..i] && Last(docInfos[..i + 1]) == info;
      if info.docType == Title {
        formatted := formatted + [descs[0]];
      } else if info.docType == Scene {
        if isScreenplay {
          formatted := formatted + [SceneInfoFromDesc(descs[0])];
        }
      } else if info.docType == SubInfo {
      } else if info.docType == Plain {
        formatted := formatted + [descs[0]];
      } else if info.docType == Dialogue {
        var line := CompleteDialogue(descs, '」');
        formatted := formatted + [line];
      } else if info.docType == Voice {
        var line := CompleteDialogue(descs, '』');
        formatted := formatted + [line];
      } else if info.docType == Think {
        var line := CompleteDialogue(descs, '）');
        formatted := formatted + [line];
      } else if info.docType == Comment {
        if isShowComment {
          formatted := formatted + [descs[0]];
        }
      } else if info.docType == Break {
        formatted := formatted + [""];
      } else {
        var desc := CompleteDesc(descs);
        formatted := formatted + ["　" + desc];
      }
    }
    assert docInfos[..|docInfos|] == docInfos;
  }

  /** Whether a unit shows up in the output, stated from its kind alone. */
  predicate Shown(t: DocType, isScreenplay: bool, isShowComment: bool)
  {
    t != SubInfo && (t == Scene ==> isScreenplay) && (t == Comment ==> isShowComment)
  }

  function ShownCount(units: seq<DocInfo>, isScreenplay: bool, isShowComment: bool): nat
  {
    if units == [] then 0
    else ShownCount(units[1..], isScreenplay, isShowComment) + (if Shown(units[0].docType, isScreenplay, isShowComment) then 1 else 0)
  }

  lemma {:induction false} PreFormattedAppend(a: seq<DocInfo>, b: seq<DocInfo>, sp: bool, sc: bool)
    requires WellFormed(a) && WellFormed(b)
    ensures WellFormed(a + b)
    ensures PreFormatted(a + b, sp, sc) == PreFormatted(a, sp, sc) + PreFormatted(b, sp, sc)
    decreases |b|
  {
    var ab := a + b;
    assert forall k :: 0 <= k < |ab| ==> ab[k] == (if k < |a| then a[k] else b[k - |a|]);
    if b == [] {
      assert ab == a;
    } else {
      var b' := b[..|b| - 1];
      assert ab[..|ab| - 1] == a + b';
      assert WellFormed(b') by {
        forall k | 0 <= k < |b'| ensures WellFormedUnit(b'[k]) {
          assert b'[k] == b[k];
        }
      }
      PreFormattedAppend(a, b', sp, sc);
    }
  }

  /** Exactly the shown units contribute a line, one each, in order. */
  lemma {:induction false} PreFormattedLength(units: seq<DocInfo>, sp: bool, sc: bool)
    requires WellFormed(units)
    ensures |PreFormatted(units, sp, sc)| == ShownCount(units, sp, sc)
    decreases |units|
  {
    if units != [] {
      var rest := units[1..];
      assert units == [units[0]] + rest;
      assert WellFormed([units[0]]);
      assert WellFormed(rest) by {
        forall k | 0 <= k < |rest| ensures WellFormedUnit(rest[k]) {
          assert rest[k] == units[k + 1];
        }
      }
      PreFormattedAppend([units[0]], rest, sp, sc);
      assert [units[0]][..0] == [];
      PreFormattedLength(rest, sp, sc);
    }
  }

  /** A break becomes an empty line, and a description an indented line that ends in
      `。`, `、`, `！` or `？` unless all its fragments are empty. */
  lemma BreakAndDescriptionLines(u: DocInfo, sp: bool, sc: bool)
    requires WellFormedUnit(u)
    ensures u.docType == Break ==> FormatUnit(u, sp, sc) == Some("")
    ensures u.docType == Description ==>
      var line := FormatUnit(u, sp, sc).value;
      line[0] == '　'
      && (line == "　" <==> LastNonEmpty(u.descs) == None)
      && (line != "　" ==> EndsInOneOf(line, "。、！？"))
  {
    if u.docType == Description {
      var d := CompletedDesc(u.descs);
      DescriptionEnding(u.descs);
      if LastNonEmpty(u.descs).Some? {
        var l := LastNonEmpty(u.descs).value;
        assert d != "";
      }
      assert "　" + d == "　" <==> d == "";
    }
  }

  // ---------------------------------------------------------------------------
  // The layouts
  // ---------------------------------------------------------------------------

  /** Every line followed by a line break. */
  function DefaultRendering(lines: seq<string>): string
  {
    if lines == [] then "" else lines[0] + "\n" + DefaultRendering(lines[1..])
  }

  /** `_formatAsDefault`. */
  method FormatAsDefault(documents: seq<string>) returns (formatted: string)
    ensures formatted == DefaultRendering(documents)
  {
    formatted := "";
    for i := 0 to |documents|
      invariant formatted + DefaultRendering(documents[i..]) == DefaultRendering(documents)
    {
      assert documents[i..][1..] == documents[i + 1..];
      formatted := formatted + documents[i] + "\n";
    }
  }

  lemma {:induction false} DefaultIsJoin(lines: seq<string>)
    ensures DefaultRendering(lines) == Join(lines + [""], '\n')
    decreases |lines|
  {
    if lines != [] {
      DefaultIsJoin(lines[1..]);
      assert (lines + [""])[1..] == lines[1..] + [""];
    }
  }

  /** Splitting the default layout at line breaks gives back the lines, followed by the
      empty text after the last break. */
  lemma DefaultRoundTrip(lines: seq<string>)
    requires forall k :: 0 <= k < |lines| ==> '\n' !in lines[k]
    ensures Split(DefaultRendering(lines), '\n') == lines + [""]
  {
    DefaultIsJoin(lines);
    var parts := lines + [""];
    assert forall k :: 0 <= k < |parts| ==> '\n' !in parts[k] by {
      forall k | 0 <= k < |parts| ensures '\n' !in parts[k] {
        if k < |lines| { assert parts[k] == lines[k]; }
      }
    }
    SplitJoin(parts, '\n');
  }

  /** The default layout is every line's characters plus one line break per line. */
  lemma {:induction false} DefaultRenderingLength(lines: seq<string>)
    ensures |DefaultRendering(lines)| == |Concat(lines)| + |lines|
    decreases |lines|
  {
    if lines != [] {
      DefaultRenderingLength(lines[1..]);
      assert lines == [lines[0]] + lines[1..];
      ConcatAppend([lines[0]], lines[1..]);
      assert Concat([lines[0]]) == Concat([]) + lines[0];
    }
  }

  /** The web-novel loop's state: the text so far and whether a description or a
      dialogue block is open. */
  datatype WebState = WebState(formatted: string, inDesc: bool, inDialogue: bool)

  /** One iteration of `_formatAsWebNovel`. */
  function WebStep(st: WebState, line: string): WebState
  {
    if BeginBracket1(line) then
      if st.inDialogue then WebState(st.formatted + line + "\n", false, true)
      else WebState(st.formatted + "\n" + line + "\n", false, true)
    else if BeginHead1(line) then
      if st.formatted == "" then WebState(line + "\n\n", false, false)
      else WebState(st.formatted + "\n" + line + "\n", false, false)
    else if line != "" then
      if st.inDesc then WebState(st.formatted + line + "\n", true, false)
      else WebState(st.formatted + "\n" + line + "\n", true, false)
    else WebState(st.formatted + "\n", st.inDesc, st.inDialogue)
  }

  function WebFrom(st: WebState, lines: seq<string>): WebState
    decreases |lines|
  {
    if lines == [] then st else WebFrom(WebStep(st, lines[0]), lines[1..])
  }

  function WebRendering(lines: seq<string>): string
  {
    WebFrom(WebState("", false, false), lines).formatted
  }

  /** `_formatAsWebNovel`. */
  method FormatAsWebNovel(documents: seq<string>) returns (formatted: string)
    ensures formatted == WebRendering(documents)
  {
    formatted := "";
    var inDesc := false;
    var inDialogue := false;
    for i := 0 to |documents|
      invariant WebFrom(WebState(formatted, inDesc, inDialogue), documents[i..]) == WebFrom(WebState("", false, false), documents)
    {
      var line := documents[i];
      ghost var before := WebState(formatted, inDesc, inDialogue);
      assert documents[i..][1..] == documents[i + 1..];
      assert WebFrom(before, documents[i..]) == WebFrom(WebStep(before, line), documents[i + 1..]);
      if BeginBracket1(line) {
        if inDialogue {
          formatted := formatted + line + "\n";
        } else {
          inDialogue := true;
          formatted := formatted + "\n" + line + "\n";
        }
        inDesc := false;
      } else if BeginHead1(line) {
        if formatted == "" {
          formatted := line + "\n\n";
        } else {
          formatted := formatted + "\n" + line + "\n";
        }
        inDesc, inDialogue := false, false;
      } else if line != "" {
        if inDesc {
          formatted := formatted + line + "\n";
        } else {
          inDesc := true;
          formatted := formatted + "\n" + line + "\n";
        }
        inDialogue := false;
      } else {
        formatted := formatted + line + "\n";
        assert formatted == before.formatted + "\n";
      }
      assert WebState(formatted, inDesc, inDialogue) == WebStep(before, line);
    }
  }

  /** The lines of the web layout, stated as a list: a blank line opens every dialogue
      block, every description block and every title but a leading one, which is
      followed by a blank line instead. */
  function WebLines(lines: seq<string>, first: bool, inDesc: bool, inDialogue: bool): seq<string>
    decreases |lines|
  {
    if lines == [] then []
    else
      var l, rest := lines[0], lines[1..];
      if BeginBracket1(l) then (if inDialogue then [l] else ["", l]) + WebLines(rest, false, false, true)
      else if BeginHead1(l) then (if first then [l, ""] else ["", l]) + WebLines(rest, false, false, false)
      else if l != "" then (if inDesc then [l] else ["", l]) + WebLines(rest, false, true, false)
      else [""] + WebLines(rest, false, inDesc, inDialogue)
  }

  lemma DefaultRenderingAppend(a: seq<string>, b: seq<string>)
    ensures DefaultRendering(a + b) == DefaultRendering(a) + DefaultRendering(b)
    decreases |a|
  {
    if a != [] {
      assert (a + b)[1..] == a[1..] + b;
      DefaultRenderingAppend(a[1..], b);
    } else {
      assert a + b == b;
    }
  }

  lemma DefaultRenderingShort(a: string, b: string)
    ensures DefaultRendering([a]) == a + "\n"
    ensures DefaultRendering([a, b]) == a + "\n" + b + "\n"
  {
    assert [a][1..] == [];
    assert DefaultRendering([b]) == b + "\n" + DefaultRendering([b][1..]);
    assert [b][1..] == [];
    assert [a, b][1..] == [b];
  }

  /** The lines `WebLines` writes for one input line, and the flags it goes on with. */
  lemma WebLinesCons(l: string, rest: seq<string>, first: bool, inDesc: bool, inDialogue: bool)
    ensures BeginBracket1(l) ==>
      WebLines([l] + rest, first, inDesc, inDialogue) == (if inDialogue then [l] else ["", l]) + WebLines(rest, false, false, true)
    ensures !BeginBracket1(l) && BeginHead1(l) ==>
      WebLines([l] + rest, first, inDesc, inDialogue) == (if first then [l, ""] else ["", l]) + WebLines(rest, false, false, false)
    ensures !BeginBracket1(l) && !BeginHead1(l) && l != "" ==>
      WebLines([l] + rest, first, inDesc, inDialogue) == (if inDesc then [l] else ["", l]) + WebLines(rest, false, true, false)
    ensures l == "" ==>
      WebLines([l] + rest, first, inDesc, inDialogue) == [""] + WebLines(rest, false, inDesc, inDialogue)
  {
    assert ([l] + rest)[0] == l && ([l] + rest)[1..] == rest;
  }

  /** The lines one web step writes for `l`. */
  function WebHead(st: WebState, l: string): seq<string>
  {
    if BeginBracket1(l) then (if st.inDialogue then [l] else ["", l])
    else if BeginHead1(l) then (if st.formatted == "" then [l, ""] else ["", l])
    else if l != "" then (if st.inDesc then [l] else ["", l])
    else [""]
  }

  /** One web step appends the default layout of the lines it writes, so the text is
      never empty afterwards. */
  lemma WebStepWrites(st: WebState, l: string)
    ensures WebStep(st, l).formatted == st.formatted + DefaultRendering(WebHead(st, l))
    ensures WebStep(st, l).formatted != ""
  {
    DefaultRenderingShort(l, "");
    DefaultRenderingShort("", l);
  }

  /** `WebLines` writes the same lines for `l` and goes on with the flags of the web step. */
  lemma WebLinesStep(st: WebState, l: string, rest: seq<string>)
    ensures WebLines([l] + rest, st.formatted == "", st.inDesc, st.inDialogue)
      == WebHead(st, l) + WebLines(rest, false, WebStep(st, l).inDesc, WebStep(st, l).inDialogue)
  {
    WebLinesCons(l, rest, st.formatted == "", st.inDesc, st.inDialogue);
  }

  /** The web loop writes out the default layout of `WebLines`. */
  lemma {:induction false} WebFromIsDefaultOfWebLines(st: WebState, lines: seq<string>)
    ensures WebFrom(st, lines).formatted
      == st.formatted + DefaultRendering(WebLines(lines, st.formatted == "", st.inDesc, st.inDialogue))
    decreases |lines|
  {
    if lines == [] {
      assert st.formatted + "" == st.formatted;
    } else {
      var l, rest := lines[0], lines[1..];
      var st' := WebStep(st, l);
      var head := WebHead(st, l);
      var tail := WebLines(rest, false, st'.inDesc, st'.inDialogue);
      WebFromIsDefaultOfWebLines(st', rest);
      WebStepWrites(st, l);
      assert lines == [l] + rest;
      WebLinesStep(st, l, rest);
      DefaultRenderingAppend(head, tail);
      WebFromUnfold(st, lines);
      AppendAssoc(st.formatted, DefaultRendering(head), DefaultRendering(tail));
    }
  }

  lemma WebFromUnfold(st: WebState, lines: seq<string>)
    requires lines != []
    ensures WebFrom(st, lines) == WebFrom(WebStep(st, lines[0]), lines[1..])
  {
  }

  /** The lines that are not blank. */
  function NonBlank(lines: seq<string>): seq<string>
  {
    if lines == [] then [] else (if lines[0] == "" then [] else [lines[0]]) + NonBlank(lines[1..])
  }

  lemma {:induction false} NonBlankAppend(a: seq<string>, b: seq<string>)
    ensures NonBlank(a + b) == NonBlank(a) + NonBlank(b)
    decreases |a|
  {
    if a == [] {
      assert a + b == b;
    } else {
      assert (a + b)[1..] == a[1..] + b;
      NonBlankAppend(a[1..], b);
    }
  }

  /** The web layout only adds blank lines: the non-blank lines are the input's, in order,
      and every line it writes is blank or an input line. */
  lemma {:induction false} WebLinesOnlyAddBlanks(lines: seq<string>, first: bool, inDesc: bool, inDialogue: bool)
    ensures NonBlank(WebLines(lines, first, inDesc, inDialogue)) == NonBlank(lines)
    ensures forall x :: x in WebLines(lines, first, inDesc, inDialogue) ==> x == "" || x in lines
    decreases |lines|
  {
    if lines != [] {
      var l, rest := lines[0], lines[1..];
      assert lines == [l] + rest;
      if BeginBracket1(l) {
        WebLinesOnlyAddBlanks(rest, false, false, true);
        BlankHeadStep(if inDialogue then [l] else ["", l], l, rest, WebLines(rest, false, false, true));
      } else if BeginHead1(l) {
        WebLinesOnlyAddBlanks(rest, false, false, false);
        BlankHeadStep(if first then [l, ""] else ["", l], l, rest, WebLines(rest, false, false, false));
      } else if l != "" {
        WebLinesOnlyAddBlanks(rest, false, true, false);
        BlankHeadStep(if inDesc then [l] else ["", l], l, rest, WebLines(rest, false, true, false));
      } else {
        WebLinesOnlyAddBlanks(rest, false, inDesc, inDialogue);
        BlankHeadStep([""], l, rest, WebLines(rest, false, inDesc, inDialogue));
      }
    }
  }

  /** Writing `l` with blank lines around it in front of a tail that only adds blanks
      to `rest` only adds blanks to `[l] + rest`. */
  lemma BlankHeadStep(head: seq<string>, l: string, rest: seq<string>, tail: seq<string>)
    requires head == [l] || head == ["", l] || head == [l, ""] || (head == [""] && l == "")
    requires NonBlank(tail) == NonBlank(rest) && forall x :: x in tail ==> x == "" || x in rest
    ensures NonBlank(head + tail) == NonBlank([l] + rest)
    ensures forall x :: x in head + tail ==> x == "" || x in [l] + rest
  {
    NonBlankAppend(head, tail);
    NonBlankAppend([l], rest);
    assert NonBlank(head) == NonBlank([l]);
  }


  /** Split back at line breaks, the web layout holds the input's non-blank lines in
      order and nothing else but blank lines. */
  lemma WebRoundTrip(lines: seq<string>)
    requires forall k :: 0 <= k < |lines| ==> '\n' !in lines[k]
    ensures NonBlank(Split(WebRendering(lines), '\n')) == NonBlank(lines)
  {
    var web := WebLines(lines, true, false, false);
    WebRenderingIsDefault(lines);
    WebLinesHaveNoBreak(lines);
    DefaultRoundTrip(web);
    TrailingBlankIgnored(web);
    WebLinesOnlyAddBlanks(lines, true, false, false);
  }

  lemma WebRenderingIsDefault(lines: seq<string>)
    ensures WebRendering(lines) == DefaultRendering(WebLines(lines, true, false, false))
  {
    WebFromIsDefaultOfWebLines(WebState("", false, false), lines);
  }

  lemma WebLinesHaveNoBreak(lines: seq<string>)
    requires forall k :: 0 <= k < |lines| ==> '\n' !in lines[k]
    ensures forall k :: 0 <= k < |WebLines(lines, true, false, false)| ==> '\n' !in WebLines(lines, true, false, false)[k]
  {
    var web := WebLines(lines, true, false, false);
    WebLinesOnlyAddBlanks(lines, true, false, false);
    forall k | 0 <= k < |web| ensures '\n' !in web[k] {
      assert web[k] in web;
    }
  }

  lemma TrailingBlankIgnored(a: seq<string>)
    ensures NonBlank(a + [""]) == NonBlank(a)
  {
    NonBlankAppend(a, [""]);
    assert NonBlank([""]) == [] + NonBlank([""][1..]);
  }


  /** A dialogue line right after a description line is set off by a blank line. */
  lemma WebSeparatesDialogue(desc: string, speech: string)
    requires desc != "" && !BeginBracket1(desc) && !BeginHead1(desc) && BeginBracket1(speech)
    ensures WebRendering([desc, speech]) == "\n" + desc + "\n\n" + speech + "\n"
  {
    var s1 := WebStep(WebState("", false, false), desc);
    assert s1 == WebState("\n" + desc + "\n", true, false);
    var s2 := WebStep(s1, speech);
    assert s2.formatted == "\n" + desc + "\n\n" + speech + "\n";
    assert [desc, speech][1..] == [speech];
    assert WebFrom(s1, [speech]) == WebFrom(s2, []);
  }

  // ---------------------------------------------------------------------------
  // The web layout's blank-line rule, stated from the input lines alone
  // ---------------------------------------------------------------------------

  /** The three kinds of line the web layout tells apart, and the empty line. */
  datatype WebKind = DialogueKind | TitleKind | TextKind | EmptyKind

  function WebKindOf(l: string): (k: WebKind)
    ensures k == EmptyKind <==> l == ""
  {
    if BeginBracket1(l) then DialogueKind
    else if BeginHead1(l) then TitleKind
    else if l != "" then TextKind
    else EmptyKind
  }

  /** The kind of the nearest non-empty line before index `i`, or `EmptyKind` when there is none. */
  function KindBefore(lines: seq<string>, i: nat): WebKind
    requires i <= |lines|
  {
    if i == 0 then EmptyKind
    else if lines[i - 1] != "" then WebKindOf(lines[i - 1])
    else KindBefore(lines, i - 1)
  }

  /** A blank line goes right before the non-empty line `i` when it is a title other
      than the first line, or when it is not a title and the nearest non-empty line
      before it is missing or of another kind. */
  predicate BlankBefore(lines: seq<string>, i: nat)
    requires i < |lines|
  {
    var k := WebKindOf(lines[i]);
    if k == TitleKind then i > 0 else KindBefore(lines, i) != k
  }

  /** The lines the web layout writes for input line `i`: an empty line stays one empty
      line, a leading title is followed by a blank line, and any other non-empty line
      is preceded by one exactly when `BlankBefore` holds. */
  function WebChunk(lines: seq<string>, i: nat): seq<string>
    requires i < |lines|
  {
    var l := lines[i];
    if l == "" then [""]
    else if WebKindOf(l) == TitleKind && i == 0 then [l, ""]
    else if BlankBefore(lines, i) then ["", l]
    else [l]
  }

  /** The chunks of the input lines from index `i` on, in order. */
  function WebChunksFrom(lines: seq<string>, i: nat): seq<string>
    requires i <= |lines|
    decreases |lines| - i
  {
    if i == |lines| then [] else WebChunk(lines, i) + WebChunksFrom(lines, i + 1)
  }

  /** Past line `i`, the nearest non-empty line is `i` itself unless it is empty. */
  lemma KindBeforeNext(lines: seq<string>, i: nat)
    requires i < |lines|
    ensures KindBefore(lines, i + 1) == if lines[i] == "" then KindBefore(lines, i) else WebKindOf(lines[i])
  {
  }

  /** `WebLines` from index `i`, with the flags the nearest earlier non-empty line sets,
      writes the chunks from `i` on. */
  lemma {:induction false} WebLinesFromChunks(lines: seq<string>, i: nat)
    requires i <= |lines|
    ensures WebLines(lines[i..], i == 0, KindBefore(lines, i) == TextKind, KindBefore(lines, i) == DialogueKind)
      == WebChunksFrom(lines, i)
    decreases |lines| - i
  {
    if i < |lines| {
      var l := lines[i];
      assert lines[i..] == [l] + lines[i + 1..];
      WebLinesCons(l, lines[i + 1..], i == 0, KindBefore(lines, i) == TextKind, KindBefore(lines, i) == DialogueKind);
      KindBeforeNext(lines, i);
      WebLinesFromChunks(lines, i + 1);
    }
  }

  /** The web layout puts its blank lines exactly where `WebChunk` says, for every input. */
  lemma WebLinesByPosition(lines: seq<string>)
    ensures WebLines(lines, true, false, false) == WebChunksFrom(lines, 0)
    ensures WebRendering(lines) == DefaultRendering(WebChunksFrom(lines, 0))
  {
    WebLinesFromChunks(lines, 0);
    assert lines[0..] == lines;
    WebRenderingIsDefault(lines);
  }

  /** `_formatDocument`: the default or the web layout; any other style gives no text. */
  function Rendered(documents: seq<string>, style: string): string
  {
    if style == "default" then DefaultRendering(documents)
    else if style == "web" then WebRendering(documents)
    else ""
  }

  method FormatDocument(documents: seq<string>, style: string) returns (formatted: string)
    ensures formatted == Rendered(documents, style)
  {
    formatted := "";
    if style == "default" {
      formatted := FormatAsDefault(documents);
    } else if style == "web" {
      formatted := FormatAsWebNovel(documents);
    }
  }

  // ---------------------------------------------------------------------------
  // The whole pipeline
  // ---------------------------------------------------------------------------

  /** The compiled manuscript of the draft texts `texts`, taken in file order. */
  function Compiled(texts: seq<string>, style: string, formatStyle: string, isShowComment: bool): string
  {
    var units := Classify(texts);
    Rendered(PreFormatted(units, style == "screenplay", isShowComment), formatStyle)
  }

  /** `compile`, from the draft texts on: classify, pre-format, lay out. */
  method Compile(texts: seq<string>, style: string, formatStyle: string, isShowComment: bool)
    returns (formatted: string)
    ensures formatted == Compiled(texts, style, formatStyle, isShowComment)
  {
    var docInfos := ConvDocInfo(texts);
    var isScreenplay := style == "screenplay";
    var preformatted := ConvDocPreFormat(docInfos, isScreenplay, isShowComment);
    formatted := FormatDocument(preformatted, formatStyle);
  }

  /** A layout style other than `default` and `web` compiles to no text at all. */
  lemma UnknownLayoutIsEmpty(texts: seq<string>, style: string, formatStyle: string, isShowComment: bool)
    requires formatStyle != "default" && formatStyle != "web"
    ensures Compiled(texts, style, formatStyle, isShowComment) == ""
  {
  }

  // ---------------------------------------------------------------------------
  // No fragment holds a line break, so the layouts can be split back into lines
  // ---------------------------------------------------------------------------

  predicate NoBreakIn(s: string) { '\n' !in s }

  predicate UnitHasNoLineBreak(u: DocInfo)
  {
    forall j :: 0 <= j < |u.descs| ==> NoBreakIn(u.descs[j])
  }

  predicate UnitsHaveNoLineBreak(units: seq<DocInfo>)
  {
    forall k :: 0 <= k < |units| ==> UnitHasNoLineBreak(units[k])
  }

  lemma PushNoLineBreak(units: seq<DocInfo>, u: DocInfo)
    requires UnitsHaveNoLineBreak(units) && UnitHasNoLineBreak(u)
    ensures UnitsHaveNoLineBreak(units + [u])
  {
    var r := units + [u];
    forall k | 0 <= k < |r| ensures UnitHasNoLineBreak(r[k]) {
      if k < |units| { assert r[k] == units[k]; }
    }
  }

  lemma StepNoLineBreak(st: Classifier, line: string)
    requires Valid(st) && UnitsHaveNoLineBreak(st.contents) && NoBreakIn(line)
    ensures UnitsHaveNoLineBreak(Step(st, line).contents)
  {
    var c := st.contents;
    var k := LineKindOf(line);
    if k == TextLine {
      if st.inDesc || st.inDialogue {
        AppendNoLineBreak(c, line);
      } else {
        PushNoLineBreak(c, DocInfo(Description, [line], None));
      }
    } else if k == EmptyLine {
      if !st.inScene && !st.inDialogue && !st.inDesc {
        PushNoLineBreak(c, DocInfo(Break, [], None));
      }
    } else if k == ScriptLine {
      SplitHasTwoPieces(line, ':');
      var data := Split(line, ':');
      SplitPieceChars(line, ':', 1);
      PushNoLineBreak(c, DocInfo(Dialogue, [data[1]], Some(data[0])));
    } else {
      HeadStepNoLineBreak(st, line);
    }
  }

  lemma AppendNoLineBreak(units: seq<DocInfo>, line: string)
    requires units != [] && UnitsHaveNoLineBreak(units) && NoBreakIn(line)
    ensures UnitsHaveNoLineBreak(AppendToLast(units, line))
  {
    var r := AppendToLast(units, line);
    forall k | 0 <= k < |r| ensures UnitHasNoLineBreak(r[k]) {
      if k < |units| - 1 {
        assert r[k] == r[..|r| - 1][k] == units[k];
      } else {
        assert r[k] == Last(units).(descs := Last(units).descs + [line]);
        assert UnitHasNoLineBreak(units[|units| - 1]);
      }
    }
  }

  lemma HeadStepNoLineBreak(st: Classifier, line: string)
    requires Valid(st) && UnitsHaveNoLineBreak(st.contents) && NoBreakIn(line)
    requires LineKindOf(line) !in {TextLine, EmptyLine, ScriptLine}
    ensures UnitsHaveNoLineBreak(Step(st, line).contents)
  {
    var c := st.contents;
    match LineKindOf(line)
    case TitleLine => PushNoLineBreak(c, DocInfo(Title, [line], None));
    case SceneLine => PushNoLineBreak(c, DocInfo(Scene, [line], None));
    case SubInfoLine => PushNoLineBreak(c, DocInfo(SubInfo, [line], None));
    case PlainLine =>
      assert forall ch :: ch in line[3..] ==> ch in line;
      PushNoLineBreak(c, DocInfo(Plain, [line[3..]], None));
    case DialogueLine => PushNoLineBreak(c, DocInfo(Dialogue, [line], None));
    case VoiceLine => PushNoLineBreak(c, DocInfo(Voice, [line], None));
    case ThinkLine => PushNoLineBreak(c, DocInfo(Think, [line], None));
    case CommentLine => PushNoLineBreak(c, DocInfo(Comment, [line], None));
  }


  lemma {:induction false} RunNoLineBreak(st: Classifier, lines: seq<string>)
    requires Valid(st) && UnitsHaveNoLineBreak(st.contents)
    requires forall k :: 0 <= k < |lines| ==> NoBreakIn(lines[k])
    ensures UnitsHaveNoLineBreak(RunFrom(st, lines).contents)
    decreases |lines|
  {
    if lines != [] {
      StepKeepsValid(st, lines[0]);
      StepNoLineBreak(st, lines[0]);
      RunNoLineBreak(Step(st, lines[0]), lines[1..]);
    }
  }

  lemma {:induction false} AllLinesHaveNoLineBreak(texts: seq<string>)
    ensures forall k :: 0 <= k < |AllLines(texts)| ==> NoBreakIn(AllLines(texts)[k])
    decreases |texts|
  {
    if texts != [] {
      SplitPiecesHaveNoSeparator(texts[0], '\n');
      AllLinesHaveNoLineBreak(texts[1..]);
      var a := Split(texts[0], '\n');
      var all := AllLines(texts);
      assert all == a + AllLines(texts[1..]);
      forall k | 0 <= k < |all| ensures NoBreakIn(all[k]) {
        if k < |a| { assert all[k] == a[k]; } else { assert all[k] == AllLines(texts[1..])[k - |a|]; }
      }
    }
  }

  lemma {:induction false} JoinedNoLineBreak(descs: seq<string>, inBrackets: bool)
    requires forall j :: 0 <= j < |descs| ==> NoBreakIn(descs[j])
    ensures NoBreakIn(Joined(descs, inBrackets))
    decreases |descs|
  {
    if descs != [] {
      var d := Last(descs);
      var t := Terminated(d, inBrackets);
      JoinedNoLineBreak(descs[..|descs| - 1], inBrackets);
      assert t == d + t[|d|..];
      assert t[|d|..] == [] || t[|d|..] == "　" || t[|d|..] == "。";
    }
  }

  lemma FormatUnitNoLineBreak(u: DocInfo, sp: bool, sc: bool)
    requires WellFormedUnit(u) && UnitHasNoLineBreak(u)
    ensures FormatUnit(u, sp, sc).Some? ==> NoBreakIn(FormatUnit(u, sp, sc).value)
  {
    if u.docType in {Dialogue, Voice, Think} {
      JoinedNoLineBreak(u.descs, true);
      var docs := Joined(u.descs, true);
      if docs != [] {
        assert forall c :: c in docs[..|docs| - 1] ==> c in docs;
      }
    } else if u.docType == Description {
      JoinedNoLineBreak(u.descs, false);
      var docs := Joined(u.descs, false);
      if docs != [] {
        assert forall c :: c in docs[..|docs| - 1] ==> c in docs;
      }
    } else if u.docType == Scene {
      assert NoBreakIn(u.descs[0]);
      if BeginHead2(u.descs[0]) {
        assert forall c :: c in u.descs[0][3..] ==> c in u.descs[0];
      }
    } else if u.docType != Break && u.docType != SubInfo {
      assert NoBreakIn(u.descs[0]);
    }
  }

  lemma {:induction false} PreFormattedNoLineBreak(units: seq<DocInfo>, sp: bool, sc: bool)
    requires WellFormed(units) && UnitsHaveNoLineBreak(units)
    ensures forall k :: 0 <= k < |PreFormatted(units, sp, sc)| ==> NoBreakIn(PreFormatted(units, sp, sc)[k])
    decreases |units|
  {
    if units != [] {
      var pre := units[..|units| - 1];
      assert forall k :: 0 <= k < |pre| ==> pre[k] == units[k];
      PreFormattedNoLineBreak(pre, sp, sc);
      FormatUnitNoLineBreak(Last(units), sp, sc);
    }
  }

  /** Every unit the classifier produces is free of line breaks. */
  lemma ClassifyNoLineBreak(texts: seq<string>)
    ensures UnitsHaveNoLineBreak(Classify(texts))
  {
    AllLinesHaveNoLineBreak(texts);
    RunNoLineBreak(Start, AllLines(texts));
  }

  /** In the default layout the compiled manuscript has exactly one line per shown
      unit, in order, each ended by a line break. */
  lemma DefaultLayoutLines(texts: seq<string>, style: string, isShowComment: bool)
    ensures var pre := PreFormatted(Classify(texts), style == "screenplay", isShowComment);
      Split(Compiled(texts, style, "default", isShowComment), '\n') == pre + [""]
      && |pre| == ShownCount(Classify(texts), style == "screenplay", isShowComment)
  {
    var units := Classify(texts);
    var sp := style == "screenplay";
    ClassifyNoLineBreak(texts);
    PreFormattedNoLineBreak(units, sp, isShowComment);
    DefaultRoundTrip(PreFormatted(units, sp, isShowComment));
    PreFormattedLength(units, sp, isShowComment);
  }

  /** In the web layout the compiled manuscript holds the same non-blank lines as the
      default one; only blank lines are added. */
  lemma WebLayoutLines(texts: seq<string>, style: string, isShowComment: bool)
    ensures NonBlank(Split(Compiled(texts, style, "web", isShowComment), '\n'))
      == NonBlank(PreFormatted(Classify(texts), style == "screenplay", isShowComment))
  {
    var units := Classify(texts);
    var sp := style == "screenplay";
    ClassifyNoLineBreak(texts);
    PreFormattedNoLineBreak(units, sp, isShowComment);
    WebRoundTrip(PreFormatted(units, sp, isShowComment));
  }
}
