/**
 Properties of `_preprocess_qasm`: what the 3.0 rewrite does to one line,
 what the 3.0 branch and the 2.0 branch produce, and that the whole
 preprocessor is idempotent, with exactly the documented fixed points.
 */
module QasmPreprocessProofs {
  import opened Options
  import opened Text
  import opened QasmPreprocess

  // ---------------------------------------------------------------------
  // Facts about the fixed literals

  /** `OPENQASM 3.0` holds no line feed and neither starts nor ends with
      whitespace, so it survives splitting and stripping. */
  lemma Version3Plain()
    ensures '\n' !in Version3 && Version3 != []
    ensures !IsSpace(Version3[0]) && !IsSpace(Version3[|Version3| - 1])
  {
  }

  /** The same for `OPENQASM 2.0`. */
  lemma Version2Plain()
    ensures '\n' !in Version2 && Version2 != []
    ensures !IsSpace(Version2[0]) && !IsSpace(Version2[|Version2| - 1])
  {
  }

  /** None of the three markers holds a line feed. */
  lemma MarkersLineFeedFree()
    ensures '\n' !in Version3 && '\n' !in Version2 && '\n' !in Include
  {
  }

  /** Neither emitted header line holds a line feed. */
  lemma HeaderLineFeedFree()
    ensures '\n' !in Version2Line && '\n' !in IncludeLine
  {
  }

  /** None of the replacement texts holds a line feed. */
  lemma ReplacementsLineFeedFree()
    ensures '\n' !in QregOpen && '\n' !in CregOpen && '\n' !in MeasureBare
  {
  }

  /** The emitted header lines carry the markers they stand for. */
  lemma HeaderMentionsMarkers()
    ensures Contains(IncludeLine, Include) && Contains(Version2Line, Version2)
  {
    assert OccursAt(IncludeLine, Include, 0);
    assert OccursAt(Version2Line, Version2, 0);
  }

  /** The emitted header lines do not mention `OPENQASM 3.0`. */
  lemma HeaderAvoidsVersion3()
    ensures !Contains(Version2Line, Version3) && !Contains(IncludeLine, Version3)
  {
    AbsentFirstChar(IncludeLine, Version3);
    AbsentFirstChar(Version2Line[1..], Version3);
    ContainsUnfold(Version2Line, Version3);
    assert Version2Line[..12][9] != Version3[9];
  }

  /** `qreg q[` cannot take part in an occurrence of `OPENQASM 3.0`. */
  lemma QregAvoidsVersion3()
    ensures NoneStartsIn(QregOpen, Version3) && NoneRunsInto(QregOpen, Version3)
  {
    AbsentFirstChar(QregOpen, Version3);
    AbsentLeadChar(QregOpen, Version3);
  }

  /** `creg c[` cannot take part in an occurrence of `OPENQASM 3.0`. */
  lemma CregAvoidsVersion3()
    ensures NoneStartsIn(CregOpen, Version3) && NoneRunsInto(CregOpen, Version3)
  {
    AbsentFirstChar(CregOpen, Version3);
    AbsentLeadChar(CregOpen, Version3);
  }

  /** ` measure ` cannot take part in an occurrence of `OPENQASM 3.0`. */
  lemma MeasureBareAvoidsVersion3()
    ensures NoneStartsIn(MeasureBare, Version3) && NoneRunsInto(MeasureBare, Version3)
  {
    AbsentFirstChar(MeasureBare, Version3);
    forall j | 1 <= j < |Version3|
      ensures !Compatible(MeasureBare, Version3[j..])
    {
      if j == 8 {
        assert MeasureBare[1] != Version3[9] && Version3[8..][1] == Version3[9];
      } else {
        assert Version3[j] != ' ' && Version3[j..][0] == Version3[j];
      }
    }
  }

  /** No occurrence of `OPENQASM 3.0` can start inside the declaration
      openings. */
  lemma OpeningsAvoidVersion3()
    ensures NoneStartsIn(QubitOpen, Version3) && NoneStartsIn(BitOpen, Version3)
  {
    AbsentFirstChar(QubitOpen, Version3);
    AbsentFirstChar(BitOpen, Version3);
  }

  /** ` = measure ` opens with a space followed by `=`. */
  lemma MeasureAssignShape()
    ensures |MeasureAssign| >= 2 && MeasureAssign[1] == '=' && MeasureAssign[0] != '='
  {
  }

  /** The openings neither start nor end with whitespace. */
  lemma OpeningsTrimmed()
    ensures !IsSpace(QubitOpen[0]) && !IsSpace(QubitOpen[|QubitOpen| - 1])
    ensures !IsSpace(BitOpen[0]) && !IsSpace(BitOpen[|BitOpen| - 1])
  {
  }

  /** The later replacements cannot reach into the register prefixes the
      earlier ones leave at the start of a declaration. */
  lemma ReplacementsKeepPrefixes()
    ensures NoneStartsIn(BitOpen, QubitOpen)
    ensures NoneStartsIn(QregOpen, BitOpen)
    ensures NoneStartsIn(QregOpen, MeasureAssign)
    ensures NoneStartsIn(CregOpen, MeasureAssign)
  {
    AbsentFirstChar(BitOpen, QubitOpen);
    AbsentFirstChar(QregOpen, BitOpen);
    forall k | 0 <= k < |QregOpen|
      ensures !Compatible(QregOpen[k..], MeasureAssign)
    {
      if k == 4 {
        assert QregOpen[4..][1] != MeasureAssign[1];
      } else {
        assert QregOpen[k..][0] == QregOpen[k] != ' ';
      }
    }
    forall k | 0 <= k < |CregOpen|
      ensures !Compatible(CregOpen[k..], MeasureAssign)
    {
      if k == 4 {
        assert CregOpen[4..][1] != MeasureAssign[1];
      } else {
        assert CregOpen[k..][0] == CregOpen[k] != ' ';
      }
    }
  }

  // ---------------------------------------------------------------------
  // The 3.0 branch, one line at a time

  /** The declaration rewrite introduces no `OPENQASM 3.0` and no line
      feed. */
  lemma DeclarationKeepsOut(line: string)
    ensures !Contains(line, Version3) ==> !Contains(RewriteDeclaration(line), Version3)
    ensures '\n' !in line ==> '\n' !in RewriteDeclaration(line)
  {
    var q := ReplaceAll(line, QubitOpen, QregOpen);
    QregAvoidsVersion3();
    ReplaceAllAvoids(line, QubitOpen, QregOpen, Version3);
    CregAvoidsVersion3();
    ReplaceAllAvoids(q, BitOpen, CregOpen, Version3);
    ReplacementsLineFeedFree();
    ReplaceAllKeepsCharOut(line, QubitOpen, QregOpen, '\n');
    ReplaceAllKeepsCharOut(q, BitOpen, CregOpen, '\n');
  }

  /** The measurement rewrite introduces no `OPENQASM 3.0` and no line
      feed. */
  lemma MeasureKeepsOut(line: string)
    ensures !Contains(line, Version3) ==> !Contains(RewriteMeasure(line), Version3)
    ensures '\n' !in line ==> '\n' !in RewriteMeasure(line)
  {
    MeasureBareAvoidsVersion3();
    ReplaceAllAvoids(line, MeasureAssign, MeasureBare, Version3);
    ReplacementsLineFeedFree();
    ReplaceAllKeepsCharOut(line, MeasureAssign, MeasureBare, '\n');
  }

  /** A rewritten line never mentions `OPENQASM 3.0`, and holds no line feed
      when its input held none. */
  lemma RewrittenLineClean(raw: string)
    ensures forall k | 0 <= k < |RewriteLine(raw)| :: !Contains(RewriteLine(raw)[k], Version3)
    ensures '\n' !in raw ==> forall k | 0 <= k < |RewriteLine(raw)| :: '\n' !in RewriteLine(raw)[k]
  {
    var line := Strip(raw);
    if Contains(line, Version3) {
      HeaderAvoidsVersion3();
      HeaderLineFeedFree();
      assert RewriteLine(raw) == [Version2Line, IncludeLine];
    } else {
      var d := RewriteDeclaration(line);
      StripKeepsCharOut(raw, '\n');
      DeclarationKeepsOut(line);
      MeasureKeepsOut(d);
      assert RewriteLine(raw) == [RewriteMeasure(d)];
    }
  }

  /** A line that does not mention `OPENQASM 3.0` gives exactly one output
      line: a `qubit[` declaration now opens with `qreg q[`, a `bit[`
      declaration with `creg c[`, and a line that is neither and has no
      ` = measure ` is only stripped. */
  lemma RewriteLineShape(raw: string)
    requires !Contains(Strip(raw), Version3)
    ensures |RewriteLine(raw)| == 1
    ensures StartsWith(Strip(raw), QubitOpen) ==> StartsWith(RewriteLine(raw)[0], QregOpen)
    ensures StartsWith(Strip(raw), BitOpen) ==> StartsWith(RewriteLine(raw)[0], CregOpen)
    ensures (!StartsWith(Strip(raw), QubitOpen) && !StartsWith(Strip(raw), BitOpen)
             && !Contains(Strip(raw), MeasureAssign)) ==> RewriteLine(raw)[0] == Strip(raw)
  {
    var t := Strip(raw);
    var q := ReplaceAll(t, QubitOpen, QregOpen);
    var d := RewriteDeclaration(t);
    ReplacementsKeepPrefixes();
    ReplaceAllLeading(t, QubitOpen, QregOpen);
    ReplaceAllKeepsPrefix(q, BitOpen, CregOpen, QregOpen);
    ReplaceAllKeepsPrefix(t, QubitOpen, QregOpen, BitOpen);
    ReplaceAllLeading(q, BitOpen, CregOpen);
    ReplaceAllKeepsPrefix(d, MeasureAssign, MeasureBare, QregOpen);
    ReplaceAllKeepsPrefix(d, MeasureAssign, MeasureBare, CregOpen);
  }

  /** A stripped line without `OPENQASM 3.0` gives the one line its
      declaration and measurement rewrites produce. */
  lemma RewriteLineOf(raw: string, out: string)
    requires !Contains(Strip(raw), Version3)
    requires RewriteMeasure(RewriteDeclaration(Strip(raw))) == out
    ensures RewriteLine(raw) == [out]
  {
  }

  /** A declaration line, an opening followed by a remainder, that starts
      and ends with non-whitespace is already stripped. */
  lemma DeclarationTrimmed(open: string, rest: string)
    requires open != [] && !IsSpace(open[0]) && !IsSpace(open[|open| - 1])
    requires rest == [] || !IsSpace(rest[|rest| - 1])
    ensures Strip(open + rest) == open + rest
  {
    var t := open + rest;
    assert t[0] == open[0];
    if rest == [] {
      assert t[|t| - 1] == open[|open| - 1];
    } else {
      assert t[|t| - 1] == rest[|rest| - 1];
    }
    StripTrimmed(t);
  }

  /** The declaration rewrite of `qubit[` followed by a remainder that
      mentions neither `qubit[` nor `bit[`: only the opening changes. */
  lemma QubitOpeningRenamed(rest: string)
    requires !Contains(rest, QubitOpen) && !Contains(rest, BitOpen)
    ensures RewriteDeclaration(QubitOpen + rest) == QregOpen + rest
  {
    assert StartsWith(QubitOpen + rest, QubitOpen) by {
      assert (QubitOpen + rest)[..|QubitOpen|] == QubitOpen;
    }
    ReplaceAllFront(QubitOpen, QregOpen, rest);
    ReplaceAllAbsent(rest, QubitOpen, QregOpen);
    ReplacementsKeepPrefixes();
    ConcatAvoids(QregOpen, rest, BitOpen);
    ReplaceAllAbsent(QregOpen + rest, BitOpen, CregOpen);
  }

  /** The declaration rewrite of `bit[` followed by a remainder that
      mentions neither `qubit[` nor `bit[`: only the opening changes. */
  lemma BitOpeningRenamed(rest: string)
    requires !Contains(rest, QubitOpen) && !Contains(rest, BitOpen)
    ensures RewriteDeclaration(BitOpen + rest) == CregOpen + rest
  {
    assert StartsWith(BitOpen + rest, BitOpen) by {
      assert (BitOpen + rest)[..|BitOpen|] == BitOpen;
    }
    ReplacementsKeepPrefixes();
    ConcatAvoids(BitOpen, rest, QubitOpen);
    ReplaceAllAbsent(BitOpen + rest, QubitOpen, QregOpen);
    ReplaceAllFront(BitOpen, CregOpen, rest);
    ReplaceAllAbsent(rest, BitOpen, CregOpen);
  }

  /** A renamed declaration has no ` = measure ` when its remainder has
      none. */
  lemma RenamedKeepsMeasureOut(rest: string)
    requires !Contains(rest, MeasureAssign)
    ensures RewriteMeasure(QregOpen + rest) == QregOpen + rest
    ensures RewriteMeasure(CregOpen + rest) == CregOpen + rest
  {
    ReplacementsKeepPrefixes();
    ConcatAvoids(QregOpen, rest, MeasureAssign);
    ConcatAvoids(CregOpen, rest, MeasureAssign);
  }

  /** A declaration whose remainder does not end in whitespace and does
      not mention `OPENQASM 3.0` is a stripped line without the marker. */
  lemma DeclarationLine(rest: string)
    requires !Contains(rest, Version3)
    requires rest == [] || !IsSpace(rest[|rest| - 1])
    ensures Strip(QubitOpen + rest) == QubitOpen + rest && !Contains(QubitOpen + rest, Version3)
    ensures Strip(BitOpen + rest) == BitOpen + rest && !Contains(BitOpen + rest, Version3)
  {
    OpeningsTrimmed();
    DeclarationTrimmed(QubitOpen, rest);
    DeclarationTrimmed(BitOpen, rest);
    OpeningsAvoidVersion3();
    ConcatAvoids(QubitOpen, rest, Version3);
    ConcatAvoids(BitOpen, rest, Version3);
  }

  /** A `qubit[` declaration line, whose remainder mentions none of
      `qubit[`, `bit[`, ` = measure ` and `OPENQASM 3.0` and does not end in
      whitespace, has its opening renamed to `qreg q[` and nothing else
      changed. */
  lemma RewriteQubitDeclaration(rest: string)
    requires !Contains(rest, QubitOpen) && !Contains(rest, BitOpen)
    requires !Contains(rest, MeasureAssign) && !Contains(rest, Version3)
    requires rest == [] || !IsSpace(rest[|rest| - 1])
    ensures RewriteLine(QubitOpen + rest) == [QregOpen + rest]
  {
    DeclarationLine(rest);
    QubitOpeningRenamed(rest);
    RenamedKeepsMeasureOut(rest);
    RewriteLineOf(QubitOpen + rest, QregOpen + rest);
  }

  /** A `bit[` declaration line, under the same conditions on its
      remainder, has its opening renamed to `creg c[` and nothing else
      changed. */
  lemma RewriteBitDeclaration(rest: string)
    requires !Contains(rest, QubitOpen) && !Contains(rest, BitOpen)
    requires !Contains(rest, MeasureAssign) && !Contains(rest, Version3)
    requires rest == [] || !IsSpace(rest[|rest| - 1])
    ensures RewriteLine(BitOpen + rest) == [CregOpen + rest]
  {
    DeclarationLine(rest);
    BitOpeningRenamed(rest);
    RenamedKeepsMeasureOut(rest);
    RewriteLineOf(BitOpen + rest, CregOpen + rest);
  }

  /** The measurement rewrite of a target, ` = measure ` and a source, none
      of which but the marker holds `=`: the marker loses its `=` and the
      rest is kept. */
  lemma MeasureRewrite(a: string, b: string)
    requires '=' !in a && '=' !in b
    ensures RewriteMeasure(a + MeasureAssign + b) == a + MeasureBare + b
  {
    InfixOccurs(a, MeasureAssign, b);
    MeasureAssignShape();
    ReplaceAllSingle(a, MeasureAssign, MeasureBare, b, '=');
  }

  /** A measurement assignment line, once stripped `a = measure b` with no
      other `=`, that is neither a declaration nor a version line becomes
      `a measure b`. */
  lemma MeasureLineRewrite(raw: string, a: string, b: string)
    requires Strip(raw) == a + MeasureAssign + b
    requires '=' !in a && '=' !in b
    requires !StartsWith(Strip(raw), QubitOpen) && !StartsWith(Strip(raw), BitOpen)
    requires !Contains(Strip(raw), Version3)
    ensures RewriteLine(raw) == [a + MeasureBare + b]
  {
    MeasureRewrite(a, b);
    RewriteLineOf(raw, a + MeasureBare + b);
  }

  /** The remainders `2] q;` and `2] c;` of typical OpenQASM 3.0
      declarations mention none of the markers. */
  lemma ExampleRemainder(rest: string)
    requires rest == "2] q;" || rest == "2] c;"
    ensures !Contains(rest, QubitOpen) && !Contains(rest, BitOpen)
    ensures !Contains(rest, MeasureAssign) && !Contains(rest, Version3)
    ensures rest == [] || !IsSpace(rest[|rest| - 1])
  {
    AbsentChar(rest, QubitOpen, 'u');
    AbsentChar(rest, BitOpen, 'b');
    AbsentChar(rest, MeasureAssign, '=');
    AbsentChar(rest, Version3, 'O');
  }

  /** A typical OpenQASM 3.0 qubit declaration.
      The texts are parameters pinned by `requires` so that the proof can
      slice and name them; stated as literals inside the `ensures`, the
      same facts cost the verifier far more. */
  lemma RewriteQubitExample(t: string, out: string)
    requires t == "qubit[2] q;" && out == "qreg q[2] q;"
    ensures RewriteLine(t) == [out]
  {
    var rest := t[|QubitOpen|..];
    assert t == QubitOpen + rest && out == QregOpen + rest;
    ExampleRemainder(rest);
    RewriteQubitDeclaration(rest);
  }

  /** A typical OpenQASM 3.0 bit declaration.
      The texts are parameters pinned by `requires` so that the proof can
      slice and name them; stated as literals inside the `ensures`, the
      same facts cost the verifier far more. */
  lemma RewriteBitExample(t: string, out: string)
    requires t == "bit[2] c;" && out == "creg c[2] c;"
    ensures RewriteLine(t) == [out]
  {
    var rest := t[|BitOpen|..];
    assert t == BitOpen + rest && out == CregOpen + rest;
    ExampleRemainder(rest);
    RewriteBitDeclaration(rest);
  }

  /** The parts of the typical measurement `c[0] = measure q[0];`. */
  lemma MeasureExampleParts(t: string, out: string, a: string, b: string)
    requires t == "c[0] = measure q[0];" && out == "c[0] measure q[0];"
    requires a == "c[0]" && b == "q[0];"
    ensures t == a + MeasureAssign + b && out == a + MeasureBare + b
    ensures '=' !in a && '=' !in b
  {
  }

  /** The same example is already stripped, is no declaration and does not
      mention `OPENQASM 3.0`. */
  lemma MeasureExampleGuards(t: string)
    requires t == "c[0] = measure q[0];"
    ensures Strip(t) == t
    ensures !StartsWith(t, QubitOpen) && !StartsWith(t, BitOpen) && !Contains(t, Version3)
  {
    StripTrimmed(t);
    AbsentFirstChar(t, Version3);
  }

  /** A typical OpenQASM 3.0 measurement assignment loses its `=` and keeps
      the rest.
      The texts are parameters pinned by `requires` so that the proof can
      slice and name them; stated as literals inside the `ensures`, the
      same facts cost the verifier far more. */
  lemma RewriteMeasureExample(t: string, out: string)
    requires t == "c[0] = measure q[0];" && out == "c[0] measure q[0];"
    ensures RewriteLine(t) == [out]
  {
    var a, b := "c[0]", "q[0];";
    MeasureExampleParts(t, out, a, b);
    MeasureExampleGuards(t);
    MeasureLineRewrite(t, a, b);
  }

  // ---------------------------------------------------------------------
  // The 3.0 branch, all lines

  /** Every input line gives one output line, except a version line, which
      gives two. */
  lemma {:induction false} RewriteLinesCount(lines: seq<string>)
    ensures |RewriteLines(lines)| == |lines| + VersionLineCount(lines)
    decreases |lines|
  {
    if lines != [] {
      RewriteLinesCount(lines[1..]);
    }
  }

  /** No output line mentions `OPENQASM 3.0`. */
  lemma {:induction false} RewriteLinesAvoid(lines: seq<string>)
    ensures forall k | 0 <= k < |RewriteLines(lines)| :: !Contains(RewriteLines(lines)[k], Version3)
    decreases |lines|
  {
    if lines != [] {
      var h := RewriteLine(lines[0]);
      var t := RewriteLines(lines[1..]);
      RewrittenLineClean(lines[0]);
      RewriteLinesAvoid(lines[1..]);
      assert RewriteLines(lines) == h + t;
      forall k | 0 <= k < |h + t|
        ensures !Contains((h + t)[k], Version3)
      {
        if k < |h| {
          assert (h + t)[k] == h[k];
        } else {
          assert (h + t)[k] == t[k - |h|];
        }
      }
    }
  }

  /** No output line holds a line feed when no input line does. */
  lemma {:induction false} RewriteLinesLineFeedFree(lines: seq<string>)
    requires forall k | 0 <= k < |lines| :: '\n' !in lines[k]
    ensures forall k | 0 <= k < |RewriteLines(lines)| :: '\n' !in RewriteLines(lines)[k]
    decreases |lines|
  {
    if lines != [] {
      var h := RewriteLine(lines[0]);
      var t := RewriteLines(lines[1..]);
      RewrittenLineClean(lines[0]);
      assert forall k | 0 <= k < |lines[1..]| :: lines[1..][k] == lines[k + 1];
      RewriteLinesLineFeedFree(lines[1..]);
      assert RewriteLines(lines) == h + t;
      forall k | 0 <= k < |h + t|
        ensures '\n' !in (h + t)[k]
      {
        if k < |h| {
          assert (h + t)[k] == h[k];
        } else {
          assert (h + t)[k] == t[k - |h|];
        }
      }
    }
  }

  /** The lines produced for an input line all appear in the output. */
  lemma {:induction false} RewriteLinesMember(lines: seq<string>, k: nat, m: string)
    requires k < |lines| && m in RewriteLine(lines[k])
    ensures m in RewriteLines(lines)
    decreases k
  {
    assert RewriteLines(lines) == RewriteLine(lines[0]) + RewriteLines(lines[1..]);
    if k > 0 {
      assert lines[1..][k - 1] == lines[k];
      RewriteLinesMember(lines[1..], k - 1, m);
    }
  }

  /** In the 3.0 branch the output is the join of the rewritten lines. */
  lemma Version3Branch(s: string)
    requires Contains(s, Version3)
    ensures Preprocess(s) == JoinLines(RewriteLines(SplitLines(Strip(s))))
  {
  }

  /** Branch priority and the 3.0 rewrite: whenever `OPENQASM 3.0` occurs,
      whatever else does, the output lines are the rewrites of the stripped
      input's lines, in order, and there are as many as the input lines plus
      one per version line. */
  lemma Version3Lines(s: string)
    requires Contains(s, Version3)
    ensures SplitLines(Preprocess(s)) == RewriteLines(SplitLines(Strip(s)))
    ensures |SplitLines(Preprocess(s))| ==
      |SplitLines(Strip(s))| + VersionLineCount(SplitLines(Strip(s)))
  {
    var lines := SplitLines(Strip(s));
    var out := RewriteLines(lines);
    Version3Branch(s);
    RewriteLinesCount(lines);
    RewriteLinesLineFeedFree(lines);
    SplitJoin(out);
  }

  /** Some stripped input line mentions `OPENQASM 3.0` when the input does. */
  lemma Version3LineExists(s: string) returns (k: nat)
    requires Contains(s, Version3)
    ensures k < |SplitLines(Strip(s))| && Contains(Strip(SplitLines(Strip(s))[k]), Version3)
  {
    Version3Plain();
    k := LineContaining(s, Version3);
    StripKeeps(SplitLines(Strip(s))[k], Version3);
  }

  /** Joined rewritten lines never mention `OPENQASM 3.0`. */
  lemma RewrittenTextAvoidsVersion3(lines: seq<string>)
    requires |lines| > 0
    ensures !Contains(JoinLines(RewriteLines(lines)), Version3)
  {
    var out := RewriteLines(lines);
    RewriteLinesCount(lines);
    RewriteLinesAvoid(lines);
    Version3Plain();
    JoinAvoids(out, Version3);
  }

  /** Joined rewritten lines carry the 2.0 header once some line was a
      version line. */
  lemma RewrittenTextHeader(lines: seq<string>, k: nat)
    requires k < |lines| && Contains(Strip(lines[k]), Version3)
    ensures Contains(JoinLines(RewriteLines(lines)), Version2)
    ensures Contains(JoinLines(RewriteLines(lines)), Include)
  {
    var out := RewriteLines(lines);
    assert RewriteLine(lines[k]) == [Version2Line, IncludeLine];
    RewriteLinesMember(lines, k, Version2Line);
    RewriteLinesMember(lines, k, IncludeLine);
    MarkersLineFeedFree();
    HeaderMentionsMarkers();
    JoinContainsMember(out, Version2Line, Version2);
    JoinContainsMember(out, IncludeLine, Include);
  }

  /** The 3.0 branch yields 2.0 text: it no longer mentions `OPENQASM 3.0`,
      and it declares `OPENQASM 2.0` and includes `qelib1.inc`. */
  lemma Version3Output(s: string)
    requires Contains(s, Version3)
    ensures !Contains(Preprocess(s), Version3)
    ensures Contains(Preprocess(s), Version2) && Contains(Preprocess(s), Include)
  {
    var lines := SplitLines(Strip(s));
    Version3Branch(s);
    RewrittenTextAvoidsVersion3(lines);
    var k := Version3LineExists(s);
    RewrittenTextHeader(lines, k);
  }

  // ---------------------------------------------------------------------
  // The 2.0 branch

  /** In the 2.0 branch a line to insert after exists: the first stripped
      line that mentions `OPENQASM 2.0`. */
  lemma Version2LineFirst(s: string) returns (i: nat)
    requires Contains(s, Version2)
    ensures FirstContaining(SplitLines(Strip(s)), Version2) == Some(i)
  {
    Version2Plain();
    var k := LineContaining(s, Version2);
    i := FirstContaining(SplitLines(Strip(s)), Version2).value;
  }

  /** In the 2.0 branch the output is the join of the stripped lines with
      the include line after line `i`. */
  lemma InsertBranch(s: string, i: nat)
    requires !Contains(s, Version3)
    requires Contains(s, Version2) && !Contains(s, Include)
    requires FirstContaining(SplitLines(Strip(s)), Version2) == Some(i)
    ensures Preprocess(s) ==
      JoinLines(SplitLines(Strip(s))[..i + 1] + [IncludeLine] + SplitLines(Strip(s))[i + 1..])
  {
    assert Preprocess(s) == InsertInclude(s);
  }

  /** The 2.0 insertion: the output lines are the stripped input's lines
      with exactly one include line added right after the first line that
      mentions `OPENQASM 2.0`; all other lines are kept, in order. */
  lemma InsertIncludeLines(s: string) returns (i: nat)
    requires !Contains(s, Version3)
    requires Contains(s, Version2) && !Contains(s, Include)
    ensures i < |SplitLines(Strip(s))|
    ensures Contains(SplitLines(Strip(s))[i], Version2)
    ensures forall k | 0 <= k < i :: !Contains(SplitLines(Strip(s))[k], Version2)
    ensures SplitLines(Preprocess(s)) ==
      SplitLines(Strip(s))[..i + 1] + [IncludeLine] + SplitLines(Strip(s))[i + 1..]
  {
    var lines := SplitLines(Strip(s));
    i := Version2LineFirst(s);
    InsertBranch(s, i);
    var out := lines[..i + 1] + [IncludeLine] + lines[i + 1..];
    forall k | 0 <= k < |out|
      ensures '\n' !in out[k]
    {
      if k <= i {
        assert out[k] == lines[k];
      } else if k > i + 1 {
        assert out[k] == lines[k - 1];
      } else {
        HeaderLineFeedFree();
      }
    }
    SplitJoin(out);
  }

  /** The lines of the 2.0 branch's output, none of which mentions
      `OPENQASM 3.0` when no input line does, and one of which is the
      include line. */
  lemma InsertedLinesFacts(lines: seq<string>, i: nat)
    requires i < |lines|
    requires forall k | 0 <= k < |lines| :: !Contains(lines[k], Version3)
    ensures !Contains(JoinLines(lines[..i + 1] + [IncludeLine] + lines[i + 1..]), Version3)
    ensures Contains(JoinLines(lines[..i + 1] + [IncludeLine] + lines[i + 1..]), Include)
  {
    var out := lines[..i + 1] + [IncludeLine] + lines[i + 1..];
    forall k | 0 <= k < |out|
      ensures !Contains(out[k], Version3)
    {
      if k <= i {
        assert out[k] == lines[k];
      } else if k > i + 1 {
        assert out[k] == lines[k - 1];
      } else {
        HeaderAvoidsVersion3();
      }
    }
    Version3Plain();
    JoinAvoids(out, Version3);
    assert out[i + 1] == IncludeLine;
    MarkersLineFeedFree();
    HeaderMentionsMarkers();
    JoinContainsMember(out, IncludeLine, Include);
  }

  /** The 2.0 branch yields text that still does not mention
      `OPENQASM 3.0` and now includes `qelib1.inc`. */
  lemma InsertIncludeOutput(s: string)
    requires !Contains(s, Version3)
    requires Contains(s, Version2) && !Contains(s, Include)
    ensures !Contains(Preprocess(s), Version3) && Contains(Preprocess(s), Include)
  {
    var lines := SplitLines(Strip(s));
    var i := Version2LineFirst(s);
    InsertBranch(s, i);
    Version3Plain();
    LinesAvoid(s, Version3);
    InsertedLinesFacts(lines, i);
  }

  // ---------------------------------------------------------------------
  // The whole preprocessor

  /** The inputs passed through unchanged are exactly those that do not
      mention `OPENQASM 3.0` and either do not mention `OPENQASM 2.0` or
      already include `qelib1.inc`. */
  lemma PreprocessFixedPoints(s: string)
    ensures Preprocess(s) == s <==>
      !Contains(s, Version3) && (!Contains(s, Version2) || Contains(s, Include))
  {
    if Contains(s, Version3) {
      Version3Output(s);
    } else if Contains(s, Version2) && !Contains(s, Include) {
      InsertIncludeOutput(s);
    }
  }

  /** Text with no version marker, the empty string included, passes
      through without error. */
  lemma PreprocessPassThroughExamples()
    ensures Preprocess("") == ""
    ensures Preprocess("INVALID CIRCUIT") == "INVALID CIRCUIT"
  {
    AbsentFirstChar("", Version3);
    AbsentFirstChar("", Version2);
    AbsentFirstChar("INVALID CIRCUIT", Version3);
    AbsentFirstChar("INVALID CIRCUIT", Version2);
  }

  /** Preprocessing twice is preprocessing once: every branch's output is
      passed through unchanged by a second call. */
  lemma PreprocessIdempotent(s: string)
    ensures Preprocess(Preprocess(s)) == Preprocess(s)
  {
    if Contains(s, Version3) {
      Version3Output(s);
    } else if Contains(s, Version2) && !Contains(s, Include) {
      InsertIncludeOutput(s);
    }
    PreprocessFixedPoints(Preprocess(s));
  }
}
