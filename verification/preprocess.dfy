/**
 `QuantumCircuitService._preprocess_qasm`: a line-oriented text rewrite that
 moves an OpenQASM 3.0 program toward OpenQASM 2.0 before it is handed to the
 2.0 parser. It has three branches, tried in this order:

 - the input mentions `OPENQASM 3.0`: every stripped line is rewritten on its
   own (version line, register declarations, measurement assignments);
 - the input mentions `OPENQASM 2.0` but not `include "qelib1.inc"`: the
   include line is inserted after the first version line;
 - anything else comes back unchanged, the empty string included.

 The rewrite is purely textual. `qubit[2] q;` becomes `qreg q[2] q;` and
 `c = measure q;` becomes `c measure q;`, which is what the code does, not
 what a translator to 2.0 would produce.
 */
module QasmPreprocess {
  import opened Options
  import opened Text

  const Version3: string := "OPENQASM 3.0"
  const Version2: string := "OPENQASM 2.0"
  const Include: string := "include \"qelib1.inc\""

  /** The two lines a 3.0 version line is replaced by. */
  const Version2Line: string := "OPENQASM 2.0;"
  const IncludeLine: string := "include \"qelib1.inc\";"

  /** The textual replacements applied to declarations and measurements. */
  const QubitOpen: string := "qubit["
  const QregOpen: string := "qreg q["
  const BitOpen: string := "bit["
  const CregOpen: string := "creg c["
  const MeasureAssign: string := " = measure "
  const MeasureBare: string := " measure "

  // ---------------------------------------------------------------------
  // The 3.0 branch, line by line

  /** A line starting with `qubit[` or `bit[` has every `qubit[` replaced by
      `qreg q[`, and then every `bit[` by `creg c[`. */
  function RewriteDeclaration(line: string): string
  {
    if StartsWith(line, QubitOpen) || StartsWith(line, BitOpen) then
      ReplaceAll(ReplaceAll(line, QubitOpen, QregOpen), BitOpen, CregOpen)
    else line
  }

  /** Every ` = measure ` becomes ` measure `. */
  function RewriteMeasure(line: string): string
  {
    if Contains(line, MeasureAssign) then ReplaceAll(line, MeasureAssign, MeasureBare)
    else line
  }

  /** The output lines for one input line: a line mentioning `OPENQASM 3.0`
      becomes the 2.0 header and the include, any other line is stripped and
      has its declarations and measurements rewritten. */
  function RewriteLine(raw: string): seq<string>
  {
    var line := Strip(raw);
    if Contains(line, Version3) then [Version2Line, IncludeLine]
    else [RewriteMeasure(RewriteDeclaration(line))]
  }

  /** The output lines for all input lines, in input order. */
  function RewriteLines(lines: seq<string>): seq<string>
  {
    if lines == [] then [] else RewriteLine(lines[0]) + RewriteLines(lines[1..])
  }

  /** How many of `lines` mention `OPENQASM 3.0` once stripped. */
  function VersionLineCount(lines: seq<string>): nat
  {
    if lines == [] then 0
    else (if Contains(Strip(lines[0]), Version3) then 1 else 0) + VersionLineCount(lines[1..])
  }

  /** The 3.0 branch: strip, split at line feeds, rewrite, join. */
  function ConvertVersion3(text: string): string
  {
    JoinLines(RewriteLines(SplitLines(Strip(text))))
  }

  // ---------------------------------------------------------------------
  // The 2.0 branch

  /** The index of the first line in which `p` occurs, if any. */
  function FirstContaining(lines: seq<string>, p: string): (r: Option<nat>)
    ensures r.Some? ==> r.value < |lines| && Contains(lines[r.value], p)
    ensures r.Some? ==> forall k | 0 <= k < r.value :: !Contains(lines[k], p)
    ensures r.None? ==> forall k | 0 <= k < |lines| :: !Contains(lines[k], p)
  {
    if lines == [] then None
    else if Contains(lines[0], p) then Some(0)
    else
      match FirstContaining(lines[1..], p)
      case Some(i) => Some(i + 1)
      case None => None
  }

  /** The 2.0 branch: the include line goes right after the first line that
      mentions `OPENQASM 2.0`. */
  function InsertInclude(text: string): string
  {
    var lines := SplitLines(Strip(text));
    match FirstContaining(lines, Version2)
    case Some(i) => JoinLines(lines[..i + 1] + [IncludeLine] + lines[i + 1..])
    case None => JoinLines(lines)
  }

  // ---------------------------------------------------------------------
  // The whole preprocessor

  /** `_preprocess_qasm(text)`. */
  function Preprocess(text: string): string
  {
    if Contains(text, Version3) then ConvertVersion3(text)
    else if Contains(text, Version2) && !Contains(text, Include) then InsertInclude(text)
    else text
  }
}
