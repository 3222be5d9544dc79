/**
 The handful of Python `str` operations the circuit preprocessor is built
 from: `in`, `startswith`, `strip()`, `split('\n')`, `'\n'.join` and
 `replace`. Each is defined over `string` (a `seq<char>`) and related to a
 partner: strip to the substring it keeps, split to join, replace to the
 patterns it can and cannot create.
 */
module Text {

  /** Python's `str.isspace()` on the ASCII range: tab, line feed, vertical
      tab, form feed, carriage return, the four separators 0x1C-0x1F, space. */
  predicate IsSpace(c: char) {
    c == ' ' || ('\t' <= c <= '\r') || ('\U{1C}' <= c <= '\U{1F}')
  }

  /** `s.startswith(p)`. */
  predicate StartsWith(s: string, p: string) {
    |p| <= |s| && s[..|p|] == p
  }

  /** `p` occurs in `s` at index `i`. */
  predicate OccursAt(s: string, p: string, i: int) {
    0 <= i && i + |p| <= |s| && s[i..i + |p|] == p
  }

  /** Python's `p in s`. */
  predicate Contains(s: string, p: string) {
    exists i | 0 <= i <= |s| - |p| :: OccursAt(s, p, i)
  }

  /** `a` and `b` agree on every index both of them have: one is a prefix of
      the other. */
  predicate Compatible(a: string, b: string) {
    forall t | 0 <= t < |a| && t < |b| :: a[t] == b[t]
  }

  // ---------------------------------------------------------------------
  // strip()

  /** `s.lstrip()`: drops the leading whitespace (see `StripLeftFacts`). */
  function StripLeft(s: string): string
  {
    if |s| > 0 && IsSpace(s[0]) then StripLeft(s[1..]) else s
  }

  /** `s.rstrip()`: drops the trailing whitespace (see `StripRightFacts`). */
  function StripRight(s: string): string
  {
    if |s| > 0 && IsSpace(s[|s| - 1]) then StripRight(s[..|s| - 1]) else s
  }

  /** `s.strip()`: what is left once the whitespace at both ends is removed
      (see `StripEnds` and `StripSpan`). */
  function Strip(s: string): string
  {
    StripRight(StripLeft(s))
  }

  /** `lstrip()` keeps a suffix, drops only whitespace, and leaves no
      whitespace at the front. */
  lemma {:induction false} StripLeftFacts(s: string)
    ensures |StripLeft(s)| <= |s| && StripLeft(s) == s[|s| - |StripLeft(s)|..]
    ensures forall k | 0 <= k < |s| - |StripLeft(s)| :: IsSpace(s[k])
    ensures StripLeft(s) == [] || !IsSpace(StripLeft(s)[0])
    decreases |s|
  {
    if |s| > 0 && IsSpace(s[0]) {
      var r := StripLeft(s[1..]);
      StripLeftFacts(s[1..]);
      assert StripLeft(s) == r;
      assert s[1..][|s[1..]| - |r|..] == s[|s| - |r|..];
      forall k | 0 <= k < |s| - |r|
        ensures IsSpace(s[k])
      {
        if k > 0 {
          assert s[k] == s[1..][k - 1];
        }
      }
    }
  }

  /** `rstrip()` keeps a prefix, drops only whitespace, and leaves no
      whitespace at the end. */
  lemma {:induction false} StripRightFacts(s: string)
    ensures |StripRight(s)| <= |s| && StripRight(s) == s[..|StripRight(s)|]
    ensures forall k | |StripRight(s)| <= k < |s| :: IsSpace(s[k])
    ensures StripRight(s) == [] || !IsSpace(StripRight(s)[|StripRight(s)| - 1])
    decreases |s|
  {
    if |s| > 0 && IsSpace(s[|s| - 1]) {
      var t := s[..|s| - 1];
      var r := StripRight(t);
      StripRightFacts(t);
      assert StripRight(s) == r;
      assert t[..|r|] == s[..|r|];
      forall k | |r| <= k < |s|
        ensures IsSpace(s[k])
      {
        if k < |s| - 1 {
          assert s[k] == t[k];
        }
      }
    }
  }

  /** `strip()` never lengthens the text, and what it returns neither
      starts nor ends with whitespace. */
  lemma StripEnds(s: string)
    ensures |Strip(s)| <= |s|
    ensures Strip(s) == [] || (!IsSpace(Strip(s)[0]) && !IsSpace(Strip(s)[|Strip(s)| - 1]))
  {
    var l := StripLeft(s);
    StripLeftFacts(s);
    StripRightFacts(l);
    var r := StripRight(l);
    if r != [] {
      assert r[0] == l[0];
    }
  }

  /** A prefix `r` of the suffix `l` of `s` starting at `i`, followed in
      `l` by whitespace only, is the slice of `s` at `i`, followed in `s` by
      whitespace only. */
  lemma PrefixOfSuffix(s: string, l: string, r: string, i: nat)
    requires i + |l| == |s| && l == s[i..]
    requires |r| <= |l| && r == l[..|r|]
    requires forall k | |r| <= k < |l| :: IsSpace(l[k])
    ensures s[i..i + |r|] == r
    ensures forall k | i + |r| <= k < |s| :: IsSpace(s[k])
  {
    assert s[i..i + |r|] == l[..|r|];
    forall k | i + |r| <= k < |s|
      ensures IsSpace(s[k])
    {
      assert s[k] == l[k - i];
    }
  }

  /** `Strip(s)` is the slice of `s` starting at `i`, and everything of `s`
      before and after that slice is whitespace. */
  lemma StripSpan(s: string) returns (i: nat)
    ensures i + |Strip(s)| <= |s|
    ensures s[i..i + |Strip(s)|] == Strip(s)
    ensures forall k | 0 <= k < i :: IsSpace(s[k])
    ensures forall k | i + |Strip(s)| <= k < |s| :: IsSpace(s[k])
  {
    var l := StripLeft(s);
    StripLeftFacts(s);
    StripRightFacts(l);
    i := |s| - |l|;
    PrefixOfSuffix(s, l, StripRight(l), i);
  }

  // ---------------------------------------------------------------------
  // split('\n') and '\n'.join

  /** `s.split('\n')`: the pieces between line feeds, in order. There is
      always at least one piece (`"".split('\n') == [""]`), one more than the
      number of line feeds, and no piece holds a line feed. */
  function SplitLines(s: string): (lines: seq<string>)
    ensures |lines| == LineFeeds(s) + 1
    ensures forall k | 0 <= k < |lines| :: '\n' !in lines[k]
  {
    if |s| == 0 then [""]
    else
      var rest := SplitLines(s[1..]);
      if s[0] == '\n' then [""] + rest
      else [[s[0]] + rest[0]] + rest[1..]
  }

  /** The number of line feeds in `s`. */
  function LineFeeds(s: string): nat
  {
    if |s| == 0 then 0 else (if s[0] == '\n' then 1 else 0) + LineFeeds(s[1..])
  }

  /** `'\n'.join(lines)`. */
  function JoinLines(lines: seq<string>): string
  {
    if |lines| == 0 then ""
    else if |lines| == 1 then lines[0]
    else lines[0] + "\n" + JoinLines(lines[1..])
  }

  // ---------------------------------------------------------------------
  // replace(pat, rep)

  /** `s.replace(pat, rep)`: every occurrence of `pat` found scanning left to
      right, without overlaps, is replaced by `rep` (see `ReplaceAllFirst`
      and `ReplaceAllAbsent`). */
  function ReplaceAll(s: string, pat: string, rep: string): string
    requires pat != []
    decreases |s|
  {
    if |s| < |pat| then s
    else if s[..|pat|] == pat then rep + ReplaceAll(s[|pat|..], pat, rep)
    else [s[0]] + ReplaceAll(s[1..], pat, rep)
  }

  // ---------------------------------------------------------------------
  // Lemmas about Contains

  /** An occurrence in any suffix is an occurrence in the whole. */
  lemma ContainsDrop(s: string, n: nat, p: string)
    requires n <= |s|
    ensures Contains(s[n..], p) ==> Contains(s, p)
  {
    if Contains(s[n..], p) {
      var i :| 0 <= i <= |s[n..]| - |p| && OccursAt(s[n..], p, i);
      assert s[i + n..i + n + |p|] == s[n..][i..i + |p|];
      assert OccursAt(s, p, i + n);
    }
  }

  /** Containment unfolds one character at a time: `p` is in `s` exactly when
      `s` starts with it or it is in `s` without its first character. */
  lemma ContainsUnfold(s: string, p: string)
    ensures Contains(s, p) <==> StartsWith(s, p) || (|s| > 0 && Contains(s[1..], p))
  {
    if StartsWith(s, p) {
      assert OccursAt(s, p, 0);
    }
    if |s| > 0 {
      ContainsDrop(s, 1, p);
    }
    if Contains(s, p) && !StartsWith(s, p) {
      var i :| 0 <= i <= |s| - |p| && OccursAt(s, p, i);
      assert i != 0;
      assert s[1..][i - 1..i - 1 + |p|] == s[i..i + |p|];
      assert OccursAt(s[1..], p, i - 1);
    }
  }

  /** Anything that occurs in `m` occurs in `a + m + b`. */
  lemma ContainsInfix(a: string, m: string, b: string, p: string)
    requires Contains(m, p)
    ensures Contains(a + m + b, p)
  {
    var i :| 0 <= i <= |m| - |p| && OccursAt(m, p, i);
    assert (a + m + b)[|a| + i..|a| + i + |p|] == m[i..i + |p|];
    assert OccursAt(a + m + b, p, |a| + i);
  }

  /** An occurrence of `p` in `a + b` either lies in `b` or starts at some
      index of `a`, in which case that suffix of `a` and `p` agree. */
  lemma ContainsConcatCases(a: string, b: string, p: string)
    requires Contains(a + b, p)
    ensures (exists i | 0 <= i < |a| :: Compatible(a[i..], p)) || Contains(b, p)
  {
    var j :| 0 <= j <= |a + b| - |p| && OccursAt(a + b, p, j);
    if j >= |a| {
      assert b[j - |a|..j - |a| + |p|] == (a + b)[j..j + |p|];
      assert OccursAt(b, p, j - |a|);
    } else {
      forall t | 0 <= t < |a[j..]| && t < |p|
        ensures a[j..][t] == p[t]
      {
        assert a[j..][t] == (a + b)[j + t] == (a + b)[j..j + |p|][t];
      }
      assert Compatible(a[j..], p);
    }
  }

  /** A pattern free of the character `c` that occurs in `a + [c] + b`
      occurs in `a` or in `b`. */
  lemma ContainsAcrossSeparator(a: string, c: char, b: string, p: string)
    requires c !in p
    requires Contains(a + [c] + b, p)
    ensures Contains(a, p) || Contains(b, p)
  {
    var s := a + [c] + b;
    var j :| 0 <= j <= |s| - |p| && OccursAt(s, p, j);
    assert forall t | 0 <= t < |p| :: s[j + t] == p[t];
    assert s[|a|] == c;
    if j > |a| {
      assert b[j - |a| - 1..j - |a| - 1 + |p|] == s[j..j + |p|];
      assert OccursAt(b, p, j - |a| - 1);
    } else {
      assert j + |p| <= |a|;
      assert a[j..j + |p|] == s[j..j + |p|];
      assert OccursAt(a, p, j);
    }
  }

  // ---------------------------------------------------------------------
  // Strip keeps exactly the occurrences that do not touch the ends

  /** What occurs in `Strip(s)` occurs in `s`. */
  lemma StripContains(s: string, p: string)
    ensures Contains(Strip(s), p) ==> Contains(s, p)
  {
    var r := Strip(s);
    var i := StripSpan(s);
    assert s == s[..i] + r + s[i + |r|..];
    if Contains(r, p) {
      ContainsInfix(s[..i], r, s[i + |r|..], p);
    }
  }

  /** A character absent from `s` is absent from `Strip(s)`. */
  lemma StripKeepsCharOut(s: string, c: char)
    ensures c !in s ==> c !in Strip(s)
  {
    var i := StripSpan(s);
    assert forall k | 0 <= k < |Strip(s)| :: Strip(s)[k] == s[i + k];
  }

  /** A run of `s` from index `j` to index `e` that starts and ends with
      non-whitespace lies within the slice that `Strip(s)` keeps. */
  lemma RunInsideStrip(s: string, j: nat, e: nat) returns (i: nat)
    requires j <= e < |s|
    requires !IsSpace(s[j]) && !IsSpace(s[e])
    ensures i <= j && e < i + |Strip(s)| <= |s|
    ensures s[i..i + |Strip(s)|] == Strip(s)
  {
    i := StripSpan(s);
  }

  /** An occurrence makes the pattern contained. */
  lemma OccurrenceContained(s: string, p: string, i: int)
    requires OccursAt(s, p, i)
    ensures Contains(s, p)
  {
  }

  /** An occurrence of a pattern that neither starts nor ends with
      whitespace neither starts nor ends with whitespace; `e` is the index
      of its last character. */
  lemma OccurrenceEnds(s: string, p: string, j: nat) returns (e: nat)
    requires p != [] && !IsSpace(p[0]) && !IsSpace(p[|p| - 1])
    requires OccursAt(s, p, j)
    ensures e == j + |p| - 1 && e < |s|
    ensures !IsSpace(s[j]) && !IsSpace(s[e])
  {
    e := j + |p| - 1;
    assert s[j] == s[j..j + |p|][0] == p[0];
    assert s[e] == s[j..j + |p|][|p| - 1] == p[|p| - 1];
  }

  /** An occurrence lying inside the slice `r` of `s` starting at `i` is an
      occurrence in `r`. */
  lemma OccursInSlice(s: string, r: string, i: nat, p: string, j: nat)
    requires i + |r| <= |s| && s[i..i + |r|] == r
    requires i <= j && j + |p| <= i + |r| && OccursAt(s, p, j)
    ensures OccursAt(r, p, j - i)
  {
    forall t | 0 <= t < |p|
      ensures r[j - i + t] == p[t]
    {
      assert r[j - i + t] == s[i..i + |r|][j - i + t] == s[j + t];
      assert s[j + t] == s[j..j + |p|][t];
    }
    assert r[j - i..j - i + |p|] == p;
  }

  /** An occurrence of a pattern that neither starts nor ends with
      whitespace is still an occurrence after stripping, shifted left by the
      amount of leading whitespace `i`. */
  lemma StripKeepsOccurrence(s: string, p: string, j: nat) returns (i: nat)
    requires p != [] && !IsSpace(p[0]) && !IsSpace(p[|p| - 1])
    requires OccursAt(s, p, j)
    ensures i <= j && OccursAt(Strip(s), p, j - i)
  {
    var e := OccurrenceEnds(s, p, j);
    i := RunInsideStrip(s, j, e);
    OccursInSlice(s, Strip(s), i, p, j);
  }

  /** A pattern that neither starts nor ends with whitespace survives
      stripping. */
  lemma StripKeeps(s: string, p: string)
    requires p != [] && !IsSpace(p[0]) && !IsSpace(p[|p| - 1])
    requires Contains(s, p)
    ensures Contains(Strip(s), p)
  {
    var j :| 0 <= j <= |s| - |p| && OccursAt(s, p, j);
    var i := StripKeepsOccurrence(s, p, j);
    OccurrenceContained(Strip(s), p, j - i);
  }

  /** A string that neither starts nor ends with whitespace is its own
      strip. */
  lemma StripTrimmed(s: string)
    requires s == [] || (!IsSpace(s[0]) && !IsSpace(s[|s| - 1]))
    ensures Strip(s) == s
  {
    assert StripLeft(s) == s;
    assert StripRight(s) == s;
  }

  /** Stripping twice is stripping once. */
  lemma StripIdempotent(s: string)
    ensures Strip(Strip(s)) == Strip(s)
  {
    StripEnds(s);
    StripTrimmed(Strip(s));
  }

  // ---------------------------------------------------------------------
  // split and join are inverse

  /** Splitting `a + t` where `a` holds no line feed glues `a` onto the first
      piece of `t`. */
  lemma {:induction false} SplitLinesPrefix(a: string, t: string)
    requires '\n' !in a
    ensures SplitLines(a + t) == [a + SplitLines(t)[0]] + SplitLines(t)[1..]
    decreases |a|
  {
    if a == [] {
      assert a + t == t;
      assert a + SplitLines(t)[0] == SplitLines(t)[0];
      assert [SplitLines(t)[0]] + SplitLines(t)[1..] == SplitLines(t);
    } else {
      assert (a + t)[0] == a[0];
      assert (a + t)[1..] == a[1..] + t;
      SplitLinesPrefix(a[1..], t);
      assert [a[0]] + (a[1..] + SplitLines(t)[0]) == a + SplitLines(t)[0];
    }
  }

  /** Joining the pieces of a split gives back the string. */
  lemma {:induction false} JoinSplit(s: string)
    ensures JoinLines(SplitLines(s)) == s
    decreases |s|
  {
    if |s| > 0 {
      var rest := SplitLines(s[1..]);
      JoinSplit(s[1..]);
      if s[0] == '\n' {
        assert ([""] + rest)[1..] == rest;
        assert s == "\n" + s[1..];
      } else {
        var lines := [[s[0]] + rest[0]] + rest[1..];
        if |rest| == 1 {
          assert s == [s[0]] + s[1..];
        } else {
          assert lines[1..] == rest[1..];
          assert s == [s[0]] + s[1..];
        }
      }
    }
  }

  /** A leading line feed splits off an empty first piece. */
  lemma SplitLinesNewline(t: string)
    ensures SplitLines("\n" + t) == [""] + SplitLines(t)
  {
    assert ("\n" + t)[1..] == t;
  }

  /** Splitting the join of line-feed-free lines gives back the lines. */
  lemma {:induction false} SplitJoin(lines: seq<string>)
    requires |lines| > 0
    requires forall k | 0 <= k < |lines| :: '\n' !in lines[k]
    ensures SplitLines(JoinLines(lines)) == lines
    decreases |lines|
  {
    if |lines| == 1 {
      SplitLinesPrefix(lines[0], "");
      assert lines[0] + "" == lines[0];
    } else {
      var tail := JoinLines(lines[1..]);
      assert JoinLines(lines) == lines[0] + ("\n" + tail);
      SplitJoin(lines[1..]);
      SplitLinesNewline(tail);
      SplitLinesPrefix(lines[0], "\n" + tail);
      assert lines[0] + "" == lines[0];
      assert ([""] + lines[1..])[1..] == lines[1..];
      assert [lines[0]] + lines[1..] == lines;
    }
  }

  /** A pattern without a line feed occurs in the join of some lines exactly
      when it occurs in one of them. */
  lemma {:induction false} JoinContains(lines: seq<string>, p: string)
    requires |lines| > 0
    requires '\n' !in p
    ensures Contains(JoinLines(lines), p) <==> exists k | 0 <= k < |lines| :: Contains(lines[k], p)
    decreases |lines|
  {
    if |lines| > 1 {
      var tail := JoinLines(lines[1..]);
      JoinContains(lines[1..], p);
      assert lines[0] + "\n" + tail == lines[0] + ['\n'] + tail;
      if Contains(JoinLines(lines), p) {
        ContainsAcrossSeparator(lines[0], '\n', tail, p);
        if !Contains(lines[0], p) {
          var k :| 0 <= k < |lines[1..]| && Contains(lines[1..][k], p);
          assert lines[k + 1] == lines[1..][k];
        }
      }
      if exists k | 0 <= k < |lines| :: Contains(lines[k], p) {
        var k :| 0 <= k < |lines| && Contains(lines[k], p);
        if k == 0 {
          ContainsInfix([], lines[0], "\n" + tail, p);
          assert [] + lines[0] + ("\n" + tail) == JoinLines(lines);
        } else {
          assert lines[1..][k - 1] == lines[k];
          ContainsInfix(lines[0] + "\n", tail, [], p);
          assert lines[0] + "\n" + tail + [] == JoinLines(lines);
        }
      }
    }
  }

  // ---------------------------------------------------------------------
  // What replace can and cannot create

  /** A joined text avoids a pattern without line feeds that every line
      avoids. */
  lemma JoinAvoids(lines: seq<string>, p: string)
    requires |lines| > 0 && '\n' !in p
    requires forall k | 0 <= k < |lines| :: !Contains(lines[k], p)
    ensures !Contains(JoinLines(lines), p)
  {
    JoinContains(lines, p);
  }

  /** Every line of the stripped text avoids a pattern without line feeds
      that the text avoids. */
  lemma LinesAvoid(s: string, p: string)
    requires '\n' !in p && !Contains(s, p)
    ensures forall k | 0 <= k < |SplitLines(Strip(s))| :: !Contains(SplitLines(Strip(s))[k], p)
  {
    StripContains(s, p);
    JoinSplit(Strip(s));
    JoinContains(SplitLines(Strip(s)), p);
  }

  /** A pattern without line feeds that neither starts nor ends with
      whitespace, occurring in a text, occurs in some line of the stripped
      text. */
  lemma LineContaining(s: string, p: string) returns (k: nat)
    requires p != [] && !IsSpace(p[0]) && !IsSpace(p[|p| - 1]) && '\n' !in p
    requires Contains(s, p)
    ensures k < |SplitLines(Strip(s))| && Contains(SplitLines(Strip(s))[k], p)
  {
    StripKeeps(s, p);
    JoinSplit(Strip(s));
    JoinContains(SplitLines(Strip(s)), p);
    k :| 0 <= k < |SplitLines(Strip(s))| && Contains(SplitLines(Strip(s))[k], p);
  }

  /** What occurs in one of the lines occurs in the joined text. */
  lemma JoinContainsMember(lines: seq<string>, line: string, p: string)
    requires line in lines && '\n' !in p && Contains(line, p)
    ensures Contains(JoinLines(lines), p)
  {
    var k :| 0 <= k < |lines| && lines[k] == line;
    JoinContains(lines, p);
  }

  /** Two prefixes of the same string agree where both are defined. */
  lemma PrefixesCompatible(s: string, a: string, b: string)
    ensures StartsWith(s, a) && StartsWith(s, b) ==> Compatible(a, b)
  {
    if StartsWith(s, a) && StartsWith(s, b) {
      forall t | 0 <= t < |a| && t < |b|
        ensures a[t] == b[t]
      {
        assert a[t] == s[..|a|][t] == s[t] == s[..|b|][t];
      }
    }
  }

  /** No occurrence of `p` can start inside `a`, whatever follows `a`. */
  predicate NoneStartsIn(a: string, p: string) {
    forall k | 0 <= k < |a| :: !Compatible(a[k..], p)
  }

  /** No occurrence of `p` can run from just before `a` into `a`: `a` agrees
      with no proper suffix of `p`. */
  predicate NoneRunsInto(a: string, p: string) {
    forall j | 1 <= j < |p| :: !Compatible(a, p[j..])
  }

  /** A character that appears in neither `s` nor `rep` does not appear in
      `s.replace(pat, rep)`. */
  lemma {:induction false} ReplaceAllKeepsCharOut(s: string, pat: string, rep: string, c: char)
    requires pat != []
    requires c !in rep
    ensures c !in s ==> c !in ReplaceAll(s, pat, rep)
    decreases |s|
  {
    if |s| >= |pat| {
      if s[..|pat|] == pat {
        ReplaceAllKeepsCharOut(s[|pat|..], pat, rep, c);
      } else {
        ReplaceAllKeepsCharOut(s[1..], pat, rep, c);
      }
    }
  }

  /** A string that starts with `pat` starts with `rep` once replaced. */
  lemma ReplaceAllLeading(s: string, pat: string, rep: string)
    requires pat != []
    ensures StartsWith(s, pat) ==> StartsWith(ReplaceAll(s, pat, rep), rep)
  {
  }

  /** The scan of `replace` at a match: the match is replaced and the scan
      goes on right after it. */
  lemma ReplaceAllFront(pat: string, rep: string, rest: string)
    requires pat != []
    ensures ReplaceAll(pat + rest, pat, rep) == rep + ReplaceAll(rest, pat, rep)
  {
    assert (pat + rest)[..|pat|] == pat;
    assert (pat + rest)[|pat|..] == rest;
  }

  /** The scan of `replace` away from a match: the first character is kept
      and the scan goes on from the next one. */
  lemma ReplaceAllSkip(c: char, rest: string, pat: string, rep: string)
    requires pat != [] && !StartsWith([c] + rest, pat)
    ensures ReplaceAll([c] + rest, pat, rep) == [c] + ReplaceAll(rest, pat, rep)
  {
    assert ([c] + rest)[1..] == rest;
    if |[c] + rest| < |pat| {
      assert |rest| < |pat|;
    }
  }

  /** An occurrence one character further into `[c] + s` is an occurrence
      in `s`, and conversely. */
  lemma OccursAtShift(c: char, s: string, p: string, k: nat)
    ensures OccursAt([c] + s, p, k + 1) <==> OccursAt(s, p, k)
  {
    if k + |p| <= |s| {
      assert ([c] + s)[k + 1..k + 1 + |p|] == s[k..k + |p|];
    }
  }

  /** When no occurrence of `pat` starts at any index of a non-empty `a`,
      none starts at index 0 and none starts in `a` once its first
      character is dropped. */
  lemma NoMatchInTail(a: string, rest: string, pat: string)
    requires a != []
    requires forall k | 0 <= k < |a| :: !OccursAt(a + rest, pat, k)
    ensures !StartsWith([a[0]] + (a[1..] + rest), pat)
    ensures forall k | 0 <= k < |a[1..]| :: !OccursAt(a[1..] + rest, pat, k)
  {
    var tail := a[1..] + rest;
    assert a + rest == [a[0]] + tail;
    assert !OccursAt([a[0]] + tail, pat, 0);
    forall k | 0 <= k < |a[1..]|
      ensures !OccursAt(tail, pat, k)
    {
      assert !OccursAt([a[0]] + tail, pat, k + 1);
      OccursAtShift(a[0], tail, pat, k);
    }
  }

  /** A leading part `a` at none of whose indices an occurrence of `pat`
      starts is copied through, and the scan goes on after it. */
  lemma {:induction false} ReplaceAllPassPrefix(a: string, rest: string, pat: string, rep: string)
    requires pat != []
    requires forall k | 0 <= k < |a| :: !OccursAt(a + rest, pat, k)
    ensures ReplaceAll(a + rest, pat, rep) == a + ReplaceAll(rest, pat, rep)
    decreases |a|
  {
    if a == [] {
      assert a + rest == rest;
    } else {
      var tail := a[1..] + rest;
      assert a + rest == [a[0]] + tail;
      NoMatchInTail(a, rest, pat);
      ReplaceAllPassPrefix(a[1..], rest, pat, rep);
      ReplaceAllSkip(a[0], tail, pat, rep);
      assert [a[0]] + (a[1..] + ReplaceAll(rest, pat, rep)) == a + ReplaceAll(rest, pat, rep);
    }
  }

  /** A string in which `pat` does not occur comes back unchanged. */
  lemma {:induction false} ReplaceAllAbsent(s: string, pat: string, rep: string)
    requires pat != []
    ensures !Contains(s, pat) ==> ReplaceAll(s, pat, rep) == s
    decreases |s|
  {
    if |s| >= |pat| && !Contains(s, pat) {
      assert !OccursAt(s, pat, 0);
      ContainsDrop(s, 1, pat);
      ReplaceAllAbsent(s[1..], pat, rep);
      assert s == [s[0]] + s[1..];
    }
  }

  /** `replace` scans left to right without overlaps: when the leftmost
      occurrence of `pat` starts right after `a`, the text `a` is kept, that
      occurrence becomes `rep`, and the scan resumes right after it. */
  lemma ReplaceAllFirst(a: string, pat: string, rep: string, b: string)
    requires pat != []
    requires forall k | 0 <= k < |a| :: !OccursAt(a + pat + b, pat, k)
    ensures ReplaceAll(a + pat + b, pat, rep) == a + rep + ReplaceAll(b, pat, rep)
  {
    assert a + pat + b == a + (pat + b);
    ReplaceAllPassPrefix(a, pat + b, pat, rep);
    ReplaceAllFront(pat, rep, b);
  }

  /** A pattern whose second character `c` differs from its first, with `c`
      in neither `a` nor `b`, occurs in `a + pat + b` exactly once, so that
      occurrence alone is replaced. */
  lemma ReplaceAllSingle(a: string, pat: string, rep: string, b: string, c: char)
    requires |pat| >= 2 && pat[1] == c && pat[0] != c
    requires c !in a && c !in b
    ensures ReplaceAll(a + pat + b, pat, rep) == a + rep + b
  {
    var t := a + pat + b;
    forall k | 0 <= k < |a|
      ensures !OccursAt(t, pat, k)
    {
      assert t[k + 1] != c by {
        if k + 1 < |a| {
          assert t[k + 1] == a[k + 1];
        } else {
          assert t[k + 1] == pat[0];
        }
      }
      if k + |pat| <= |t| {
        assert t[k..k + |pat|][1] == t[k + 1];
      }
    }
    ReplaceAllFirst(a, pat, rep, b);
    AbsentChar(b, pat, c);
    ReplaceAllAbsent(b, pat, rep);
  }

  /** A prefix `a` of `s` in which no occurrence of `pat` can start is left
      in place by the replacement. */
  lemma {:induction false} ReplaceAllKeepsPrefix(s: string, pat: string, rep: string, a: string)
    requires pat != []
    requires NoneStartsIn(a, pat)
    ensures StartsWith(s, a) ==> StartsWith(ReplaceAll(s, pat, rep), a)
    decreases |s|
  {
    if !StartsWith(s, a) || |s| < |pat| || a == [] {
    } else {
      assert !Compatible(a, pat) by {
        assert a[0..] == a;
      }
      PrefixesCompatible(s, a, pat);
      assert StartsWith(s[1..], a[1..]) by {
        assert s[1..][..|a[1..]|] == s[..|a|][1..];
      }
      assert NoneStartsIn(a[1..], pat) by {
        forall k | 0 <= k < |a[1..]|
          ensures !Compatible(a[1..][k..], pat)
        {
          assert a[1..][k..] == a[k + 1..];
        }
      }
      ReplaceAllKeepsPrefix(s[1..], pat, rep, a[1..]);
      assert s[0] == a[0];
      assert a == [a[0]] + a[1..];
    }
  }

  /** If the result of the replacement starts with `q`, and `rep` agrees with
      no suffix of `q`, then `s` itself starts with `q`. */
  lemma {:induction false} ReplaceAllStartsWith(s: string, pat: string, rep: string, q: string)
    requires pat != []
    requires forall k | 0 <= k < |q| :: !Compatible(rep, q[k..])
    requires StartsWith(ReplaceAll(s, pat, rep), q)
    ensures StartsWith(s, q)
    decreases |s|
  {
    var r := ReplaceAll(s, pat, rep);
    if |s| < |pat| || q == [] {
    } else {
      assert !Compatible(rep, q) by {
        assert q[0..] == q;
      }
      PrefixesCompatible(rep + ReplaceAll(s[|pat|..], pat, rep), rep, q);
      var r' := ReplaceAll(s[1..], pat, rep);
      assert r == [s[0]] + r';
      assert StartsWith(r', q[1..]) by {
        assert r'[..|q[1..]|] == r[..|q|][1..];
      }
      forall k | 0 <= k < |q[1..]|
        ensures !Compatible(rep, q[1..][k..])
      {
        assert q[1..][k..] == q[k + 1..];
      }
      ReplaceAllStartsWith(s[1..], pat, rep, q[1..]);
      assert s[0] == r[..|q|][0] == q[0];
      assert s[..|q|] == [s[0]] + s[1..][..|q[1..]|];
      assert q == [q[0]] + q[1..];
    }
  }

  /** The replacement creates no occurrence of `p` when none can start
      inside `rep` and none can run into it. */
  lemma {:induction false} ReplaceAllAvoids(s: string, pat: string, rep: string, p: string)
    requires pat != [] && p != []
    requires NoneStartsIn(rep, p) && NoneRunsInto(rep, p)
    ensures !Contains(s, p) ==> !Contains(ReplaceAll(s, pat, rep), p)
    decreases |s|
  {
    var r := ReplaceAll(s, pat, rep);
    if Contains(s, p) || |s| < |pat| {
    } else if s[..|pat|] == pat {
      var rest := s[|pat|..];
      ContainsDrop(s, |pat|, p);
      ReplaceAllAvoids(rest, pat, rep, p);
      if Contains(r, p) {
        ContainsConcatCases(rep, ReplaceAll(rest, pat, rep), p);
      }
    } else {
      var r' := ReplaceAll(s[1..], pat, rep);
      ContainsDrop(s, 1, p);
      ReplaceAllAvoids(s[1..], pat, rep, p);
      assert r == [s[0]] + r';
      assert r[1..] == r';
      ContainsUnfold(r, p);
      if StartsWith(r, p) {
        assert StartsWith(r', p[1..]) by {
          assert r'[..|p[1..]|] == r[..|p|][1..];
        }
        forall k | 0 <= k < |p[1..]|
          ensures !Compatible(rep, p[1..][k..])
        {
          assert p[1..][k..] == p[k + 1..];
        }
        ReplaceAllStartsWith(s[1..], pat, rep, p[1..]);
        assert s[0] == r[..|p|][0] == p[0];
        assert s[..|p|] == [s[0]] + s[1..][..|p[1..]|];
        assert p == [p[0]] + p[1..];
        ContainsUnfold(s, p);
        assert false;
      }
    }
  }

  /** A text `a + rest` avoids `p` when no occurrence can start inside `a`
      and `rest` avoids it. */
  lemma ConcatAvoids(a: string, rest: string, p: string)
    requires NoneStartsIn(a, p) && !Contains(rest, p)
    ensures !Contains(a + rest, p)
  {
    if Contains(a + rest, p) {
      ContainsConcatCases(a, rest, p);
    }
  }

  /** `m` occurs in `a + m + b` right after `a`. */
  lemma InfixOccurs(a: string, m: string, b: string)
    ensures OccursAt(a + m + b, m, |a|) && Contains(a + m + b, m)
  {
    assert (a + m + b)[|a|..|a| + |m|] == m;
    OccurrenceContained(a + m + b, m, |a|);
  }

  /** A pattern whose first character does not appear in `s` neither occurs
      in `s` nor can start anywhere inside it. */
  lemma AbsentFirstChar(s: string, p: string)
    requires p != [] && p[0] !in s
    ensures !Contains(s, p) && NoneStartsIn(s, p)
  {
    forall i | 0 <= i <= |s| - |p|
      ensures !OccursAt(s, p, i)
    {
      assert s[i..i + |p|][0] == s[i];
    }
    forall k | 0 <= k < |s|
      ensures !Compatible(s[k..], p)
    {
      assert s[k..][0] == s[k];
    }
  }

  /** A pattern holding a character that `s` lacks does not occur in `s`. */
  lemma AbsentChar(s: string, p: string, c: char)
    requires c in p && c !in s
    ensures !Contains(s, p)
  {
    forall i | 0 <= i <= |s| - |p|
      ensures !OccursAt(s, p, i)
    {
      assert forall x | x in s[i..i + |p|] :: x in s;
    }
  }

  /** A string whose first character does not appear in `p` agrees with no
      suffix of `p`. */
  lemma AbsentLeadChar(a: string, p: string)
    requires a != [] && a[0] !in p
    ensures NoneRunsInto(a, p)
  {
    forall j | 1 <= j < |p|
      ensures !Compatible(a, p[j..])
    {
      assert p[j..][0] == p[j];
    }
  }
}
