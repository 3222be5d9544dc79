/**
 `QuantumCircuitService.format_counts`: the simulator's outcome histogram,
 keyed by measured bit strings, is re-keyed by the decimal value of each bit
 string. A Python dict is modelled as a sequence of (key, value) entries in
 insertion order; assigning to a key that is already present overwrites its
 value in place, as a dict does.
 */
module Counts {
  import opened Options
  import opened Numerals

  /** A histogram or dict from labels to counts, in insertion order. */
  type Histogram = seq<(string, nat)>

  /** The keys of a histogram, in order. */
  function Keys(d: Histogram): (ks: seq<string>)
    ensures |ks| == |d|
    ensures forall i | 0 <= i < |d| :: ks[i] == d[i].0
  {
    if d == [] then [] else [d[0].0] + Keys(d[1..])
  }

  /** No key appears twice, as in any dict. */
  predicate DistinctKeys(d: Histogram) {
    forall i, j | 0 <= i < j < |d| :: d[i].0 != d[j].0
  }

  /** `d.get(k)`; see `LookupFound` for what it finds. */
  function Lookup(d: Histogram, k: string): Option<nat>
  {
    if d == [] then None
    else if d[0].0 == k then Some(d[0].1)
    else Lookup(d[1..], k)
  }

  /** A key is found exactly when it is among the keys, and then with a
      value stored under it. */
  lemma {:induction false} LookupFound(d: Histogram, k: string)
    ensures Lookup(d, k).None? <==> k !in Keys(d)
    ensures Lookup(d, k).Some? ==> exists i | 0 <= i < |d| :: d[i] == (k, Lookup(d, k).value)
  {
    if d != [] {
      assert Keys(d) == [d[0].0] + Keys(d[1..]);
      if d[0].0 != k {
        LookupFound(d[1..], k);
        if Lookup(d, k).Some? {
          var i :| 0 <= i < |d[1..]| && d[1..][i] == (k, Lookup(d, k).value);
          assert d[i + 1] == (k, Lookup(d, k).value);
        }
      } else {
        assert d[0] == (k, Lookup(d, k).value);
      }
    }
  }

  /** `d[k] = v`: an existing key keeps its position and takes the new value;
      a new key is appended (see `PutKeys`, `PutLookup`). */
  function Put(d: Histogram, k: string, v: nat): (r: Histogram)
    ensures |d| <= |r| <= |d| + 1
  {
    if d == [] then [(k, v)]
    else if d[0].0 == k then [(k, v)] + d[1..]
    else [d[0]] + Put(d[1..], k, v)
  }

  /** The keys change only by appending a key that was absent. */
  lemma {:induction false} PutKeys(d: Histogram, k: string, v: nat)
    ensures Keys(Put(d, k, v)) == if k in Keys(d) then Keys(d) else Keys(d) + [k]
  {
    if d != [] && d[0].0 != k {
      assert Keys(d) == [d[0].0] + Keys(d[1..]);
      PutKeys(d[1..], k, v);
    }
  }

  /** After `d[k] = v`, `k` maps to `v` and every other key to what it did
      before. */
  lemma {:induction false} PutLookup(d: Histogram, k: string, v: nat, k': string)
    ensures Lookup(Put(d, k, v), k') == if k' == k then Some(v) else Lookup(d, k')
  {
    if d != [] && d[0].0 != k {
      PutLookup(d[1..], k, v, k');
    }
  }

  /** Assigning to a key that is absent appends the entry. */
  lemma {:induction false} PutAbsent(d: Histogram, k: string, v: nat)
    requires k !in Keys(d)
    ensures Put(d, k, v) == d + [(k, v)]
  {
    if d != [] {
      assert Keys(d) == [d[0].0] + Keys(d[1..]);
      PutAbsent(d[1..], k, v);
      assert d + [(k, v)] == [d[0]] + (d[1..] + [(k, v)]);
    }
  }

  /** Assignment keeps the keys of a dict distinct. */
  lemma PutDistinct(d: Histogram, k: string, v: nat)
    requires DistinctKeys(d)
    ensures DistinctKeys(Put(d, k, v))
  {
    var r := Put(d, k, v);
    PutKeys(d, k, v);
    var ks, kd := Keys(r), Keys(d);
    forall i, j | 0 <= i < j < |r|
      ensures r[i].0 != r[j].0
    {
      assert r[i].0 == ks[i] && r[j].0 == ks[j];
      assert ks[i] == kd[i] == d[i].0;
      if j < |d| {
        assert ks[j] == kd[j] == d[j].0;
      } else {
        assert ks[j] == k && k !in kd;
      }
    }
  }

  /** The sum of the counts. */
  function Total(d: Histogram): nat
  {
    if d == [] then 0 else d[0].1 + Total(d[1..])
  }

  // ---------------------------------------------------------------------
  // format_counts

  /** The key `format_counts` gives an outcome label: `str(int(label, 2))`
      when the label is binary, otherwise the label itself (see
      `FormatLabelMeaning`). */
  function FormatLabel(outcome: string): string
  {
    if IsBinaryLabel(outcome) then DecimalString(BinaryValue(outcome)) else outcome
  }

  /** A binary label becomes the shortest decimal numeral of its value;
      any other label is kept. */
  lemma FormatLabelMeaning(outcome: string)
    ensures IsBinaryLabel(outcome) ==>
      && (forall k | 0 <= k < |FormatLabel(outcome)| :: IsDigit(FormatLabel(outcome)[k]))
      && DecimalValue(FormatLabel(outcome)) == BinaryValue(outcome)
      && |FormatLabel(outcome)| > 0
      && (FormatLabel(outcome)[0] == '0' ==> FormatLabel(outcome) == "0")
    ensures !IsBinaryLabel(outcome) ==> FormatLabel(outcome) == outcome
  {
    if IsBinaryLabel(outcome) {
      DecimalRoundTrip(BinaryValue(outcome));
    }
  }

  /** `format_counts(counts)`: each entry in turn is stored under its
      formatted outcome, so a later entry whose outcome formats the same way
      overwrites an earlier one (see `FormatCountsDict` and the lemmas
      below). */
  function FormatCounts(counts: Histogram): Histogram
  {
    if |counts| == 0 then []
    else
      var prev := FormatCounts(counts[..|counts| - 1]);
      var (outcome, count) := counts[|counts| - 1];
      Put(prev, FormatLabel(outcome), count)
  }

  /** The result is a dict: its keys are distinct, and it has at most as
      many entries as the input. */
  lemma {:induction false} FormatCountsDict(counts: Histogram)
    ensures DistinctKeys(FormatCounts(counts))
    ensures |FormatCounts(counts)| <= |counts|
    decreases |counts|
  {
    if |counts| > 0 {
      var n := |counts| - 1;
      FormatCountsDict(counts[..n]);
      PutDistinct(FormatCounts(counts[..n]), FormatLabel(counts[n].0), counts[n].1);
    }
  }

  /** Every entry relabelled, nothing merged: what `format_counts` returns
      when no two labels format alike. */
  function Relabel(counts: Histogram): (r: Histogram)
    ensures |r| == |counts|
  {
    seq(|counts|, i requires 0 <= i < |counts| => (FormatLabel(counts[i].0), counts[i].1))
  }

  /** One step of the loop: the last entry is stored into the dict built
      from the ones before it. */
  lemma FormatCountsStep(counts: Histogram)
    requires |counts| > 0
    ensures FormatCounts(counts) ==
      Put(FormatCounts(counts[..|counts| - 1]),
          FormatLabel(counts[|counts| - 1].0), counts[|counts| - 1].1)
  {
  }

  /** Some entry of `counts` has an outcome that formats to `k`. */
  predicate FormatsTo(counts: Histogram, k: string) {
    exists i | 0 <= i < |counts| :: FormatLabel(counts[i].0) == k
  }

  /** Some entry formats to `k` exactly when the last one does or one
      before it does. */
  lemma FormatsToLast(counts: Histogram, k: string)
    requires |counts| > 0
    ensures FormatsTo(counts, k) <==>
      FormatsTo(counts[..|counts| - 1], k) || FormatLabel(counts[|counts| - 1].0) == k
  {
    var n := |counts| - 1;
    var prefix := counts[..n];
    if FormatsTo(counts, k) && FormatLabel(counts[n].0) != k {
      var i :| 0 <= i < |counts| && FormatLabel(counts[i].0) == k;
      assert prefix[i] == counts[i];
    }
    if FormatsTo(prefix, k) {
      var i :| 0 <= i < n && FormatLabel(prefix[i].0) == k;
      assert prefix[i] == counts[i];
    }
  }

  /** A formatted label is a key of the result exactly when some entry of
      the input formats to it. */
  lemma {:induction false} FormatCountsKeys(counts: Histogram, k: string)
    ensures Lookup(FormatCounts(counts), k).Some? <==> FormatsTo(counts, k)
    decreases |counts|
  {
    if |counts| > 0 {
      var n := |counts| - 1;
      var prefix := counts[..n];
      FormatCountsStep(counts);
      FormatCountsKeys(prefix, k);
      PutLookup(FormatCounts(prefix), FormatLabel(counts[n].0), counts[n].1, k);
      FormatsToLast(counts, k);
    }
  }

  /** The index of the first entry whose outcome formats to `k`, or
      `|counts|` when there is none. */
  function FirstFormatting(counts: Histogram, k: string): (i: nat)
    ensures i <= |counts|
  {
    if counts == [] then 0
    else if FormatLabel(counts[0].0) == k then 0
    else 1 + FirstFormatting(counts[1..], k)
  }

  /** `FirstFormatting` is the least index formatting to `k`. */
  lemma {:induction false} FirstFormattingLeast(counts: Histogram, k: string)
    ensures FirstFormatting(counts, k) < |counts| ==>
      FormatLabel(counts[FirstFormatting(counts, k)].0) == k
    ensures forall j | 0 <= j < FirstFormatting(counts, k) :: FormatLabel(counts[j].0) != k
  {
    if counts != [] && FormatLabel(counts[0].0) != k {
      FirstFormattingLeast(counts[1..], k);
      forall j | 0 < j < FirstFormatting(counts, k)
        ensures FormatLabel(counts[j].0) != k
      {
        assert counts[j] == counts[1..][j - 1];
      }
    }
  }

  /** Some entry formats to `k` exactly when the first one that does is an
      index of `counts`. */
  lemma FirstFormattingFound(counts: Histogram, k: string)
    ensures FirstFormatting(counts, k) < |counts| <==> FormatsTo(counts, k)
  {
    FirstFormattingLeast(counts, k);
    if FormatsTo(counts, k) {
      var i :| 0 <= i < |counts| && FormatLabel(counts[i].0) == k;
      assert FirstFormatting(counts, k) <= i;
    }
  }

  /** Appending an entry leaves the first index formatting to `k` alone
      when there is one, and otherwise makes it the new entry's index, or
      one past it. */
  lemma {:induction false} FirstFormattingAppend(counts: Histogram, e: (string, nat), k: string)
    ensures FirstFormatting(counts + [e], k) ==
      if FirstFormatting(counts, k) < |counts| then FirstFormatting(counts, k)
      else if FormatLabel(e.0) == k then |counts|
      else |counts| + 1
  {
    if counts != [] {
      assert (counts + [e])[1..] == counts[1..] + [e];
      FirstFormattingAppend(counts[1..], e, k);
    }
  }

  /** `FirstFormattingAppend` for the last entry of `counts`. */
  lemma FirstFormattingLast(counts: Histogram, k: string)
    requires |counts| > 0
    ensures var n := |counts| - 1;
      FirstFormatting(counts, k) ==
        if FirstFormatting(counts[..n], k) < n then FirstFormatting(counts[..n], k)
        else if FormatLabel(counts[n].0) == k then n
        else n + 1
  {
    var n := |counts| - 1;
    assert counts == counts[..n] + [counts[n]];
    FirstFormattingAppend(counts[..n], counts[n], k);
  }

  /** Every key of the result is formatted from some entry, so the first
      such entry is an index of the input. */
  lemma KeyFormattedEarly(counts: Histogram, i: nat)
    requires i < |FormatCounts(counts)|
    ensures FirstFormatting(counts, FormatCounts(counts)[i].0) < |counts|
  {
    var r := FormatCounts(counts);
    var k := r[i].0;
    assert Keys(r)[i] == k;
    LookupFound(r, k);
    FormatCountsKeys(counts, k);
    FirstFormattingFound(counts, k);
  }

  /** The keys of `r` come in the order of the first entries of `counts`
      formatting to them. */
  predicate KeysInFirstOrder(r: Histogram, counts: Histogram) {
    forall i, j | 0 <= i < j < |r| :: FirstFormatting(counts, r[i].0) < FirstFormatting(counts, r[j].0)
  }

  /** The keys stored before the last entry keep their first index, which
      lies before the last entry. */
  lemma EarlierKeysKeepFirst(counts: Histogram)
    requires |counts| > 0
    ensures var prefix := counts[..|counts| - 1];
      forall i | 0 <= i < |FormatCounts(prefix)| ::
        FirstFormatting(counts, FormatCounts(prefix)[i].0) == FirstFormatting(prefix, FormatCounts(prefix)[i].0) < |prefix|
  {
    var n := |counts| - 1;
    var prefix := counts[..n];
    var prev := FormatCounts(prefix);
    forall i | 0 <= i < |prev|
      ensures FirstFormatting(counts, prev[i].0) == FirstFormatting(prefix, prev[i].0) < n
    {
      KeyFormattedEarly(prefix, i);
      FirstFormattingLast(counts, prev[i].0);
    }
  }

  /** When the last entry overwrites a key, the keys and their order stay. */
  lemma OrderAfterOverwrite(counts: Histogram)
    requires |counts| > 0
    requires KeysInFirstOrder(FormatCounts(counts[..|counts| - 1]), counts[..|counts| - 1])
    requires FormatLabel(counts[|counts| - 1].0) in Keys(FormatCounts(counts[..|counts| - 1]))
    ensures KeysInFirstOrder(FormatCounts(counts), counts)
  {
    var n := |counts| - 1;
    var prev := FormatCounts(counts[..n]);
    var l, c := FormatLabel(counts[n].0), counts[n].1;
    var r := FormatCounts(counts);
    FormatCountsStep(counts);
    PutKeys(prev, l, c);
    EarlierKeysKeepFirst(counts);
    forall i | 0 <= i < |r|
      ensures r[i].0 == prev[i].0
    {
      assert Keys(r)[i] == Keys(prev)[i];
    }
  }

  /** When the last entry adds a new key, it goes last, and its first index
      is the last entry's. */
  lemma OrderAfterAppend(counts: Histogram)
    requires |counts| > 0
    requires KeysInFirstOrder(FormatCounts(counts[..|counts| - 1]), counts[..|counts| - 1])
    requires FormatLabel(counts[|counts| - 1].0) !in Keys(FormatCounts(counts[..|counts| - 1]))
    ensures KeysInFirstOrder(FormatCounts(counts), counts)
  {
    var n := |counts| - 1;
    var prefix := counts[..n];
    var prev := FormatCounts(prefix);
    var l, c := FormatLabel(counts[n].0), counts[n].1;
    FormatCountsStep(counts);
    PutAbsent(prev, l, c);
    EarlierKeysKeepFirst(counts);
    NewKeyFirstAtLast(counts);
    AppendKeepsOrder(counts, prefix, prev, l, c);
  }

  /** Appending a key whose first entry comes after those of all the keys
      before it keeps the keys in first-entry order. */
  lemma AppendKeepsOrder(counts: Histogram, prefix: Histogram, prev: Histogram, l: string, c: nat)
    requires KeysInFirstOrder(prev, prefix)
    requires forall i | 0 <= i < |prev| ::
      FirstFormatting(counts, prev[i].0) == FirstFormatting(prefix, prev[i].0) < |prefix|
    requires FirstFormatting(counts, l) == |prefix|
    ensures KeysInFirstOrder(prev + [(l, c)], counts)
  {
    var r := prev + [(l, c)];
    forall i, j | 0 <= i < j < |r|
      ensures FirstFormatting(counts, r[i].0) < FirstFormatting(counts, r[j].0)
    {
      assert r[i] == prev[i];
      if j < |prev| {
        assert r[j] == prev[j];
      }
    }
  }

  /** A key the last entry adds has the last entry as its first. */
  lemma NewKeyFirstAtLast(counts: Histogram)
    requires |counts| > 0
    requires FormatLabel(counts[|counts| - 1].0) !in Keys(FormatCounts(counts[..|counts| - 1]))
    ensures FirstFormatting(counts, FormatLabel(counts[|counts| - 1].0)) == |counts| - 1
  {
    var n := |counts| - 1;
    var l := FormatLabel(counts[n].0);
    LookupFound(FormatCounts(counts[..n]), l);
    FormatCountsKeys(counts[..n], l);
    FirstFormattingFound(counts[..n], l);
    FirstFormattingLast(counts, l);
  }

  /** Key order: a merged key stays where its first entry put it, so the
      result's keys come in the order of the first entries formatting to
      them. */
  lemma {:induction false} FormatCountsOrder(counts: Histogram)
    ensures forall i, j | 0 <= i < j < |FormatCounts(counts)| ::
      FirstFormatting(counts, FormatCounts(counts)[i].0) < FirstFormatting(counts, FormatCounts(counts)[j].0)
    decreases |counts|
  {
    if |counts| > 0 {
      var n := |counts| - 1;
      FormatCountsOrder(counts[..n]);
      if FormatLabel(counts[n].0) in Keys(FormatCounts(counts[..n])) {
        OrderAfterOverwrite(counts);
      } else {
        OrderAfterAppend(counts);
      }
    }
  }

  /** Last write wins: the value stored under a formatted label is the count
      of the last entry whose label formats to it. */
  lemma {:induction false} FormatCountsLastWins(counts: Histogram, i: nat)
    requires i < |counts|
    requires forall j | i < j < |counts| :: FormatLabel(counts[j].0) != FormatLabel(counts[i].0)
    ensures Lookup(FormatCounts(counts), FormatLabel(counts[i].0)) == Some(counts[i].1)
    decreases |counts|
  {
    var n := |counts| - 1;
    var prefix := counts[..n];
    FormatCountsStep(counts);
    PutLookup(FormatCounts(prefix), FormatLabel(counts[n].0), counts[n].1, FormatLabel(counts[i].0));
    if i < n {
      assert forall j | i < j < n :: prefix[j] == counts[j];
      FormatCountsLastWins(prefix, i);
    }
  }

  /** Relabelling entry by entry: the last entry's relabelling follows
      the others'. */
  lemma RelabelLast(counts: Histogram)
    requires |counts| > 0
    ensures Relabel(counts) ==
      Relabel(counts[..|counts| - 1]) + [(FormatLabel(counts[|counts| - 1].0), counts[|counts| - 1].1)]
  {
    var n := |counts| - 1;
    var l, r := Relabel(counts), Relabel(counts[..n]) + [(FormatLabel(counts[n].0), counts[n].1)];
    forall i | 0 <= i < |l|
      ensures l[i] == r[i]
    {
      if i < n {
        assert counts[..n][i] == counts[i];
      }
    }
  }

  /** A label no entry formats to is not a key of the relabelled entries. */
  lemma RelabelAvoids(counts: Histogram, k: string)
    requires forall i | 0 <= i < |counts| :: FormatLabel(counts[i].0) != k
    ensures k !in Keys(Relabel(counts))
  {
    var ks := Keys(Relabel(counts));
    forall i | 0 <= i < |ks|
      ensures ks[i] != k
    {
      assert ks[i] == Relabel(counts)[i].0 == FormatLabel(counts[i].0);
    }
  }

  /** When no two labels format alike, `format_counts` relabels every entry
      in place: same order, same counts, nothing lost. */
  lemma {:induction false} FormatCountsRelabels(counts: Histogram)
    requires forall i, j | 0 <= i < j < |counts| ::
      FormatLabel(counts[i].0) != FormatLabel(counts[j].0)
    ensures FormatCounts(counts) == Relabel(counts)
    decreases |counts|
  {
    if |counts| > 0 {
      var n := |counts| - 1;
      var prefix := counts[..n];
      var k := FormatLabel(counts[n].0);
      assert forall i | 0 <= i < n :: prefix[i] == counts[i];
      FormatCountsStep(counts);
      FormatCountsRelabels(prefix);
      var prev := FormatCounts(prefix);
      RelabelAvoids(prefix, k);
      PutAbsent(prev, k, counts[n].1);
      RelabelLast(counts);
    }
  }

  /** Distinct binary labels of one width keep distinct formatted labels. */
  lemma SameWidthLabelsStayDistinct(counts: Histogram, width: nat)
    requires DistinctKeys(counts)
    requires forall i | 0 <= i < |counts| :: IsBinaryLabel(counts[i].0) && |counts[i].0| == width
    ensures forall i, j | 0 <= i < j < |counts| ::
      FormatLabel(counts[i].0) != FormatLabel(counts[j].0)
  {
    forall i, j | 0 <= i < j < |counts|
      ensures FormatLabel(counts[i].0) != FormatLabel(counts[j].0)
    {
      var a, b := counts[i].0, counts[j].0;
      DecimalStringInjective(BinaryValue(a), BinaryValue(b));
      BinaryValueInjective(a, b);
    }
  }

  /** Relabelling keeps the total. */
  lemma {:induction false} TotalRelabel(counts: Histogram)
    ensures Total(Relabel(counts)) == Total(counts)
    decreases |counts|
  {
    if counts != [] {
      TotalRelabel(counts[1..]);
      assert Relabel(counts)[1..] == Relabel(counts[1..]);
    }
  }

  /** Count conservation: for a histogram of distinct bit strings of one
      width, as the simulator returns, `format_counts` keeps every entry and
      the total number of shots. */
  lemma FormatCountsConserves(counts: Histogram, width: nat)
    requires DistinctKeys(counts)
    requires forall i | 0 <= i < |counts| :: IsBinaryLabel(counts[i].0) && |counts[i].0| == width
    ensures |FormatCounts(counts)| == |counts|
    ensures Total(FormatCounts(counts)) == Total(counts)
  {
    SameWidthLabelsStayDistinct(counts, width);
    FormatCountsRelabels(counts);
    TotalRelabel(counts);
  }

  /** Appending an entry adds its count. */
  lemma {:induction false} TotalAppend(d: Histogram, e: (string, nat))
    ensures Total(d + [e]) == Total(d) + e.1
  {
    if d != [] {
      TotalAppend(d[1..], e);
      assert (d + [e])[1..] == d[1..] + [e];
    }
  }

  /** `d[k] = v` adds `v` to the total and removes the count it overwrites. */
  lemma {:induction false} TotalPut(d: Histogram, k: string, v: nat)
    ensures Total(Put(d, k, v)) + Lookup(d, k).GetOr(0) == Total(d) + v
  {
    if d != [] && d[0].0 != k {
      TotalPut(d[1..], k, v);
    }
  }

  /** Merging never creates shots: the result's total is at most the
      input's, whatever the labels. */
  lemma {:induction false} FormatCountsTotalBound(counts: Histogram)
    ensures Total(FormatCounts(counts)) <= Total(counts)
    decreases |counts|
  {
    if |counts| > 0 {
      var n := |counts| - 1;
      var prefix := counts[..n];
      FormatCountsStep(counts);
      FormatCountsTotalBound(prefix);
      TotalPut(FormatCounts(prefix), FormatLabel(counts[n].0), counts[n].1);
      TotalAppend(prefix, counts[n]);
      assert prefix + [counts[n]] == counts;
    }
  }

  /** The two-qubit entangling circuit's histogram: `00` and `11` become
      `0` and `3`, each count kept. */
  lemma FormatCountsBellExample()
    ensures FormatCounts([("00", 512), ("11", 512)]) == [("0", 512), ("3", 512)]
  {
    assert IsBinaryLabel("00") && IsBinaryLabel("11");
    assert "00"[..1] == "0" && "11"[..1] == "1";
    assert BinaryValue("00") == 0 && BinaryValue("11") == 3;
    assert DigitChar(3) == '3';
    assert FormatLabel("00") == "0";
    assert FormatLabel("11") == "3";
    var h := [("00", 512), ("11", 512)];
    assert h[..1] == [("00", 512)];
    assert FormatCounts(h[..1]) == [("0", 512)];
    FormatCountsStep(h);
    assert Put([("0", 512)], "3", 512) == [("0", 512), ("3", 512)];
  }

  /** A label that is not binary is kept as it is, and when it collides with
      a formatted binary label the later entry wins. */
  lemma FormatCountsCollisionExample()
    ensures FormatCounts([("10", 3), ("2", 4)]) == [("2", 4)]
  {
    assert IsBinaryLabel("10");
    assert !IsBinaryLabel("2") by {
      assert "2"[0] == '2';
    }
    assert "10"[..1] == "1";
    assert BinaryValue("10") == 2;
    assert DigitChar(2) == '2';
    assert FormatLabel("10") == "2";
    var h := [("10", 3), ("2", 4)];
    assert h[..1] == [("10", 3)];
    assert FormatCounts(h[..1]) == [("2", 3)];
  }

  /** A merged key keeps the place of its first entry: `"01"` overwrites
      the value stored for `"1"`, which stays ahead of `"0"`. */
  lemma FormatCountsMergeOrderExample()
    ensures FormatCounts([("1", 1), ("0", 2), ("01", 3)]) == [("1", 3), ("0", 2)]
  {
    assert IsBinaryLabel("1") && IsBinaryLabel("0") && IsBinaryLabel("01");
    assert "01"[..1] == "0";
    assert BinaryValue("1") == 1 && BinaryValue("0") == 0 && BinaryValue("01") == 1;
    assert FormatLabel("1") == "1" && FormatLabel("0") == "0" && FormatLabel("01") == "1";
    var h := [("1", 1), ("0", 2), ("01", 3)];
    assert h[..1] == [("1", 1)] && h[..2] == [("1", 1), ("0", 2)];
    assert FormatCounts(h[..1]) == [("1", 1)];
    FormatCountsStep(h[..2]);
    assert h[..2][..1] == h[..1];
    assert FormatCounts(h[..2]) == [("1", 1), ("0", 2)];
    FormatCountsStep(h);
  }
}
