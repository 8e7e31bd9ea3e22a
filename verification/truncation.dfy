/** Fixed-length truncation of a table: the exhaustive suffix search
    `truncate`, the prefix cut `truncateR`, the per-line rewriting of
    `truncNomem` / `truncNomemleft`, and one trial of the randomised
    position-subset search `truncHeur`. */
module Truncation {
  import opened Wrappers
  import opened PySlice
  import opened Dups
  import Duplicates

  /** `[elem[-i:] for elem in t]` */
  function Suffixes(t: seq<string>, i: nat): (r: seq<string>)
    requires i >= 1
    ensures |r| == |t|
    ensures forall k :: 0 <= k < |t| ==> r[k] == Last(t[k], i)
  {
    seq(|t|, k requires 0 <= k < |t| => Last(t[k], i))
  }

  /** `truncate`: tries suffix lengths `1, 2, ...` below the width of the
      first entry and returns the first suffix list without duplicates.
      Python indexes `lookupRaw[0]`, so the table must not be empty. */
  method Truncate(t: seq<string>) returns (r: Option<seq<string>>)
    requires |t| > 0
    ensures r.Some? ==> exists i :: 1 <= i < |t[0]| && r.value == Suffixes(t, i)
    ensures r.Some? ==> !HasDup(r.value)
    ensures r.Some? ==> forall i :: 1 <= i < |t[0]| && i < |r.value[0]| ==> HasDup(Suffixes(t, i))
    ensures r.None? <==> forall i :: 1 <= i < |t[0]| ==> HasDup(Suffixes(t, i))
  {
    var i := 1;
    while i < |t[0]|
      invariant 1 <= i
      invariant forall j :: 1 <= j < i && j < |t[0]| ==> HasDup(Suffixes(t, j))
    {
      var test := Suffixes(t, i);
      var dup := Duplicates.CheckDups(test);
      if !dup {
        assert |test[0]| == i;
        return Some(test);
      }
      i := i + 1;
    }
    return None;
  }

  /** `truncateR`: the first `hexes` characters of every entry. Python's loop
      `for _ in range(1, len(table[0]))` leaves `truncList` unbound when the
      first entry is shorter than two characters, and `table[0]` fails on an
      empty table: both are `None` here. */
  function TruncateR(t: seq<string>, hexes: nat): (r: Option<seq<string>>)
    ensures r.Some? <==> |t| > 0 && |t[0]| >= 2
    ensures r.Some? ==> |r.value| == |t|
    ensures r.Some? ==> forall k :: 0 <= k < |t| ==> r.value[k] <= t[k] && |r.value[k]| == if hexes <= |t[k]| then hexes else |t[k]|
  {
    if |t| == 0 || |t[0]| < 2 then None
    else Some(seq(|t|, k requires 0 <= k < |t| => Prefix(t[k], hexes)))
  }

  /** `truncNomem` on one raw line (newline included): `line[-truncvalue-1:]`. */
  function TruncNomemLine(line: string, tv: nat): (r: string)
    ensures |r| <= |line|
  {
    Slice(line, -(tv as int) - 1, |line|)
  }

  /** On a newline-terminated line `truncNomem` keeps the last `tv`
      characters of the value and the newline. */
  lemma TruncNomemKeepsSuffix(body: string, tv: nat)
    ensures tv == 0 ==> TruncNomemLine(body + "\n", tv) == "\n"
    ensures tv >= 1 ==> TruncNomemLine(body + "\n", tv) == Last(body, tv) + "\n"
  {
    var line := body + "\n";
    if tv >= 1 {
      var n := if tv <= |body| then tv else |body|;
      assert line[|line| - n - 1..] == body[|body| - n..] + "\n";
    }
  }

  /** The output file of `truncNomem`, as line values: the last `tv`
      characters of every entry; with `tv == 0` only the newline is kept and
      every line is empty. */
  function TruncNomem(t: seq<string>, tv: nat): (r: seq<string>)
    ensures |r| == |t|
    ensures forall k :: 0 <= k < |t| ==> r[k] + "\n" == TruncNomemLine(t[k] + "\n", tv)
    ensures tv == 0 ==> forall k :: 0 <= k < |t| ==> r[k] == ""
    ensures tv >= 1 ==> forall k :: 0 <= k < |t| ==> r[k] == Last(t[k], tv)
  {
    var r := if tv == 0 then seq(|t|, _ => "") else Suffixes(t, tv);
    assert forall k :: 0 <= k < |t| ==> r[k] + "\n" == TruncNomemLine(t[k] + "\n", tv) by {
      forall k | 0 <= k < |t| ensures r[k] + "\n" == TruncNomemLine(t[k] + "\n", tv) {
        TruncNomemKeepsSuffix(t[k], tv);
      }
    }
    r
  }

  /** The lookup key of a serialised point: `elem[2:2+truncvalue]`, the
      characters after the two-character point-type prefix. */
  function Key(elem: string, tv: nat): (r: string)
    ensures |r| <= tv
    ensures |elem| >= 2 + tv ==> r == elem[2..2 + tv]
  {
    Slice(elem, 2, 2 + tv)
  }

  /** `truncNomemleft` on one raw line: `line[2:2+truncvalue] + "\n"`. */
  function TruncNomemleftLine(line: string, tv: nat): (r: string)
  {
    Slice(line, 2, 2 + tv) + "\n"
  }

  /** The text of a file whose line values are `lines`. */
  function Text(lines: seq<string>): (r: string)
  {
    if |lines| == 0 then "" else lines[0] + "\n" + Text(lines[1..])
  }

  lemma {:induction false} TextConcat(a: seq<string>, b: seq<string>)
    ensures Text(a + b) == Text(a) + Text(b)
  {
    if |a| > 0 {
      assert (a + b)[1..] == a[1..] + b;
      TextConcat(a[1..], b);
    } else {
      assert a + b == b;
    }
  }

  /** The text `truncNomemleft` writes for the raw lines of `t`. */
  function WrittenLeft(t: seq<string>, tv: nat): (r: string)
  {
    if |t| == 0 then "" else TruncNomemleftLine(t[0] + "\n", tv) + WrittenLeft(t[1..], tv)
  }

  /** The lines one entry adds to the output of `truncNomemleft`: its key
      when it is at least `2 + tv` wide; a narrower entry's slice keeps the
      entry's own newline, so its tail is followed by an empty line; an entry
      under two characters gives an empty line. */
  function LeftLines(elem: string, tv: nat): (r: seq<string>)
    ensures Text(r) == TruncNomemleftLine(elem + "\n", tv)
    ensures |elem| >= 2 + tv ==> r == [Key(elem, tv)]
  {
    var line := elem + "\n";
    if |elem| >= 2 + tv then
      assert line[2..2 + tv] == elem[2..2 + tv];
      [elem[2..2 + tv]]
    else if |elem| >= 2 then
      assert Slice(line, 2, 2 + tv) == line[2..] == elem[2..] + "\n";
      var r := [elem[2..], ""];
      assert r[1..] == [""];
      assert Text(r) == elem[2..] + "\n" + Text([""]);
      r
    else
      [""]
  }

  /** The output file of `truncNomemleft`, as line values: the lines of
      every entry in turn, so that its text is exactly what was written. */
  function TruncNomemleft(t: seq<string>, tv: nat): (r: seq<string>)
    ensures Text(r) == WrittenLeft(t, tv)
  {
    if |t| == 0 then []
    else
      var rest := TruncNomemleft(t[1..], tv);
      TextConcat(LeftLines(t[0], tv), rest);
      LeftLines(t[0], tv) + rest
  }

  /** A wide enough first entry contributes exactly its key. */
  lemma LeftHead(t: seq<string>, tv: nat)
    requires |t| > 0 && |t[0]| >= 2 + tv
    ensures TruncNomemleft(t, tv) == [Key(t[0], tv)] + TruncNomemleft(t[1..], tv)
  {
    assert LeftLines(t[0], tv) == [Key(t[0], tv)];
  }

  /** The line `truncNomemleft` writes for entry `k` is the key the
      truncated lookups compare against, as long as no narrower entry comes
      before it; so when every entry is wide enough there is one line per
      entry, its key. */
  lemma {:induction false} TruncNomemleftIsKey(t: seq<string>, tv: nat, k: int)
    requires 0 <= k < |t|
    requires forall j :: 0 <= j <= k ==> |t[j]| >= 2 + tv
    ensures k < |TruncNomemleft(t, tv)|
    ensures TruncNomemleft(t, tv)[k] == Key(t[k], tv)
  {
    LeftHead(t, tv);
    if k > 0 {
      var u := t[1..];
      forall j | 0 <= j <= k - 1 ensures |u[j]| >= 2 + tv {
        assert u[j] == t[j + 1];
      }
      TruncNomemleftIsKey(u, tv, k - 1);
      assert u[k - 1] == t[k];
    }
  }

  /** A table of entries all at least `2 + tv` wide gives one line per
      entry, its key. */
  lemma {:induction false} TruncNomemleftAllWide(t: seq<string>, tv: nat)
    requires forall k :: 0 <= k < |t| ==> |t[k]| >= 2 + tv
    ensures |TruncNomemleft(t, tv)| == |t|
    ensures forall k :: 0 <= k < |t| ==> TruncNomemleft(t, tv)[k] == Key(t[k], tv)
  {
    if |t| > 0 {
      assert forall j :: 0 <= j < |t| - 1 ==> t[1..][j] == t[j + 1];
      TruncNomemleftAllWide(t[1..], tv);
      LeftHead(t, tv);
    }
    forall k | 0 <= k < |t| ensures k < |TruncNomemleft(t, tv)| && TruncNomemleft(t, tv)[k] == Key(t[k], tv) {
      TruncNomemleftIsKey(t, tv, k);
    }
  }

  // ---------------------------------------------------------------------
  // One trial of truncHeur

  /** Lowest and highest character positions `random.sample(range(2,66), _)`
      may draw: the two-character point-type prefix is skipped. */
  const HeurLo: int := 2
  const HeurHi: int := 66

  predicate Descending(s: seq<int>)
  {
    forall i, j :: 0 <= i < j < |s| ==> s[i] > s[j]
  }

  predicate Distinct(s: seq<int>)
  {
    forall i, j :: 0 <= i < j < |s| ==> s[i] != s[j]
  }

  /** Putting a larger element in front keeps a sequence descending. */
  lemma DescendingCons(x: int, s: seq<int>)
    requires Descending(s)
    requires |s| == 0 || x > s[0]
    ensures Descending([x] + s)
  {
    var r := [x] + s;
    forall i, j | 0 <= i < j < |r| ensures r[i] > r[j] {
      assert r[j] == s[j - 1];
      if i > 0 {
        assert r[i] == s[i - 1];
      } else if j > 1 {
        assert s[0] > s[j - 1];
      }
    }
  }

  lemma DescendingTail(s: seq<int>)
    requires Descending(s)
    requires |s| > 0
    ensures Descending(s[1..])
  {
    forall i, j | 0 <= i < j < |s| - 1 ensures s[1..][i] > s[1..][j] {
      assert s[1..][i] == s[i + 1] && s[1..][j] == s[j + 1];
    }
  }

  /** Inserts `x` into a strictly descending sequence not containing it. */
  function InsertDesc(x: int, s: seq<int>): (r: seq<int>)
    requires Descending(s)
    requires x !in s
    ensures multiset(r) == multiset(s) + multiset{x}
    ensures Descending(r)
    ensures r[0] == if |s| == 0 || x > s[0] then x else s[0]
  {
    if |s| == 0 then [x]
    else if x > s[0] then
      DescendingCons(x, s);
      [x] + s
    else
      assert s == [s[0]] + s[1..];
      DescendingTail(s);
      assert x != s[0] && x !in s[1..];
      var rest := InsertDesc(x, s[1..]);
      assert rest[0] < s[0] by {
        if |s| > 1 {
          assert s[1..][0] == s[1];
        }
      }
      assert multiset([s[0]] + rest) == multiset{s[0]} + multiset(rest);
      DescendingCons(s[0], rest);
      [s[0]] + rest
  }

  lemma DistinctTail(s: seq<int>)
    requires Distinct(s)
    requires |s| > 0
    ensures Distinct(s[1..])
    ensures s[0] !in multiset(s[1..])
  {
    forall i, j | 0 <= i < j < |s| - 1 ensures s[1..][i] != s[1..][j] {
      assert s[1..][i] == s[i + 1] && s[1..][j] == s[j + 1];
    }
    forall k | 0 <= k < |s| - 1 ensures s[1..][k] != s[0] {
      assert s[1..][k] == s[k + 1];
    }
  }

  /** `selInd.sort(reverse=True)` on a sample of distinct positions. */
  function SortDesc(s: seq<int>): (r: seq<int>)
    requires Distinct(s)
    ensures multiset(r) == multiset(s)
    ensures Descending(r)
  {
    if |s| == 0 then []
    else
      DistinctTail(s);
      var rest := SortDesc(s[1..]);
      assert s == [s[0]] + s[1..];
      InsertDesc(s[0], rest)
  }

  /** `truncElem`: the characters of `elem` at the positions of `sel`, in the order of `sel`. */
  function Project(elem: string, sel: seq<int>): (r: string)
    requires forall m :: 0 <= m < |sel| ==> 0 <= sel[m] < |elem|
    ensures |r| == |sel|
    ensures forall m :: 0 <= m < |sel| ==> r[m] == elem[sel[m]]
  {
    if |sel| == 0 then "" else Project(elem, sel[..|sel| - 1]) + [elem[sel[|sel| - 1]]]
  }

  /** The outcome of one trial: the sorted positions, the projected table and
      whether it is free of duplicates. */
  datatype Trial = Trial(sel: seq<int>, projected: seq<string>, success: bool)

  /** A drawn sample: distinct positions in `[2, 66)` that every entry has. */
  predicate ValidSample(t: seq<string>, sample: seq<int>)
  {
    && Distinct(sample)
    && (forall m :: 0 <= m < |sample| ==> HeurLo <= sample[m] < HeurHi)
    && (forall k, m :: 0 <= k < |t| && 0 <= m < |sample| ==> sample[m] < |t[k]|)
  }

  /** Every entry has a character at every position of `sel`. */
  predicate Fits(t: seq<string>, sel: seq<int>)
  {
    forall k, m :: 0 <= k < |t| && 0 <= m < |sel| ==> 0 <= sel[m] < |t[k]|
  }

  /** A rearrangement of a valid sample still fits every entry. */
  lemma PermutedFits(t: seq<string>, sample: seq<int>, sel: seq<int>)
    requires ValidSample(t, sample)
    requires multiset(sel) == multiset(sample)
    ensures Fits(t, sel)
  {
    forall m | 0 <= m < |sel| ensures 0 <= sel[m] && forall k :: 0 <= k < |t| ==> sel[m] < |t[k]| {
      assert sel[m] in multiset(sample);
      assert sel[m] in sample;
      var i :| 0 <= i < |sample| && sample[i] == sel[m];
      assert HeurLo <= sample[i];
    }
  }

  /** The test list of a trial: every entry projected onto `sel`. */
  function Projected(t: seq<string>, sel: seq<int>): (r: seq<string>)
    requires Fits(t, sel)
    ensures |r| == |t|
    ensures forall k :: 0 <= k < |t| ==> r[k] == Project(t[k], sel)
  {
    seq(|t|, k requires 0 <= k < |t| => Project(t[k], sel))
  }

  /** Every entry projected onto the positions `sel`, in table order. */
  method ProjectAll(t: seq<string>, sel: seq<int>) returns (projected: seq<string>)
    requires Fits(t, sel)
    ensures |projected| == |t|
    ensures forall k :: 0 <= k < |t| ==> projected[k] == Project(t[k], sel)
  {
    projected := [];
    for k := 0 to |t|
      invariant |projected| == k
      invariant forall i :: 0 <= i < k ==> projected[i] == Project(t[i], sel)
    {
      projected := projected + [Project(t[k], sel)];
    }
  }

  /** The draw `d`, sorted descending, separates every entry of `t`. */
  ghost predicate TrialOk(t: seq<string>, d: seq<int>)
    requires ValidSample(t, d)
  {
    PermutedFits(t, d, SortDesc(d));
    !HasDup(Projected(t, SortDesc(d)))
  }

  /** One iteration of the `truncHeur` loop with the random draw `sample`
      given: sort it descending, project every entry, test for duplicates. */
  method HeurTrial(t: seq<string>, sample: seq<int>) returns (r: Trial)
    requires ValidSample(t, sample)
    ensures r.sel == SortDesc(sample)
    ensures multiset(r.sel) == multiset(sample) && Descending(r.sel)
    ensures Fits(t, r.sel)
    ensures |r.projected| == |t|
    ensures forall k :: 0 <= k < |t| ==> r.projected[k] == Project(t[k], r.sel)
    ensures r.success <==> !HasDup(r.projected)
  {
    var sel := SortDesc(sample);
    PermutedFits(t, sample, sel);
    var projected := ProjectAll(t, sel);
    var dup := Duplicates.CheckDups(projected);
    r := Trial(sel, projected, !dup);
  }

  /** A trial succeeds exactly when its draw separates every entry. */
  lemma TrialSuccess(t: seq<string>, d: seq<int>, trial: Trial)
    requires ValidSample(t, d)
    requires trial.sel == SortDesc(d) && Fits(t, trial.sel)
    requires |trial.projected| == |t|
    requires forall k :: 0 <= k < |t| ==> trial.projected[k] == Project(t[k], trial.sel)
    requires trial.success <==> !HasDup(trial.projected)
    ensures trial.success <==> TrialOk(t, d)
    ensures trial.success ==> forall i, j :: 0 <= i < j < |t| ==> Project(t[i], trial.sel) != Project(t[j], trial.sel)
  {
    assert trial.projected == Projected(t, trial.sel);
    if trial.success {
      forall i, j | 0 <= i < j < |t| ensures Project(t[i], trial.sel) != Project(t[j], trial.sel) {
        assert trial.projected[i] == Project(t[i], trial.sel);
        assert trial.projected[j] == Project(t[j], trial.sel);
      }
    }
  }

  /** Draw `d` is the first that separates every entry. */
  ghost predicate FirstOk(t: seq<string>, draws: seq<seq<int>>, d: int)
    requires forall e :: 0 <= e < |draws| ==> ValidSample(t, draws[e])
  {
    && 0 <= d < |draws|
    && ValidSample(t, draws[d])
    && TrialOk(t, draws[d])
    && forall e :: 0 <= e < d ==> !TrialOk(t, draws[e])
  }

  /** The `truncHeur` loop over a given sequence of draws: it stops at the
      first draw whose projection is duplicate-free and reports it; it runs
      out (`None`) exactly when no draw is. Running out of draws stands for
      the external `quit` event. */
  method TruncHeur(t: seq<string>, draws: seq<seq<int>>) returns (r: Option<seq<int>>)
    requires forall d :: 0 <= d < |draws| ==> ValidSample(t, draws[d])
    ensures r.None? <==> forall d :: 0 <= d < |draws| ==> !TrialOk(t, draws[d])
    ensures r.Some? ==> exists d :: FirstOk(t, draws, d) && r.value == SortDesc(draws[d])
    ensures r.Some? ==> Descending(r.value)
    ensures r.Some? ==> exists d :: 0 <= d < |draws| && multiset(r.value) == multiset(draws[d])
    ensures r.Some? ==> Fits(t, r.value)
    ensures r.Some? ==> forall i, j :: 0 <= i < j < |t| ==> Project(t[i], r.value) != Project(t[j], r.value)
  {
    for d := 0 to |draws|
      invariant forall e :: 0 <= e < d ==> !TrialOk(t, draws[e])
    {
      var trial := HeurTrial(t, draws[d]);
      TrialSuccess(t, draws[d], trial);
      if trial.success {
        assert FirstOk(t, draws, d);
        return Some(trial.sel);
      }
    }
    return None;
  }
}
