/** Building lookup tables: every builder walks a running point from
    `start·g` by repeated `+ g` and writes `str(point)` per line, so a table
    over `[lo, hi)` is `[ser(i) | lo <= i < hi]` (`Points.Table`). Files are
    sequences of line values; files already on disk are parameters. */
module TableBuild {
  import opened Wrappers
  import opened Points

  /** Doubling the exponent range never shrinks it. */
  lemma {:induction false} Pow2Monotone(a: nat, b: nat)
    requires a <= b
    ensures Pow2(a) <= Pow2(b)
    decreases b
  {
    if a < b {
      Pow2Monotone(a, b - 1);
    }
  }

  /** Two adjacent shards concatenate to the shard over the joined range. */
  lemma ConcatShards(ser: int -> string, lo: int, mid: int, hi: int)
    requires lo <= mid <= hi
    ensures Table(ser, lo, mid) + Table(ser, mid, hi) == Table(ser, lo, hi)
  {
    var t := Table(ser, lo, mid) + Table(ser, mid, hi);
    forall k | 0 <= k < |t| ensures t[k] == Table(ser, lo, hi)[k] {
      if k < mid - lo {
        assert t[k] == Table(ser, lo, mid)[k];
      } else {
        assert t[k] == Table(ser, mid, hi)[k - (mid - lo)];
      }
    }
  }

  /** The write loop shared by all builders: `temp` starts at `lo·g` and is
      advanced by `+g` after each line, appended to what the file held. */
  method AppendRange(ser: int -> string, prior: seq<string>, lo: int, hi: int) returns (out: seq<string>)
    ensures out == prior + Table(ser, lo, hi)
  {
    out := prior;
    var temp := lo;
    var i := lo;
    while i < hi
      invariant lo <= hi ==> lo <= i <= hi
      invariant lo > hi ==> i == lo
      invariant temp == i
      invariant out == prior + Table(ser, lo, if i <= hi then i else lo)
    {
      ConcatShards(ser, lo, i, i + 1);
      out := out + [ser(temp)];
      temp := temp + 1;
      i := i + 1;
    }
  }

  /** `lookup2File(rng)`: the table of the indices `1 .. 2^rng - 1`, written
      to a fresh file. */
  method Lookup2File(ser: int -> string, rng: nat) returns (out: seq<string>)
    ensures |out| == Pow2(rng) - 1
    ensures forall k :: 0 <= k < |out| ==> out[k] == ser(k + 1)
  {
    out := AppendRange(ser, [], 1, Pow2(rng));
  }

  /** The exponent `r` whose table `lookup2FileRes(rng)` resumes from: the
      largest `r` in `[7, rng)` with a file on disk. */
  function ResumeFrom(files: map<nat, seq<string>>, r: nat): (res: Option<nat>)
    ensures res.Some? ==> 7 <= res.value < r && res.value in files
    ensures res.Some? ==> forall q :: res.value < q < r ==> q !in files
    ensures res.None? ==> forall q :: 7 <= q < r ==> q !in files
  {
    if r <= 7 then None
    else if r - 1 in files then Some(r - 1)
    else ResumeFrom(files, r - 1)
  }

  /** `lookup2FileRes(rng)`: searches downwards for the largest smaller table
      on disk (`files`, keyed by exponent); if one is found it is copied over
      the target and the build continues at `2^r`, otherwise the build starts
      at 1 and appends to whatever the target file held. */
  method Lookup2FileRes(ser: int -> string, rng: nat, files: map<nat, seq<string>>) returns (out: seq<string>)
    ensures ResumeFrom(files, rng).Some? ==>
      out == files[ResumeFrom(files, rng).value] + Table(ser, Pow2(ResumeFrom(files, rng).value), Pow2(rng))
    ensures ResumeFrom(files, rng).None? ==>
      out == (if rng in files then files[rng] else []) + Table(ser, 1, Pow2(rng))
    ensures (forall q :: q in files ==> q < rng && files[q] == Table(ser, 1, Pow2(q))) ==>
      out == Table(ser, 1, Pow2(rng))
  {
    var r: nat := rng;
    var resume := false;
    while r > 7 && !resume
      invariant r <= rng
      invariant resume ==> r in files && ResumeFrom(files, rng) == Some(r)
      invariant !resume ==> ResumeFrom(files, rng) == ResumeFrom(files, r)
    {
      r := r - 1;
      resume := r in files;
    }
    var startIdx: nat := 1;
    var prior: seq<string> := if rng in files then files[rng] else [];
    if resume {
      prior := files[r];
      startIdx := Pow2(r);
    }
    out := AppendRange(ser, prior, startIdx, Pow2(rng));
    if resume {
      Pow2Monotone(r, rng);
      ConcatShards(ser, 1, Pow2(r), Pow2(rng));
    }
  }

  /** `lookup2FileB(torng, fromrng)`: the indices `2^fromrng .. 2^torng - 1`,
      appended to the file. */
  method Lookup2FileB(ser: int -> string, torng: nat, fromrng: nat, prior: seq<string>) returns (out: seq<string>)
    ensures |prior| <= |out|
    ensures |out| - |prior| == if fromrng <= torng then Pow2(torng) - Pow2(fromrng) else 0
    ensures out[..|prior|] == prior
    ensures forall k :: |prior| <= k < |out| ==> out[k] == ser(Pow2(fromrng) + k - |prior|)
  {
    if fromrng <= torng {
      Pow2Monotone(fromrng, torng);
    } else {
      Pow2Monotone(torng, fromrng);
    }
    out := AppendRange(ser, prior, Pow2(fromrng), Pow2(torng));
  }

  /** `lookup2FileC(torng, fromrng)`: the indices `fromrng .. torng - 1`,
      appended to the file. */
  method Lookup2FileC(ser: int -> string, torng: int, fromrng: int, prior: seq<string>) returns (out: seq<string>)
    ensures |out| == |prior| + if fromrng <= torng then torng - fromrng else 0
    ensures out[..|prior|] == prior
    ensures forall k :: |prior| <= k < |out| ==> out[k] == ser(fromrng + k - |prior|)
  {
    out := AppendRange(ser, prior, fromrng, torng);
  }

  /** `lookup2FileResB(rng)`: resumes at `countlines + 1` when the file
      exists (`existing`), else starts at 1; builds up to index `rng - 1`.
      Resuming from any complete earlier run gives the fresh table. */
  method Lookup2FileResB(ser: int -> string, rng: int, existing: Option<seq<string>>) returns (out: seq<string>)
    ensures existing.None? ==> out == Table(ser, 1, rng)
    ensures existing.Some? ==> out == existing.value + Table(ser, |existing.value| + 1, rng)
    ensures existing.Some? && existing.value == Table(ser, 1, |existing.value| + 1) && |existing.value| < rng ==>
      out == Table(ser, 1, rng)
  {
    var startIdx := 1;
    var prior: seq<string> := [];
    if existing.Some? {
      prior := existing.value;
      startIdx := |existing.value| + 1;
    }
    out := AppendRange(ser, prior, startIdx, rng);
    if existing.Some? && existing.value == Table(ser, 1, |existing.value| + 1) && |existing.value| < rng {
      ConcatShards(ser, 1, startIdx, rng);
    }
  }

  /** `concatFiles` / `concatFilesC`: the first file's lines, then the second's. */
  function ConcatFiles(a: seq<string>, b: seq<string>): (c: seq<string>)
    ensures |c| == |a| + |b|
    ensures c[..|a|] == a && c[|a|..] == b
  {
    a + b
  }

  /** `concatFilesC(fromrng, midrng, torng)` on the shards built by
      `lookup2FileC` gives the shard `[fromrng, torng)`. */
  lemma ConcatFilesC(ser: int -> string, fromrng: int, midrng: int, torng: int)
    requires fromrng <= midrng <= torng
    ensures ConcatFiles(Table(ser, fromrng, midrng), Table(ser, midrng, torng)) == Table(ser, fromrng, torng)
  {
    ConcatShards(ser, fromrng, midrng, torng);
  }

  /** `concatFiles(fromrng, midrng, torng)` on the shards built by
      `lookup2FileB` gives the shard `[2^fromrng, 2^torng)`. */
  lemma ConcatFilesB(ser: int -> string, fromrng: nat, midrng: nat, torng: nat)
    requires fromrng <= midrng <= torng
    ensures ConcatFiles(Table(ser, Pow2(fromrng), Pow2(midrng)), Table(ser, Pow2(midrng), Pow2(torng)))
      == Table(ser, Pow2(fromrng), Pow2(torng))
  {
    Pow2Monotone(fromrng, midrng);
    Pow2Monotone(midrng, torng);
    ConcatShards(ser, Pow2(fromrng), Pow2(midrng), Pow2(torng));
  }
}
