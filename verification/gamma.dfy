/** Algorithm 1, the per-entry truncation lengths ("Gamma") of the first
    `2^(size-12)` rows of `part1`: `varTruncNew` checks them against all
    sixteen parts for descending lengths `T`, `varTruncNewB` then raises
    them where rows of `part1` collide among themselves. Part files are
    sequences of line values; where the source slices a raw line, its
    newline is put back. */
module Gamma {
  import opened Wrappers
  import opened PySlice
  import opened Dups
  import opened Points
  import opened Layout
  import TruncVar
  import Duplicates


  /** The rows checked: `2**(size-12)` of them. */
  function Rows(size: nat): (r: nat)
    requires size >= 12
  {
    Pow2(size - 12)
  }

  /** Row `j` of `B1`: `A1.readline()[:-1]`, which is empty past the end of the file. */
  function B1Row(part1: seq<string>, j: nat): (r: string)
  {
    if j < |part1| then part1[j] else ""
  }

  /** The keys `line[:T]` of the raw lines of `part` from line `skip` on. */
  function KeysFrom(part: seq<string>, skip: nat, T: nat, k: nat): (r: set<string>)
    requires k <= |part|
  {
    if k == 0 then {}
    else KeysFrom(part, skip, T, k - 1) + (if k - 1 >= skip then {Prefix(part[k - 1] + "\n", T)} else {})
  }

  /** The set `A2` of part `i` (0-based): the own rows of `B1` in part 1 are skipped. */
  function PartKeys(parts: seq<seq<string>>, n: nat, i: int, T: nat): (r: set<string>)
    requires 0 <= i < |parts|
  {
    KeysFrom(parts[i], if i == 0 then n else 0, T, |parts[i]|)
  }

  /** A key is in `A2` exactly when some line not skipped has it. */
  lemma {:induction false} KeysFromMember(part: seq<string>, skip: nat, T: nat, k: nat, x: string)
    requires k <= |part|
    ensures x in KeysFrom(part, skip, T, k) <==> exists num :: skip <= num < k && x == Prefix(part[num] + "\n", T)
  {
    if k > 0 {
      KeysFromMember(part, skip, T, k - 1, x);
    }
  }

  /** Row `j`'s length-`T` prefix is a key of one of the first `k` parts. */
  function HitUpTo(parts: seq<seq<string>>, n: nat, j: nat, T: nat, k: nat): (r: bool)
    requires k <= |parts|
  {
    k > 0 && (HitUpTo(parts, n, j, T, k - 1) || Prefix(B1Row(parts[0], j), T) in PartKeys(parts, n, k - 1, T))
  }

  /** `HitUpTo` holds exactly when some line of one of the first `k` parts,
      other than `B1`'s own rows, has row `j`'s length-`T` prefix. */
  lemma {:induction false} HitUpToMeaning(parts: seq<seq<string>>, n: nat, j: nat, T: nat, k: nat)
    requires k <= |parts|
    ensures HitUpTo(parts, n, j, T, k) <==>
      exists i, num :: 0 <= i < k && 0 <= num < |parts[i]| && (i != 0 || num >= n) &&
        Prefix(B1Row(parts[0], j), T) == Prefix(parts[i][num] + "\n", T)
  {
    if k > 0 {
      HitUpToMeaning(parts, n, j, T, k - 1);
      var skip := if k - 1 == 0 then n else 0;
      KeysFromMember(parts[k - 1], skip, T, |parts[k - 1]|, Prefix(B1Row(parts[0], j), T));
    }
  }

  /** Row `j` collides at length `T` with some row of another part or of the
      rest of part 1. */
  predicate CrossHit(parts: seq<seq<string>>, n: nat, j: nat, T: nat)
    requires |parts| == NumParts
  {
    HitUpTo(parts, n, j, T, NumParts)
  }

  /** The largest `T` in `[lo, hi]` at which row `j` collides, 0 if none
      (a collision at length 0, where every prefix is empty, also reads 0). */
  function LargestCrossHit(parts: seq<seq<string>>, n: nat, j: nat, lo: nat, hi: int): (r: nat)
    requires |parts| == NumParts
    ensures r == 0 || lo <= r <= hi
    decreases hi - lo
  {
    if hi < lo then 0
    else if CrossHit(parts, n, j, hi) then hi
    else LargestCrossHit(parts, n, j, lo, hi - 1)
  }

  /** `LargestCrossHit` is the largest colliding length, and 0 means none collides. */
  lemma {:induction false} LargestCrossHitIsLargest(parts: seq<seq<string>>, n: nat, j: nat, lo: nat, hi: int)
    requires |parts| == NumParts
    ensures LargestCrossHit(parts, n, j, lo, hi) != 0 ==> CrossHit(parts, n, j, LargestCrossHit(parts, n, j, lo, hi))
    ensures forall T: nat :: LargestCrossHit(parts, n, j, lo, hi) < T <= hi && lo <= T ==> !CrossHit(parts, n, j, T)
    decreases hi - lo
  {
    if hi >= lo && !CrossHit(parts, n, j, hi) {
      LargestCrossHitIsLargest(parts, n, j, lo, hi - 1);
    }
  }

  /** Extending the range one length downwards: the largest hit over
      `[lo, hi]` is the one over `[lo+1, hi]`, else `lo` if it hits. */
  lemma {:induction false} LargestCrossHitStep(parts: seq<seq<string>>, n: nat, j: nat, lo: nat, hi: int)
    requires |parts| == NumParts
    requires lo <= hi
    ensures LargestCrossHit(parts, n, j, lo, hi) ==
      if LargestCrossHit(parts, n, j, lo + 1, hi) != 0 then LargestCrossHit(parts, n, j, lo + 1, hi)
      else if CrossHit(parts, n, j, lo) then lo else 0
    decreases hi - lo
  {
    if lo < hi && !CrossHit(parts, n, j, hi) {
      LargestCrossHitStep(parts, n, j, lo, hi - 1);
    }
  }

  /** The loop over `A1` building `A2`. */
  method CollectKeys(part: seq<string>, skip: nat, T: nat) returns (keys: set<string>)
    ensures forall x :: x in keys <==> exists num :: skip <= num < |part| && x == Prefix(part[num] + "\n", T)
  {
    keys := {};
    for num := 0 to |part|
      invariant keys == KeysFrom(part, skip, T, num)
    {
      if num >= skip {
        keys := keys + {Prefix(part[num] + "\n", T)};
      }
    }
    forall x ensures x in keys <==> exists num :: skip <= num < |part| && x == Prefix(part[num] + "\n", T) {
      KeysFromMember(part, skip, T, |part|, x);
    }
  }

  /** The loop over `B1`: a row still at 0 whose prefix is in `A2` gets `T`;
      no other entry changes. */
  method MarkHits(part1: seq<string>, gamma: seq<int>, keys: set<string>, T: nat) returns (out: seq<int>)
    ensures |out| == |gamma|
    ensures forall j :: 0 <= j < |gamma| ==>
      out[j] == if gamma[j] == 0 && Prefix(B1Row(part1, j), T) in keys then T else gamma[j]
  {
    out := gamma;
    for j := 0 to |gamma|
      invariant |out| == |gamma|
      invariant forall k :: 0 <= k < j ==>
        out[k] == if gamma[k] == 0 && Prefix(B1Row(part1, k), T) in keys then T else gamma[k]
      invariant forall k :: j <= k < |gamma| ==> out[k] == gamma[k]
    {
      if out[j] == 0 && Prefix(B1Row(part1, j), T) in keys {
        out := out[j := T];
      }
    }
  }

  /** One length `T` of `varTruncNew`: the loop over the sixteen parts; a
      row still at 0 gets `T` when it collides at `T`. */
  method MarkAllParts(parts: seq<seq<string>>, n: nat, gamma: seq<int>, T: nat) returns (out: seq<int>)
    requires |parts| == NumParts
    requires |gamma| == n
    ensures |out| == n
    ensures forall j :: 0 <= j < n ==> out[j] == if gamma[j] != 0 then gamma[j] else if CrossHit(parts, n, j, T) then T else 0
  {
    out := gamma;
    for i := 0 to NumParts
      invariant |out| == n
      invariant forall j :: 0 <= j < n ==>
        out[j] == if gamma[j] != 0 then gamma[j] else if HitUpTo(parts, n, j, T, i) then T else 0
    {
      var keys := CollectKeys(parts[i], if i == 0 then n else 0, T);
      assert keys == PartKeys(parts, n, i, T) by {
        forall x ensures x in keys <==> x in PartKeys(parts, n, i, T) {
          KeysFromMember(parts[i], if i == 0 then n else 0, T, |parts[i]|, x);
        }
      }
      out := MarkHits(parts[0], out, keys, T);
    }
  }

  /** `varTruncNew(size, startTrunc, endTrunc)`: the returned `gammalist`
      (which the source prints). With `size < 12` the row count
      `2**(size-12)` is a float and building `gammalist` raises `TypeError`:
      `None`. Otherwise row `j` ends with the largest length in
      `[endTrunc, startTrunc]` at which it collides with another row, or 0. */
  method VarTruncNew(parts: seq<seq<string>>, size: nat, startTrunc: int, endTrunc: nat) returns (r: Option<seq<int>>)
    requires |parts| == NumParts
    ensures r.None? <==> size < 12
    ensures r.Some? ==> |r.value| == Rows(size)
    ensures r.Some? ==> forall j :: 0 <= j < |r.value| ==>
      r.value[j] == LargestCrossHit(parts, Rows(size), j, endTrunc, startTrunc)
  {
    if size < 12 {
      return None;
    }
    var n := Rows(size);
    var gamma: seq<int> := seq(n, _ => 0);
    var T := startTrunc;
    while T >= endTrunc
      invariant T <= startTrunc
      invariant T >= endTrunc - 1 || T == startTrunc
      invariant |gamma| == n
      invariant forall j :: 0 <= j < n ==> gamma[j] == LargestCrossHit(parts, n, j, if T + 1 >= endTrunc then T + 1 else endTrunc, startTrunc)
    {
      gamma := MarkAllParts(parts, n, gamma, T);
      forall j | 0 <= j < n ensures gamma[j] == LargestCrossHit(parts, n, j, T, startTrunc) {
        LargestCrossHitStep(parts, n, j, T, startTrunc);
      }
      T := T - 1;
    }
    return Some(gamma);
  }

  // ---------------------------------------------------------------------
  // varTruncNewB

  /** `Btlist`: the first `n` raw lines of part 1, newline kept (`next(myfile)`). */
  function RawRows(part1: seq<string>, n: nat): (r: seq<string>)
    requires n <= |part1|
    ensures |r| == n
  {
    seq(n, k requires 0 <= k < n => part1[k] + "\n")
  }

  /** The dictionary `Bt`: every length-`T` prefix of a row, mapped to
      whether at least two rows share it. */
  method SharedPrefixes(rows: seq<string>, T: nat) returns (bt: map<string, bool>)
    ensures forall p :: p in bt <==> p in TruncVar.PrefixesAt(rows, T)
    ensures forall p :: p in bt ==> (bt[p] <==> Count(TruncVar.PrefixesAt(rows, T), p) >= 2)
  {
    bt := Duplicates.SharedMap(TruncVar.PrefixesAt(rows, T));
  }

  /** Row `j`'s length-`T` prefix is shared with another row of `rows`. */
  predicate SelfShared(rows: seq<string>, j: int, T: nat)
    requires 0 <= j < |rows|
  {
    Count(TruncVar.PrefixesAt(rows, T), Prefix(rows[j], T)) >= 2
  }

  /** The loop over `Btlist`: `B[j]` is raised to `T` when its prefix is
      shared and it is below `T`; nothing is ever lowered. */
  method RaiseShared(rows: seq<string>, b: seq<int>, bt: map<string, bool>, T: nat) returns (out: seq<int>)
    requires |b| == |rows|
    requires forall p :: p in bt <==> p in TruncVar.PrefixesAt(rows, T)
    requires forall p :: p in bt ==> (bt[p] <==> Count(TruncVar.PrefixesAt(rows, T), p) >= 2)
    ensures |out| == |b|
    ensures forall j :: 0 <= j < |b| ==> out[j] == if SelfShared(rows, j, T) && b[j] < T then T else b[j]
    ensures forall j :: 0 <= j < |b| ==> out[j] >= b[j]
  {
    ghost var shared := seq(|b|, k requires 0 <= k < |b| => SelfShared(rows, k, T));
    out := b;
    for j := 0 to |b|
      invariant |out| == |b|
      invariant forall k :: 0 <= k < j ==> out[k] == if shared[k] && b[k] < T then T else b[k]
      invariant forall k :: j <= k < |b| ==> out[k] == b[k]
    {
      var key := Prefix(rows[j], T);
      assert TruncVar.PrefixesAt(rows, T)[j] == key;
      assert key in bt && (bt[key] <==> shared[j]);
      if bt[key] && out[j] < T {
        out := out[j := T];
      }
    }
  }

  /** The largest `T` in `[lo, hi]` at which row `j` is shared within `rows`, 0 if none. */
  function LargestShared(rows: seq<string>, j: int, lo: nat, hi: int): (r: nat)
    requires 0 <= j < |rows|
    requires lo >= 1
    ensures r == 0 || lo <= r <= hi
    decreases hi - lo
  {
    if hi < lo then 0
    else if SelfShared(rows, j, hi) then hi
    else LargestShared(rows, j, lo, hi - 1)
  }

  /** Extending the range one length downwards, as for `LargestCrossHit`. */
  lemma {:induction false} LargestSharedStep(rows: seq<string>, j: int, lo: nat, hi: int)
    requires 0 <= j < |rows|
    requires 1 <= lo <= hi
    ensures LargestShared(rows, j, lo, hi) ==
      if LargestShared(rows, j, lo + 1, hi) != 0 then LargestShared(rows, j, lo + 1, hi)
      else if SelfShared(rows, j, lo) then lo else 0
    decreases hi - lo
  {
    if lo < hi && !SelfShared(rows, j, hi) {
      LargestSharedStep(rows, j, lo, hi - 1);
    }
  }

  /** `LargestShared` is the largest shared length, and 0 means none is shared. */
  lemma {:induction false} LargestSharedIsLargest(rows: seq<string>, j: int, lo: nat, hi: int)
    requires 0 <= j < |rows|
    requires lo >= 1
    ensures LargestShared(rows, j, lo, hi) != 0 ==> SelfShared(rows, j, LargestShared(rows, j, lo, hi))
    ensures forall T: nat :: LargestShared(rows, j, lo, hi) < T <= hi && lo <= T ==> !SelfShared(rows, j, T)
    decreases hi - lo
  {
    if hi >= lo && !SelfShared(rows, j, hi) {
      LargestSharedIsLargest(rows, j, lo, hi - 1);
    }
  }

  /** `B[j]` raised to `l` when `l` is a colliding length above it. */
  function Raise(b: int, l: nat): (r: int)
  {
    if l != 0 && b < l then l else b
  }

  /** The descending loop of `varTruncNewB` over the rows `rows`. */
  method SelfCheck(rows: seq<string>, b: seq<int>, startTrunc: int, endTrunc: nat) returns (cur: seq<int>)
    requires endTrunc >= 1
    requires |b| == |rows|
    ensures |cur| == |b|
    ensures forall j :: 0 <= j < |b| ==> cur[j] == Raise(b[j], LargestShared(rows, j, endTrunc, startTrunc))
  {
    cur := b;
    var T := startTrunc;
    while T >= endTrunc
      invariant T <= startTrunc
      invariant T >= endTrunc - 1 || T == startTrunc
      invariant |cur| == |b|
      invariant forall j :: 0 <= j < |b| ==> cur[j] == Raise(b[j], LargestShared(rows, j, if T + 1 >= endTrunc then T + 1 else endTrunc, startTrunc))
    {
      var bt := SharedPrefixes(rows, T);
      cur := RaiseShared(rows, cur, bt, T);
      forall j | 0 <= j < |b| ensures cur[j] == Raise(b[j], LargestShared(rows, j, T, startTrunc)) {
        LargestSharedStep(rows, j, T, startTrunc);
      }
      T := T - 1;
    }
  }

  /** `varTruncNewB(size, startTrunc, endTrunc)` on the Gamma list `b` read
      back from `gamma.txt`. With `size < 12`, `range(2**(size-12))` raises
      `TypeError`, and `next(myfile)` fails when part 1 has fewer than
      `2^(size-12)` lines: both are `None`. Each entry ends as the larger of
      its initial value and the largest length in `[endTrunc, startTrunc]`
      at which its row shares a prefix with another row of part 1. */
  method VarTruncNewB(part1: seq<string>, b: seq<int>, size: nat, startTrunc: int, endTrunc: nat) returns (r: Option<seq<int>>)
    requires endTrunc >= 1
    requires size >= 12 ==> |b| == Rows(size)
    ensures r.None? <==> size < 12 || |part1| < Rows(size)
    ensures r.Some? ==> |r.value| == |b|
    ensures r.Some? ==> forall j :: 0 <= j < |b| ==>
      r.value[j] == Raise(b[j], LargestShared(RawRows(part1, Rows(size)), j, endTrunc, startTrunc))
    ensures r.Some? ==> forall j :: 0 <= j < |b| ==> r.value[j] >= b[j]
  {
    if size < 12 {
      return None;
    }
    var n := Rows(size);
    if |part1| < n {
      return None;
    }
    var cur := SelfCheck(RawRows(part1, n), b, startTrunc, endTrunc);
    return Some(cur);
  }
}
