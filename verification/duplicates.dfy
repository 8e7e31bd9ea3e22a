/** Duplicate detection over in-memory lists and over pairs of shard files:
    `checkDups`, `returnDups`, `checkNoneList`, `countSizes` and
    `checkDupsFileparts`. */
module Duplicates {
  import opened Wrappers
  import opened Dups

  /** `checkDups`: scans with a set of values seen so far and stops at the
      first value already in it. */
  method CheckDups<T(==)>(l: seq<T>) returns (found: bool)
    ensures found <==> HasDup(l)
  {
    var seen: set<T> := {};
    var i := 0;
    while i < |l|
      invariant 0 <= i <= |l|
      invariant forall x :: x in seen <==> x in l[..i]
      invariant forall a, b :: 0 <= a < b < i ==> l[a] != l[b]
    {
      if l[i] in seen {
        var k :| 0 <= k < i && l[..i][k] == l[i];
        assert l[k] == l[i];
        return true;
      }
      forall a | 0 <= a < i ensures l[a] != l[i] {
        assert l[..i][a] == l[a];
      }
      seen := seen + {l[i]};
      i := i + 1;
    }
    return false;
  }

  /** `returnDups`: `unique[i]` keeps the first occurrence of each value and
      is `None` at every later repeat, whose position goes into `dupes`. */
  method ReturnDups<T(==)>(l: seq<T>) returns (unique: seq<Option<T>>, dupes: set<nat>)
    ensures |unique| == |l|
    ensures forall i :: 0 <= i < |l| ==> (unique[i].None? <==> i in dupes)
    ensures forall i :: 0 <= i < |l| ==> (i in dupes <==> SeenBefore(l, i))
    ensures forall i :: i in dupes ==> i < |l|
    ensures forall i :: 0 <= i < |l| && unique[i].Some? ==> unique[i].value == l[i]
    ensures forall i, j :: 0 <= i < j < |l| && unique[i].Some? && unique[j].Some? ==> unique[i] != unique[j]
    ensures HasDup(l) <==> dupes != {}
  {
    var seen: set<T> := {};
    dupes := {};
    unique := [];
    for i := 0 to |l|
      invariant |unique| == i
      invariant forall x :: x in seen <==> x in l[..i]
      invariant forall k :: 0 <= k < i ==> (unique[k].None? <==> k in dupes)
      invariant forall k :: 0 <= k < i ==> (k in dupes <==> SeenBefore(l, k))
      invariant forall k :: k in dupes ==> k < i
      invariant forall k :: 0 <= k < i && unique[k].Some? ==> unique[k].value == l[k]
      invariant forall a, b :: 0 <= a < b < i && unique[a].Some? && unique[b].Some? ==> unique[a] != unique[b]
    {
      assert l[..i + 1] == l[..i] + [l[i]];
      if l[i] in seen {
        unique := unique + [None];
        dupes := dupes + {i};
      } else {
        forall a | 0 <= a < i && unique[a].Some? ensures unique[a].value != l[i] {
          assert l[..i][a] == l[a];
        }
        seen := seen + {l[i]};
        unique := unique + [Some(l[i])];
      }
    }
    HasDupIffSeenBefore(l);
  }

  /** `checkNoneList`: whether some entry is still `None`. */
  method CheckNoneList<T>(l: seq<Option<T>>) returns (any: bool)
    ensures any <==> exists i :: 0 <= i < |l| && l[i].None?
  {
    for i := 0 to |l|
      invariant forall k :: 0 <= k < i ==> l[k].Some?
    {
      if l[i].None? {
        return true;
      }
    }
    return false;
  }

  /** The occurrence dictionary `dupedict` of `truncVar`: every value of
      `l` mapped to its number of occurrences. */
  method Tally<T(==)>(l: seq<T>) returns (counts: map<T, nat>)
    ensures forall x :: x in counts <==> x in l
    ensures forall x :: x in counts ==> counts[x] == Count(l, x)
  {
    counts := map[];
    for i := 0 to |l|
      invariant forall x :: x in counts <==> x in l[..i]
      invariant forall x :: x in counts ==> counts[x] == multiset(l[..i])[x]
      invariant forall x :: x !in counts ==> multiset(l[..i])[x] == 0
    {
      assert l[..i + 1] == l[..i] + [l[i]];
      if l[i] in counts {
        counts := counts[l[i] := counts[l[i]] + 1];
      } else {
        counts := counts[l[i] := 1];
      }
    }
    assert l[..|l|] == l;
  }

  /** The dictionary `Bt` of `varTruncNewB`: every value of `l` mapped to
      whether it occurs at least twice. */
  method SharedMap<T(==)>(l: seq<T>) returns (shared: map<T, bool>)
    ensures forall x :: x in shared <==> x in l
    ensures forall x :: x in shared ==> (shared[x] <==> Count(l, x) >= 2)
  {
    shared := map[];
    for i := 0 to |l|
      invariant forall x :: x in shared <==> x in l[..i]
      invariant forall x :: x in shared ==> (shared[x] <==> multiset(l[..i])[x] >= 2)
      invariant forall x :: x !in shared ==> multiset(l[..i])[x] == 0
    {
      assert l[..i + 1] == l[..i] + [l[i]];
      if l[i] in shared {
        shared := shared[l[i] := true];
      } else {
        shared := shared[l[i] := false];
      }
    }
    assert l[..|l|] == l;
  }

  /** The lengths of the entries of `l`, in order. */
  function Lengths(l: seq<string>): (r: seq<nat>)
    ensures |r| == |l|
    ensures forall i :: 0 <= i < |l| ==> r[i] == |l[i]|
  {
    seq(|l|, i requires 0 <= i < |l| => |l[i]|)
  }

  /** `countSizes`: a histogram of entry lengths. */
  method CountSizes(l: seq<string>) returns (counts: map<nat, nat>)
    ensures forall n :: n in counts <==> exists i :: 0 <= i < |l| && |l[i]| == n
    ensures forall n :: n in counts ==> counts[n] == Count(Lengths(l), n) && counts[n] >= 1
  {
    var ls := Lengths(l);
    counts := Tally(ls);
    forall n ensures n in counts <==> exists i :: 0 <= i < |l| && |l[i]| == n {
      if n in counts {
        var i :| 0 <= i < |ls| && ls[i] == n;
      } else {
        forall i | 0 <= i < |l| ensures |l[i]| != n {
          assert ls[i] in ls;
        }
      }
    }
    forall n | n in counts ensures counts[n] >= 1 {
      assert n in multiset(ls);
    }
  }

  /** The repeats among the first `k` values of `c`, each with its 1-based
      line counter, in scan order. */
  function Repeats(c: seq<string>, k: nat): (r: seq<(string, nat)>)
    requires k <= |c|
  {
    if k == 0 then []
    else Repeats(c, k - 1) + (if SeenBefore(c, k - 1) then [(c[k - 1], k)] else [])
  }

  /** Every reported repeat is a genuine repeat at the position it names, and
      positions are strictly increasing. */
  lemma {:induction false} RepeatsSound(c: seq<string>, k: nat)
    requires k <= |c|
    ensures forall x :: 0 <= x < |Repeats(c, k)| ==>
      1 <= Repeats(c, k)[x].1 <= k && c[Repeats(c, k)[x].1 - 1] == Repeats(c, k)[x].0 && SeenBefore(c, Repeats(c, k)[x].1 - 1)
    ensures forall x, y :: 0 <= x < y < |Repeats(c, k)| ==> Repeats(c, k)[x].1 < Repeats(c, k)[y].1
  {
    if k > 0 {
      RepeatsSound(c, k - 1);
    }
  }

  /** Every repeat among the first `k` values is reported. */
  lemma {:induction false} RepeatsComplete(c: seq<string>, k: nat, m: nat)
    requires m < k <= |c|
    requires SeenBefore(c, m)
    ensures (c[m], m + 1) in Repeats(c, k)
  {
    if m < k - 1 {
      RepeatsComplete(c, k - 1, m);
    }
  }

  /** What `checkDupsFileparts` appends to its results file for one pair of
      parts: every value of `a` then `b` already seen earlier in the pass,
      with its line counter `k`, which keeps counting from `a` into `b`. */
  method CheckDupsPair(a: seq<string>, b: seq<string>) returns (found: seq<(string, nat)>)
    ensures forall x :: 0 <= x < |found| ==> 1 <= found[x].1 <= |a + b|
    ensures forall x :: 0 <= x < |found| ==> (a + b)[found[x].1 - 1] == found[x].0 && SeenBefore(a + b, found[x].1 - 1)
    ensures forall k :: 0 <= k < |a + b| && SeenBefore(a + b, k) ==> ((a + b)[k], k + 1) in found
    ensures forall x, y :: 0 <= x < y < |found| ==> found[x].1 < found[y].1
  {
    var c := a + b;
    var seen: set<string> := {};
    found := [];
    for k := 0 to |c|
      invariant forall x :: x in seen <==> x in c[..k]
      invariant found == Repeats(c, k)
    {
      assert c[..k + 1] == c[..k] + [c[k]];
      if c[k] in seen {
        found := found + [(c[k], k + 1)];
      } else {
        seen := seen + {c[k]};
      }
    }
    RepeatsSound(c, |c|);
    forall k | 0 <= k < |c| && SeenBefore(c, k) ensures (c[k], k + 1) in found {
      RepeatsComplete(c, |c|, k);
    }
  }

  /** The shard pairs `(i, j)` that `checkDupsFileparts` visits after a resume at
      `(resi, resj)`: row `resi` starts at `resj`, later rows at `i + 1`. */
  function Schedule(n: int, i: int, resi: int, resj: int): (r: seq<(int, int)>)
    decreases n - i
  {
    if i > n then []
    else Row(i, if i == resi then resj else i + 1, n) + Schedule(n, i + 1, resi, resj)
  }

  /** The pairs `(i, j)` for `from <= j <= n`. */
  function Row(i: int, from: int, n: int): (r: seq<(int, int)>)
    decreases n - from
    ensures forall p :: p in r <==> p.0 == i && from <= p.1 <= n
  {
    if from > n then [] else [(i, from)] + Row(i, from + 1, n)
  }

  /** A resumed run visits exactly the pairs from `(resi, resj)` onwards in
      row order, each row `i > resi` being the upper triangle `j > i`. */
  lemma {:induction false} ScheduleCovers(n: int, i: int, resi: int, resj: int, p: (int, int))
    requires resi <= i
    ensures p in Schedule(n, i, resi, resj) <==>
      i <= p.0 <= n && p.1 <= n &&
      (p.0 == resi ==> resj <= p.1) && (p.0 != resi ==> p.0 < p.1)
    decreases n - i
  {
    if i <= n {
      ScheduleCovers(n, i + 1, resi, resj, p);
    }
  }
}
