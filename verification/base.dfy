/** Shared vocabulary of the model: optional values, Python's slicing rules,
    duplicate predicates and the abstract point serialisation. */
module Wrappers {

  /** Python's `None` or a value. */
  datatype Option<+T> = None | Some(value: T)
}

/** Python string slicing `s[a:b]`: negative indices count from the end and
    out-of-range indices are clamped, so a slice never fails. */
module PySlice {

  /** Where a Python index `i` lands in a string of length `n`. */
  function Clamp(i: int, n: nat): (r: nat)
    ensures r <= n
    ensures 0 <= i <= n ==> r == i
    ensures i < 0 && 0 <= (n as int) + i ==> r as int == (n as int) + i
    ensures (n as int) + i < 0 ==> r == 0
    ensures i > n ==> r == n
  {
    if i < 0 then (if n + i < 0 then 0 else n + i)
    else if i > n then n
    else i
  }

  /** `s[a:b]` */
  function Slice<T>(s: seq<T>, a: int, b: int): (r: seq<T>)
    ensures |r| <= |s|
    ensures 0 <= a <= b <= |s| ==> r == s[a..b]
  {
    var lo := Clamp(a, |s|);
    var hi := Clamp(b, |s|);
    if lo <= hi then s[lo..hi] else []
  }

  /** `s[:n]` for a non-negative `n`: the first `n` characters, or all of `s`. */
  function Prefix<T>(s: seq<T>, n: nat): (r: seq<T>)
    ensures |r| == if n <= |s| then n else |s|
    ensures r <= s
  {
    Slice(s, 0, n)
  }

  /** `s[-n:]` for `n >= 1`: the last `n` characters, or all of `s`. */
  function Last<T>(s: seq<T>, n: nat): (r: seq<T>)
    requires n >= 1
    ensures |r| == if n <= |s| then n else |s|
    ensures r == s[|s| - |r|..]
  {
    Slice(s, -(n as int), |s|)
  }
}

/** Duplicate vocabulary shared by all components. */
module Dups {

  /** Some value occurs at two different positions of `l`. */
  predicate HasDup<T(==)>(l: seq<T>)
  {
    exists i, j :: 0 <= i < j < |l| && l[i] == l[j]
  }

  /** Position `i` repeats a value seen at an earlier position. */
  predicate SeenBefore<T(==)>(l: seq<T>, i: int)
    requires 0 <= i < |l|
  {
    l[i] in l[..i]
  }

  /** Number of occurrences of `x` in `l`. */
  function Count<T(==)>(l: seq<T>, x: T): (r: nat)
  {
    multiset(l)[x]
  }

  /** A sequence has a duplicate exactly when some position repeats an earlier one. */
  lemma HasDupIffSeenBefore<T>(l: seq<T>)
    ensures HasDup(l) <==> exists i :: 0 <= i < |l| && SeenBefore(l, i)
  {
    if HasDup(l) {
      var i, j :| 0 <= i < j < |l| && l[i] == l[j];
      assert l[..j][i] == l[j];
      assert SeenBefore(l, j);
    }
    if exists i :: 0 <= i < |l| && SeenBefore(l, i) {
      var i :| 0 <= i < |l| && SeenBefore(l, i);
      var k :| 0 <= k < i && l[..i][k] == l[i];
      assert l[k] == l[i];
    }
  }

  /** Without duplicates, every value occurs exactly once. */
  lemma {:induction false} NoDupCountOne<T>(l: seq<T>, i: int)
    requires !HasDup(l)
    requires 0 <= i < |l|
    ensures Count(l, l[i]) == 1
  {
    if |l| > 0 {
      var last := |l| - 1;
      var init := l[..last];
      assert l == init + [l[last]];
      assert !HasDup(init) by {
        forall a, b | 0 <= a < b < |init| ensures init[a] != init[b] {
          assert init[a] == l[a] && init[b] == l[b];
        }
      }
      if i == last {
        forall a | 0 <= a < |init| ensures init[a] != l[last] {
          assert init[a] == l[a];
        }
        assert l[last] !in init;
      } else {
        NoDupCountOne(init, i);
        assert l[last] != l[i];
      }
    }
  }
}

/** The abstraction of the elliptic-curve group: the point `i·g` is the
    scalar `i`, point addition is integer addition, and `str(point)` is a
    function `ser` from scalars to serialisations. */
module Points {

  /** Distinct scalars serialise differently (the group order is not modelled). */
  ghost predicate Injective(ser: int -> string)
  {
    forall a, b :: ser(a) == ser(b) ==> a == b
  }

  function Pow2(e: nat): (r: nat)
    ensures r >= 1
  {
    if e == 0 then 1 else 2 * Pow2(e - 1)
  }

  /** The shard `[ser(i·g) | lo <= i < hi]`, empty when `hi <= lo`, as
      Python's `range(lo, hi)` is. */
  function Table(ser: int -> string, lo: int, hi: int): (t: seq<string>)
    ensures |t| == if lo <= hi then hi - lo else 0
    ensures forall k :: 0 <= k < |t| ==> t[k] == ser(lo + k)
  {
    if lo <= hi then seq(hi - lo, k => ser(lo + k)) else []
  }
}

/** How the table of `2^32` entries is split into part files. */
module Layout {
  /** The number of part files, `part1 .. part16`. */
  const NumParts: nat := 16

  /** Lines per file part: the offset `2**28` added for the `i`-th part. */
  const PartSize: nat := 268435456
}
