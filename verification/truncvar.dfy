/** Variable-length prefix assignment `truncVar`: starting from a prefix
    length `reprhexes`, every entry whose prefix is unique at the current
    length is fixed to that prefix; the length then grows by one until no
    entry is left unassigned. */
module TruncVar {
  import opened Wrappers
  import opened PySlice
  import opened Dups
  import Duplicates
  import Truncation

  /** The length-`h` prefixes of all entries (what `truncateR(a1, h)` yields). */
  function PrefixesAt(a: seq<string>, h: nat): (r: seq<string>)
    ensures |r| == |a|
  {
    seq(|a|, k requires 0 <= k < |a| => Prefix(a[k], h))
  }

  /** Entry `idx`'s length-`h` prefix occurs exactly once among all of them. */
  predicate Unique(a: seq<string>, idx: int, h: nat)
    requires 0 <= idx < |a|
  {
    Count(PrefixesAt(a, h), Prefix(a[idx], h)) == 1
  }

  /** The longest entry. */
  function MaxLen(a: seq<string>): (m: nat)
    ensures forall k :: 0 <= k < |a| ==> |a[k]| <= m
  {
    if |a| == 0 then 0
    else
      var rest := MaxLen(a[1..]);
      assert forall k :: 1 <= k < |a| ==> a[k] == a[1..][k - 1];
      if |a[0]| > rest then |a[0]| else rest
  }

  /** The length at which `truncVar` fixes entry `idx`, scanning upward from
      `h`: the first length where its prefix is unique (every length from
      the longest entry on is one when the entries are distinct). */
  function FirstUnique(a: seq<string>, idx: int, h: nat): (r: nat)
    requires 0 <= idx < |a|
    ensures r >= h
    decreases MaxLen(a) - h
  {
    if Unique(a, idx, h) || h >= MaxLen(a) then h else FirstUnique(a, idx, h + 1)
  }

  /** From the longest entry on, every prefix is the whole entry, so with
      distinct entries every prefix is unique. */
  lemma UniqueBeyondMax(a: seq<string>, idx: int, h: nat)
    requires !HasDup(a)
    requires 0 <= idx < |a|
    requires h >= MaxLen(a)
    ensures Unique(a, idx, h)
  {
    forall k | 0 <= k < |a| ensures Prefix(a[k], h) == a[k] {
      assert |Prefix(a[k], h)| == |a[k]|;
    }
    assert PrefixesAt(a, h) == a;
    NoDupCountOne(a, idx);
  }

  /** `FirstUnique` is the least length from `h` on at which the prefix is unique. */
  lemma {:induction false} FirstUniqueLeast(a: seq<string>, idx: int, h: nat)
    requires !HasDup(a)
    requires 0 <= idx < |a|
    ensures h <= FirstUnique(a, idx, h) <= if h <= MaxLen(a) then MaxLen(a) else h
    ensures Unique(a, idx, FirstUnique(a, idx, h))
    ensures forall h' :: h <= h' < FirstUnique(a, idx, h) ==> !Unique(a, idx, h')
    decreases MaxLen(a) - h
  {
    if Unique(a, idx, h) {
    } else if h >= MaxLen(a) {
      UniqueBeyondMax(a, idx, h);
    } else {
      FirstUniqueLeast(a, idx, h + 1);
      var f := FirstUnique(a, idx, h);
      assert f == FirstUnique(a, idx, h + 1);
      forall h' | h <= h' < f ensures !Unique(a, idx, h') {
        if h' > h {
          assert h + 1 <= h' < FirstUnique(a, idx, h + 1);
        }
      }
    }
  }

  /** Scanning upward, an entry not yet fixed at length `h` is fixed there
      exactly when its prefix is unique at `h`. */
  lemma FixedAt(a: seq<string>, idx: int, h0: nat, h: nat)
    requires !HasDup(a)
    requires 0 <= idx < |a|
    requires h0 <= h <= FirstUnique(a, idx, h0)
    ensures FirstUnique(a, idx, h0) == h <==> Unique(a, idx, h)
  {
    FirstUniqueLeast(a, idx, h0);
  }

  /** `truncateR(a1, h)` is the list of length-`h` prefixes whenever it is defined. */
  lemma TruncateRIsPrefixes(a: seq<string>, h: nat)
    ensures Truncation.TruncateR(a, h).Some? ==> Truncation.TruncateR(a, h).value == PrefixesAt(a, h)
  {
    var tr := Truncation.TruncateR(a, h);
    if tr.Some? {
      forall k | 0 <= k < |a| ensures tr.value[k] == Prefix(a[k], h) {
        assert tr.value[k] <= a[k];
      }
    }
  }

  /** The values of a list with no `None` left. */
  function Values<T>(l: seq<Option<T>>): (r: seq<T>)
    requires forall k :: 0 <= k < |l| ==> l[k].Some?
    ensures |r| == |l|
    ensures forall k :: 0 <= k < |l| ==> l[k] == Some(r[k])
  {
    seq(|l|, k requires 0 <= k < |l| => l[k].value)
  }

  /** One pass of `truncVar` at length `h`: fixes, in place of `None`, every
      entry whose length-`h` prefix occurs once in `temp`. */
  method AssignRound(a: seq<string>, temp: seq<string>, outList: seq<Option<string>>, h0: nat, h: nat) returns (out: seq<Option<string>>)
    requires !HasDup(a)
    requires temp == PrefixesAt(a, h)
    requires h0 <= h
    requires |outList| == |a|
    requires forall k :: 0 <= k < |a| ==> (outList[k].Some? <==> FirstUnique(a, k, h0) < h)
    requires forall k :: 0 <= k < |a| && outList[k].Some? ==> outList[k].value == Prefix(a[k], FirstUnique(a, k, h0))
    ensures |out| == |a|
    ensures forall k :: 0 <= k < |a| ==> (out[k].Some? <==> FirstUnique(a, k, h0) <= h)
    ensures forall k :: 0 <= k < |a| && out[k].Some? ==> out[k].value == Prefix(a[k], FirstUnique(a, k, h0))
  {
    var counts := Duplicates.Tally(temp);
    out := outList;
    for idx := 0 to |a|
      invariant |out| == |a|
      invariant forall k :: 0 <= k < |a| ==>
        (out[k].Some? <==> FirstUnique(a, k, h0) < h || (k < idx && FirstUnique(a, k, h0) == h))
      invariant forall k :: 0 <= k < |a| && out[k].Some? ==>
        out[k].value == Prefix(a[k], FirstUnique(a, k, h0))
    {
      assert temp[idx] in temp;
      if out[idx].None? && counts[temp[idx]] == 1 {
        FixedAt(a, idx, h0, h);
        out := out[idx := Some(temp[idx])];
      } else if out[idx].None? {
        FixedAt(a, idx, h0, h);
      }
    }
  }

  /** Entries fixed at their first unique length hold unique prefixes. */
  lemma AllFixed(a: seq<string>, h0: nat, fixed: seq<string>)
    requires !HasDup(a)
    requires |fixed| == |a|
    requires forall idx :: 0 <= idx < |a| ==> fixed[idx] == Prefix(a[idx], FirstUnique(a, idx, h0))
    ensures forall idx :: 0 <= idx < |a| ==> Unique(a, idx, FirstUnique(a, idx, h0))
  {
    forall idx | 0 <= idx < |a| ensures Unique(a, idx, FirstUnique(a, idx, h0)) {
      FirstUniqueLeast(a, idx, h0);
    }
  }

  /** `truncVar` on the table `a` that `truncate` produced, starting at the
      ideal length `h0` (its floating-point derivation is an input). An empty
      table is returned at once; a first entry shorter than two characters
      makes `truncateR` fail, which is `None`. Every entry ends up fixed, to
      its prefix at the first length from `h0` on where that prefix is
      unique, and is never changed once set. */
  method TruncVar(a: seq<string>, h0: nat) returns (r: Option<seq<string>>)
    requires !HasDup(a)
    ensures r.None? <==> |a| > 0 && |a[0]| < 2
    ensures r.Some? ==> |r.value| == |a|
    ensures r.Some? ==> forall idx :: 0 <= idx < |a| ==>
      r.value[idx] == Prefix(a[idx], FirstUnique(a, idx, h0)) && Unique(a, idx, FirstUnique(a, idx, h0))
  {
    var outList: seq<Option<string>> := seq(|a|, _ => None);
    var h := h0;
    var pending := Duplicates.CheckNoneList(outList);
    while pending
      invariant h0 <= h
      invariant |outList| == |a|
      invariant pending <==> exists idx :: 0 <= idx < |a| && outList[idx].None?
      invariant forall idx :: 0 <= idx < |a| ==> (outList[idx].Some? <==> FirstUnique(a, idx, h0) < h)
      invariant forall idx :: 0 <= idx < |a| && outList[idx].Some? ==>
        outList[idx].value == Prefix(a[idx], FirstUnique(a, idx, h0))
      invariant h > h0 ==> |a| > 0 && |a[0]| >= 2
      invariant |a| > 0 && h == h0 ==> pending
      decreases (if h0 <= MaxLen(a) then MaxLen(a) else h0) + 1 - h
    {
      var idx0 :| 0 <= idx0 < |a| && outList[idx0].None?;
      FirstUniqueLeast(a, idx0, h0);
      var tr := Truncation.TruncateR(a, h);
      if tr.None? {
        return None;
      }
      TruncateRIsPrefixes(a, h);
      outList := AssignRound(a, tr.value, outList, h0, h);
      h := h + 1;
      pending := Duplicates.CheckNoneList(outList);
    }
    var fixed := Values(outList);
    AllFixed(a, h0, fixed);
    return Some(fixed);
  }
}
