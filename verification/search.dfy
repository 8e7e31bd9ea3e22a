/** Discrete-log search over lookup tables: `lookup`, the baby-step
    giant-step loops `babygiantstep`, `babygiantsteptrunc` and
    `babygiantsteptruncbin`, the truncated-key lookups over a text file, a
    binary file and sixteen file parts. A lookup that reaches the end of its
    table without a match is `None` (Python's `ValueError` or fall-through). */
module Search {
  import opened Wrappers
  import opened PySlice
  import opened Points
  import opened Hex
  import opened Truncation
  import opened Layout

  // ---------------------------------------------------------------------
  // lookup

  /** `lookupTable.index(gx)`: the first position holding `v`. */
  function Lookup<T(==)>(t: seq<T>, v: T): (r: Option<nat>)
    ensures r.Some? ==> r.value < |t| && t[r.value] == v
    ensures r.Some? ==> forall k :: 0 <= k < r.value ==> t[k] != v
    ensures r.None? <==> v !in t
  {
    if |t| == 0 then None
    else if t[0] == v then Some(0)
    else
      assert forall k :: 1 <= k < |t| ==> t[k] == t[1..][k - 1];
      assert t == [t[0]] + t[1..];
      match Lookup(t[1..], v)
      case None => None
      case Some(p) => Some(p + 1)
  }

  /** Moves a 1-based hit by `d` lines. */
  function Shift(o: Option<nat>, d: nat): (r: Option<nat>)
  {
    match o
    case None => None
    case Some(v) => Some(v + d)
  }

  lemma ShiftShift(o: Option<nat>, a: nat, b: nat)
    ensures Shift(Shift(o, a), b) == Shift(o, a + b)
  {
  }

  /** Looking up in `a + b` finds the first hit in `a`, else the hit in `b`
      moved past `a`. */
  lemma {:induction false} LookupConcat<T>(a: seq<T>, b: seq<T>, v: T)
    ensures Lookup(a + b, v) == if Lookup(a, v).Some? then Lookup(a, v) else Shift(Lookup(b, v), |a|)
  {
    if |a| > 0 {
      assert (a + b)[1..] == a[1..] + b;
      LookupConcat(a[1..], b, v);
    } else {
      assert a + b == b;
    }
  }

  // ---------------------------------------------------------------------
  // The giant-step loop

  /** The point looked up at attempt `m` (0-based): `gx - m·s·g`. */
  function Probe(x: int, s: int, m: int): (r: int)
  {
    x - m * s
  }

  /** Reference definition of the giant-step search from attempt `m` on:
      `find` maps a scalar to the 1-based baby step whose table entry matches
      it, and the first attempt with a hit reports `hit + m·s`. */
  function GiantSteps(find: int -> Option<nat>, x: int, s: int, m: nat): (r: Option<int>)
    decreases if m < s then s - m else 0
  {
    if m >= s then None
    else
      match find(Probe(x, s, m))
      case Some(p) => Some(p as int + m * s)
      case None => GiantSteps(find, x, s, m + 1)
  }

  /** The search reports nothing exactly when every attempt misses, and
      otherwise the hit of the first attempt that does not miss. */
  lemma {:induction false} GiantStepsFirstHit(find: int -> Option<nat>, x: int, s: int, m: nat)
    ensures GiantSteps(find, x, s, m).None? <==> forall k :: m <= k < s ==> find(Probe(x, s, k)).None?
    ensures GiantSteps(find, x, s, m).Some? ==>
      exists k :: m <= k < s && find(Probe(x, s, k)).Some?
        && GiantSteps(find, x, s, m).value == find(Probe(x, s, k)).value + k * s
        && forall j :: m <= j < k ==> find(Probe(x, s, j)).None?
    decreases if m < s then s - m else 0
  {
    if m < s && find(Probe(x, s, m)).None? {
      GiantStepsFirstHit(find, x, s, m + 1);
      var r := GiantSteps(find, x, s, m);
      if r.Some? {
        var k :| m + 1 <= k < s && find(Probe(x, s, k)).Some?
          && r.value == find(Probe(x, s, k)).value + k * s
          && forall j :: m + 1 <= j < k ==> find(Probe(x, s, j)).None?;
        assert forall j :: m <= j < k ==> find(Probe(x, s, j)).None?;
      }
    }
  }

  /** The next giant step: one more subtraction of `s·g`. */
  lemma ProbeNext(x: int, s: int, m: int)
    ensures Probe(x, s, m) - s == Probe(x, s, m + 1)
  {
  }

  /** One attempt of the search, unfolded. */
  lemma GiantStepsUnfold(find: int -> Option<nat>, x: int, s: int, m: nat)
    requires m < s
    ensures find(Probe(x, s, m)).None? ==> GiantSteps(find, x, s, m) == GiantSteps(find, x, s, m + 1)
    ensures find(Probe(x, s, m)).Some? ==> GiantSteps(find, x, s, m) == Some(find(Probe(x, s, m)).value as int + m * s)
  {
  }

  /** If attempt `k0` hits and no hit up to it is a wrong answer, the search
      returns `x`. */
  lemma {:induction false} GiantStepsCorrect(find: int -> Option<nat>, x: int, s: int, m: nat, k0: nat)
    requires m <= k0 < s
    requires find(Probe(x, s, k0)).Some?
    requires forall k :: m <= k <= k0 && find(Probe(x, s, k)).Some? ==> find(Probe(x, s, k)).value + k * s == x
    ensures GiantSteps(find, x, s, m) == Some(x)
    decreases k0 - m
  {
    if find(Probe(x, s, m)).None? {
      GiantStepsCorrect(find, x, s, m + 1, k0);
    }
  }

  /** Searches with pointwise equal lookups agree. */
  lemma {:induction false} GiantStepsExt(f: int -> Option<nat>, g: int -> Option<nat>, x: int, s: int, m: nat)
    requires forall y :: f(y) == g(y)
    ensures GiantSteps(f, x, s, m) == GiantSteps(g, x, s, m)
    decreases if m < s then s - m else 0
  {
    if m < s {
      GiantStepsExt(f, g, x, s, m + 1);
    }
  }

  /** For `1 <= x <= s·s` the attempt `(x-1)/s` probes a baby step in
      `[1, s]`, and every earlier attempt probes a point in `[1, x]`. */
  lemma CoveringAttempt(x: int, s: int)
    requires 1 <= s
    requires 1 <= x <= s * s
    ensures 0 <= (x - 1) / s < s
    ensures 1 <= Probe(x, s, (x - 1) / s) <= s
    ensures forall k :: 0 <= k <= (x - 1) / s ==> 1 <= Probe(x, s, k) <= x
  {
    var q := (x - 1) / s;
    var r := (x - 1) % s;
    assert x - 1 == q * s + r;
    assert q < s;
    forall k | 0 <= k <= q ensures 1 <= Probe(x, s, k) <= x {
      assert k * s <= q * s;
      assert 0 <= k * s;
    }
  }

  // ---------------------------------------------------------------------
  // babygiantstep

  /** The baby-step lookup of `babygiantstep`: the 1-based position of
      `str(y·g)` in the table. */
  function BabyFind(table: seq<string>, ser: int -> string): (r: int -> Option<nat>)
  {
    y => Shift(Lookup(table, ser(y)), 1)
  }

  /** The table written by `lookup2File`: line `p` holds `str((p+1)·g)`. */
  predicate FullTable(table: seq<string>, ser: int -> string)
  {
    table == Table(ser, 1, |table| + 1)
  }

  /** With an injective serialisation, every hit in a full table is a
      correct answer. */
  lemma BabyHitsCorrect(table: seq<string>, ser: int -> string, x: int, s: int)
    requires FullTable(table, ser)
    requires Injective(ser)
    ensures forall k :: BabyFind(table, ser)(Probe(x, s, k)).Some? ==>
      BabyFind(table, ser)(Probe(x, s, k)).value + k * s == x
  {
    forall k | BabyFind(table, ser)(Probe(x, s, k)).Some?
      ensures BabyFind(table, ser)(Probe(x, s, k)).value + k * s == x
    {
      var p := Lookup(table, ser(Probe(x, s, k))).value;
      assert table[p] == ser(p + 1);
    }
  }

  /** On the full table with an injective serialisation, any answer of the
      search is the discrete log, and there is one when `s <= N` and
      `1 <= x <= s·s`. */
  lemma BabySearchCorrect(table: seq<string>, ser: int -> string, x: int, s: int)
    requires FullTable(table, ser)
    requires Injective(ser)
    ensures GiantSteps(BabyFind(table, ser), x, s, 0).Some? ==> GiantSteps(BabyFind(table, ser), x, s, 0).value == x
    ensures 1 <= s <= |table| && 1 <= x <= s * s ==> GiantSteps(BabyFind(table, ser), x, s, 0) == Some(x)
  {
    var find := BabyFind(table, ser);
    BabyHitsCorrect(table, ser, x, s);
    GiantStepsFirstHit(find, x, s, 0);
    if 1 <= s <= |table| && 1 <= x <= s * s {
      CoveringAttempt(x, s);
      var k0 := (x - 1) / s;
      assert table[Probe(x, s, k0) - 1] == ser(Probe(x, s, k0));
      GiantStepsCorrect(find, x, s, 0, k0);
    }
  }

  /** `babygiantstep(table, x·g, s)`: attempt `i` (from 1) looks up
      `x - (i-1)·s`, a hit at position `p` gives `(i-1)·s + p + 1`, and after
      `s` misses the answer is "not found". On the table of `1..N`, any
      answer is the discrete log, and one is always found when
      `s <= N` and `1 <= x <= s·s`. */
  method BabyGiantStep(table: seq<string>, ser: int -> string, x: int, s: int) returns (r: Option<int>)
    ensures r == GiantSteps(BabyFind(table, ser), x, s, 0)
    ensures FullTable(table, ser) && Injective(ser) && r.Some? ==> r.value == x
    ensures FullTable(table, ser) && Injective(ser) && 1 <= s <= |table| && 1 <= x <= s * s ==> r == Some(x)
  {
    var find := BabyFind(table, ser);
    var i: int := 1;
    var gx := x;
    r := None;
    while i <= s
      invariant 1 <= i
      invariant gx == Probe(x, s, i - 1)
      invariant GiantSteps(find, x, s, 0) == GiantSteps(find, x, s, i - 1)
    {
      var p := Lookup(table, ser(gx));
      GiantStepsUnfold(find, x, s, i - 1);
      if p.Some? {
        r := Some((i - 1) * s + p.value as int + 1);
        break;
      }
      ProbeNext(x, s, i - 1);
      gx := gx - s;
      i := i + 1;
    }
    if FullTable(table, ser) && Injective(ser) {
      BabySearchCorrect(table, ser, x, s);
    }
  }

  // ---------------------------------------------------------------------
  // Truncated-key search

  /** `lookupelemtruncl`: the 1-based number of the first line equal to the
      key `elem[2:2+truncvalue]`. */
  function LookupTruncl(file: seq<string>, elem: string, tv: nat): (r: Option<nat>)
    ensures r.Some? ==> 1 <= r.value <= |file| && file[r.value - 1] == Key(elem, tv)
    ensures r.Some? ==> forall k :: 0 <= k < r.value - 1 ==> file[k] != Key(elem, tv)
    ensures r.None? <==> Key(elem, tv) !in file
  {
    Shift(Lookup(file, Key(elem, tv)), 1)
  }

  /** The truncated table `truncNomemleft` writes for the table of `1..N`:
      line `k` holds the key of `str((k+1)·g)`. */
  predicate KeyTable(file: seq<string>, ser: int -> string, tv: nat)
  {
    forall k :: 0 <= k < |file| ==> file[k] == Key(ser(k + 1), tv)
  }

  /** The truncation keeps the points `1..hi` apart. */
  predicate KeysDistinct(ser: int -> string, tv: nat, hi: int)
  {
    forall a, b :: 1 <= a < b <= hi ==> Key(ser(a), tv) != Key(ser(b), tv)
  }

  function TruncFind(file: seq<string>, ser: int -> string, tv: nat): (r: int -> Option<nat>)
  {
    y => LookupTruncl(file, ser(y), tv)
  }

  /** Truncated search is correct when the keys of `1..max(x, N)` are
      distinct, the giant step does not exceed the table, and `x <= s·s`:
      the attempts before the covering one only probe points in `[1, x]`. */
  lemma TruncSearchCorrect(file: seq<string>, ser: int -> string, tv: nat, x: int, s: int)
    requires KeyTable(file, ser, tv)
    requires KeysDistinct(ser, tv, if x > |file| then x else |file|)
    requires 1 <= s <= |file|
    requires 1 <= x <= s * s
    ensures GiantSteps(TruncFind(file, ser, tv), x, s, 0) == Some(x)
  {
    var find := TruncFind(file, ser, tv);
    CoveringAttempt(x, s);
    var k0 := (x - 1) / s;
    assert file[Probe(x, s, k0) - 1] == Key(ser(Probe(x, s, k0)), tv);
    forall k | 0 <= k <= k0 && find(Probe(x, s, k)).Some?
      ensures find(Probe(x, s, k)).value + k * s == x
    {
      var y := Probe(x, s, k);
      var l := find(y).value;
      assert file[l - 1] == Key(ser(y), tv);
      assert file[l - 1] == Key(ser(l), tv);
    }
    GiantStepsCorrect(find, x, s, 0, k0);
  }

  /** The loop shared by `babygiantsteptrunc` and `babygiantsteptruncbin`:
      giant step `2^gs`, at most `2^gs` attempts, and a hit `res` found with
      the counter already advanced past it reported as `res + (i-2)·2^gs`. */
  method TruncShanks(find: int -> Option<nat>, x: int, gs: nat) returns (r: Option<int>)
    ensures r == GiantSteps(find, x, Pow2(gs), 0)
  {
    var step: int := Pow2(gs);
    var i: int := 1;
    var gx := x;
    var res: Option<nat> := None;
    ghost var goal := GiantSteps(find, x, step, 0);
    while i <= step && res.None?
      invariant 1 <= i
      invariant gx == Probe(x, step, i - 1)
      invariant res.None? ==> goal == GiantSteps(find, x, step, i - 1)
      invariant res.Some? ==> goal == Some(res.value as int + (i - 2) * step)
    {
      GiantStepsUnfold(find, x, step, i - 1);
      ProbeNext(x, step, i - 1);
      res := find(gx);
      gx := gx - step;
      i := i + 1;
    }
    if res.None? {
      return None;
    }
    return Some(res.value as int + (i - 2) * step);
  }

  /** `babygiantsteptrunc(file, x·g, truncvalue, gs)`. */
  method BabyGiantStepTrunc(file: seq<string>, ser: int -> string, x: int, tv: nat, gs: nat) returns (r: Option<int>)
    ensures r == GiantSteps(TruncFind(file, ser, tv), x, Pow2(gs), 0)
    ensures && KeyTable(file, ser, tv)
            && KeysDistinct(ser, tv, if x > |file| then x else |file|)
            && Pow2(gs) <= |file|
            && 1 <= x <= Pow2(gs) * Pow2(gs)
            ==> r == Some(x)
  {
    r := TruncShanks(TruncFind(file, ser, tv), x, gs);
    if && KeyTable(file, ser, tv)
       && KeysDistinct(ser, tv, if x > |file| then x else |file|)
       && Pow2(gs) <= |file|
       && 1 <= x <= Pow2(gs) * Pow2(gs)
    {
      TruncSearchCorrect(file, ser, tv, x, Pow2(gs));
    }
  }

  // ---------------------------------------------------------------------
  // File parts

  /** The files one after another. */
  function Flatten<T>(parts: seq<seq<T>>): (r: seq<T>)
  {
    if |parts| == 0 then [] else parts[0] + Flatten(parts[1..])
  }

  /** The loop over `part1 .. part16`: the first part `i` (0-based) in which
      `find` hits reports `hit + i·2^28`. */
  function PartsSearch<P>(parts: seq<P>, find: P -> Option<nat>, i: nat): (r: Option<nat>)
    decreases |parts| - i
  {
    if i >= |parts| then None
    else if find(parts[i]).Some? then Shift(find(parts[i]), i * PartSize)
    else PartsSearch(parts, find, i + 1)
  }

  /** The search over parts misses exactly when no part from `i` on hits;
      otherwise it reports the hit of the first part that hits, moved past
      the parts before it. */
  lemma {:induction false} PartsSearchFirst<P>(parts: seq<P>, find: P -> Option<nat>, i: nat)
    ensures PartsSearch(parts, find, i).None? <==> forall j :: i <= j < |parts| ==> find(parts[j]).None?
    ensures PartsSearch(parts, find, i).Some? ==>
              exists j :: i <= j < |parts| && find(parts[j]).Some? && PartsSearch(parts, find, i) == Shift(find(parts[j]), j * PartSize) &&
                          forall e :: i <= e < j ==> find(parts[e]).None?
    decreases |parts| - i
  {
    if i < |parts| && find(parts[i]).None? {
      PartsSearchFirst(parts, find, i + 1);
    }
  }

  /** Every part but the last holds exactly `2^28` lines. */
  predicate FullParts<T>(parts: seq<seq<T>>)
  {
    forall j :: 0 <= j < |parts| - 1 ==> |parts[j]| == PartSize
  }

  /** `lookupelemtrunclfileparts(elem, truncvalue)` over the sixteen parts. */
  function LookupTrunclFileParts(parts: seq<seq<string>>, elem: string, tv: nat): (r: Option<nat>)
    requires |parts| == NumParts
    ensures r.None? <==> forall j :: 0 <= j < |parts| ==> Key(elem, tv) !in parts[j]
    ensures r.Some? ==>
              exists j :: 0 <= j < |parts| && LookupTruncl(parts[j], elem, tv).Some? &&
                          r.value == LookupTruncl(parts[j], elem, tv).value + j * PartSize &&
                          forall e :: 0 <= e < j ==> Key(elem, tv) !in parts[e]
  {
    PartsSearchFirst(parts, p => LookupTruncl(p, elem, tv), 0);
    PartsSearch(parts, p => LookupTruncl(p, elem, tv), 0)
  }

  /** Moving a hit one part further on is the same as moving it past a full
      part and then to the start of the current one. */
  lemma ShiftPart(o: Option<nat>, i: nat)
    ensures Shift(Shift(o, 1), (i + 1) * PartSize) == Shift(Shift(Shift(o, PartSize), 1), i * PartSize)
  {
    assert (i + 1) * PartSize == i * PartSize + PartSize;
  }

  /** From part `i` on, the search over parts is the lookup in the remaining
      parts joined, with the offset of part `i`. */
  lemma {:induction false} PartsSearchIsJoinedLookup(parts: seq<seq<string>>, elem: string, tv: nat, i: nat)
    requires i <= |parts|
    requires FullParts(parts)
    ensures PartsSearch(parts, p => LookupTruncl(p, elem, tv), i)
      == Shift(LookupTruncl(Flatten(parts[i..]), elem, tv), i * PartSize)
    decreases |parts| - i
  {
    var key := Key(elem, tv);
    if i < |parts| {
      var a := parts[i];
      var b := Flatten(parts[i + 1..]);
      assert parts[i..][1..] == parts[i + 1..];
      assert Flatten(parts[i..]) == a + b;
      LookupConcat(a, b, key);
      if Lookup(a, key).None? {
        PartsSearchIsJoinedLookup(parts, elem, tv, i + 1);
        if i + 1 < |parts| {
          assert |a| == PartSize;
          ShiftPart(Lookup(b, key), i);
        } else {
          assert parts[i + 1..] == [];
        }
      }
    } else {
      assert parts[i..] == [];
    }
  }

  /** Searching the sixteen parts finds what a lookup in the whole table they
      split finds, at the same line number. */
  lemma FilePartsIsTableLookup(parts: seq<seq<string>>, elem: string, tv: nat)
    requires |parts| == NumParts
    requires FullParts(parts)
    ensures LookupTrunclFileParts(parts, elem, tv) == LookupTruncl(Flatten(parts), elem, tv)
  {
    PartsSearchIsJoinedLookup(parts, elem, tv, 0);
    assert parts[0..] == parts;
  }

  // ---------------------------------------------------------------------
  // Binary files

  /** The read loop of `lookupelemtrunclbin` from the current file position:
      read up to `w` bytes; the record matches when its hex is the key; an
      empty read is the end of the file. `counter` numbers the records. */
  function BinScan(rest: seq<byte>, key: string, w: nat, counter: nat): (r: Option<nat>)
    ensures r.Some? ==> counter <= r.value <= counter + |rest|
    ensures key == "" ==> r.Some?
    ensures |key| > 2 * w ==> r.None?
    decreases |rest|
  {
    var chunk := Prefix(rest, w);
    if Encode(chunk) == key then Some(counter)
    else if |chunk| == 0 then None
    else BinScan(rest[|chunk|..], key, w, counter + 1)
  }

  /** `lookupelemtrunclbin(file, elem, truncvalue)`: records of
      `int(truncvalue/2)` bytes, numbered from 1. */
  function LookupTrunclBin(data: seq<byte>, elem: string, tv: nat): (r: Option<nat>)
    ensures r.Some? ==> 1 <= r.value <= |data| + 1
    ensures Key(elem, tv) == "" ==> r.Some?
    ensures tv % 2 == 1 && |elem| >= 2 + tv ==> r.None?
  {
    BinScan(data, Key(elem, tv), tv / 2, 1)
  }

  /** One read of the scan when the next record is `rec`, a full record. */
  lemma BinScanStep(rec: seq<byte>, rest: seq<byte>, key: string, w: nat, counter: nat)
    requires |rec| == w >= 1
    ensures BinScan(rec + rest, key, w, counter)
      == if Encode(rec) == key then Some(counter) else BinScan(rest, key, w, counter + 1)
  {
    var data := rec + rest;
    assert Prefix(data, w) == rec;
    assert data[w..] == rest;
  }

  /** At the end of the file the read is empty and only an empty key matches. */
  lemma BinScanEnd(key: string, w: nat, counter: nat)
    requires key != ""
    ensures BinScan([], key, w, counter) == None
  {
    var empty: seq<byte> := [];
    assert Prefix(empty, w) == [];
  }

  /** `Lookup` on a non-empty sequence, one position at a time. */
  lemma LookupCons<T>(t: seq<T>, v: T)
    requires |t| > 0
    ensures Lookup(t, v) == if t[0] == v then Some(0) else Shift(Lookup(t[1..], v), 1)
  {
  }

  /** Scanning the binary image of a table of hex lines finds the line a
      text lookup of the same non-empty key of line width finds. */
  lemma {:induction false} BinScanAgrees(file: seq<string>, key: string, tv: nat, counter: nat)
    requires HexLines(file, tv)
    requires |key| == tv >= 2
    ensures HexToBin(file).Some?
    ensures BinScan(HexToBin(file).value, key, tv / 2, counter) == Shift(Lookup(file, key), counter)
  {
    HexToBinRecords(file, tv);
    var w := tv / 2;
    if |file| == 0 {
      BinScanEnd(key, w, counter);
    } else {
      var data := HexToBin(file).value;
      var rec := Decode(file[0]).value;
      var tail := HexToBin(file[1..]).value;
      HexLinesTail(file, tv);
      BinScanAgrees(file[1..], key, tv, counter + 1);
      assert data == rec + tail by {
        assert data == data[..w] + data[w..];
      }
      LookupCons(file, key);
      calc {
        BinScan(data, key, w, counter);
        { BinScanStep(rec, tail, key, w, counter); }
        if Encode(rec) == key then Some(counter) else BinScan(tail, key, w, counter + 1);
        if file[0] == key then Some(counter) else Shift(Lookup(file[1..], key), counter + 1);
        { ShiftShift(Lookup(file[1..], key), 1, counter); }
        Shift(Lookup(file, key), counter);
      }
    }
  }

  /** On the output of `hextobin` for a table of lower-case hex lines of
      even width `truncvalue`, the binary lookup returns what the text lookup
      returns, for any point wide enough to hold a full key. */
  lemma BinLookupAgrees(file: seq<string>, elem: string, tv: nat)
    requires HexLines(file, tv)
    requires tv >= 2
    requires |elem| >= 2 + tv
    ensures HexToBin(file).Some?
    ensures LookupTrunclBin(HexToBin(file).value, elem, tv) == LookupTruncl(file, elem, tv)
  {
    BinScanAgrees(file, Key(elem, tv), tv, 1);
  }

  /** `lookupelemtrunclfilepartsbin(elem, truncvalue)` over the sixteen
      binary parts. */
  function LookupTrunclFilePartsBin(binParts: seq<seq<byte>>, elem: string, tv: nat): (r: Option<nat>)
    requires |binParts| == NumParts
    ensures r.None? <==> forall j :: 0 <= j < |binParts| ==> LookupTrunclBin(binParts[j], elem, tv).None?
    ensures r.Some? ==>
              exists j :: 0 <= j < |binParts| && LookupTrunclBin(binParts[j], elem, tv).Some? &&
                          r.value == LookupTrunclBin(binParts[j], elem, tv).value + j * PartSize &&
                          forall e :: 0 <= e < j ==> LookupTrunclBin(binParts[e], elem, tv).None?
  {
    PartsSearchFirst(binParts, d => LookupTrunclBin(d, elem, tv), 0);
    PartsSearch(binParts, d => LookupTrunclBin(d, elem, tv), 0)
  }

  /** The binary image of every part, when every part converts. */
  predicate BinPartsOf(binParts: seq<seq<byte>>, parts: seq<seq<string>>)
  {
    && |binParts| == |parts|
    && forall i :: 0 <= i < |parts| ==> HexToBin(parts[i]) == Some(binParts[i])
  }

  /** Searches over parts with part-wise equal lookups agree. */
  lemma {:induction false} PartsSearchPointwise<P, Q>(ps: seq<P>, f: P -> Option<nat>, qs: seq<Q>, g: Q -> Option<nat>, i: nat)
    requires |ps| == |qs|
    requires forall j :: 0 <= j < |ps| ==> f(ps[j]) == g(qs[j])
    ensures PartsSearch(ps, f, i) == PartsSearch(qs, g, i)
    decreases |ps| - i
  {
    if i < |ps| {
      PartsSearchPointwise(ps, f, qs, g, i + 1);
    }
  }

  /** Searching the binary parts finds what searching the text parts they
      were converted from finds. */
  lemma FilePartsBinAgrees(binParts: seq<seq<byte>>, parts: seq<seq<string>>, elem: string, tv: nat)
    requires |parts| == NumParts
    requires BinPartsOf(binParts, parts)
    requires forall i :: 0 <= i < |parts| ==> HexLines(parts[i], tv)
    requires tv >= 2
    requires |elem| >= 2 + tv
    ensures LookupTrunclFilePartsBin(binParts, elem, tv) == LookupTrunclFileParts(parts, elem, tv)
  {
    forall j | 0 <= j < |parts|
      ensures LookupTrunclBin(binParts[j], elem, tv) == LookupTruncl(parts[j], elem, tv)
    {
      BinLookupAgrees(parts[j], elem, tv);
    }
    PartsSearchPointwise(binParts, d => LookupTrunclBin(d, elem, tv), parts, p => LookupTruncl(p, elem, tv), 0);
  }

  function BinPartsFind(binParts: seq<seq<byte>>, ser: int -> string, tv: nat): (r: int -> Option<nat>)
    requires |binParts| == NumParts
  {
    y => LookupTrunclFilePartsBin(binParts, ser(y), tv)
  }

  /** The binary parts were converted from sixteen full parts of hex lines
      of width `tv` that form a correct truncated table of `1..N`, whose
      keys keep `1..max(x, N)` apart, and `x` is in reach of `2^gs` giant
      steps of `2^gs`. */
  ghost predicate BinPartsCorrect(binParts: seq<seq<byte>>, parts: seq<seq<string>>, ser: int -> string, x: int, tv: nat, gs: nat)
  {
    && |parts| == NumParts
    && BinPartsOf(binParts, parts)
    && FullParts(parts)
    && (forall i :: 0 <= i < |parts| ==> HexLines(parts[i], tv))
    && tv >= 2
    && (forall y :: |ser(y)| >= 2 + tv)
    && KeyTable(Flatten(parts), ser, tv)
    && KeysDistinct(ser, tv, if x > |Flatten(parts)| then x else |Flatten(parts)|)
    && Pow2(gs) <= |Flatten(parts)|
    && 1 <= x <= Pow2(gs) * Pow2(gs)
  }

  /** `babygiantsteptruncbin(x·g, truncvalue, gs)`: on binary parts converted
      from sixteen full parts of the truncated table of `1..N`, it returns
      the discrete log under the same conditions as the text search. */
  method BabyGiantStepTruncBin(binParts: seq<seq<byte>>, parts: seq<seq<string>>, ser: int -> string, x: int, tv: nat, gs: nat)
    returns (r: Option<int>)
    requires |binParts| == NumParts
    ensures r == GiantSteps(BinPartsFind(binParts, ser, tv), x, Pow2(gs), 0)
    ensures BinPartsCorrect(binParts, parts, ser, x, tv, gs) ==> r == Some(x)
  {
    r := TruncShanks(BinPartsFind(binParts, ser, tv), x, gs);
    if BinPartsCorrect(binParts, parts, ser, x, tv, gs) {
      var table := Flatten(parts);
      forall y ensures BinPartsFind(binParts, ser, tv)(y) == TruncFind(table, ser, tv)(y) {
        FilePartsBinAgrees(binParts, parts, ser(y), tv);
        FilePartsIsTableLookup(parts, ser(y), tv);
      }
      GiantStepsExt(BinPartsFind(binParts, ser, tv), TruncFind(table, ser, tv), x, Pow2(gs), 0);
      TruncSearchCorrect(table, ser, tv, x, Pow2(gs));
    }
  }
}
