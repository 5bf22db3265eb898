/**
 The canonical-hint gate of ML-DSA-87 verification, for every `omega` and `k`, against
 Algorithms 20 and 21 of FIPS 204 (section 7.1).
 */
module HintGate {
  import opened Wrappers
  import opened Bytes

  datatype HintDefect =
    | CumulativeCountNotMonotone | CumulativeCountAboveOmega
    | IndicesNotStrictlyIncreasing | UnusedHintByteNonZero

  // ---------- What the gate accepts ----------

  /** Where polynomial `i` starts among the index bytes: the previous cumulative count. */
  function Start(y: seq<byte>, omega: nat, i: nat): nat
    requires omega + i <= |y|
  {
    if i == 0 then 0 else y[omega + i - 1]
  }

  predicate GoodCount(y: seq<byte>, omega: nat, i: nat)
    requires omega + i < |y|
  {
    Start(y, omega, i) <= Start(y, omega, i + 1) <= omega
  }

  predicate Rising(y: seq<byte>, from: nat, to: nat)
    requires to <= |y|
  {
    forall j :: from < j < to ==> y[j - 1] < y[j]
  }

  predicate GoodWindow(y: seq<byte>, omega: nat, i: nat)
    requires omega + i < |y|
  {
    Start(y, omega, i + 1) <= omega && Rising(y, Start(y, omega, i), Start(y, omega, i + 1))
  }

  predicate ZeroFrom(y: seq<byte>, from: nat, omega: nat)
    requires omega <= |y|
  {
    forall j :: from <= j < omega ==> y[j] == 0
  }

  /** The cumulative counts from polynomial `i` on rise and stay within omega. */
  predicate CountsOk(y: seq<byte>, omega: nat, from: nat, to: nat)
    requires omega + to <= |y|
  {
    forall i :: from <= i < to ==> GoodCount(y, omega, i)
  }

  predicate WindowsOk(y: seq<byte>, omega: nat, from: nat, to: nat)
    requires omega + to <= |y|
  {
    forall i :: from <= i < to ==> GoodWindow(y, omega, i)
  }

  predicate Canonical(y: seq<byte>, omega: nat, k: nat)
    requires |y| == omega + k
  {
    CountsOk(y, omega, 0, k) && ZeroFrom(y, Start(y, omega, k), omega) && WindowsOk(y, omega, 0, k)
  }

  lemma StartWithin(y: seq<byte>, omega: nat, n: nat)
    requires omega + n <= |y| && CountsOk(y, omega, 0, n)
    ensures Start(y, omega, n) <= omega
  {
    if n > 0 {
      assert GoodCount(y, omega, n - 1);
    }
  }

  /** The defect the first bad count shows: falling counts are reported before large ones. */
  predicate CountDefect(y: seq<byte>, omega: nat, i: nat, d: HintDefect)
    requires omega + i < |y|
  {
    CountsOk(y, omega, 0, i) && !GoodCount(y, omega, i) &&
    d == if Start(y, omega, i + 1) < Start(y, omega, i) then CumulativeCountNotMonotone else CumulativeCountAboveOmega
  }

  /** Gates 1 and 2: the walk over the counts, which returns the last one. */
  method CheckCounts(sig: array<byte>, offset: nat, omega: nat, k: nat) returns (r: Result<nat, HintDefect>)
    requires sig.Length == offset + omega + k
    ensures r.Ok? ==> CountsOk(sig[offset..], omega, 0, k) && r.value == Start(sig[offset..], omega, k)
    ensures r.Err? ==> exists i :: 0 <= i < k && CountDefect(sig[offset..], omega, i, r.error)
  {
    ghost var y: seq<byte> := sig[offset..];
    var running, i := 0, 0;
    while i < k
      invariant 0 <= i <= k && running == Start(y, omega, i) && CountsOk(y, omega, 0, i)
    {
      var cut := sig[offset + omega + i];
      assert cut == Start(y, omega, i + 1);
      if cut < running {
        assert CountDefect(y, omega, i, CumulativeCountNotMonotone);
        return Err(CumulativeCountNotMonotone);
      }
      if cut > omega {
        assert CountDefect(y, omega, i, CumulativeCountAboveOmega);
        return Err(CumulativeCountAboveOmega);
      }
      running := cut;
      i := i + 1;
    }
    return Ok(running);
  }

  /** Gate 4: the walk over the windows; the counts have passed, so every slice is in bounds. */
  method CheckWindows(sig: array<byte>, offset: nat, omega: nat, k: nat) returns (ok: bool)
    requires sig.Length == offset + omega + k && CountsOk(sig[offset..], omega, 0, k)
    ensures ok <==> WindowsOk(sig[offset..], omega, 0, k)
  {
    ghost var y: seq<byte> := sig[offset..];
    var start, i := 0, 0;
    while i < k
      invariant 0 <= i <= k && start == Start(y, omega, i) && WindowsOk(y, omega, 0, i)
    {
      var end := sig[offset + omega + i];
      assert end == Start(y, omega, i + 1) && GoodCount(y, omega, i);
      var broken := FindBroken(sig, offset, start, end);
      if broken {
        assert !GoodWindow(y, omega, i);
        return false;
      }
      start := end;
      i := i + 1;
    }
    return true;
  }

  /** The multi-pass gate over the last `omega + k` bytes of a signature. */
  method HintEncodingIsCanonical(sig: array<byte>, offset: nat, omega: nat, k: nat)
    returns (r: Result<(), HintDefect>)
    requires sig.Length == offset + omega + k
    ensures r.Ok? <==> Canonical(sig[offset..], omega, k)
    ensures r == Err(UnusedHintByteNonZero) <==>
            CountsOk(sig[offset..], omega, 0, k) && !ZeroFrom(sig[offset..], Start(sig[offset..], omega, k), omega)
    ensures r == Err(IndicesNotStrictlyIncreasing) <==>
            CountsOk(sig[offset..], omega, 0, k) && ZeroFrom(sig[offset..], Start(sig[offset..], omega, k), omega) &&
            !WindowsOk(sig[offset..], omega, 0, k)
    ensures !CountsOk(sig[offset..], omega, 0, k) ==>
      exists i :: 0 <= i < k && CountsOk(sig[offset..], omega, 0, i) &&
        var y, before := sig[offset..], Start(sig[offset..], omega, i);
        (r == Err(CumulativeCountNotMonotone) && y[omega + i] < before) ||
        (r == Err(CumulativeCountAboveOmega) && before <= y[omega + i] && y[omega + i] > omega)
  {
    var counts := CheckCounts(sig, offset, omega, k);
    if counts.Err? {
      return Err(counts.error);
    }
    StartWithin(sig[offset..], omega, k);
    var unused := FindNonZero(sig, offset, counts.value, omega);
    if unused {
      return Err(UnusedHintByteNonZero);
    }
    var windows := CheckWindows(sig, offset, omega, k);
    return if windows then Ok(()) else Err(IndicesNotStrictlyIncreasing);
  }

  /** `indices[from..].iter().any(|b| b != 0)`. */
  method FindNonZero(sig: array<byte>, offset: nat, from: nat, omega: nat) returns (found: bool)
    requires from <= omega && offset + omega <= sig.Length
    ensures found <==> !ZeroFrom(sig[offset..], from, omega)
  {
    var j := from;
    while j < omega
      invariant from <= j <= omega && forall j' :: from <= j' < j ==> sig[offset..][j'] == 0
    {
      if sig[offset + j] != 0 {
        assert sig[offset..][j] != 0;
        return true;
      }
      j := j + 1;
    }
    return false;
  }

  /** `window.windows(2).any(|w| w[0] >= w[1])` on `indices[from..to]`. */
  method FindBroken(sig: array<byte>, offset: nat, from: nat, to: nat) returns (found: bool)
    requires from <= to && offset + to <= sig.Length
    ensures found <==> !Rising(sig[offset..], from, to)
  {
    var j := from + 1;
    while j < to
      invariant from < j && (j <= to || j == from + 1)
      invariant forall j' :: from < j' < j && j' < to ==> sig[offset..][j' - 1] < sig[offset..][j']
    {
      if sig[offset + j - 1] >= sig[offset + j] {
        assert sig[offset..][j - 1] >= sig[offset..][j];
        return true;
      }
      j := j + 1;
    }
    return false;
  }

  // ---------- FIPS 204, Algorithm 21 ----------

  /** A polynomial of R_2, as the set of positions of its ones. */
  type Poly = set<byte>

  /** Lines 7 to 13: read one polynomial's indices, refusing one that does not exceed its predecessor. */
  function UnpackPoly(y: seq<byte>, index: nat, end: nat, first: nat): Option<Poly>
    requires end <= |y|
    decreases end - index
  {
    if index >= end then Some({})
    else if index > first && y[index - 1] >= y[index] then None
    else
      match UnpackPoly(y, index + 1, end, first)
      case None => None
      case Some(p) => Some({y[index]} + p)
  }

  /** Lines 3 to 17 from polynomial `i` on, with `index` index bytes already read. */
  function UnpackFrom(y: seq<byte>, omega: nat, k: nat, i: nat, index: nat): Option<seq<Poly>>
    requires |y| == omega + k && i <= k
    decreases k - i
  {
    if i == k then if ZeroFrom(y, index, omega) then Some([]) else None
    else if y[omega + i] < index || y[omega + i] > omega then None
    else
      match UnpackPoly(y, index, y[omega + i], index)
      case None => None
      case Some(p) =>
        match UnpackFrom(y, omega, k, i + 1, y[omega + i])
        case None => None
        case Some(rest) => Some([p] + rest)
  }

  function HintBitUnpack(y: seq<byte>, omega: nat, k: nat): Option<seq<Poly>>
    requires |y| == omega + k
  {
    UnpackFrom(y, omega, k, 0, 0)
  }

  lemma {:induction false} PolyAccepted(y: seq<byte>, index: nat, end: nat, first: nat)
    requires first <= index && end <= |y|
    ensures UnpackPoly(y, index, end, first).Some? <==>
            forall j :: index <= j < end && first < j ==> y[j - 1] < y[j]
    decreases end - index
  {
    if index < end {
      PolyAccepted(y, index + 1, end, first);
    }
  }

  lemma {:induction false} UnpackAccepts(y: seq<byte>, omega: nat, k: nat, i: nat)
    requires |y| == omega + k && i <= k
    ensures UnpackFrom(y, omega, k, i, Start(y, omega, i)).Some? <==>
            CountsOk(y, omega, i, k) && ZeroFrom(y, Start(y, omega, k), omega) && WindowsOk(y, omega, i, k)
    decreases k - i
  {
    if i < k {
      var start, end := Start(y, omega, i), Start(y, omega, i + 1);
      assert end == y[omega + i];
      UnpackAccepts(y, omega, k, i + 1);
      Unroll(y, omega, k, i);
      if GoodCount(y, omega, i) {
        PolyAccepted(y, start, end, start);
      }
    }
  }

  lemma Unroll(y: seq<byte>, omega: nat, k: nat, i: nat)
    requires |y| == omega + k && i < k
    ensures CountsOk(y, omega, i, k) <==> GoodCount(y, omega, i) && CountsOk(y, omega, i + 1, k)
    ensures WindowsOk(y, omega, i, k) <==> GoodWindow(y, omega, i) && WindowsOk(y, omega, i + 1, k)
  {
  }

  /** The gate accepts exactly the strings Algorithm 21 decodes. */
  lemma GateIsAlgorithm21(y: seq<byte>, omega: nat, k: nat)
    requires |y| == omega + k
    ensures Canonical(y, omega, k) <==> HintBitUnpack(y, omega, k).Some?
  {
    UnpackAccepts(y, omega, k, 0);
  }

  // ---------- FIPS 204, Algorithm 20 ----------

  /** Lines 4 to 9: the positions of the ones from `j` on, in rising order. */
  function Ones(p: Poly, j: nat): (r: seq<byte>)
    decreases 256 - j
  {
    if j >= 256 then [] else if j in p then [j] + Ones(p, j + 1) else Ones(p, j + 1)
  }

  function PackIndices(h: seq<Poly>): seq<byte> {
    if h == [] then [] else Ones(h[0], 0) + PackIndices(h[1..])
  }

  /** Line 10: the running count after each polynomial. */
  function PackCounts(h: seq<Poly>, index: nat): (r: seq<int>)
    ensures |r| == |h|
  {
    if h == [] then [] else
      var n := index + |Ones(h[0], 0)|;
      [n] + PackCounts(h[1..], n)
  }

  function Weight(h: seq<Poly>): nat {
    if h == [] then 0 else |h[0]| + Weight(h[1..])
  }

  lemma {:induction false} OnesShape(p: Poly, j: nat)
    ensures forall x :: x in Ones(p, j) <==> x in p && x >= j
    ensures forall a, b :: 0 <= a < b < |Ones(p, j)| ==> Ones(p, j)[a] < Ones(p, j)[b]
    decreases 256 - j
  {
    if j < 256 {
      OnesShape(p, j + 1);
      var tail := Ones(p, j + 1);
      assert forall a :: 0 <= a < |tail| ==> tail[a] in tail;
    }
  }

  lemma {:induction false} OnesCount(p: Poly, j: nat)
    ensures |Ones(p, j)| == |set x | x in p && x >= j|
    decreases 256 - j
  {
    var s := set x | x in p && x >= j;
    if j < 256 {
      OnesCount(p, j + 1);
      var t := set x | x in p && x >= j + 1;
      assert j in p ==> s == t + {j as byte};
      assert j !in p ==> s == t;
    } else {
      assert s == {};
    }
  }

  lemma {:induction false} WeightIsLength(h: seq<Poly>)
    ensures |PackIndices(h)| == Weight(h)
  {
    if h != [] {
      OnesCount(h[0], 0);
      assert (set x | x in h[0] && x >= 0) == h[0];
      WeightIsLength(h[1..]);
    }
  }

  lemma {:induction false} CountsBounded(h: seq<Poly>, index: nat)
    ensures forall i :: 0 <= i < |h| ==> index <= PackCounts(h, index)[i] <= index + |PackIndices(h)|
  {
    if h != [] {
      CountsBounded(h[1..], index + |Ones(h[0], 0)|);
    }
  }

  /** At most omega ones, so few that the running counts fit a byte. */
  predicate Packable(h: seq<Poly>, omega: nat) {
    Weight(h) <= omega && Weight(h) <= 255
  }

  function HintBitPack(h: seq<Poly>, omega: nat): (y: seq<byte>)
    requires Packable(h, omega)
    ensures |y| == omega + |h|
  {
    WeightIsLength(h);
    CountsBounded(h, 0);
    var counts := PackCounts(h, 0);
    PackIndices(h) + Repeat<byte>(0, omega - Weight(h)) +
    seq(|counts|, i requires 0 <= i < |counts| => counts[i] as byte)
  }

  /** A rising run of indices is the rising list of its own set. */
  lemma {:induction false} RisingIsOnes(s: seq<byte>, p: Poly)
    requires forall a, b :: 0 <= a < b < |s| ==> s[a] < s[b]
    requires forall x :: x in s <==> x in p
    ensures Ones(p, 0) == s
  {
    OnesShape(p, 0);
    SameRising(s, Ones(p, 0));
  }

  lemma {:induction false} SameRising(s: seq<byte>, t: seq<byte>)
    requires forall a, b :: 0 <= a < b < |s| ==> s[a] < s[b]
    requires forall a, b :: 0 <= a < b < |t| ==> t[a] < t[b]
    requires forall x :: x in s <==> x in t
    ensures s == t
  {
    if s == [] {
      assert forall a :: 0 <= a < |t| ==> t[a] in t;
    } else {
      assert s[0] in t;
      assert s[0] in t && t[0] in s;
      assert s[0] == t[0];
      forall x ensures x in s[1..] <==> x in t[1..] {
        assert x in s[1..] <==> x in s && x != s[0];
        assert x in t[1..] <==> x in t && x != t[0];
      }
      SameRising(s[1..], t[1..]);
      assert s == [s[0]] + s[1..] && t == [t[0]] + t[1..];
    }
  }

  /** Polynomial `i` alone: reading its window gives back the set it was written from. */
  lemma {:induction false} PolyIsSet(y: seq<byte>, index: nat, end: nat, first: nat)
    requires first <= index <= end <= |y| && UnpackPoly(y, index, end, first).Some?
    ensures forall x :: x in UnpackPoly(y, index, end, first).value <==> x in y[index..end]
    decreases end - index
  {
    if index < end {
      PolyIsSet(y, index + 1, end, first);
      assert y[index..end] == [y[index]] + y[index + 1..end];
    }
  }

  lemma ReadOnes(y: seq<byte>, start: nat, p: Poly)
    requires start + |Ones(p, 0)| <= |y| && y[start..start + |Ones(p, 0)|] == Ones(p, 0)
    ensures UnpackPoly(y, start, start + |Ones(p, 0)|, start) == Some(p)
  {
    var end := start + |Ones(p, 0)|;
    OnesShape(p, 0);
    assert forall j :: start <= j < end ==> y[j] == Ones(p, 0)[j - start];
    PolyAccepted(y, start, end, start);
    PolyIsSet(y, start, end, start);
    var q := UnpackPoly(y, start, end, start).value;
    assert forall x :: x in q <==> x in Ones(p, 0);
    assert q == p;
  }

  lemma {:induction false} RisingPairs(y: seq<byte>, start: nat, a: nat, b: nat, end: nat)
    requires start <= a < b < end <= |y| && Rising(y, start, end)
    ensures y[a] < y[b]
  {
    if a + 1 < b {
      RisingPairs(y, start, a, b - 1, end);
    }
    assert y[b - 1] < y[b];
  }

  lemma WriteOnes(y: seq<byte>, start: nat, end: nat)
    requires start <= end <= |y| && UnpackPoly(y, start, end, start).Some?
    ensures Ones(UnpackPoly(y, start, end, start).value, 0) == y[start..end]
  {
    var s := y[start..end];
    PolyAccepted(y, start, end, start);
    PolyIsSet(y, start, end, start);
    forall a, b | 0 <= a < b < |s| ensures s[a] < s[b] {
      RisingPairs(y, start, start + a, start + b, end);
    }
    RisingIsOnes(s, UnpackPoly(y, start, end, start).value);
  }

  /** From position `i` on, `y` holds these indices, these counts and zeros in between. */
  predicate HoldsFields(y: seq<byte>, omega: nat, i: nat, index: nat, indices: seq<byte>, counts: seq<int>) {
    && index + |indices| <= omega && omega + i + |counts| == |y|
    && y[index..index + |indices|] == indices
    && y[omega + i..] == counts
    && ZeroFrom(y, index + |indices|, omega)
  }

  /** `y` holds the packing of `h` from polynomial `i` on, after `index` index bytes. */
  predicate Holds(y: seq<byte>, omega: nat, k: nat, i: nat, index: nat, h: seq<Poly>) {
    |y| == omega + k && i + |h| == k && HoldsFields(y, omega, i, index, PackIndices(h), PackCounts(h, index))
  }

  lemma FieldsStep(y: seq<byte>, omega: nat, i: nat, index: nat, one: seq<byte>, rest: seq<byte>, counts: seq<int>)
    ensures var n := index + |one|;
      HoldsFields(y, omega, i, index, one + rest, [n] + counts) <==>
        omega + i < |y| && n <= omega && y[index..n] == one && y[omega + i] == n &&
        HoldsFields(y, omega, i + 1, n, rest, counts)
  {
    var n := index + |one|;
    if omega + i < |y| && n + |rest| <= omega {
      Slices(y, index, n, n + |rest|, one, rest);
      Slices(y, omega + i, omega + i + 1, |y|, [n], counts);
      assert y[omega + i..omega + i + 1] == [y[omega + i]];
    }
  }

  lemma PackStep(h: seq<Poly>, index: nat, one: seq<byte>)
    requires h != [] && one == Ones(h[0], 0)
    ensures PackIndices(h) == one + PackIndices(h[1..])
    ensures PackCounts(h, index) == [index + |one|] + PackCounts(h[1..], index + |one|)
  {
  }

  lemma HoldsStep(y: seq<byte>, omega: nat, k: nat, i: nat, index: nat, h: seq<Poly>, one: seq<byte>)
    requires h != [] && one == Ones(h[0], 0)
    ensures var n := index + |one|;
      Holds(y, omega, k, i, index, h) <==>
        |y| == omega + k && i < k && n <= omega && y[index..n] == one && y[omega + i] == n &&
        Holds(y, omega, k, i + 1, n, h[1..])
  {
    PackStep(h, index, one);
    FieldsStep(y, omega, i, index, one, PackIndices(h[1..]), PackCounts(h[1..], index + |one|));
  }

  lemma Slices(y: seq<int>, a: nat, b: nat, c: nat, s: seq<int>, t: seq<int>)
    requires a <= b <= c <= |y| && |s| == b - a
    ensures y[a..c] == s + t <==> y[a..b] == s && y[b..c] == t
  {
    assert y[a..c] == y[a..b] + y[b..c];
    if y[a..c] == s + t {
      assert s == (s + t)[..b - a] && t == (s + t)[b - a..];
    }
  }

  lemma UnpackStep(y: seq<byte>, omega: nat, k: nat, i: nat, index: nat, p: Poly, rest: seq<Poly>)
    requires |y| == omega + k && i < k && index <= y[omega + i] <= omega
    requires UnpackPoly(y, index, y[omega + i], index) == Some(p)
    requires UnpackFrom(y, omega, k, i + 1, y[omega + i]) == Some(rest)
    ensures UnpackFrom(y, omega, k, i, index) == Some([p] + rest)
  {
  }

  lemma ReadStep(y: seq<byte>, omega: nat, k: nat, i: nat, index: nat, p: Poly, rest: seq<Poly>, one: seq<byte>)
    requires |y| == omega + k && i < k && one == Ones(p, 0) && index + |one| <= omega
    requires y[index..index + |one|] == one && y[omega + i] == index + |one|
    requires UnpackFrom(y, omega, k, i + 1, index + |one|) == Some(rest)
    ensures UnpackFrom(y, omega, k, i, index) == Some([p] + rest)
  {
    ReadOnes(y, index, p);
    UnpackStep(y, omega, k, i, index, p, rest);
  }

  /** Algorithm 21 reads back what a packing holds ... */
  lemma {:induction false} UnpackHeld(y: seq<byte>, omega: nat, k: nat, i: nat, index: nat, h: seq<Poly>)
    requires Holds(y, omega, k, i, index, h)
    ensures UnpackFrom(y, omega, k, i, index) == Some(h)
    decreases |h|
  {
    if h != [] {
      var one := Ones(h[0], 0);
      HoldsStep(y, omega, k, i, index, h, one);
      UnpackHeld(y, omega, k, i + 1, index + |one|, h[1..]);
      ReadStep(y, omega, k, i, index, h[0], h[1..], one);
      assert h == [h[0]] + h[1..];
    }
  }

  /** ... and decodes nothing else. */
  lemma {:induction false} HeldByUnpack(y: seq<byte>, omega: nat, k: nat, i: nat, index: nat)
    requires |y| == omega + k && i <= k && index <= omega && UnpackFrom(y, omega, k, i, index).Some?
    ensures Holds(y, omega, k, i, index, UnpackFrom(y, omega, k, i, index).value)
    decreases k - i
  {
    if i == k {
      assert y[index..index] == [] && y[omega + i..] == [];
    } else {
      var end := y[omega + i];
      HeldByUnpack(y, omega, k, i + 1, end);
      WriteOnes(y, index, end);
      HoldsStep(y, omega, k, i, index, UnpackFrom(y, omega, k, i, index).value, y[index..end]);
    }
  }

  /** The three fields of a packing, as slices. */
  lemma PackFields(h: seq<Poly>, omega: nat)
    requires Packable(h, omega)
    ensures var y := HintBitPack(h, omega);
            |PackIndices(h)| == Weight(h) && y[0..Weight(h)] == PackIndices(h) &&
            y[Weight(h)..omega] == Repeat<byte>(0, omega - Weight(h)) && y[omega..] == PackCounts(h, 0)
  {
    WeightIsLength(h);
    var y, counts := HintBitPack(h, omega), PackCounts(h, 0);
    assert forall i :: 0 <= i < |counts| ==> y[omega + i] == counts[i];
  }

  lemma ZeroIsZeros(y: seq<byte>, w: nat, omega: nat)
    requires w <= omega <= |y|
    ensures ZeroFrom(y, w, omega) <==> y[w..omega] == Repeat<byte>(0, omega - w)
  {
    if y[w..omega] == Repeat<byte>(0, omega - w) {
      assert forall j :: w <= j < omega ==> y[j] == y[w..omega][j - w];
    }
  }

  lemma PackHolds(h: seq<Poly>, omega: nat, y: seq<byte>)
    requires Packable(h, omega)
    ensures Holds(y, omega, |h|, 0, 0, h) <==> y == HintBitPack(h, omega)
  {
    var packed := HintBitPack(h, omega);
    PackFields(h, omega);
    ZeroIsZeros(packed, Weight(h), omega);
    Parts(packed, Weight(h), omega);
    if |y| == omega + |h| {
      ZeroIsZeros(y, Weight(h), omega);
      Parts(y, Weight(h), omega);
    }
  }

  lemma Parts(y: seq<byte>, w: nat, omega: nat)
    requires w <= omega <= |y|
    ensures y == y[0..w] + y[w..omega] + y[omega..]
  {
  }

  /** Unpacking undoes packing, for every hint vector with at most omega ones. */
  lemma PackThenUnpack(h: seq<Poly>, omega: nat)
    requires Packable(h, omega)
    ensures HintBitUnpack(HintBitPack(h, omega), omega, |h|) == Some(h)
  {
    PackHolds(h, omega, HintBitPack(h, omega));
    UnpackHeld(HintBitPack(h, omega), omega, |h|, 0, 0, h);
  }

  lemma {:induction false} LastCount(h: seq<Poly>, index: nat)
    requires h != []
    ensures PackCounts(h, index)[|h| - 1] == index + |PackIndices(h)|
    decreases |h|
  {
    var one := Ones(h[0], 0);
    PackStep(h, index, one);
    if |h| > 1 {
      LastCount(h[1..], index + |one|);
      LastOf(index + |one|, PackCounts(h[1..], index + |one|));
    } else {
      assert h[1..] == [];
    }
  }

  lemma LastOf(x: int, s: seq<int>)
    requires s != []
    ensures ([x] + s)[|s|] == s[|s| - 1]
  {
  }

  /** What a string of bytes holds could be packed: its last count is a byte. */
  lemma HeldFits(y: seq<byte>, omega: nat, k: nat, h: seq<Poly>)
    requires Holds(y, omega, k, 0, 0, h)
    ensures Packable(h, omega)
  {
    WeightIsLength(h);
    if h != [] {
      LastCount(h, 0);
      LastByte(y, omega, PackCounts(h, 0));
    }
  }

  lemma LastByte(y: seq<byte>, omega: nat, counts: seq<int>)
    requires counts != [] && |y| == omega + |counts| && y[omega..] == counts
    ensures counts[|counts| - 1] <= 255
  {
    assert y[omega..][|counts| - 1] == y[|y| - 1];
  }

  /** Packing undoes unpacking, for every string the gate accepts. */
  lemma UnpackThenPack(y: seq<byte>, omega: nat, k: nat)
    requires |y| == omega + k && Canonical(y, omega, k)
    ensures HintBitUnpack(y, omega, k).Some?
    ensures var h := HintBitUnpack(y, omega, k).value;
            |h| == k && Packable(h, omega) && HintBitPack(h, omega) == y
  {
    GateIsAlgorithm21(y, omega, k);
    HeldByUnpack(y, omega, k, 0, 0);
    var h := HintBitUnpack(y, omega, k).value;
    HeldFits(y, omega, k, h);
    PackHolds(h, omega, y);
  }

  /** The gate accepts exactly the encodings of hint vectors, one for each. */
  lemma GateAcceptsExactlyPackings(y: seq<byte>, omega: nat, k: nat)
    requires |y| == omega + k
    ensures Canonical(y, omega, k) <==>
            exists h: seq<Poly> :: |h| == k && Packable(h, omega) && HintBitPack(h, omega) == y
  {
    if Canonical(y, omega, k) {
      UnpackThenPack(y, omega, k);
    }
    forall h: seq<Poly> | |h| == k && Packable(h, omega) && HintBitPack(h, omega) == y
      ensures Canonical(y, omega, k)
    {
      PackThenUnpack(h, omega);
      GateIsAlgorithm21(y, omega, k);
    }
  }
}

/** ML-DSA-87 verification with the decode and verify failures kept apart. */
module MlDsa87 {
  import opened Wrappers
  import opened Bytes
  import opened HintGate

  const PUBLIC_KEY_BYTES := 2592
  const SIGNATURE_BYTES := 4627
  const OMEGA := 75
  const K := 8
  const HINT_OFFSET := SIGNATURE_BYTES - (OMEGA + K)

  /** The algebra: the infinity-norm bound on `z`, and the verification equation. */
  datatype Algebra = Algebra(zInBound: seq<byte> -> bool, verifies: (seq<byte>, seq<byte>, seq<byte>) -> bool)

  /** Why a signature is malformed, as opposed to one that does not verify. */
  datatype Malformed = BadPublicKeyLength | BadSignatureLength | BadHint(defect: HintDefect)

  /** The library's `Signature::decode`: Algorithm 21 and the bound on `z` in one answer. */
  predicate Decodes(a: Algebra, sig: seq<byte>)
    requires |sig| == SIGNATURE_BYTES
  {
    HintBitUnpack(sig[HINT_OFFSET..], OMEGA, K).Some? && a.zInBound(sig)
  }

  /**
   Malformed is exactly a wrong length or a hint Algorithm 21 refuses; a `z` out of bounds is an
   invalid signature, not a malformed one.
   */
  method Verify(a: Algebra, publicKey: seq<byte>, signature: array<byte>, message: seq<byte>)
    returns (r: Result<bool, Malformed>)
    ensures r == Err(BadPublicKeyLength) <==> |publicKey| != 2592
    ensures r == Err(BadSignatureLength) <==> |publicKey| == 2592 && signature.Length != 4627
    ensures r.Err? && r.error.BadHint? <==> |publicKey| == 2592 && signature.Length == 4627 &&
                                            HintBitUnpack(signature[4627 - 75 - 8..], 75, 8).None?
    ensures r.Ok? ==> r.value == (a.zInBound(signature[..]) && a.verifies(publicKey, message, signature[..]))
  {
    if |publicKey| != PUBLIC_KEY_BYTES {
      return Err(BadPublicKeyLength);
    }
    if signature.Length != SIGNATURE_BYTES {
      return Err(BadSignatureLength);
    }
    var gate := HintEncodingIsCanonical(signature, HINT_OFFSET, OMEGA, K);
    GateIsAlgorithm21(signature[HINT_OFFSET..], OMEGA, K);
    if gate.Err? {
      return Err(BadHint(gate.error));
    }
    assert signature[..][HINT_OFFSET..] == signature[HINT_OFFSET..];
    if !Decodes(a, signature[..]) {
      return Ok(false);
    }
    return Ok(a.verifies(publicKey, message, signature[..]));
  }
}
