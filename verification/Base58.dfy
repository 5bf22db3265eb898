/** Numbers in positional notation, most significant digit first. */
module Positional {
  import opened Bytes


  predicate InBase(s: seq<nat>, b: nat) {
    forall i :: 0 <= i < |s| ==> s[i] < b
  }

  function Pow(b: nat, k: nat): nat {
    if k == 0 then 1 else Pow(b, k - 1) * b
  }

  function Value(s: seq<nat>, b: nat): nat {
    if s == [] then 0 else Value(s[..|s| - 1], b) * b + s[|s| - 1]
  }

  /** The digits of `n` without leading zeros. */
  function DigitsOf(n: nat, b: nat): seq<nat>
    requires b >= 2
  {
    if n == 0 then [] else
      QuotientSmaller(n, b);
      DigitsOf(n / b, b) + [n % b]
  }

  lemma QuotientSmaller(n: nat, b: nat)
    requires n > 0 && b >= 2
    ensures n / b < n
  {
  }

  function LeadingZeros(s: seq<nat>): (k: nat)
    ensures k <= |s| && (k < |s| ==> s[k] != 0) && s[..k] == Repeat<nat>(0, k)
  {
    if s == [] || s[0] != 0 then 0 else
      var k := 1 + LeadingZeros(s[1..]);
      assert s[..k] == [s[0]] + s[1..][..k - 1];
      k
  }

  /** Change of base that keeps one leading zero for each leading zero, as base58 does. */
  function Recode(s: seq<nat>, from: nat, to: nat): seq<nat>
    requires to >= 2
  {
    Repeat<nat>(0, LeadingZeros(s)) + DigitsOf(Value(s, from), to)
  }

  lemma DivMod(v: nat, b: nat, d: nat)
    requires d < b
    ensures (v * b + d) / b == v && (v * b + d) % b == d
  {
    var n := v * b + d;
    assert n == (n / b) * b + n % b;
    SameQuotient(v, d, n / b, n % b, b);
  }

  lemma SameQuotient(v: int, d: int, q: int, r: int, b: nat)
    requires v * b + d == q * b + r && 0 <= d < b && 0 <= r < b
    ensures v == q && d == r
  {
    Apart(v, q, b);
    Apart(q, v, b);
  }

  lemma Apart(v: int, q: int, b: nat)
    ensures v > q ==> v * b >= q * b + b
  {
    if v > q {
      Grows(v, q + 1, b);
      assert (q + 1) * b == q * b + b;
    }
  }

  lemma Grows(x: int, y: int, b: nat)
    requires x >= y
    ensures x * b >= y * b
  {
  }

  lemma Euclid(n: nat, b: nat)
    requires b > 0
    ensures n == (n / b) * b + n % b && n % b < b
  {
  }

  lemma {:induction false} DigitsShape(n: nat, b: nat)
    requires b >= 2
    ensures Value(DigitsOf(n, b), b) == n && InBase(DigitsOf(n, b), b)
    ensures n > 0 ==> DigitsOf(n, b) != [] && DigitsOf(n, b)[0] != 0
  {
    if n > 0 {
      QuotientSmaller(n, b);
      DigitsShape(n / b, b);
      Euclid(n, b);
      ShapeStep(DigitsOf(n, b), DigitsOf(n / b, b), n / b, n % b, b);
    }
  }

  lemma ShapeStep(s: seq<nat>, init: seq<nat>, q: nat, d: nat, b: nat)
    requires s == init + [d] && d < b && Value(init, b) == q && InBase(init, b)
    requires q > 0 ==> init != [] && init[0] != 0
    requires q == 0 ==> init == []
    ensures Value(s, b) == q * b + d && InBase(s, b)
    ensures q * b + d > 0 ==> s[0] != 0
  {
    assert s[..|s| - 1] == init;
  }

  lemma {:induction false} DigitsOfValue(s: seq<nat>, b: nat)
    requires b >= 2 && InBase(s, b) && (s != [] ==> s[0] != 0)
    ensures DigitsOf(Value(s, b), b) == s
    ensures s != [] ==> Value(s, b) > 0
  {
    if s != [] {
      var init, d := s[..|s| - 1], s[|s| - 1];
      DigitsOfValue(init, b);
      DivMod(Value(init, b), b, d);
      assert s == init + [d];
      if init != [] {
        Positive(Value(init, b), b);
      }
    }
  }

  lemma Positive(v: nat, b: nat)
    requires v > 0 && b > 0
    ensures v * b > 0
  {
  }

  lemma {:induction false} ValueZeros(k: nat, t: seq<nat>, b: nat)
    ensures Value(Repeat<nat>(0, k) + t, b) == Value(t, b)
    decreases k + |t|
  {
    var s := Repeat<nat>(0, k) + t;
    if t != [] {
      assert s[..|s| - 1] == Repeat<nat>(0, k) + t[..|t| - 1];
      ValueZeros(k, t[..|t| - 1], b);
    } else if k > 0 {
      assert s[..|s| - 1] == Repeat<nat>(0, k - 1) + t && s[|s| - 1] == 0;
      ValueZeros(k - 1, t, b);
    } else {
      assert s == t;
    }
  }

  lemma {:induction false} LeadingZerosOf(k: nat, t: seq<nat>)
    requires t != [] ==> t[0] != 0
    ensures LeadingZeros(Repeat<nat>(0, k) + t) == k
  {
    var s := Repeat<nat>(0, k) + t;
    var n := LeadingZeros(s);
    assert forall i :: 0 <= i < n ==> s[..n][i] == 0;
    assert forall i :: 0 <= i < n ==> s[i] == 0;
    assert k < |s| ==> s[k] == t[0];
  }

  lemma InBaseSplit(s: seq<nat>, b: nat)
    requires InBase(s, b)
    ensures s == Repeat<nat>(0, LeadingZeros(s)) + s[LeadingZeros(s)..] && InBase(s[LeadingZeros(s)..], b)
  {
    var k := LeadingZeros(s);
    assert s == s[..k] + s[k..];
  }

  /** Recoding there and back is the identity, in both directions. */
  lemma RecodeInverse(s: seq<nat>, from: nat, to: nat)
    requires from >= 2 && to >= 2 && InBase(s, from)
    ensures InBase(Recode(s, from, to), to) && Recode(Recode(s, from, to), to, from) == s
  {
    var k := LeadingZeros(s);
    var t, n := s[k..], Value(s, from);
    InBaseSplit(s, from);
    ValueZeros(k, t, from);
    DigitsOfValue(t, from);
    DigitsShape(n, to);
    assert n == 0 ==> DigitsOf(n, to) == [];
    LeadingZerosOf(k, DigitsOf(n, to));
    ValueZeros(k, DigitsOf(n, to), to);
  }

  // ---------- Sizes and leading digits ----------

  lemma {:induction false} PowAdd(b: nat, m: nat, n: nat)
    ensures Pow(b, m + n) == Pow(b, m) * Pow(b, n)
  {
    if n > 0 {
      PowAdd(b, m, n - 1);
      Associate(Pow(b, m), Pow(b, n - 1), b);
    }
  }

  lemma Associate(x: nat, y: nat, z: nat)
    ensures (x * y) * z == x * (y * z)
  {
  }

  lemma {:induction false} PowPositive(b: nat, k: nat)
    requires b > 0
    ensures Pow(b, k) > 0
  {
    if k > 0 {
      PowPositive(b, k - 1);
    }
  }

  lemma {:induction false} PowMonotone(b: nat, j: nat, k: nat)
    requires b > 0 && j <= k
    ensures Pow(b, j) <= Pow(b, k)
  {
    if j < k {
      PowMonotone(b, j, k - 1);
      AtLeast(Pow(b, k - 1), b);
    }
  }

  lemma AtLeast(x: nat, b: nat)
    requires b >= 1
    ensures x <= x * b
  {
  }

  /** `k` more digits shift a number by `Pow(b, k)`. */
  lemma {:induction false} ValueConcat(p: seq<nat>, r: seq<nat>, b: nat)
    requires InBase(r, b) && b > 0
    ensures Value(p + r, b) == Value(p, b) * Pow(b, |r|) + Value(r, b) && Value(r, b) < Pow(b, |r|)
  {
    if r == [] {
      assert p + r == p;
    } else {
      var init, d := r[..|r| - 1], r[|r| - 1];
      assert (p + r)[..|p + r| - 1] == p + init;
      ValueConcat(p, init, b);
      ShiftStep(Value(p, b), Pow(b, |init|), Value(init, b), b, d);
    }
  }

  lemma ShiftStep(v: nat, w: nat, u: nat, b: nat, d: nat)
    requires u < w && d < b
    ensures (v * w + u) * b + d == v * (w * b) + (u * b + d) && u * b + d < w * b
  {
    Associate(v, w, b);
    assert (u + 1) * b <= w * b;
  }

  lemma DivIs(n: nat, c: nat, q: nat)
    requires c > 0 && q * c <= n < (q + 1) * c
    ensures n / c == q
  {
    DivMod(q, c, n - q * c);
  }

  lemma DivBounds(n: nat, c: nat)
    requires c > 0
    ensures (n / c) * c <= n < (n / c + 1) * c
  {
  }

  lemma DivDiv(n: nat, b: nat, c: nat)
    requires b > 0 && c > 0
    ensures b * c > 0 && n / b / c == n / (b * c)
  {
    var q := n / b / c;
    DivBounds(n, b);
    DivBounds(n / b, c);
    Positive(b, c);
    assert (q * c) * b <= n by { Scale(q * c, n / b, b); }
    assert n < ((q + 1) * c) * b by { Scale(n / b + 1, (q + 1) * c, b); }
    Associate(q, c, b);
    Associate(q + 1, c, b);
    assert c * b == b * c;
    DivIs(n, b * c, q);
  }

  lemma Scale(x: nat, y: nat, b: nat)
    requires x <= y
    ensures x * b <= y * b
  {
  }

  /** `n` without its last `k` digits. */
  function DropDigits(n: nat, b: nat, k: nat): nat
    requires b > 0
    decreases k
  {
    if k == 0 then n else DropDigits(n / b, b, k - 1)
  }

  lemma {:induction false} DropDigitsIs(n: nat, b: nat, k: nat)
    requires b >= 2 && n >= Pow(b, k)
    ensures Pow(b, k) > 0 && DropDigits(n, b, k) == n / Pow(b, k) > 0
    decreases k
  {
    if k == 0 {
      assert n / 1 == n;
    } else {
      QuotientStep(n, b, k);
      DropDigitsIs(n / b, b, k - 1);
    }
  }

  /** All but the last `k` digits are the digits of what is left. */
  lemma {:induction false} DigitsPrefix(n: nat, b: nat, k: nat, q: nat)
    requires b >= 2 && q == DropDigits(n, b, k) > 0
    ensures |DigitsOf(n, b)| == |DigitsOf(q, b)| + k
    ensures DigitsOf(n, b)[..|DigitsOf(n, b)| - k] == DigitsOf(q, b)
    decreases k
  {
    if k == 0 {
      assert DigitsOf(n, b)[..|DigitsOf(n, b)|] == DigitsOf(n, b);
    } else {
      DropNothing(b, k);
      DigitsPrefix(n / b, b, k - 1, q);
      LastDigit(n, b);
      DropLast(DigitsOf(n, b), DigitsOf(n / b, b), k);
    }
  }

  lemma {:induction false} DropNothing(b: nat, k: nat)
    requires b > 0
    ensures DropDigits(0, b, k) == 0
  {
    if k > 0 {
      DropNothing(b, k - 1);
    }
  }

  lemma DropLast(s: seq<nat>, init: seq<nat>, k: nat)
    requires |s| == |init| + 1 && s[..|init|] == init && 0 < k <= |s|
    ensures s[..|s| - k] == init[..|init| - (k - 1)]
  {
  }

  lemma LastDigit(n: nat, b: nat)
    requires b >= 2 && n > 0
    ensures |DigitsOf(n, b)| == |DigitsOf(n / b, b)| + 1 && DigitsOf(n, b)[..|DigitsOf(n / b, b)|] == DigitsOf(n / b, b)
  {
  }

  lemma QuotientStep(n: nat, b: nat, k: nat)
    requires b >= 2 && k > 0 && n >= Pow(b, k)
    ensures n > 0 && n / b >= Pow(b, k - 1) && Pow(b, k) > 0 && Pow(b, k - 1) > 0
    ensures n / b / Pow(b, k - 1) == n / Pow(b, k)
  {
    PowPositive(b, k);
    PowPositive(b, k - 1);
    QuotientAtLeast(n, Pow(b, k - 1), b);
    DivDiv(n, b, Pow(b, k - 1));
    assert b * Pow(b, k - 1) == Pow(b, k);
  }

  lemma QuotientAtLeast(n: nat, c: nat, b: nat)
    requires b > 0 && n >= c * b
    ensures n / b >= c
  {
    DivBounds(n, b);
    if n / b < c {
      Scale(n / b + 1, c, b);
    }
  }

  lemma TwoDigits(x: nat, y: nat, b: nat)
    requires b >= 2 && 0 < x < b && y < b
    ensures DigitsOf(x * b + y, b) == [x, y]
  {
    DivMod(x, b, y);
    DivMod(0, b, x);
    Positive(x, b);
    assert DigitsOf(0, b) == [];
    assert DigitsOf(x, b) == [x];
  }

  /** A number below `Pow(b, k)` has at most `k` digits, and one at or above it has more. */
  lemma {:induction false} DigitsCount(n: nat, b: nat, k: nat)
    requires b >= 2
    ensures |DigitsOf(n, b)| <= k <==> n < Pow(b, k)
  {
    if n == 0 {
      PowPositive(b, k);
    } else if k > 0 {
      QuotientSmaller(n, b);
      DigitsCount(n / b, b, k - 1);
      DivBounds(n, b);
      if n / b < Pow(b, k - 1) {
        Scale(n / b + 1, Pow(b, k - 1), b);
      } else {
        Scale(Pow(b, k - 1), n / b, b);
      }
    }
  }
}

/** base58btc: the alphabet and its two conversions. */
module Base58 {
  import opened Wrappers
  import opened Bytes
  import opened Positional

  /** The alphabet in order: 1-9, A-H, J-N, P-Z, a-k, m-z. */
  function Symbol(d: nat): char
    requires d < 58
  {
    if d < 9 then ('1' as int + d) as char
    else if d < 17 then ('A' as int + d - 9) as char
    else if d < 22 then ('J' as int + d - 17) as char
    else if d < 33 then ('P' as int + d - 22) as char
    else if d < 44 then ('a' as int + d - 33) as char
    else ('m' as int + d - 44) as char
  }

  predicate InAlphabet(c: char) {
    '1' <= c <= '9' || 'A' <= c <= 'H' || 'J' <= c <= 'N' || 'P' <= c <= 'Z' || 'a' <= c <= 'k' || 'm' <= c <= 'z'
  }

  function DigitOf(c: char): (d: nat)
    requires InAlphabet(c)
    ensures d < 58 && Symbol(d) == c
  {
    var u := c as int;
    if c <= '9' then u - '1' as int
    else if c <= 'H' then u - 'A' as int + 9
    else if c <= 'N' then u - 'J' as int + 17
    else if c <= 'Z' then u - 'P' as int + 22
    else if c <= 'k' then u - 'a' as int + 33
    else u - 'm' as int + 44
  }

  lemma SymbolInverse(d: nat)
    requires d < 58
    ensures InAlphabet(Symbol(d)) && DigitOf(Symbol(d)) == d
  {
  }

  function ToText(digits: seq<nat>): (r: string)
    requires InBase(digits, 58)
    ensures |r| == |digits| && forall i :: 0 <= i < |r| ==> r[i] == Symbol(digits[i])
  {
    seq(|digits|, i requires 0 <= i < |digits| => Symbol(digits[i]))
  }

  predicate IsBase58(s: string) {
    forall i :: 0 <= i < |s| ==> InAlphabet(s[i])
  }

  function FromText(s: string): (r: seq<nat>)
    requires IsBase58(s)
    ensures |r| == |s| && InBase(r, 58) && forall i :: 0 <= i < |r| ==> r[i] == DigitOf(s[i])
  {
    seq(|s|, i requires 0 <= i < |s| => DigitOf(s[i]))
  }

  function ToBytes(s: seq<nat>): (r: seq<byte>)
    requires InBase(s, 256)
    ensures r == s
  {
    seq(|s|, i requires 0 <= i < |s| => s[i] as byte)
  }

  function Digits256(b: seq<byte>): (r: seq<nat>)
    ensures r == b && InBase(r, 256)
  {
    seq(|b|, i requires 0 <= i < |b| => b[i] as nat)
  }

  function Encode(b: seq<byte>): string {
    RecodeInverse(Digits256(b), 256, 58);
    ToText(Recode(Digits256(b), 256, 58))
  }

  function Decode(s: string): Option<seq<byte>> {
    if IsBase58(s) then
      RecodeInverse(FromText(s), 58, 256);
      Some(ToBytes(Recode(FromText(s), 58, 256)))
    else None
  }

  lemma TextInverse(digits: seq<nat>)
    requires InBase(digits, 58)
    ensures IsBase58(ToText(digits)) && FromText(ToText(digits)) == digits
  {
    forall i | 0 <= i < |digits| ensures InAlphabet(ToText(digits)[i]) && DigitOf(ToText(digits)[i]) == digits[i] {
      SymbolInverse(digits[i]);
    }
  }

  /** Decoding undoes encoding for every byte string. */
  lemma EncodeDecode(b: seq<byte>)
    ensures Decode(Encode(b)) == Some(b)
  {
    RecodeInverse(Digits256(b), 256, 58);
    TextInverse(Recode(Digits256(b), 256, 58));
  }

  /** Encoding undoes decoding: a byte string has one base58 spelling. */
  lemma DecodeEncode(s: string)
    requires Decode(s).Some?
    ensures Encode(Decode(s).value) == s
  {
    RecodeInverse(FromText(s), 58, 256);
    assert ToText(FromText(s)) == s;
  }

  /** The alphabet is the letters and digits in ASCII order, without `0`, `O`, `I` and `l`. */
  lemma Alphabet(c: char)
    ensures (exists d :: 0 <= d < 58 && Symbol(d) == c) <==>
            ('0' <= c <= '9' || 'A' <= c <= 'Z' || 'a' <= c <= 'z') && c !in {'0', 'O', 'I', 'l'}
    ensures forall d, e :: 0 <= d < e < 58 ==> Symbol(d) < Symbol(e)
  {
    if InAlphabet(c) {
      assert Symbol(DigitOf(c)) == c;
    }
  }

  /** The text is the same number in base 58, with a `1` for each leading zero byte and no other. */
  lemma EncodeMeaning(b: seq<byte>)
    ensures var text := Encode(b);
            && IsBase58(text) && Value(FromText(text), 58) == Value(Digits256(b), 256)
            && LeadingZeros(FromText(text)) == LeadingZeros(Digits256(b))
  {
    var s := Digits256(b);
    RecodeInverse(s, 256, 58);
    TextInverse(Recode(s, 256, 58));
    var k, n := LeadingZeros(s), Value(s, 256);
    DigitsShape(n, 58);
    assert n == 0 ==> DigitsOf(n, 58) == [];
    ValueZeros(k, DigitsOf(n, 58), 58);
    LeadingZerosOf(k, DigitsOf(n, 58));
  }

  lemma EncodeIsBase58(b: seq<byte>)
    ensures IsBase58(Encode(b))
  {
    RecodeInverse(Digits256(b), 256, 58);
    TextInverse(Recode(Digits256(b), 256, 58));
  }
}
