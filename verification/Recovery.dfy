/** Arithmetic modulo a prime: the scalars of the curve's group. */
module PrimeField {
  import opened Positional

  predicate Prime(n: int) {
    n >= 2 && forall d :: 1 < d < n ==> n % d != 0
  }

  /** Adding a multiple of the modulus changes nothing. */
  lemma Shift(a: int, k: int, n: int)
    requires n > 0
    ensures (a + k * n) % n == a % n
  {
    var b := a + k * n;
    assert a == (a / n) * n + a % n && b == (b / n) * n + b % n;
    assert (a / n + k) * n == (a / n) * n + k * n;
    SameQuotient(a / n + k, a % n, b / n, b % n, n);
  }

  lemma Multiple(a: int, n: int)
    requires n > 0 && a % n == 0
    ensures a == (a / n) * n
  {
  }

  lemma MultipleIsZero(k: int, n: int)
    requires n > 0
    ensures (k * n) % n == 0
  {
    Shift(0, k, n);
  }

  lemma Residue(a: int, n: int)
    requires n > 0
    ensures a % n == a - (a / n) * n && 0 <= a % n < n
  {
  }

  lemma SmallMultiple(d: int, n: int)
    requires n > 0 && -n < d < n && d % n == 0
    ensures d == 0
  {
  }

  /** Bezout's identity, by Euclid's algorithm. */
  lemma {:induction false} Bezout(a: nat, b: nat) returns (g: nat, x: int, y: int)
    requires a > 0
    ensures g > 0 && a % g == 0 && b % g == 0 && a * x + b * y == g
    decreases b
  {
    if b == 0 {
      g, x, y := a, 1, 0;
      MultipleIsZero(1, a);
    } else {
      var x', y';
      g, x', y' := Bezout(b, a % b);
      Residue(a, b);
      Multiple(b, g);
      Multiple(a % b, g);
      x, y := y', x' - (a / b) * y';
      EuclidStep(a, b, a / b, a % b, g, x', y');
    }
  }

  lemma EuclidStep(a: int, b: int, q: int, m: int, g: int, x: int, y: int)
    requires g > 0 && a == q * b + m && b * x + m * y == g && b % g == 0 && m % g == 0
    ensures a % g == 0 && a * y + b * (x - q * y) == g
  {
    Multiple(b, g);
    Multiple(m, g);
    assert a == (q * (b / g) + m / g) * g by {
      assert q * b == q * (b / g) * g;
    }
    MultipleIsZero(q * (b / g) + m / g, g);
    assert a * y == q * b * y + m * y;
    assert b * (x - q * y) == b * x - b * (q * y);
    assert q * b * y == b * (q * y);
  }

  lemma DivisorSmall(a: nat, g: nat)
    requires a > 0 && g > 0 && a % g == 0
    ensures g <= a
  {
  }

  /** Every non-zero scalar has an inverse. */
  lemma InverseExists(a: int, n: int) returns (w: int)
    requires Prime(n) && 0 < a < n
    ensures IsInverse(a, w, n)
  {
    var g, x, y := Bezout(a, n);
    PrimeGcd(a, n, g);
    w := x % n;
    BezoutResidue(a, x, y, n);
  }

  lemma PrimeGcd(a: int, n: int, g: int)
    requires Prime(n) && 0 < a < n && g > 0 && a % g == 0 && n % g == 0
    ensures g == 1
  {
    DivisorSmall(a, g);
  }

  lemma BezoutResidue(a: int, x: int, y: int, n: int)
    requires n > 1 && a * x + n * y == 1
    ensures IsInverse(a, x % n, n)
  {
    Residue(x, n);
    BezoutInverse(a, x, y, x / n, x % n, n);
    OneMore(a * (x % n), -(y + a * (x / n)), n);
  }

  lemma OneMore(v: int, k: int, n: int)
    requires n > 1 && v == 1 + k * n
    ensures v % n == 1
  {
    Shift(1, k, n);
  }

  lemma BezoutInverse(a: int, x: int, y: int, q: int, w: int, n: int)
    requires a * x + n * y == 1 && x == q * n + w
    ensures a * w == 1 + -(y + a * q) * n
  {
    assert a * w == a * x - a * q * n;
    assert (y + a * q) * n == n * y + a * q * n;
  }

  predicate IsInverse(a: int, w: int, n: int)
    requires n > 0
  {
    0 <= w < n && (a * w) % n == 1
  }

  ghost function Inverse(a: int, n: int): (w: int)
    requires Prime(n) && 0 < a < n
    ensures IsInverse(a, w, n)
  {
    assert exists w :: IsInverse(a, w, n) by {
      var v := InverseExists(a, n);
      assert IsInverse(a, v, n);
    }
    var w :| IsInverse(a, w, n);
    w
  }

  /** `x` solves `a * x = t` modulo `n`. */
  predicate Solves(a: int, x: int, t: int, n: int)
    requires n > 0
  {
    (a * x - t) % n == 0
  }

  /** The inverse solves every linear equation. */
  lemma Solution(a: int, t: int, n: int)
    requires Prime(n) && 0 < a < n
    ensures Solves(a, (Inverse(a, n) * t) % n, t, n)
  {
    var w := Inverse(a, n);
    Residue(w * t, n);
    Residue(a * w, n);
    SolvesWith(a, w, t, w * t / n, (w * t) % n, a * w / n, n);
  }

  lemma SolvesWith(a: int, w: int, t: int, q: int, x: int, k: int, n: int)
    requires n > 0 && a * w == 1 + k * n && x == w * t - q * n
    ensures Solves(a, x, t, n)
  {
    SolutionText(a, w, t, q, k, n);
    MultipleIsZero(k * t - a * q, n);
  }

  lemma SolutionText(a: int, w: int, t: int, q: int, k: int, n: int)
    requires a * w == 1 + k * n
    ensures a * (w * t - q * n) - t == (k * t - a * q) * n
  {
    assert a * (w * t - q * n) == a * w * t - a * q * n;
    assert a * w * t == (1 + k * n) * t;
    assert (1 + k * n) * t == t + k * t * n;
  }

  /** And the solution below the modulus is unique. */
  lemma SolutionUnique(a: int, x1: int, x2: int, t: int, n: int)
    requires Prime(n) && 0 < a < n && 0 <= x1 < n && 0 <= x2 < n
    requires Solves(a, x1, t, n) && Solves(a, x2, t, n)
    ensures x1 == x2
  {
    var w := Inverse(a, n);
    Residue(a * w, n);
    Multiple(a * x1 - t, n);
    Multiple(a * x2 - t, n);
    var k, k1, k2 := a * w / n, (a * x1 - t) / n, (a * x2 - t) / n;
    assert a * w == 1 + k * n;
    Difference(a, x1, x2, t, k1, k2, n);
    UniqueText(a, w, x1 - x2, k, k1 - k2, n);
    MultipleIsZero(w * (k1 - k2) - k * (x1 - x2), n);
    SmallMultiple(x1 - x2, n);
  }

  lemma SolutionIff(a: int, x: int, t: int, n: int)
    requires Prime(n) && 0 < a < n && 0 <= x < n
    ensures x == (Inverse(a, n) * t) % n <==> Solves(a, x, t, n)
  {
    Solution(a, t, n);
    if Solves(a, x, t, n) {
      SolutionUnique(a, x, (Inverse(a, n) * t) % n, t, n);
    }
  }

  /** Only the right-hand side's residue matters. */
  lemma SolvesShift(a: int, x: int, t: int, k: int, n: int)
    requires n > 0
    ensures Solves(a, x, t, n) <==> Solves(a, x, t + k * n, n)
  {
    Shift(a * x - t, -k, n);
  }

  lemma NegatedStep(a: int, k: int, n: int)
    requires n > 0
    ensures a == k * n ==> (-a) % n == 0
  {
    MultipleIsZero(-k, n);
  }

  lemma NegatedMultiple(a: int, n: int)
    requires n > 0
    ensures a % n == 0 <==> (-a) % n == 0
  {
    Residue(a, n);
    Residue(-a, n);
    NegatedStep(a, a / n, n);
    NegatedStep(-a, (-a) / n, n);
  }

  lemma Difference(a: int, x1: int, x2: int, t: int, k1: int, k2: int, n: int)
    requires a * x1 - t == k1 * n && a * x2 - t == k2 * n
    ensures a * (x1 - x2) == (k1 - k2) * n
  {
    assert a * (x1 - x2) == (a * x1 - t) - (a * x2 - t);
    assert (k1 - k2) * n == k1 * n - k2 * n;
  }

  lemma UniqueText(a: int, w: int, d: int, k: int, e: int, n: int)
    requires a * w == 1 + k * n && a * d == e * n
    ensures d == (w * e - k * d) * n
  {
    assert a * w * d == w * (a * d);
    assert (1 + k * n) * d == d + k * d * n;
    assert w * (e * n) == w * e * n;
  }
}

/**
 Recovering the two signers of an ECDSA signature, over the curve's group of prime order `n`. The
 group is cyclic, so a point is the scalar that multiplies the generator to it: 0 is the point at
 infinity and `n - k` the negative of `k`.
 */
module KeyRecovery {
  import opened Wrappers
  import opened Bytes
  import opened PrimeField

  datatype Curve = Curve(n: int, x: int -> int, odd: int -> bool, sec1: int -> seq<byte>)

  predicate IsPoint(c: Curve, k: int) {
    1 <= k < c.n
  }

  /** Odd prime order; a point and its negative share x and differ in the parity of y. */
  ghost predicate Lawful(c: Curve) {
    && Prime(c.n) && c.n > 2
    && (forall k :: IsPoint(c, k) ==> c.x(k) >= 0)
    && (forall j, k :: IsPoint(c, j) && IsPoint(c, k) ==> (c.x(j) == c.x(k) <==> j == k || j == c.n - k))
    && (forall k {:trigger IsPoint(c, k)} :: IsPoint(c, k) ==> (c.odd(k) <==> !c.odd(c.n - k)))
    && (forall k :: IsPoint(c, k) ==> |c.sec1(k)| == 33)
    && (forall j, k :: IsPoint(c, j) && IsPoint(c, k) && c.sec1(j) == c.sec1(k) ==> j == k)
  }

  /** A digest as a scalar, with a signature: both halves are non-zero scalars. */
  datatype Signed = Signed(z: int, r: int, s: int)

  predicate InRange(n: int, g: Signed) {
    1 <= g.r < n && 1 <= g.s < n
  }

  function Neg(n: int, k: int): int {
    if k == 0 then 0 else n - k
  }

  /** The point `z/s * G + r/s * Q` that verification computes. */
  ghost function NonceOf(n: int, g: Signed, q: int): int
    requires Prime(n) && InRange(n, g)
  {
    var w := Inverse(g.s, n);
    (w * g.z + (w * g.r) * q) % n
  }

  /** The point `-(z/r) * G + s/r * R` that recovery computes. */
  ghost function KeyOf(n: int, g: Signed, p: int): int
    requires Prime(n) && InRange(n, g)
  {
    var w := Inverse(g.r, n);
    ((0 - w * g.z) + (w * g.s) * p) % n
  }

  /** Section 4.1.4 of SEC 1: `q` is a key under which the signature verifies. */
  ghost predicate Verifies(c: Curve, g: Signed, q: int)
    requires Prime(c.n) && InRange(c.n, g)
  {
    IsPoint(c, q) && NonceOf(c.n, g, q) != 0 && c.x(NonceOf(c.n, g, q)) % c.n == g.r
  }

  predicate HasXY(c: Curve, x: int, yOdd: bool, k: int) {
    IsPoint(c, k) && c.x(k) == x && c.odd(k) == yOdd
  }

  ghost function Decompress(c: Curve, x: int, yOdd: bool): Option<int> {
    if k :| HasXY(c, x, yOdd, k) then Some(k) else None
  }

  /** One recovery: decompress, combine, refuse the point at infinity, verify under the result. */
  ghost function Recover(c: Curve, g: Signed, yOdd: bool): Option<int>
    requires Prime(c.n) && InRange(c.n, g)
  {
    match Decompress(c, g.r, yOdd)
    case None => None
    case Some(p) =>
      var q := KeyOf(c.n, g, p);
      if q == 0 || !Verifies(c, g, q) then None else Some(q)
  }

  /** The low form of `s`. */
  function NormaliseS(n: int, g: Signed): Signed {
    if g.s > n / 2 then g.(s := n - g.s) else g
  }

  /** The even and the odd candidate; both must be recovered. */
  ghost function Candidates(c: Curve, g: Signed): Option<(int, int)>
    requires Prime(c.n) && InRange(c.n, g)
  {
    var low := NormaliseS(c.n, g);
    match (Recover(c, low, false), Recover(c, low, true))
    case (Some(a), Some(b)) => Some((a, b))
    case _ => None
  }

  // The two combinations undo each other.

  lemma KeyIs(n: int, g: Signed, p: int, t: int)
    requires Prime(n) && InRange(n, g) && t == g.s * p - g.z
    ensures KeyOf(n, g, p) == (Inverse(g.r, n) * t) % n
  {
    KeyText(Inverse(g.r, n), g.z, g.s, p, t);
  }

  lemma KeyText(w: int, z: int, s: int, p: int, t: int)
    requires t == s * p - z
    ensures (0 - w * z) + (w * s) * p == w * t
  {
  }

  lemma KeySolves(n: int, g: Signed, p: int, q: int, t: int)
    requires Prime(n) && InRange(n, g) && 0 <= q < n && t == g.s * p - g.z
    ensures q == KeyOf(n, g, p) <==> Solves(g.r, q, t, n)
  {
    KeyIs(n, g, p, t);
    SolutionIff(g.r, q, t, n);
  }

  lemma NonceIs(n: int, g: Signed, q: int, t: int)
    requires Prime(n) && InRange(n, g) && t == g.z + g.r * q
    ensures NonceOf(n, g, q) == (Inverse(g.s, n) * t) % n
  {
    NonceText(Inverse(g.s, n), g.z, g.r, q, t);
  }

  lemma NonceText(w: int, z: int, r: int, q: int, t: int)
    requires t == z + r * q
    ensures w * z + (w * r) * q == w * t
  {
  }

  lemma NonceSolves(n: int, g: Signed, p: int, q: int, t: int)
    requires Prime(n) && InRange(n, g) && 0 <= p < n && t == g.z + g.r * q
    ensures p == NonceOf(n, g, q) <==> Solves(g.s, p, t, n)
  {
    NonceIs(n, g, q, t);
    SolutionIff(g.s, p, t, n);
  }

  /** `q` is the key recovered from `p` exactly when `p` is the point verification finds for `q`. */
  lemma KeyInvertsNonce(n: int, g: Signed, p: int, q: int)
    requires Prime(n) && InRange(n, g) && 0 <= p < n && 0 <= q < n
    ensures q == KeyOf(n, g, p) <==> p == NonceOf(n, g, q)
  {
    KeySolves(n, g, p, q, g.s * p - g.z);
    NonceSolves(n, g, p, q, g.z + g.r * q);
    SolvesEither(g.r, q, g.s, p, g.z, n);
  }

  lemma SolvesEither(r: int, q: int, s: int, p: int, z: int, n: int)
    requires n > 0
    ensures Solves(r, q, s * p - z, n) <==> Solves(s, p, z + r * q, n)
  {
    NegatedMultiple(r * q - (s * p - z), n);
  }

  lemma KeyRange(n: int, g: Signed, p: int)
    requires Prime(n) && InRange(n, g)
    ensures 0 <= KeyOf(n, g, p) < n && 0 <= NonceOf(n, g, p) < n
  {
  }

  lemma KeyInjective(n: int, g: Signed, p1: int, p2: int)
    requires Prime(n) && InRange(n, g) && 0 <= p1 < n && 0 <= p2 < n
    requires KeyOf(n, g, p1) == KeyOf(n, g, p2)
    ensures p1 == p2
  {
    KeyInvertsNonce(n, g, p1, KeyOf(n, g, p1));
    KeyInvertsNonce(n, g, p2, KeyOf(n, g, p1));
  }

  // Negating s.

  lemma NegText(s: int, p: int, n: int)
    ensures (n - s) * p == s * (n - p) + (p - s) * n && (n - s) * 0 == s * 0
  {
  }

  lemma KeyNegated(n: int, g: Signed, p: int)
    requires Prime(n) && InRange(n, g) && 0 <= p < n
    ensures KeyOf(n, g.(s := n - g.s), p) == KeyOf(n, g, Neg(n, p))
  {
    var h := g.(s := n - g.s);
    var q := KeyOf(n, h, p);
    KeyRange(n, h, p);
    KeySolves(n, h, p, q, (n - g.s) * p - g.z);
    KeySolves(n, g, Neg(n, p), q, g.s * Neg(n, p) - g.z);
    NegText(g.s, p, n);
    if p != 0 {
      SolvesShift(g.r, q, g.s * (n - p) - g.z, p - g.s, n);
    }
  }

  lemma NonceNegated(n: int, g: Signed, q: int)
    requires Prime(n) && InRange(n, g) && 0 <= q < n
    ensures NonceOf(n, g.(s := n - g.s), q) == Neg(n, NonceOf(n, g, q))
  {
    var h, p := g.(s := n - g.s), NonceOf(n, g, q);
    KeyRange(n, g, q);
    KeyInvertsNonce(n, g, p, q);
    KeyNegated(n, g, Neg(n, p));
    KeyInvertsNonce(n, h, Neg(n, p), q);
  }

  /** A signature and the same signature with `s` negated verify under the same keys. */
  lemma VerifiesNegated(c: Curve, g: Signed, q: int)
    requires Lawful(c) && InRange(c.n, g)
    ensures Verifies(c, g.(s := c.n - g.s), q) <==> Verifies(c, g, q)
  {
    if IsPoint(c, q) {
      NonceNegated(c.n, g, q);
      KeyRange(c.n, g, q);
      var p := NonceOf(c.n, g, q);
      assert p != 0 ==> IsPoint(c, p) && IsPoint(c, Neg(c.n, p)) && c.x(Neg(c.n, p)) == c.x(p);
    }
  }

  // The points behind r.

  lemma DecompressUnique(c: Curve, x: int, yOdd: bool, k: int)
    requires Lawful(c) && HasXY(c, x, yOdd, k)
    ensures Decompress(c, x, yOdd) == Some(k)
  {
    var j := Decompress(c, x, yOdd).value;
    assert HasXY(c, x, yOdd, j);
  }

  /** The two points with x-coordinate `r` are negatives of each other. */
  lemma BothPoints(c: Curve, r: int)
    requires Lawful(c) && Decompress(c, r, false).Some?
    ensures var p := Decompress(c, r, false).value;
            IsPoint(c, p) && c.x(p) == r && Decompress(c, r, true) == Some(c.n - p)
  {
    var p := Decompress(c, r, false).value;
    assert IsPoint(c, c.n - p);
    DecompressUnique(c, r, true, c.n - p);
  }

  lemma NoPoints(c: Curve, r: int)
    requires Lawful(c) && Decompress(c, r, false).None?
    ensures forall k :: IsPoint(c, k) ==> c.x(k) != r
  {
    forall k | IsPoint(c, k) ensures c.x(k) != r {
      assert IsPoint(c, c.n - k);
      assert !HasXY(c, r, false, k) && !HasXY(c, r, false, c.n - k);
    }
  }

  lemma NeitherPoint(c: Curve, r: int)
    requires Lawful(c) && Decompress(c, r, false).None?
    ensures Decompress(c, r, true).None?
  {
    NoPoints(c, r);
    assert forall k :: !HasXY(c, r, true, k);
  }

  /** The verification inside recovery never refuses: only the point at infinity does. */
  lemma FinalCheckRedundant(c: Curve, g: Signed, p: int)
    requires Lawful(c) && InRange(c.n, g) && IsPoint(c, p) && c.x(p) % c.n == g.r && KeyOf(c.n, g, p) != 0
    ensures Verifies(c, g, KeyOf(c.n, g, p))
  {
    KeyRange(c.n, g, p);
    KeyInvertsNonce(c.n, g, p, KeyOf(c.n, g, p));
  }

  lemma RecoverIs(c: Curve, g: Signed, yOdd: bool)
    requires Lawful(c) && InRange(c.n, g) && Decompress(c, g.r, yOdd).Some?
    ensures var q := KeyOf(c.n, g, Decompress(c, g.r, yOdd).value);
            Recover(c, g, yOdd) == if q == 0 then None else Some(q)
  {
    var p := Decompress(c, g.r, yOdd).value;
    assert HasXY(c, g.r, yOdd, p);
    Small(g.r, c.n);
    if KeyOf(c.n, g, p) != 0 {
      FinalCheckRedundant(c, g, p);
    }
  }

  lemma Small(r: int, n: int)
    requires 0 <= r < n
    ensures r % n == r
  {
  }

  /** Negating `s` swaps the two recovered keys. */
  lemma RecoverSwaps(c: Curve, g: Signed, yOdd: bool)
    requires Lawful(c) && InRange(c.n, g)
    ensures Recover(c, g.(s := c.n - g.s), yOdd) == Recover(c, g, !yOdd)
  {
    var h := g.(s := c.n - g.s);
    if Decompress(c, g.r, false).None? {
      NeitherPoint(c, g.r);
    } else {
      BothPoints(c, g.r);
      var p := Decompress(c, g.r, yOdd).value;
      RecoverIs(c, h, yOdd);
      RecoverIs(c, g, !yOdd);
      KeyNegated(c.n, g, p);
    }
  }

  // What recovery returns.

  lemma InLow(c: Curve, g: Signed)
    requires Lawful(c) && InRange(c.n, g)
    ensures InRange(c.n, NormaliseS(c.n, g)) && NormaliseS(c.n, g).r == g.r
    ensures NormaliseS(c.n, g) == g || NormaliseS(c.n, g) == g.(s := c.n - g.s)
  {
  }

  /** The pair of candidates, in one order or the other, for any form of `s`. */
  lemma CandidatesAre(c: Curve, g: Signed)
    requires Lawful(c) && InRange(c.n, g)
    ensures var a, b := Recover(c, g, false), Recover(c, g, true);
            || (Candidates(c, g).None? && (a.None? || b.None?))
            || (a.Some? && b.Some? && Candidates(c, g) == Some((a.value, b.value)))
            || (a.Some? && b.Some? && Candidates(c, g) == Some((b.value, a.value)))
  {
    InLow(c, g);
    RecoverSwaps(c, g, false);
    RecoverSwaps(c, g, true);
  }

  /** No x-coordinate of the curve is congruent to `r` without being `r`. */
  ghost predicate NotReduced(c: Curve, r: int)
    requires c.n > 0
  {
    forall k :: IsPoint(c, k) && c.x(k) % c.n == r ==> c.x(k) == r
  }

  lemma VerifyingPoint(c: Curve, g: Signed, q: int)
    requires Lawful(c) && InRange(c.n, g)
    ensures Verifies(c, g, q) <==>
            IsPoint(c, q) && var p := NonceOf(c.n, g, q); IsPoint(c, p) && c.x(p) % c.n == g.r && q == KeyOf(c.n, g, p)
  {
    if IsPoint(c, q) {
      KeyRange(c.n, g, q);
      KeyInvertsNonce(c.n, g, NonceOf(c.n, g, q), q);
    }
  }

  /** `a` and `b` are the keys of `p` and of its negative, a point with x-coordinate `r`. */
  ghost predicate Pair(c: Curve, g: Signed, p: int, a: int, b: int)
    requires Prime(c.n) && InRange(c.n, g)
  {
    && IsPoint(c, p) && c.x(p) == g.r && IsPoint(c, a) && IsPoint(c, b)
    && var k, m := KeyOf(c.n, g, p), KeyOf(c.n, g, c.n - p);
       (a == k && b == m) || (a == m && b == k)
  }

  lemma RecoveredPair(c: Curve, g: Signed) returns (p: int)
    requires Lawful(c) && InRange(c.n, g) && Candidates(c, g).Some?
    ensures Pair(c, g, p, Candidates(c, g).value.0, Candidates(c, g).value.1)
  {
    CandidatesAre(c, g);
    BothPoints(c, g.r);
    RecoverIs(c, g, false);
    RecoverIs(c, g, true);
    p := Decompress(c, g.r, false).value;
    KeyRange(c.n, g, p);
    KeyRange(c.n, g, c.n - p);
    var (a, b) := Candidates(c, g).value;
    assert a != 0 && b != 0;
  }

  lemma Negative(c: Curve, p: int)
    requires Lawful(c) && IsPoint(c, p)
    ensures IsPoint(c, c.n - p) && c.x(c.n - p) == c.x(p)
  {
  }

  lemma PairVerifies(c: Curve, g: Signed, p: int, a: int, b: int)
    requires Lawful(c) && InRange(c.n, g) && Pair(c, g, p, a, b)
    ensures a != b && Verifies(c, g, a) && Verifies(c, g, b)
  {
    Small(g.r, c.n);
    Negative(c, p);
    FinalCheckRedundant(c, g, p);
    FinalCheckRedundant(c, g, c.n - p);
    if a == b {
      KeyInjective(c.n, g, p, c.n - p);
      OddOrder(c, p);
    }
  }

  /** Both candidates verify the signature as received, and they differ. */
  lemma CandidatesVerify(c: Curve, g: Signed)
    requires Lawful(c) && InRange(c.n, g) && Candidates(c, g).Some?
    ensures var (a, b) := Candidates(c, g).value; a != b && Verifies(c, g, a) && Verifies(c, g, b)
  {
    var p := RecoveredPair(c, g);
    PairVerifies(c, g, p, Candidates(c, g).value.0, Candidates(c, g).value.1);
  }

  lemma OddOrder(c: Curve, p: int)
    requires Lawful(c)
    ensures c.n != 2 * p
  {
    assert c.n % 2 != 0;
  }

  /** A verifying key that recovery does not return comes from an x-coordinate other than `r`. */
  lemma OtherKey(c: Curve, g: Signed, p: int, a: int, b: int, q: int)
    requires Lawful(c) && InRange(c.n, g) && Pair(c, g, p, a, b) && Verifies(c, g, q)
    ensures q == a || q == b <==> c.x(NonceOf(c.n, g, q)) == g.r
  {
    VerifyingPoint(c, g, q);
    var k := NonceOf(c.n, g, q);
    Negative(c, p);
    if q == KeyOf(c.n, g, p) {
      KeyInjective(c.n, g, k, p);
    }
    if q == KeyOf(c.n, g, c.n - p) {
      KeyInjective(c.n, g, k, c.n - p);
    }
  }

  /** A point with a reduced x-coordinate brings a verifying key of its own. */
  lemma ReducedKey(c: Curve, g: Signed, k: int) returns (q: int)
    requires Lawful(c) && InRange(c.n, g) && IsPoint(c, k) && c.x(k) % c.n == g.r && c.x(k) != g.r
    ensures Verifies(c, g, q) && c.x(NonceOf(c.n, g, q)) != g.r
  {
    var p := if KeyOf(c.n, g, k) != 0 then k else c.n - k;
    assert IsPoint(c, p) && c.x(p) == c.x(k);
    if KeyOf(c.n, g, p) == 0 {
      KeyInjective(c.n, g, k, c.n - k);
      OddOrder(c, k);
    }
    q := KeyOf(c.n, g, p);
    FinalCheckRedundant(c, g, p);
    KeyRange(c.n, g, p);
    KeyInvertsNonce(c.n, g, p, q);
  }

  /**
   When recovery succeeds, its two keys are all the keys under which the signature verifies exactly
   when no x-coordinate was reduced to `r`.
   */
  lemma CandidatesComplete(c: Curve, g: Signed)
    requires Lawful(c) && InRange(c.n, g) && Candidates(c, g).Some?
    ensures var (a, b) := Candidates(c, g).value;
            NotReduced(c, g.r) <==> forall q :: Verifies(c, g, q) <==> q == a || q == b
  {
    CandidatesVerify(c, g);
    var (a, b) := Candidates(c, g).value;
    var p := RecoveredPair(c, g);
    PairComplete(c, g, p, a, b);
  }

  lemma PairComplete(c: Curve, g: Signed, p: int, a: int, b: int)
    requires Lawful(c) && InRange(c.n, g) && Pair(c, g, p, a, b) && Verifies(c, g, a) && Verifies(c, g, b)
    ensures NotReduced(c, g.r) <==> forall q :: Verifies(c, g, q) <==> q == a || q == b
  {
    if NotReduced(c, g.r) {
      forall q | Verifies(c, g, q) ensures q == a || q == b {
        OtherKey(c, g, p, a, b, q);
        VerifyingPoint(c, g, q);
      }
    } else {
      var k :| IsPoint(c, k) && c.x(k) % c.n == g.r && c.x(k) != g.r;
      var q := ReducedKey(c, g, k);
      OtherKey(c, g, p, a, b, q);
    }
  }

  /** Either form of `s` gives the same candidates in the same order. */
  lemma CandidatesIgnoreForm(c: Curve, g: Signed)
    requires Lawful(c) && InRange(c.n, g)
    ensures Candidates(c, g.(s := c.n - g.s)) == Candidates(c, g)
  {
    assert c.n % 2 != 0;
    assert NormaliseS(c.n, g.(s := c.n - g.s)) == NormaliseS(c.n, g);
  }

  /** `r` is an x-coordinate and neither of its two points recovers the point at infinity. */
  ghost predicate Recoverable(c: Curve, g: Signed)
    requires Prime(c.n) && InRange(c.n, g)
  {
    exists p :: BothKeys(c, g, p)
  }

  ghost predicate BothKeys(c: Curve, g: Signed, p: int)
    requires Prime(c.n) && InRange(c.n, g)
  {
    IsPoint(c, p) && c.x(p) == g.r && KeyOf(c.n, g, p) != 0 && KeyOf(c.n, g, c.n - p) != 0
  }

  /** Recovery succeeds for no other reason, and is refused for no other reason. */
  lemma CandidatesIff(c: Curve, g: Signed)
    requires Lawful(c) && InRange(c.n, g)
    ensures Candidates(c, g).Some? <==> Recoverable(c, g)
  {
    CandidatesAre(c, g);
    if Decompress(c, g.r, false).None? {
      NoPoints(c, g.r);
    } else {
      BothRecovered(c, g, Decompress(c, g.r, false).value);
    }
  }

  lemma BothRecovered(c: Curve, g: Signed, p: int)
    requires Lawful(c) && InRange(c.n, g) && Decompress(c, g.r, false) == Some(p)
    ensures Recover(c, g, false).Some? && Recover(c, g, true).Some? <==> Recoverable(c, g)
  {
    BothPoints(c, g.r);
    RecoverIs(c, g, false);
    RecoverIs(c, g, true);
    OnlyPair(c, g, p);
  }

  lemma OnlyPair(c: Curve, g: Signed, p: int)
    requires Lawful(c) && InRange(c.n, g) && IsPoint(c, p) && c.x(p) == g.r
    ensures Recoverable(c, g) <==> KeyOf(c.n, g, p) != 0 && KeyOf(c.n, g, c.n - p) != 0
  {
    if Recoverable(c, g) {
      var k :| BothKeys(c, g, k);
      SameX(c, p, k);
      assert c.n - (c.n - p) == p;
    }
    assert BothKeys(c, g, p) <==> KeyOf(c.n, g, p) != 0 && KeyOf(c.n, g, c.n - p) != 0;
  }

  lemma SameX(c: Curve, p: int, k: int)
    requires Lawful(c) && IsPoint(c, p) && IsPoint(c, k) && c.x(p) == c.x(k)
    ensures k == p || k == c.n - p
  {
  }

  /** The signature verifies under `key`, from a nonce whose x-coordinate is `r` itself. */
  ghost predicate Unreduced(c: Curve, g: Signed, key: int)
    requires Prime(c.n) && InRange(c.n, g)
  {
    Verifies(c, g, key) && c.x(NonceOf(c.n, g, key)) == g.r
  }

  /** The candidates are exactly the keys under which the signature verifies from an unreduced nonce. */
  lemma CandidateIff(c: Curve, g: Signed, key: int)
    requires Lawful(c) && InRange(c.n, g) && Candidates(c, g).Some?
    ensures key == Candidates(c, g).value.0 || key == Candidates(c, g).value.1 <==> Unreduced(c, g, key)
  {
    CandidatesVerify(c, g);
    var p := RecoveredPair(c, g);
    if Verifies(c, g, key) {
      OtherKey(c, g, p, Candidates(c, g).value.0, Candidates(c, g).value.1, key);
    }
  }

  /** Without reduced x-coordinates that is every verifying key. */
  lemma UnreducedAlways(c: Curve, g: Signed, key: int)
    requires Lawful(c) && InRange(c.n, g) && NotReduced(c, g.r)
    ensures Unreduced(c, g, key) <==> Verifies(c, g, key)
  {
    VerifyingPoint(c, g, key);
  }

  /**
   A valid signature with an unreduced nonce is refused exactly when the negative of its nonce
   would recover the point at infinity; one with a reduced nonce is not recoverable through it.
   */
  lemma ValidRefusedIff(c: Curve, g: Signed, key: int)
    requires Lawful(c) && InRange(c.n, g) && Verifies(c, g, key)
    ensures Candidates(c, g).None? <==>
            if Unreduced(c, g, key) then KeyOf(c.n, g, c.n - NonceOf(c.n, g, key)) == 0 else !Recoverable(c, g)
  {
    CandidatesIff(c, g);
    if Unreduced(c, g, key) {
      NonceOnly(c, g, key, NonceOf(c.n, g, key));
    }
  }

  lemma NonceOnly(c: Curve, g: Signed, key: int, p: int)
    requires Lawful(c) && InRange(c.n, g) && Unreduced(c, g, key) && p == NonceOf(c.n, g, key)
    ensures KeyOf(c.n, g, c.n - p) != 0 <==> Recoverable(c, g)
  {
    VerifyingPoint(c, g, key);
    OnlyPair(c, g, p);
  }

  // In terms of how signatures are made.

  /** `s` and `r` are what signing `z` with the secret key `d` and the nonce `k` gives. */
  predicate MadeBy(c: Curve, g: Signed, d: int, k: int)
    requires c.n > 0
  {
    IsPoint(c, d) && IsPoint(c, k) && (g.s * k - (g.z + g.r * d)) % c.n == 0 && c.x(k) % c.n == g.r
  }

  /** A signature verifies under exactly the keys of the secrets that could have made it. */
  lemma VerifiesIff(c: Curve, g: Signed, d: int)
    requires Lawful(c) && InRange(c.n, g)
    ensures Verifies(c, g, d) <==> exists k :: MadeBy(c, g, d, k)
  {
    if Verifies(c, g, d) {
      var k := NonceOf(c.n, g, d);
      KeyRange(c.n, g, d);
      NonceSolves(c.n, g, k, d, g.z + g.r * d);
      assert MadeBy(c, g, d, k);
    }
    forall k | MadeBy(c, g, d, k) ensures Verifies(c, g, d) {
      NonceSolves(c.n, g, k, d, g.z + g.r * d);
    }
  }

  /** Who signed is recovered exactly when recovery succeeds and the nonce's x-coordinate was not reduced. */
  lemma SignerRecoveredIff(c: Curve, g: Signed, d: int, k: int)
    requires Lawful(c) && InRange(c.n, g) && MadeBy(c, g, d, k) && Candidates(c, g).Some?
    ensures d == Candidates(c, g).value.0 || d == Candidates(c, g).value.1 <==> c.x(k) == g.r
  {
    NonceSolves(c.n, g, k, d, g.z + g.r * d);
    VerifiesIff(c, g, d);
    CandidateIff(c, g, d);
  }

  /**
   The first candidate belongs to the even point of the low form of the signature, the second to the
   odd one: each satisfies the signing equation with that nonce.
   */
  lemma CandidatesOrder(c: Curve, g: Signed) returns (p: int)
    requires Lawful(c) && InRange(c.n, g) && Candidates(c, g).Some?
    ensures var low := if 2 * g.s < c.n then g else g.(s := c.n - g.s);
            && c.x(p) == g.r && !c.odd(p) && c.odd(c.n - p)
            && MadeBy(c, low, Candidates(c, g).value.0, p)
            && MadeBy(c, low, Candidates(c, g).value.1, c.n - p)
  {
    var low := NormaliseS(c.n, g);
    InLow(c, g);
    OddOrder(c, g.s);
    BothPoints(c, g.r);
    RecoverIs(c, low, false);
    RecoverIs(c, low, true);
    p := Decompress(c, g.r, false).value;
    Small(g.r, c.n);
    Negative(c, p);
    MakesKey(c, low, p);
    MakesKey(c, low, c.n - p);
  }

  lemma MakesKey(c: Curve, g: Signed, p: int)
    requires Lawful(c) && InRange(c.n, g) && IsPoint(c, p) && c.x(p) % c.n == g.r && KeyOf(c.n, g, p) != 0
    ensures MadeBy(c, g, KeyOf(c.n, g, p), p)
  {
    var q := KeyOf(c.n, g, p);
    KeyRange(c.n, g, p);
    KeyInvertsNonce(c.n, g, p, q);
    NonceSolves(c.n, g, p, q, g.z + g.r * q);
  }

  /** A curve of order seven: six points in three pairs, with these x-coordinates. */
  function Seven(x1: int, x2: int, x3: int): Curve {
    Curve(7, k => if k == 1 || k == 6 then x1 else if k == 2 || k == 5 then x2 else x3,
          k => k >= 4, k => seq(33, i => if 0 <= k < 256 then k else 0))
  }

  predicate Apart(x1: int, x2: int, x3: int) {
    0 <= x1 && 0 <= x2 && 0 <= x3 && x1 != x2 && x1 != x3 && x2 != x3
  }

  lemma SevenPoints(c: Curve, x1: int, x2: int, x3: int)
    requires c == Seven(x1, x2, x3) && Apart(x1, x2, x3)
    ensures forall k {:trigger IsPoint(c, k)} :: IsPoint(c, k) ==>
      c.x(k) >= 0 && (c.odd(k) <==> !c.odd(7 - k)) && |c.sec1(k)| == 33
    ensures forall j, k :: IsPoint(c, j) && IsPoint(c, k) ==> (c.x(j) == c.x(k) <==> j == k || j == 7 - k)
  {
  }

  lemma SevenLawful(x1: int, x2: int, x3: int)
    requires Apart(x1, x2, x3)
    ensures Lawful(Seven(x1, x2, x3))
  {
    var c := Seven(x1, x2, x3);
    assert Prime(7);
    SevenPoints(c, x1, x2, x3);
    SevenSec1(c, x1, x2, x3);
  }

  lemma SevenSec1(c: Curve, x1: int, x2: int, x3: int)
    requires c == Seven(x1, x2, x3)
    ensures forall j, k :: IsPoint(c, j) && IsPoint(c, k) && c.sec1(j) == c.sec1(k) ==> j == k
  {
    forall j, k | IsPoint(c, j) && IsPoint(c, k) && c.sec1(j) == c.sec1(k) ensures j == k {
      assert c.sec1(j)[0] == j && c.sec1(k)[0] == k;
    }
  }

  lemma SevenValues()
    ensures Prime(7) && NonceOf(7, Signed(6, 1, 1), 2) == 1 && KeyOf(7, Signed(6, 1, 1), 6) == 0
    ensures NonceOf(7, Signed(0, 1, 1), 2) == 2
    ensures KeyOf(7, Signed(0, 1, 1), 1) == 1 && KeyOf(7, Signed(0, 1, 1), 6) == 6
  {
    assert IsInverse(1, Inverse(1, 7), 7);
  }

  lemma SevenRefuses(c: Curve, g: Signed)
    requires Lawful(c) && c.n == 7 && c.x(1) == 1 && g == Signed(6, 1, 1)
    ensures Unreduced(c, g, 2) && Candidates(c, g).None?
  {
    SevenValues();
    ValidRefusedIff(c, g, 2);
  }

  /** Not every valid signature is recovered: here the key 2 verifies and recovery refuses. */
  lemma ValidButRefused()
    ensures Lawful(Seven(1, 2, 3)) && Unreduced(Seven(1, 2, 3), Signed(6, 1, 1), 2)
    ensures Candidates(Seven(1, 2, 3), Signed(6, 1, 1)).None?
  {
    SevenLawful(1, 2, 3);
    SevenRefuses(Seven(1, 2, 3), Signed(6, 1, 1));
  }

  lemma SevenRecovers(c: Curve, g: Signed)
    requires Lawful(c) && c.n == 7 && c.x(1) == 1 && g == Signed(0, 1, 1)
    ensures Candidates(c, g).Some?
  {
    SevenValues();
    OnlyPair(c, g, 1);
    CandidatesIff(c, g);
  }

  /** Nor are the candidates all the verifying keys: here 8 is reduced to 1, and the key 2 verifies too. */
  lemma ReducedKeyMissed()
    ensures Lawful(Seven(1, 8, 3)) && !NotReduced(Seven(1, 8, 3), 1)
    ensures var c, g := Seven(1, 8, 3), Signed(0, 1, 1);
            Candidates(c, g).Some? && Verifies(c, g, 2) &&
            2 != Candidates(c, g).value.0 && 2 != Candidates(c, g).value.1
  {
    SevenLawful(1, 8, 3);
    MissedAt(Seven(1, 8, 3), Signed(0, 1, 1));
  }

  lemma MissedAt(c: Curve, g: Signed)
    requires Lawful(c) && c == Seven(1, 8, 3) && g == Signed(0, 1, 1)
    ensures !NotReduced(c, 1) && Candidates(c, g).Some? && Verifies(c, g, 2)
    ensures 2 != Candidates(c, g).value.0 && 2 != Candidates(c, g).value.1
  {
    SevenMisses(c, g);
  }

  lemma SevenMisses(c: Curve, g: Signed)
    requires Lawful(c) && c.n == 7 && c.x(1) == 1 && c.x(2) == 8 && g == Signed(0, 1, 1)
    ensures !NotReduced(c, 1) && Candidates(c, g).Some? && Verifies(c, g, 2)
    ensures 2 != Candidates(c, g).value.0 && 2 != Candidates(c, g).value.1
  {
    SevenRecovers(c, g);
    SevenReduced(c, g);
    CandidateIff(c, g, 2);
  }

  lemma SevenReduced(c: Curve, g: Signed)
    requires Prime(c.n) && c.n == 7 && c.x(2) == 8 && g == Signed(0, 1, 1)
    ensures !NotReduced(c, 1) && Verifies(c, g, 2) && !Unreduced(c, g, 2)
  {
    SevenValues();
    assert IsPoint(c, 2);
  }
}
