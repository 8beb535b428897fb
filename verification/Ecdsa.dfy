/** ECDSA verification over an abstract group, and why low-S normalisation keeps it. */
module Ecdsa {
  import opened Text
  import opened LowS

  /** A group written additively, with the x-coordinate of its elements. */
  datatype Group<!P> = Group(zero: P, add: (P, P) -> P, neg: P -> P, x: P -> int)

  function Times<P>(g: Group<P>, k: nat, p: P): P {
    if k == 0 then g.zero else g.add(p, Times(g, k - 1, p))
  }

  // The laws at given elements. Quantifying over these predicates keeps each use of a law explicit.
  ghost predicate Associative<P>(g: Group<P>, a: P, b: P, c: P) { g.add(g.add(a, b), c) == g.add(a, g.add(b, c)) }
  ghost predicate Commutative<P>(g: Group<P>, a: P, b: P) { g.add(a, b) == g.add(b, a) }
  ghost predicate HasZero<P>(g: Group<P>, a: P) { g.add(g.zero, a) == a }
  ghost predicate HasNegative<P>(g: Group<P>, a: P) { g.add(a, g.neg(a)) == g.zero && g.x(g.neg(a)) == g.x(a) }
  ghost predicate HasOrder<P>(g: Group<P>, n: nat, a: P) { Times(g, n, a) == g.zero }

  /** A commutative group in which `n` times anything is zero and negation keeps the x-coordinate. */
  ghost predicate IsCurveGroup<P(!new)>(g: Group<P>, n: nat) {
    && (forall a, b, c :: Associative(g, a, b, c))
    && (forall a, b :: Commutative(g, a, b))
    && (forall a :: HasZero(g, a))
    && (forall a :: HasNegative(g, a))
    && (forall a :: HasOrder(g, n, a))
  }

  // ----- Verification, by section 4.1.4 of SEC 1 version 2.0

  predicate IsInverse(n: int, s: int, w: int)
    requires n > 1
  {
    0 <= w < n && (s * w) % n == 1
  }

  ghost predicate AcceptsWith<P>(g: Group<P>, n: int, base: P, key: P, e: int, r: int, s: int, w: int)
    requires n > 1
  {
    && IsInverse(n, s, w)
    && var u1: nat := (e * w) % n;
       var u2: nat := (r * w) % n;
       var R := g.add(Times(g, u1, base), Times(g, u2, key));
       R != g.zero && g.x(R) % n == r
  }

  ghost predicate Verifies<P>(g: Group<P>, n: int, base: P, key: P, e: int, r: int, s: int)
    requires n > 1
  {
    && 0 < r < n
    && 0 < s < n
    && exists w :: AcceptsWith(g, n, base, key, e, r, s, w)
  }

  // ----- Such a group, and a signature that verifies in it

  datatype Three = Zero | One | Two

  function AddThree(a: Three, b: Three): Three {
    if a == Zero then b
    else if b == Zero then a
    else if a != b then Zero
    else if a == One then Two
    else One
  }

  function NegThree(a: Three): Three { if a == Zero then Zero else if a == One then Two else One }

  function XThree(a: Three): int { if a == Zero then 0 else 1 }

  const THREE := Group(Zero, AddThree, NegThree, XThree)

  lemma AddAssociates(a: Three, b: Three, c: Three)
    ensures AddThree(AddThree(a, b), c) == AddThree(a, AddThree(b, c))
  {
  }

  lemma ThriceIsZero(a: Three)
    ensures Times(THREE, 0, a) == Zero && Times(THREE, 1, a) == a && Times(THREE, 3, a) == Zero
  {
    var once, twice := Times(THREE, 1, a), Times(THREE, 2, a);
    assert Times(THREE, 0, a) == Zero;
    assert once == AddThree(a, Zero) == a;
    assert twice == AddThree(a, once);
    assert Times(THREE, 3, a) == AddThree(a, twice);
  }

  lemma ThreeIsCurveGroup()
    ensures IsCurveGroup(THREE, 3)
  {
    forall a, b, c ensures Associative(THREE, a, b, c) {
      AddAssociates(a, b, c);
    }
    forall a ensures HasOrder(THREE, 3, a) {
      ThriceIsZero(a);
    }
  }

  /** With the key and the base at one, digest 0 has the signature (1, 1), and so also (1, 2). */
  lemma SomeSignatureVerifies()
    ensures IsCurveGroup(THREE, 3) && Verifies(THREE, 3, One, One, 0, 1, 1) && Verifies(THREE, 3, One, One, 0, 1, 2)
  {
    ThreeIsCurveGroup();
    ThriceIsZero(One);
    assert AcceptsWith(THREE, 3, One, One, 0, 1, 1, 1);
    NegatedVerifies(THREE, 3, One, One, 0, 1, 1);
  }

  // ----- Modular arithmetic

  lemma ModIs(x: int, n: int, q: int, r: int)
    requires n > 0 && x == n * q + r && 0 <= r < n
    ensures x % n == r
  {
    assert x == n * (x / n) + x % n;
    assert n * (q - x / n) == x % n - r;
    ProductBounds(n, q - x / n);
  }

  /** The inverse of `n - s` is `n` minus the inverse of `s`. */
  lemma NegatedInverse(n: int, s: int, w: int)
    requires n > 1 && IsInverse(n, s, w)
    ensures IsInverse(n, n - s, n - w)
  {
    var q := (s * w) / n;
    assert s * w == n * q + 1;
    ModIs(0, n, 0, 0);
    assert w == 0 ==> s * w == 0;
    calc {
      (n - s) * (n - w);
      n * n - n * w - s * n + s * w;
      n * (n - w - s + q) + 1;
    }
    ModIs((n - s) * (n - w), n, n - w - s + q, 1);
  }

  /** Negating one factor negates the product modulo `n`. */
  lemma NegatedProduct(n: int, e: int, w: int)
    requires n > 1
    ensures (e * (n - w)) % n == if (e * w) % n == 0 then 0 else n - (e * w) % n
  {
    var q, u := (e * w) / n, (e * w) % n;
    assert e * w == n * q + u;
    if u == 0 {
      assert e * (n - w) == n * (e - q) + 0;
      ModIs(e * (n - w), n, e - q, 0);
    } else {
      assert e * (n - w) == n * (e - q - 1) + (n - u);
      ModIs(e * (n - w), n, e - q - 1, n - u);
    }
  }

  /** There is only one inverse, so verification does not depend on which is taken. */
  lemma InverseUnique(n: int, s: int, w: int, w': int)
    requires n > 1 && IsInverse(n, s, w) && IsInverse(n, s, w')
    ensures w == w'
  {
    var q, q' := InverseQuotient(n, s, w), InverseQuotient(n, s, w');
    InverseTimes(n, s, w, w', q);
    InverseTimes(n, s, w', w, q');
    Commute(w, w');
    SameRemainder(n, w' * q, w * q', w, w');
  }

  function InverseQuotient(n: int, s: int, w: int): (q: int)
    requires n > 1 && IsInverse(n, s, w)
    ensures s * w == n * q + 1
  {
    (s * w) / n
  }

  lemma Commute(a: int, b: int)
    ensures a * b == b * a
  {
  }

  lemma SameRemainder(n: int, a: int, b: int, w: int, w': int)
    requires n > 1 && 0 <= w < n && 0 <= w' < n && n * a + w' == n * b + w
    ensures w == w'
  {
    assert n * (a - b) == n * a - n * b;
    ProductBounds(n, a - b);
  }

  lemma InverseTimes(n: int, s: int, w: int, v: int, q: int)
    requires s * w == n * q + 1
    ensures s * (w * v) == n * (v * q) + v
  {
    assert s * (w * v) == (s * w) * v == (n * q + 1) * v;
    assert (n * q) * v == n * (v * q);
  }

  predicate Divides(d: int, a: int)
    requires d > 0
  {
    a % d == 0
  }

  ghost predicate Prime(n: int) {
    n > 1 && forall d: int | 1 < d < n :: !Divides(d, n)
  }

  /** Bezout's identity. */
  lemma {:induction false} Bezout(a: nat, b: nat) returns (x: int, y: int, d: int)
    requires a > 0 || b > 0
    ensures d > 0 && x * a + y * b == d && Divides(d, a) && Divides(d, b)
    decreases b
  {
    if b == 0 {
      x, y, d := 1, 0, a;
      ModIs(a, a, 1, 0);
      ModIs(0, a, 0, 0);
    } else {
      var x', y';
      x', y', d := Bezout(b, a % b);
      var q, m := a / b, a % b;
      x, y := y', x' - q * y';
      BezoutStep(a, b, q, m, x', y', d);
      DividesSum(a, b, q, m, d);
    }
  }

  lemma BezoutStep(a: int, b: int, q: int, m: int, x: int, y: int, d: int)
    requires a == b * q + m && x * b + y * m == d
    ensures y * a + (x - q * y) * b == d
  {
    assert y * a == y * (b * q) + y * m;
    assert (x - q * y) * b == x * b - (q * y) * b;
    assert y * (b * q) == (q * y) * b;
  }

  lemma DividesSum(a: int, b: int, q: int, m: int, d: int)
    requires d > 0 && a == b * q + m && Divides(d, b) && Divides(d, m)
    ensures Divides(d, a)
  {
    var i, j := b / d, m / d;
    assert b == d * i && m == d * j;
    assert (d * i) * q == d * (i * q);
    ModIs(a, d, i * q + j, 0);
  }

  /** Every value below a prime order has an inverse, so none is rejected for lack of one. */
  lemma InverseExists(n: int, s: int)
    requires Prime(n) && 0 < s < n
    ensures exists w :: IsInverse(n, s, w)
  {
    var x, y, d := Bezout(s, n);
    if d > s {
      ModIs(s, d, 0, s);
    }
    assert d <= s < n;
    assert d == 1;
    var w := x % n;
    var q := x / n;
    assert x == n * q + w;
    assert s * w == n * (-y - s * q) + 1 by {
      assert x * s + y * n == 1;
      assert s * w == s * x - s * (n * q);
      assert s * (n * q) == n * (s * q);
    }
    ModIs(s * w, n, -y - s * q, 1);
    assert IsInverse(n, s, w);
  }

  // ----- Group laws

  lemma NegIsUnique<P(!new)>(g: Group<P>, n: nat, a: P, b: P)
    requires IsCurveGroup(g, n) && g.add(a, b) == g.zero
    ensures b == g.neg(a)
  {
    var a' := g.neg(a);
    calc {
      b;
    == { assert HasZero(g, b); }
      g.add(g.zero, b);
    == { assert HasNegative(g, a); }
      g.add(g.add(a, a'), b);
    == { assert Commutative(g, a, a'); }
      g.add(g.add(a', a), b);
    == { assert Associative(g, a', a, b); }
      g.add(a', g.zero);
    == { assert Commutative(g, a', g.zero) && HasZero(g, a'); }
      a';
    }
  }

  lemma NegOfSum<P(!new)>(g: Group<P>, n: nat, a: P, b: P)
    requires IsCurveGroup(g, n)
    ensures g.add(g.neg(a), g.neg(b)) == g.neg(g.add(a, b))
  {
    var a', b' := g.neg(a), g.neg(b);
    calc {
      g.add(g.add(a, b), g.add(a', b'));
    == { assert Commutative(g, a, b); }
      g.add(g.add(b, a), g.add(a', b'));
    == { assert Associative(g, b, a, g.add(a', b')); }
      g.add(b, g.add(a, g.add(a', b')));
    == { assert Associative(g, a, a', b'); }
      g.add(b, g.add(g.add(a, a'), b'));
    == { assert HasNegative(g, a) && HasZero(g, b') && HasNegative(g, b); }
      g.zero;
    }
    NegIsUnique(g, n, g.add(a, b), g.add(a', b'));
  }

  lemma NegZero<P(!new)>(g: Group<P>, n: nat, a: P)
    requires IsCurveGroup(g, n)
    ensures g.neg(a) == g.zero <==> a == g.zero
  {
    assert HasNegative(g, a) && HasZero(g, a) && HasZero(g, g.neg(a)) && Commutative(g, a, g.zero);
  }

  lemma {:induction false} TimesOfSum<P(!new)>(g: Group<P>, n: nat, i: nat, j: nat, p: P)
    requires IsCurveGroup(g, n)
    ensures Times(g, i + j, p) == g.add(Times(g, i, p), Times(g, j, p))
    decreases i
  {
    if i == 0 {
      assert HasZero(g, Times(g, j, p));
    } else {
      TimesOfSum(g, n, i - 1, j, p);
      assert Associative(g, p, Times(g, i - 1, p), Times(g, j, p));
    }
  }

  /** The negated multiplier gives the negated point. */
  lemma NegatedTimes<P(!new)>(g: Group<P>, n: nat, u: nat, p: P)
    requires IsCurveGroup(g, n) && u < n
    ensures Times(g, if u == 0 then 0 else n - u, p) == g.neg(Times(g, u, p))
  {
    if u == 0 {
      NegZero(g, n, g.zero);
    } else {
      TimesOfSum(g, n, u, n - u, p);
      assert HasOrder(g, n, p);
      NegIsUnique(g, n, Times(g, u, p), Times(g, n - u, p));
    }
  }

  // ----- Low-S keeps validity

  /** With `n - s` in the place of `s` verification arrives at the negated point. */
  lemma NegatedAccepts<P(!new)>(g: Group<P>, n: nat, base: P, key: P, e: int, r: int, s: int, w: int)
    requires n > 1 && IsCurveGroup(g, n)
    requires AcceptsWith(g, n, base, key, e, r, s, w)
    ensures AcceptsWith(g, n, base, key, e, r, n - s, n - w)
  {
    NegatedInverse(n, s, w);
    NegatedProduct(n, e, w);
    NegatedProduct(n, r, w);
    var u1: nat := (e * w) % n;
    var u2: nat := (r * w) % n;
    NegatedTimes(g, n, u1, base);
    NegatedTimes(g, n, u2, key);
    NegOfSum(g, n, Times(g, u1, base), Times(g, u2, key));
    NegZero(g, n, g.add(Times(g, u1, base), Times(g, u2, key)));
    assert HasNegative(g, g.add(Times(g, u1, base), Times(g, u2, key)));
  }

  lemma NegatedVerifies<P(!new)>(g: Group<P>, n: nat, base: P, key: P, e: int, r: int, s: int)
    requires n > 1 && IsCurveGroup(g, n) && Verifies(g, n, base, key, e, r, s)
    ensures Verifies(g, n, base, key, e, r, n - s)
  {
    var w :| AcceptsWith(g, n, base, key, e, r, s, w);
    NegatedAccepts(g, n, base, key, e, r, s, w);
  }

  /** For every digest, key and signature: normalising `s` keeps a valid signature valid, and an invalid one invalid. */
  lemma LowSKeepsValidity<P(!new)>(g: Group<P>, n: nat, base: P, key: P, e: int, r: int, s: int)
    requires n > 1 && IsCurveGroup(g, n)
    ensures Verifies(g, n, base, key, e, r, s) <==> Verifies(g, n, base, key, e, r, Normal(n, s))
  {
    if Verifies(g, n, base, key, e, r, s) {
      NegatedVerifies(g, n, base, key, e, r, s);
    }
    if Verifies(g, n, base, key, e, r, n - s) {
      NegatedVerifies(g, n, base, key, e, r, n - s);
      assert n - (n - s) == s;
    }
  }

  // ----- What verification accepts: the signing equation

  /** Nonce `k` gives this signature under the private key `d`: s k = e + r d, and r is the x-coordinate of k G. */
  ghost predicate SignsWith<P>(g: Group<P>, n: int, base: P, d: nat, e: int, r: int, s: int, k: nat)
    requires n > 1
  {
    && k < n
    && (s * k - (e + r * d)) % n == 0
    && Times(g, k, base) != g.zero
    && g.x(Times(g, k, base)) % n == r
  }

  lemma {:induction false} TimesOfProduct<P(!new)>(g: Group<P>, n: nat, i: nat, j: nat, p: P)
    requires IsCurveGroup(g, n)
    ensures Times(g, i * j, p) == Times(g, i, Times(g, j, p))
    decreases i
  {
    if i == 0 {
      assert i * j == 0;
    } else {
      assert i * j == j + (i - 1) * j;
      assert (i - 1) * j >= 0;
      TimesOfSum(g, n, j, (i - 1) * j, p);
      TimesOfProduct(g, n, i - 1, j, p);
    }
  }

  /** Multiples depend on the multiplier modulo `n` only. */
  lemma TimesModulo<P(!new)>(g: Group<P>, n: nat, i: nat, p: P)
    requires IsCurveGroup(g, n) && n > 1
    ensures Times(g, i, p) == Times(g, i % n, p)
  {
    var q, m := i / n, i % n;
    assert i == n * q + m && n * q >= 0;
    TimesOfSum(g, n, n * q, m, p);
    TimesOfProduct(g, n, n, q, p);
    assert HasOrder(g, n, Times(g, q, p)) && HasZero(g, Times(g, m, p));
  }

  /** The point verification arrives at is one multiple of the base. */
  lemma VerifiedPoint<P(!new)>(g: Group<P>, n: nat, base: P, d: nat, e: int, r: int, w: int)
    requires n > 1 && IsCurveGroup(g, n)
    ensures var u1: nat := (e * w) % n; var u2: nat := (r * w) % n; var k: nat := (w * (e + r * d)) % n;
            g.add(Times(g, u1, base), Times(g, u2, Times(g, d, base))) == Times(g, k, base)
  {
    var u1: nat := (e * w) % n;
    var u2: nat := (r * w) % n;
    assert u2 * d >= 0;
    TimesOfProduct(g, n, u2, d, base);
    TimesOfSum(g, n, u1, u2 * d, base);
    TimesModulo(g, n, u1 + u2 * d, base);
    CombinedMultiplier(n, d, e, r, w);
  }

  lemma CombinedMultiplier(n: int, d: int, e: int, r: int, w: int)
    requires n > 1
    ensures ((e * w) % n + (r * w) % n * d) % n == (w * (e + r * d)) % n
  {
    var q1, u1, q2, u2 := (e * w) / n, (e * w) % n, (r * w) / n, (r * w) % n;
    assert e * w == n * q1 + u1 && r * w == n * q2 + u2;
    CombinedProducts(n, d, e, r, w, q1, u1, q2, u2);
    ModPlus(n, q1 + q2 * d, u1 + u2 * d);
  }

  lemma CombinedProducts(n: int, d: int, e: int, r: int, w: int, q1: int, u1: int, q2: int, u2: int)
    requires e * w == n * q1 + u1 && r * w == n * q2 + u2
    ensures w * (e + r * d) == n * (q1 + q2 * d) + (u1 + u2 * d)
  {
    assert w * (e + r * d) == w * e + w * (r * d);
    assert w * (r * d) == (r * w) * d == (n * q2 + u2) * d;
    assert (n * q2 + u2) * d == n * (q2 * d) + u2 * d;
    assert n * (q1 + q2 * d) == n * q1 + n * (q2 * d);
  }

  lemma ModPlus(n: int, q: int, x: int)
    requires n > 1
    ensures (n * q + x) % n == x % n
  {
    assert n * q + x == n * (q + x / n) + x % n;
    ModIs(n * q + x, n, q + x / n, x % n);
  }

  /** With an inverse `w` of `s`, the signing equation has one solution: `w` times its other side. */
  lemma NonceIs(n: int, s: int, w: int, m: int, k: int)
    requires n > 1 && IsInverse(n, s, w) && 0 <= k < n
    ensures (s * k - m) % n == 0 <==> k == (w * m) % n
  {
    var q := InverseQuotient(n, s, w);
    if k == (w * m) % n {
      NonceSolves(n, s, w, m, q, (w * m) / n, k);
    }
    if (s * k - m) % n == 0 {
      OnlyNonce(n, s, w, m, q, (s * k - m) / n, k);
    }
  }

  lemma NonceSolves(n: int, s: int, w: int, m: int, q: int, p: int, k: int)
    requires n > 1 && s * w == n * q + 1 && w * m == n * p + k
    ensures (s * k - m) % n == 0
  {
    assert s * (w * m) == (s * w) * m == (n * q + 1) * m;
    assert (n * q + 1) * m == n * (q * m) + m;
    assert s * (n * p + k) == n * (s * p) + s * k;
    assert s * k - m == n * (q * m - s * p) + 0;
    ModIs(s * k - m, n, q * m - s * p, 0);
  }

  lemma OnlyNonce(n: int, s: int, w: int, m: int, q: int, t: int, k: int)
    requires n > 1 && s * w == n * q + 1 && s * k - m == n * t && 0 <= k < n
    ensures k == (w * m) % n
  {
    assert w * m == w * (s * k) - w * (n * t);
    assert w * (s * k) == (s * w) * k == (n * q + 1) * k;
    assert (n * q + 1) * k == n * (q * k) + k;
    assert w * (n * t) == n * (w * t);
    assert w * m == n * (q * k - w * t) + k;
    ModIs(w * m, n, q * k - w * t, k);
  }

  /**
   Verification accepts exactly what the signing equation gives: a signature verifies under the
   public key of `d` iff some nonce gives it.
   */
  lemma VerifiesExactly<P(!new)>(g: Group<P>, n: nat, base: P, d: nat, e: int, r: int, s: int, w: int)
    requires n > 1 && IsCurveGroup(g, n) && IsInverse(n, s, w)
    ensures Verifies(g, n, base, Times(g, d, base), e, r, s)
            <==> 0 < r < n && 0 < s < n && exists k: nat :: SignsWith(g, n, base, d, e, r, s, k)
  {
    if Verifies(g, n, base, Times(g, d, base), e, r, s) {
      var v :| AcceptsWith(g, n, base, Times(g, d, base), e, r, s, v);
      InverseUnique(n, s, v, w);
      AcceptedIsSigned(g, n, base, d, e, r, s, w);
    }
    if j: nat :| SignsWith(g, n, base, d, e, r, s, j) && 0 < r < n && 0 < s < n {
      SignedIsAccepted(g, n, base, d, e, r, s, w, j);
    }
  }

  lemma AcceptedIsSigned<P(!new)>(g: Group<P>, n: nat, base: P, d: nat, e: int, r: int, s: int, w: int)
    requires n > 1 && IsCurveGroup(g, n) && AcceptsWith(g, n, base, Times(g, d, base), e, r, s, w)
    ensures exists k: nat :: SignsWith(g, n, base, d, e, r, s, k)
  {
    var k: nat := (w * (e + r * d)) % n;
    VerifiedPoint(g, n, base, d, e, r, w);
    NonceIs(n, s, w, e + r * d, k);
    assert SignsWith(g, n, base, d, e, r, s, k);
  }

  lemma SignedIsAccepted<P(!new)>(g: Group<P>, n: nat, base: P, d: nat, e: int, r: int, s: int, w: int, k: nat)
    requires n > 1 && IsCurveGroup(g, n) && IsInverse(n, s, w) && SignsWith(g, n, base, d, e, r, s, k)
    ensures AcceptsWith(g, n, base, Times(g, d, base), e, r, s, w)
  {
    VerifiedPoint(g, n, base, d, e, r, w);
    NonceIs(n, s, w, e + r * d, k);
  }

  // ----- Signing

  datatype Signature = Signature(r: int, s: int)

  datatype Hash = SHA256 | NONE

  type Bytes = seq<bv8>

  /** The signer: its key's curve, and what it hashes with before signing or for its gateway. */
  class Crypto {
    const curve: Curve
    const sha256: Bytes -> Bytes
    var digest: Hash
    var gatewayDigest: Option<Hash>

    constructor (curve: Curve, sha256: Bytes -> Bytes)
      ensures this.curve == curve && this.sha256 == sha256
      ensures digest == SHA256 && gatewayDigest == None
    {
      this.curve := curve;
      this.sha256 := sha256;
      digest := SHA256;
      gatewayDigest := None;
    }

    function Apply(h: Hash, message: Bytes): Bytes {
      match h
      case SHA256 => sha256(message)
      case NONE => message
    }

    /** `Digest`: what a gateway asks to have signed. */
    function Digest(message: Bytes): Bytes
      reads this
    {
      match gatewayDigest
      case Some(h) => Apply(h, message)
      case None => Apply(digest, message)
    }

    /** A message is hashed once when it is signed directly. */
    method DefaultMode()
      modifies this
      ensures forall message :: Apply(digest, message) == sha256(message) == Digest(message)
    {
      digest := SHA256;
      gatewayDigest := None;
    }

    /** A message is hashed once when its gateway digest is signed. */
    method GatewayMode()
      modifies this
      ensures forall message :: Apply(digest, Digest(message)) == sha256(message)
    {
      digest := NONE;
      gatewayDigest := Some(SHA256);
    }

    /**
     `Sign`, with the library's signing as a parameter: the signature carries the library's `r`
     and the normal form of its `s`; an unrecognised curve is an error.
     */
    method Sign(message: Bytes, ecdsaSign: Bytes -> Option<Signature>) returns (sig: Option<Signature>)
      ensures sig.Some? <==> ecdsaSign(Apply(digest, message)).Some? && Recognised(curve)
      ensures sig.Some? ==>
                var raw := ecdsaSign(Apply(digest, message)).value;
                sig.value == Signature(raw.r, Normal(Order(curve), raw.s))
    {
      var raw := ecdsaSign(Apply(digest, message));
      if raw.None? {
        return None;
      }
      var si := new BigInt(raw.value.s);
      var r, changed, known := ToLowS(curve, si);
      if !known {
        return None;
      }
      return Some(Signature(raw.value.r, si.value));
    }
  }

  /** Whatever `Sign` hands out verifies exactly when the library's own signature does, and is low. */
  lemma SignedIsLowAndValid<P(!new)>(c: Curve, g: Group<P>, base: P, key: P, e: int, raw: Signature)
    requires Recognised(c) && IsCurveGroup(g, Order(c))
    requires 0 < raw.s < Order(c)
    ensures var sig := Signature(raw.r, Normal(Order(c), raw.s));
            && 1 <= sig.s <= Order(c) / 2
            && (Verifies(g, Order(c), base, key, e, sig.r, sig.s)
                <==> Verifies(g, Order(c), base, key, e, raw.r, raw.s))
  {
    RecognisedOrdersAreOdd(c);
    CanonicalForm(Order(c), raw.s);
    LowSKeepsValidity(g, Order(c), base, key, e, raw.r, raw.s);
  }
}
