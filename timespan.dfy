/** Simulation time (timespan_t) in its integer build: a signed count of
    milliseconds. The source stores it in an int64_t and trusts that no
    arithmetic overflows; the model computes with unbounded integers and
    keeps the int64 limits only as the Min/Max constants. */
module Time {

  const MaxNative: int := 0x7FFF_FFFF_FFFF_FFFF
  const MinNative: int := -0x8000_0000_0000_0000

  datatype Timespan = Timespan(millis: int)
  {
    /** total_millis(): the native count, which is milliseconds. */
    function TotalMillis(): (r: int) { millis }

    /** operator+: subtracting the right operand again gives this span back. */
    function Add(right: Timespan): (r: Timespan)
      ensures r.Sub(right) == this && r.Sub(this) == right
    {
      Timespan(millis + right.millis)
    }

    function Sub(right: Timespan): (r: Timespan) { Timespan(millis - right.millis) }

    /** Unary operator-: the additive inverse. */
    function Neg(): (r: Timespan)
      ensures r.Add(this) == Zero() && this.Add(r) == Zero()
    {
      Timespan(-millis)
    }

    /** operator* with an integral factor. */
    function Scale(k: int): (r: Timespan) { Timespan(millis * k) }

    /** operator/ with an integral divisor: C++ integer division, which
        truncates toward zero. */
    function Div(d: int): (r: Timespan)
      requires d != 0
      ensures Abs(r.millis * d) <= Abs(millis) < Abs(r.millis * d) + Abs(d)
      ensures millis >= 0 ==> r.millis * d >= 0
      ensures millis <= 0 ==> r.millis * d <= 0
    {
      TruncDivBounds(millis, d);
      Timespan(TruncDiv(millis, d))
    }

    predicate Less(right: Timespan) { millis < right.millis }
    predicate LessEq(right: Timespan) { millis <= right.millis }
    predicate Greater(right: Timespan) { millis > right.millis }
    predicate GreaterEq(right: Timespan) { millis >= right.millis }

    /** The value fits the int64 the source stores it in. */
    predicate Representable() { MinNative <= millis <= MaxNative }
  }

  /** zero(): the identity of addition. */
  function Zero(): (r: Timespan)
    ensures forall t: Timespan :: t.Add(r) == t
  {
    Timespan(0)
  }

  /** max(): the largest span the int64 representation holds. */
  function Max(): (r: Timespan)
    ensures r.Representable()
    ensures forall t: Timespan :: t.Representable() ==> t.LessEq(r)
  {
    Timespan(MaxNative)
  }

  /** min(): the smallest span the int64 representation holds. */
  function Min(): (r: Timespan)
    ensures r.Representable()
    ensures forall t: Timespan :: t.Representable() ==> r.LessEq(t)
  {
    Timespan(MinNative)
  }

  /** from_millis(): inverse of total_millis(). */
  function FromMillis(n: int): (r: Timespan)
    ensures r.TotalMillis() == n
  {
    Timespan(n)
  }

  function FromSeconds(s: int): (r: Timespan) { Timespan(s * 1000) }
  function FromMinutes(m: int): (r: Timespan) { Timespan(m * (60 * 1000)) }

  /** Integer division rounding toward zero, as C, C++ and Java do it
      (Dafny's own `/` is Euclidean). */
  function TruncDiv(a: int, d: int): (q: int)
    requires d != 0
  {
    var q := Abs(a) / Abs(d);
    if (a >= 0) == (d > 0) then q else -q
  }

  function Abs(x: int): (r: nat) { if x < 0 then -x else x }

  // ---------------------------------------------------------------------
  // Properties

  /** from_millis and total_millis are inverse to each other. */
  lemma MillisRoundTrip(n: int, t: Timespan)
    ensures FromMillis(n).TotalMillis() == n
    ensures FromMillis(t.TotalMillis()) == t
  {
  }

  /** Seconds and minutes are fixed multiples of the millisecond unit. */
  lemma UnitConversions(n: int)
    ensures FromSeconds(n) == FromMillis(1000 * n)
    ensures FromMinutes(n) == FromSeconds(60 * n)
  {
  }

  /** operator== and the orderings agree with the stored integer, and they
      form a total order: exactly one of <, ==, > holds. */
  lemma CompareAgreesWithNative(a: Timespan, b: Timespan)
    ensures a == b <==> a.TotalMillis() == b.TotalMillis()
    ensures a.Less(b) <==> a.TotalMillis() < b.TotalMillis()
    ensures a.LessEq(b) <==> a.Less(b) || a == b
    ensures a.GreaterEq(b) <==> !a.Less(b)
    ensures a.Greater(b) <==> b.Less(a)
    ensures a.Less(b) || a == b || a.Greater(b)
  {
  }

  /** zero() is the identity of + and -; + is commutative and associative;
      - undoes +; subtraction is addition of the negation. */
  lemma AdditiveGroup(a: Timespan, b: Timespan, c: Timespan)
    ensures a.Add(Zero()) == a && Zero().Add(a) == a && a.Sub(Zero()) == a
    ensures a.Add(b) == b.Add(a)
    ensures a.Add(b).Add(c) == a.Add(b.Add(c))
    ensures a.Add(b).Sub(b) == a
    ensures a.Sub(b) == a.Add(b.Neg()) && a.Neg().Neg() == a
    ensures a.Sub(a) == Zero()
  {
  }

  /** Adding the same span to both sides keeps their order. */
  lemma AddMonotone(a: Timespan, b: Timespan, c: Timespan)
    ensures a.Less(b) <==> a.Add(c).Less(b.Add(c))
    ensures a.LessEq(b) <==> a.Add(c).LessEq(b.Add(c))
  {
  }

  /** min() and max() are the int64 extremes, every representable span lies
      between them, and zero lies strictly inside. */
  lemma Extremes(t: Timespan)
    ensures Min().Less(Zero()) && Zero().Less(Max())
    ensures Min().Representable() && Max().Representable()
    ensures t.Representable() <==> Min().LessEq(t) && t.LessEq(Max())
    ensures Max().Neg() == Min().Add(FromMillis(1))
  {
  }

  /** Truncating division: the quotient times the divisor never overshoots
      the dividend in magnitude, falls short by less than one divisor, and
      carries the dividend's sign. */
  lemma TruncDivBounds(a: int, d: int)
    requires d != 0
    ensures Abs(TruncDiv(a, d) * d) <= Abs(a) < Abs(TruncDiv(a, d) * d) + Abs(d)
    ensures a >= 0 ==> TruncDiv(a, d) * d >= 0
    ensures a <= 0 ==> TruncDiv(a, d) * d <= 0
  {
    var A: int, D: int := Abs(a), Abs(d);
    var p: int := (A / D) * D;
    MagnitudeProduct(A, D);
    TruncDivSign(a, d);
    assert 0 <= p <= A < p + D;
  }

  /** The magnitude part of truncating division: the quotient of the
      magnitudes, times the divisor's magnitude, lies within one divisor
      below the dividend's magnitude. */
  lemma MagnitudeProduct(A: nat, D: nat)
    requires D > 0
    ensures 0 <= (A / D) * D <= A < (A / D) * D + D
  {
    var q := A / D;
    assert A == q * D + A % D;
    NonNegProduct(q, D);
  }

  /** The signed product equals the magnitude product, carrying the
      dividend's sign. */
  lemma TruncDivSign(a: int, d: int)
    requires d != 0
    ensures TruncDiv(a, d) * d == if a >= 0 then (Abs(a) / Abs(d)) * Abs(d) else -((Abs(a) / Abs(d)) * Abs(d))
  {
    var q: int := Abs(a) / Abs(d);
    if d > 0 {
      if a < 0 { assert (-q) * d == -(q * d); }
    } else {
      if a >= 0 {
        assert (-q) * d == q * (-d);
      } else {
        assert q * d == -(q * (-d));
      }
    }
  }

  lemma NonNegProduct(x: nat, y: nat)
    ensures x * y >= 0
  {
  }

  /** Dividing a span that was scaled by d by d again gives it back. */
  lemma ScaleDivRoundTrip(t: Timespan, d: int)
    requires d != 0
    ensures t.Scale(d).Div(d) == t
  {
    var n := t.millis;
    var N: int, D: int := Abs(n), Abs(d);
    var m: int := N * D;
    ProductBySigns(n, d);
    DivExact(N, D);
    assert Abs(n * d) == m;
    if n != 0 {
      PosProduct(N, D);
    }
  }

  /** A product is the product of the magnitudes, negated exactly when the
      factors have opposite signs. */
  lemma ProductBySigns(n: int, d: int)
    requires d != 0
    ensures n * d == if (n >= 0) == (d > 0) then Abs(n) * Abs(d) else -(Abs(n) * Abs(d))
    ensures Abs(n) * Abs(d) >= 0
  {
    NonNegProduct(Abs(n), Abs(d));
    if n >= 0 && d < 0 {
      assert n * d == -(n * (-d));
    } else if n < 0 && d > 0 {
      assert n * d == -((-n) * d);
    } else if n < 0 && d < 0 {
      assert n * d == (-n) * (-d);
    }
  }

  lemma PosProduct(x: int, y: int)
    requires x > 0 && y > 0
    ensures x * y > 0
  {
  }

  /** (m * k) / k == m, from the division identity and the bounds of the
      remainder. */
  lemma DivExact(m: nat, k: nat)
    requires k > 0
    ensures (m * k) / k == m
  {
    var q, r := (m * k) / k, (m * k) % k;
    assert m * k == q * k + r;
    assert (m - q) * k == r by { assert (m - q) * k == m * k - q * k; }
    SmallMultipleIsZero(m - q, k);
  }

  /** The only multiple of k strictly between -k and k is zero. */
  lemma SmallMultipleIsZero(x: int, k: int)
    requires k > 0 && -k < x * k < k
    ensures x == 0
  {
  }

  /** k back-to-back copies of a span: t + t + ... + t. */
  function Repeated(t: Timespan, k: nat): (r: Timespan)
  {
    if k == 0 then Zero() else Repeated(t, k - 1).Add(t)
  }

  /** k copies laid end to end are the span scaled by k (operator*). */
  lemma {:induction false} RepeatedIsScale(t: Timespan, k: nat)
    ensures Repeated(t, k) == t.Scale(k)
  {
    if k > 0 {
      RepeatedIsScale(t, k - 1);
      assert t.millis * (k - 1) + t.millis == t.millis * k;
    }
  }
}
