/** What the 64 bits of a DOUBLE and the bytes of a text mean, and that values compare accordingly. */
module ValueOrders {
  import opened Bytes
  import opened Status
  import opened Values

  const MANTISSA_RANGE: nat := 0x10_0000_0000_0000
  const EXPONENT_RANGE: nat := 0x800

  // ---- The fields of IEEE 754 binary64 -------------------------------------------------------

  function Mantissa(bits: nat): nat {
    bits % MANTISSA_RANGE
  }

  function Exponent(bits: nat): nat {
    bits / MANTISSA_RANGE % EXPONENT_RANGE
  }

  predicate Negative(bits: nat) {
    bits / MANTISSA_RANGE / EXPONENT_RANGE % 2 == 1
  }

  /** A real number, or one of the infinities. */
  datatype Extended = MinusInfinity | Finite(x: real) | PlusInfinity

  predicate Below(a: Extended, b: Extended) {
    match (a, b)
    case (Finite(x), Finite(y)) => x < y
    case (MinusInfinity, _) => b != MinusInfinity
    case (_, PlusInfinity) => a != PlusInfinity
    case _ => false
  }

  function TwoTo(n: nat): (x: real)
    ensures x >= 1.0
  {
    if n == 0 then 1.0 else 2.0 * TwoTo(n - 1)
  }

  /** The number without its sign, in units of 2 to the -1074, the smallest number above zero. A subnormal has
      exponent field 0 and counts its mantissa in those units. Otherwise a leading one stands before the 52 bits of
      the mantissa, and the unit doubles with each exponent from 1 on. */
  function Units(exponent: nat, mantissa: nat): real {
    if exponent == 0 then mantissa as real else (MANTISSA_RANGE + mantissa) as real * TwoTo(exponent - 1)
  }

  predicate IsNotANumber(bits: nat) {
    Exponent(bits) == EXPONENT_RANGE - 1 && Mantissa(bits) != 0
  }

  /** What the bits denote. */
  function NumberOf(bits: nat): Extended
    requires !IsNotANumber(bits)
  {
    if Exponent(bits) == EXPONENT_RANGE - 1 then
      if Negative(bits) then MinusInfinity else PlusInfinity
    else
      var x := Units(Exponent(bits), Mantissa(bits)) / TwoTo(1074);
      Finite(if Negative(bits) then -x else x)
  }

  // ---- The order of the bits -----------------------------------------------------------------

  lemma {:induction false} TwoToGrows(m: nat, n: nat)
    requires m <= n
    ensures TwoTo(m) <= TwoTo(n)
  {
    if m < n {
      TwoToGrows(m, n - 1);
    }
  }

  lemma Times(x: real, y: real, z: real)
    requires x < y && z > 0.0
    ensures x * z < y * z
  {
  }

  lemma TimesLeft(x: real, y: real, z: real)
    requires x > 0.0 && y <= z
    ensures x * y <= x * z
  {
  }

  /** With the least mantissa, an exponent gives more units than any lower exponent. */
  lemma LowerExponent(e: nat, m: nat, f: nat)
    requires m < MANTISSA_RANGE && e < f
    ensures Units(e, m) < Units(f, 0)
  {
    var one := MANTISSA_RANGE as real;
    if e == 0 {
      TimesLeft(one, 1.0, TwoTo(f - 1));
    } else {
      TwoToGrows(e, f - 1);
      Times((MANTISSA_RANGE + m) as real, 2.0 * one, TwoTo(e - 1));
      TimesLeft(one, TwoTo(e), TwoTo(f - 1));
    }
  }

  /** Units grow with the exponent, and for one exponent with the mantissa. */
  lemma UnitsGrow(e: nat, m: nat, f: nat, n: nat)
    requires m < MANTISSA_RANGE && n < MANTISSA_RANGE && (e < f || (e == f && m < n))
    ensures Units(e, m) < Units(f, n)
  {
    if e < f {
      LowerExponent(e, m, f);
      if n > 0 {
        Times(MANTISSA_RANGE as real, (MANTISSA_RANGE + n) as real, TwoTo(f - 1));
      }
    } else if e > 0 {
      Times((MANTISSA_RANGE + m) as real, (MANTISSA_RANGE + n) as real, TwoTo(e - 1));
    }
  }

  /** The bits without the sign. */
  function Magnitude(bits: nat): (m: nat)
    requires bits < 2 * FLOAT_SIGN_BIT
    ensures m < FLOAT_SIGN_BIT && m == bits - (if Negative(bits) then FLOAT_SIGN_BIT else 0)
    ensures Negative(bits) <==> bits >= FLOAT_SIGN_BIT
    ensures m == Exponent(bits) * MANTISSA_RANGE + Mantissa(bits)
  {
    bits % FLOAT_SIGN_BIT
  }

  lemma UnitsOrder(a: nat, b: nat)
    requires a < 2 * FLOAT_SIGN_BIT && b < 2 * FLOAT_SIGN_BIT
    ensures Magnitude(a) < Magnitude(b) <==> Units(Exponent(a), Mantissa(a)) < Units(Exponent(b), Mantissa(b))
    ensures Magnitude(a) == Magnitude(b) <==> Units(Exponent(a), Mantissa(a)) == Units(Exponent(b), Mantissa(b))
  {
    if Magnitude(a) < Magnitude(b) {
      UnitsGrow(Exponent(a), Mantissa(a), Exponent(b), Mantissa(b));
    } else if Magnitude(b) < Magnitude(a) {
      UnitsGrow(Exponent(b), Mantissa(b), Exponent(a), Mantissa(a));
    }
  }

  lemma NaNIsNotANumber(bits: nat)
    requires bits < 2 * FLOAT_SIGN_BIT
    ensures IsNaN(bits) <==> IsNotANumber(bits)
  {
    var m := Magnitude(bits);
  }

  lemma Quotients(x: real, y: real, d: real)
    requires d > 0.0
    ensures x < y <==> x / d < y / d
    ensures x == y <==> x / d == y / d
    ensures -x / d == -(x / d) && (x >= 0.0 ==> x / d >= 0.0) && (x == 0.0 <==> x / d == 0.0)
  {
  }

  lemma UnitsZero(bits: nat)
    requires bits < 2 * FLOAT_SIGN_BIT
    ensures Units(Exponent(bits), Mantissa(bits)) >= 0.0
    ensures Units(Exponent(bits), Mantissa(bits)) == 0.0 <==> Magnitude(bits) == 0
  {
    if Magnitude(bits) > 0 {
      UnitsGrow(0, 0, Exponent(bits), Mantissa(bits));
    }
  }

  /** FloatLess is the order of the numbers that the bits denote, and two numbers are the same exactly if neither
      is below the other: both zeros denote zero. */
  lemma FloatLessIsBelow(a: nat, b: nat)
    requires a < 2 * FLOAT_SIGN_BIT && b < 2 * FLOAT_SIGN_BIT
    ensures FloatLess(a, b) <==> !IsNotANumber(a) && !IsNotANumber(b) && Below(NumberOf(a), NumberOf(b))
    ensures !IsNotANumber(a) && !IsNotANumber(b) ==>
      (NumberOf(a) == NumberOf(b) <==> !FloatLess(a, b) && !FloatLess(b, a))
  {
    NaNIsNotANumber(a);
    NaNIsNotANumber(b);
    UnitsOrder(a, b);
    UnitsZero(a);
    UnitsZero(b);
    hide TwoTo, Units;
    var x, y := Units(Exponent(a), Mantissa(a)), Units(Exponent(b), Mantissa(b));
    Quotients(x, y, TwoTo(1074));
    Quotients(y, x, TwoTo(1074));
    hide Exponent, Mantissa, Negative;
  }

  // ---- The order of values -------------------------------------------------------------------

  /** They agree up to a byte that is lower in s, or s is shorter and t goes on. */
  ghost predicate Sooner(s: Bytes, t: Bytes) {
    exists k: nat :: SoonerAt(s, t, k)
  }

  ghost predicate SoonerAt(s: Bytes, t: Bytes, k: nat) {
    k <= |s| && k < |t| && s[..k] == t[..k] && (k == |s| || s[k] < t[k])
  }

  lemma {:induction false} LexLessIsSooner(s: Bytes, t: Bytes)
    ensures LexLess(s, t) <==> Sooner(s, t)
  {
    if s != [] && t != [] && s[0] == t[0] {
      LexLessIsSooner(s[1..], t[1..]);
      if LexLess(s, t) {
        var k: nat :| SoonerAt(s[1..], t[1..], k);
        assert s[..k + 1] == [s[0]] + s[1..][..k] && t[..k + 1] == [t[0]] + t[1..][..k];
        assert SoonerAt(s, t, k + 1);
      }
      if Sooner(s, t) {
        var k: nat :| SoonerAt(s, t, k);
        assert s[..k][1..] == s[1..][..k - 1] && t[..k][1..] == t[1..][..k - 1];
        assert SoonerAt(s[1..], t[1..], k - 1);
      }
    } else if LexLess(s, t) {
      assert SoonerAt(s, t, 0);
    } else if Sooner(s, t) {
      var k: nat :| SoonerAt(s, t, k);
      SoonerStarts(s, t, k);
    }
  }

  lemma SoonerStarts(s: Bytes, t: Bytes, k: nat)
    requires SoonerAt(s, t, k)
    ensures t != [] && (s == [] || s[0] <= t[0])
  {
    if k > 0 {
      assert s[..k][0] == s[0] && t[..k][0] == t[0];
    }
  }

  predicate SameKind(a: Value, b: Value) {
    || (a.Integer? && b.Integer?) || (a.Float? && b.Float?) || (a.Text? && b.Text?) || (a.Truth? && b.Truth?)
  }

  /** What it means for a value to come before another of its kind: integers and the numbers that DOUBLEs denote by
      size, texts by the first byte that differs, FALSE before TRUE. */
  ghost predicate Precedes(a: Value, b: Value)
    requires SameKind(a, b)
  {
    match a
    case Integer(i) => i < b.i
    case Float(x) => !IsNotANumber(x) && !IsNotANumber(b.bits) && Below(NumberOf(x), NumberOf(b.bits))
    case Text(s) => Sooner(s, b.s)
    case _ => !a.b && b.b
  }

  /** What a comparison operator says of two values of one kind. */
  ghost predicate Compares(a: Value, op: ComparisonOperator, b: Value)
    requires SameKind(a, b)
  {
    match op
    case Equal => !Precedes(a, b) && !Precedes(b, a)
    case NotEqual => Precedes(a, b) || Precedes(b, a)
    case Less => Precedes(a, b)
    case LessEqual => !Precedes(b, a)
    case Greater => Precedes(b, a)
    case GreaterEqual => !Precedes(a, b)
    case _ => false
  }

  /** compare_values tells which of two values of one kind comes first. Values of different kinds and NULL cannot
      be compared. */
  lemma CompareTells(a: Value, b: Value, t: LogicalType)
    requires IsA(a, t) && IsA(b, t)
    ensures CompareValues(a, b).Ok? <==> SameKind(a, b)
    ensures SameKind(a, b) <==> a != Null && b != Null
    ensures SameKind(a, b) ==>
      (CompareValues(a, b).value < 0 <==> Precedes(a, b)) && (CompareValues(a, b).value > 0 <==> Precedes(b, a))
  {
    match a {
      case Float(x) =>
        if b.Float? {
          FloatLessIsBelow(x, b.bits);
          FloatLessIsBelow(b.bits, x);
          FloatNotBoth(x, b.bits);
        }
      case Text(s) =>
        if b.Text? {
          LexLessIsSooner(s, b.s);
          LexLessIsSooner(b.s, s);
          LexNotBoth(s, b.s);
        }
      case _ =>
    }
  }

  lemma MatchesTells(a: Value, op: ComparisonOperator, b: Value, t: LogicalType)
    requires IsA(a, t) && IsA(b, t) && a != Null && b != Null
    ensures SameKind(a, b) && CompareValues(a, b).Ok?
    ensures ComparisonMatches(CompareValues(a, b).value, op) <==> Compares(a, op, b)
  {
    CompareTells(a, b, t);
    hide Precedes, CompareValues;
  }

  lemma FloatNotBoth(a: nat, b: nat)
    ensures !(FloatLess(a, b) && FloatLess(b, a))
  {
  }

  lemma {:induction false} LexNotBoth(a: Bytes, b: Bytes)
    ensures !(LexLess(a, b) && LexLess(b, a))
  {
    if LexLess(a, b) {
      LexIrreflexive(a);
      if LexLess(b, a) {
        LexTransitive(a, b, a);
      }
    }
  }
}
