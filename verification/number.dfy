/** What the `normalize_number` fragment computes, on exact decimals: a value
    is an integer n scaled by 10^-scale. `log10` and `exp10`, which the
    fragment evaluates in floating point, are replaced by their exact
    decimal meaning. */
module ClickhouseNumber {
  import opened Strings

  function Abs(n: int): nat {
    if n < 0 then -n else n
  }

  /** The sign prefix, taken from the `value >= 0` test, not from the text. */
  function SignPrefix(n: int): string {
    if n >= 0 then "" else "-"
  }

  // ---------------------------------------------------------------------
  // Arithmetic facts

  lemma {:induction false} Pow10Add(i: nat, j: nat)
    ensures Pow10(i + j) == Pow10(i) * Pow10(j)
  {
    if i > 0 {
      Pow10Add(i - 1, j);
    }
  }

  lemma MulLe(x: int, y: int, z: nat)
    requires x <= y
    ensures x * z <= y * z
  {
  }

  lemma {:induction false} DivTenSplit(m: nat, p: nat)
    requires p > 0
    ensures m / (10 * p) == (m / 10) / p
  {
    var q2, r1 := (m / 10) / p, (m / 10) % p;
    assert m == q2 * (10 * p) + (10 * r1 + m % 10);
    DivModUnique(m, 10 * p, q2, 10 * r1 + m % 10);
  }

  // ---------------------------------------------------------------------
  // Decimal shifts

  /** a * 10^k, by k decimal shifts. */
  function ScaleUp(a: nat, k: nat): nat {
    if k == 0 then a else 10 * ScaleUp(a, k - 1)
  }

  /** floor(a / 10^k), by k decimal shifts. */
  function ScaleDown(a: nat, k: nat): nat {
    if k == 0 then a else ScaleDown(a / 10, k - 1)
  }

  lemma {:induction false} ScaleUpIsMul(a: nat, k: nat)
    ensures ScaleUp(a, k) == a * Pow10(k)
  {
    if k > 0 {
      ScaleUpIsMul(a, k - 1);
      Assoc(a, 10, Pow10(k - 1));
    }
  }

  lemma {:induction false} ScaleDownIsDiv(a: nat, k: nat)
    ensures ScaleDown(a, k) == a / Pow10(k)
  {
    if k > 0 {
      ScaleDownIsDiv(a / 10, k - 1);
      DivTenSplit(a, Pow10(k - 1));
    }
  }

  lemma {:induction false} ScaleDownScaleUp(k: nat, w: nat)
    ensures ScaleDown(ScaleUp(k, w), w) == k
  {
    if w > 0 {
      ScaleDownScaleUp(k, w - 1);
      assert ScaleDown(ScaleUp(k, w), w) == ScaleDown(ScaleUp(k, w - 1), w - 1);
    }
  }

  /** The low `w` digits of k * 10^w are all zero. */
  lemma {:induction false} FixedDigitsOfScaleUp(k: nat, w: nat)
    ensures FixedDigits(ScaleUp(k, w), w) == Repeat('0', w)
  {
    if w > 0 {
      FixedDigitsOfScaleUp(k, w - 1);
    }
  }

  /** Shifting down by b then by a is shifting down by a + b. */
  lemma {:induction false} ScaleDownAdd(m: nat, a: nat, b: nat)
    ensures ScaleDown(m, a + b) == ScaleDown(ScaleDown(m, b), a)
  {
    if b > 0 {
      ScaleDownAdd(m / 10, a, b - 1);
    }
  }

  /** The low a + b digits of m are the a digits above the low b digits,
      followed by the low b digits. */
  lemma {:induction false} FixedDigitsSplit(m: nat, a: nat, b: nat)
    ensures FixedDigits(m, a + b) == FixedDigits(ScaleDown(m, b), a) + FixedDigits(m, b)
  {
    if b > 0 {
      FixedDigitsSplit(m / 10, a, b - 1);
    }
  }

  /** The integer part, shifted back, plus the fractional field is the number. */
  lemma SplitAtPoint(a: nat, p: nat)
    ensures ScaleUp(ScaleDown(a, p), p) + ParseNat(FixedDigits(a, p)) == a
  {
    ScaleDownIsDiv(a, p);
    ScaleUpIsMul(ScaleDown(a, p), p);
    ParseFixedDigits(a, p);
  }

  /** r / pp is the nearest multiple of 1 / pp to a / ps, ties going up:
      a / ps - 1 / (2 pp) < r / pp <= a / ps + 1 / (2 pp). */
  predicate IsNearest(a: nat, r: nat, ps: nat, pp: nat) {
    2 * (r * ps) <= 2 * (a * pp) + ps && 2 * (a * pp) < 2 * (r * ps) + ps
  }

  lemma NearestScaleUp(a: nat, f: nat, ps: nat, pp: nat)
    requires ps > 0 && f * ps == pp
    ensures IsNearest(a, a * f, ps, pp)
  {
    assert (a * f) * ps == a * (f * ps);
  }

  lemma Distrib(x: int, y: int, z: int)
    ensures (x + y) * z == x * z + y * z
  {
  }

  lemma Assoc(x: int, y: int, z: int)
    ensures (x * y) * z == x * (y * z)
  {
  }

  /** The integer-division bounds of a quotient. */
  lemma QuotientBounds(x: nat, d: nat)
    requires d > 0
    ensures (x / d) * d <= x < (x / d) * d + d
  {
  }

  lemma NearestDivision(a: nat, half: nat, unit: nat, ps: nat, pp: nat)
    requires unit == 2 * half && half > 0 && pp > 0 && ps == unit * pp
    ensures IsNearest(a, (a + half) / unit, ps, pp)
  {
    var r := (a + half) / unit;
    QuotientBounds(a + half, unit);
    var lo, hi := r * unit, r * unit + unit;
    assert lo <= a + half && a + half + 1 <= hi;
    MulLe(lo, a + half, pp);
    MulLe(a + half + 1, hi, pp);
    Assoc(r, unit, pp);
    Distrib(r * unit, unit, pp);
    Distrib(a, half, pp);
    Distrib(a + half, 1, pp);
    Assoc(2, half, pp);
    assert lo * pp == r * ps && hi * pp == r * ps + ps;
    assert (a + half) * pp == a * pp + half * pp;
    assert 2 * (half * pp) == ps;
  }

  lemma MulLtCancel(x: int, y: int, z: nat)
    requires x * z < y * z
    ensures x < y
  {
    if x >= y {
      MulLe(y, x, z);
    }
  }

  /** A nearest rounding moves the integer part up by at most one. */
  lemma NearestFloors(a: nat, r: nat, ps: nat, pp: nat)
    requires ps > 0 && pp > 0 && IsNearest(a, r, ps, pp)
    ensures a / ps <= r / pp <= a / ps + 1
  {
    var q, q' := a / ps, r / pp;
    QuotientBounds(a, ps);
    QuotientBounds(r, pp);
    var x := ps * pp;
    assert pp * ps == x;
    // q * x <= a * pp < r * ps + ps <= (q' + 1) * x
    MulLe(q * ps, a, pp);
    MulLe(r + 1, q' * pp + pp, ps);
    Assoc(q, ps, pp);
    Distrib(r, 1, ps);
    Distrib(q' * pp, pp, ps);
    Assoc(q', pp, ps);
    Distrib(q', 1, x);
    assert q * x < (q' + 1) * x;
    MulLtCancel(q, q' + 1, x);
    // q' * x <= r * ps <= a * pp + ps / 2 < (q + 2) * x
    MulLe(q' * pp, r, ps);
    MulLe(a + 1, q * ps + ps, pp);
    Distrib(a, 1, pp);
    Distrib(q * ps, ps, pp);
    MulLe(1, pp, ps);
    Distrib(q, 2, x);
    assert q' * x < (q + 2) * x;
    MulLtCancel(q', q + 2, x);
  }

  // ---------------------------------------------------------------------
  // ClickHouse built-ins on decimals

  /** ClickHouse `round(x, p)` of a non-negative Decimal x = a / 10^scale,
      as an integer at scale p. */
  function RoundDecimal(a: nat, scale: nat, p: nat): nat {
    if scale <= p then ScaleUp(a, p - scale)
    else ScaleDown(a + 5 * ScaleUp(1, scale - p - 1), scale - p)
  }

  /** ClickHouse's `round` on a Decimal: the rounded value r / 10^p is the
      nearest multiple of 10^-p to a / 10^scale, with ties going up (away
      from zero, the value being non-negative). */
  lemma RoundDecimalIsNearest(a: nat, scale: nat, p: nat)
    ensures IsNearest(a, RoundDecimal(a, scale, p), Pow10(scale), Pow10(p))
  {
    if scale <= p {
      RoundUpIsNearest(a, scale, p);
    } else {
      RoundDownIsNearest(a, scale, p);
    }
  }

  /** More digits than the value has: the value is kept, only rescaled. */
  lemma RoundUpIsNearest(a: nat, scale: nat, p: nat)
    requires scale <= p
    ensures IsNearest(a, RoundDecimal(a, scale, p), Pow10(scale), Pow10(p))
  {
    var f := Pow10(p - scale);
    Pow10Add(p - scale, scale);
    ScaleUpIsMul(a, p - scale);
    NearestScaleUp(a, f, Pow10(scale), Pow10(p));
  }

  /** Fewer digits: add half a unit of the last kept digit, then drop. */
  lemma RoundDownIsNearest(a: nat, scale: nat, p: nat)
    requires scale > p
    ensures IsNearest(a, RoundDecimal(a, scale, p), Pow10(scale), Pow10(p))
  {
    var k := scale - p;
    var half := 5 * ScaleUp(1, k - 1);
    ScaleUpIsMul(1, k - 1);
    Pow10Add(k, p);
    ScaleDownIsDiv(a + half, k);
    NearestDivision(a, half, Pow10(k), Pow10(scale), Pow10(p));
  }

  /** ClickHouse `toString` of a non-negative Decimal m / 10^scale: the
      integer digits, then, unless every fractional digit is zero, a point
      and the fractional digits with their trailing zeros dropped. */
  function DecimalToString(m: nat, scale: nat): string {
    var frac := RStrip(FixedDigits(m, scale), '0');
    NatToString(ScaleDown(m, scale)) + (if frac == [] then "" else "." + frac)
  }

  function SignedDecimalToString(x: int, scale: nat): string {
    (if x < 0 then "-" else "") + DecimalToString(Abs(x), scale)
  }

  /** The integer-digit count of x = a / 10^scale, which the fragment
      writes `greatest(floor(log10(x)) + 1, 1)`. */
  function IntegerDigits(a: nat, scale: nat): nat {
    |NatToString(ScaleDown(a, scale))|
  }

  /** The digit count d of q is the d >= 1 with 10^(d-1) <= q < 10^d
      (or d = 1 when q < 10): for q = floor(x) that is
      max(floor(log10(x)) + 1, 1). */
  lemma {:induction false} NatToStringLength(q: nat)
    ensures var d := |NatToString(q)|;
      q < Pow10(d) && (d == 1 || Pow10(d - 1) <= q)
    decreases q
  {
    if q >= 10 {
      NatToStringLength(q / 10);
    }
  }

  /** The digit count never shrinks as the number grows, and one more unit
      adds at most one digit. */
  lemma DigitCountMonotone(q: nat, q': nat)
    requires q <= q' <= q + 1
    ensures |NatToString(q)| <= |NatToString(q')| <= |NatToString(q)| + 1
  {
    NatToStringLength(q);
    NatToStringLength(q');
    NatToStringFits(q, |NatToString(q')|);
    NatToStringFits(q', |NatToString(q)| + 1);
  }

  /** Rounding to p digits adds at most one integer digit, so the carry and
      no-carry lemmas below cover every case. */
  lemma RoundingAddsAtMostOneDigit(a: nat, scale: nat, p: nat)
    ensures var d := IntegerDigits(a, scale);
      d <= IntegerDigits(RoundDecimal(a, scale, p), p) <= d + 1
  {
    var r := RoundDecimal(a, scale, p);
    RoundDecimalIsNearest(a, scale, p);
    NearestFloors(a, r, Pow10(scale), Pow10(p));
    ScaleDownIsDiv(a, scale);
    ScaleDownIsDiv(r, p);
    DigitCountMonotone(ScaleDown(a, scale), ScaleDown(r, p));
  }

  // ---------------------------------------------------------------------
  // The fragment's value

  /** What `normalize_number(value, precision p)` yields for value =
      n / 10^scale, step by step as the fragment computes it. */
  function NormalizeNumberEval(n: int, scale: nat, p: nat): (r: string)
    ensures p > 0 ==> |r| <= |SignPrefix(n)| + IntegerDigits(Abs(n), scale) + 1 + p
    ensures p > 0 && n < 0 ==> StartsWith(r, "-")
  {
    if p == 0 then
      // toString(round(value)): the rounded Decimal keeps its scale
      var k: int := ScaleUp(RoundDecimal(Abs(n), scale, 0), scale);
      SignedDecimalToString(if n < 0 then -k else k, scale)
    else
      // the cut is sized by the integer digits of the UNROUNDED value
      CutText(n, RoundDecimal(Abs(n), scale, p), IntegerDigits(Abs(n), scale), p)
  }

  /** The sign of n, then toString of the rounded magnitude cast to scale
      p + 1 plus 10^-(p+1), cut after `digits + 1 + p` characters. */
  function CutText(n: int, rounded: nat, digits: nat, p: nat): string {
    SignPrefix(n) + Left(DecimalToString(rounded * 10 + 1, p + 1), digits + 1 + p)
  }

  /** The fixed-format text of m / 10^p: integer digits, a point, and
      exactly p fractional digits, trailing zeros included. */
  function Canonical(m: nat, p: nat): (r: string)
    ensures |r| == |NatToString(ScaleDown(m, p))| + 1 + p
  {
    NatToString(ScaleDown(m, p)) + "." + FixedDigits(m, p)
  }

  /** The extra digit 1 keeps every fractional digit in the cast text. */
  lemma BumpedText(rounded: nat, p: nat)
    ensures DecimalToString(rounded * 10 + 1, p + 1) == Canonical(rounded, p) + "1"
  {
    var m := rounded * 10 + 1;
    assert m / 10 == rounded && m % 10 == 1;
    assert FixedDigits(m, p + 1) == FixedDigits(rounded, p) + "1";
    RStripNoTrailing(FixedDigits(m, p + 1), '0');
  }

  /** The cast text is `Canonical(rounded) + "1"`, so the cut keeps the
      sign and a prefix of it. */
  lemma CutTextCanonical(n: int, rounded: nat, digits: nat, p: nat)
    ensures CutText(n, rounded, digits, p) == SignPrefix(n) + Left(Canonical(rounded, p) + "1", digits + 1 + p)
  {
    BumpedText(rounded, p);
  }

  /** For p > 0 the fragment's value is the sign, then the cast text
      `Canonical(rounded) + "1"` cut after IntegerDigits(|v|) + 1 + p
      characters. */
  lemma EvalPositive(n: int, scale: nat, p: nat)
    requires p > 0
    ensures NormalizeNumberEval(n, scale, p) == SignPrefix(n)
      + Left(Canonical(RoundDecimal(Abs(n), scale, p), p) + "1", IntegerDigits(Abs(n), scale) + 1 + p)
  {
    CutTextCanonical(n, RoundDecimal(Abs(n), scale, p), IntegerDigits(Abs(n), scale), p);
  }

  /** When rounding does not carry into a new integer digit, the result is
      the sign of the value followed by round(|v|, p) with exactly p
      fractional digits. */
  lemma NormalizeNumberNoCarry(n: int, scale: nat, p: nat)
    requires p > 0
    requires IntegerDigits(RoundDecimal(Abs(n), scale, p), p) == IntegerDigits(Abs(n), scale)
    ensures NormalizeNumberEval(n, scale, p)
      == SignPrefix(n) + Canonical(RoundDecimal(Abs(n), scale, p), p)
  {
    EvalPositive(n, scale, p);
    var body := Canonical(RoundDecimal(Abs(n), scale, p), p);
    assert (body + "1")[..|body|] == body;
  }

  lemma CutOneEarly(head: string, frac: string)
    requires |frac| > 0
    ensures Left(head + frac + "1", |head| + |frac| - 1) == head + frac[..|frac| - 1]
  {
    assert (head + frac + "1")[..|head| + |frac| - 1] == head + frac[..|frac| - 1];
  }

  /** When rounding carries into a new integer digit, the cut falls one
      character early: only p - 1 fractional digits survive. */
  lemma NormalizeNumberCarry(n: int, scale: nat, p: nat)
    requires p > 0
    requires IntegerDigits(RoundDecimal(Abs(n), scale, p), p) == IntegerDigits(Abs(n), scale) + 1
    ensures var rounded := RoundDecimal(Abs(n), scale, p);
      NormalizeNumberEval(n, scale, p)
        == SignPrefix(n) + (NatToString(ScaleDown(rounded, p)) + "." + FixedDigits(rounded, p)[..p - 1])
  {
    var rounded := RoundDecimal(Abs(n), scale, p);
    EvalPositive(n, scale, p);
    var head := NatToString(ScaleDown(rounded, p)) + ".";
    CutOneEarly(head, FixedDigits(rounded, p));
  }

  /** The sign prefix is `-` exactly when the value is negative, even when
      it rounds to zero. */
  lemma NormalizeNumberSign(n: int, scale: nat, p: nat)
    requires p > 0
    ensures var r := NormalizeNumberEval(n, scale, p);
      |r| > 0 && (r[0] == '-' <==> n < 0)
  {
    var a := Abs(n);
    EvalPositive(n, scale, p);
    var text := Canonical(RoundDecimal(a, scale, p), p) + "1";
    var cut := Left(text, IntegerDigits(a, scale) + 1 + p);
    assert IsDigit(text[0]);
    assert cut[0] == text[0];
  }

  /** A whole number written at some scale has no fractional text. */
  lemma WholeDecimalText(k: nat, scale: nat)
    ensures DecimalToString(ScaleUp(k, scale), scale) == NatToString(k)
  {
    FixedDigitsOfScaleUp(k, scale);
    ScaleDownScaleUp(k, scale);
    assert RStrip(Repeat('0', scale), '0') == [];
  }

  lemma {:induction false} ScaleUpZero(k: nat, scale: nat)
    ensures ScaleUp(k, scale) == 0 <==> k == 0
  {
    if scale > 0 {
      ScaleUpZero(k, scale - 1);
    }
  }

  /** The signed text of a whole number written at some scale. */
  lemma SignedWholeText(neg: bool, k: nat, scale: nat)
    ensures SignedDecimalToString(if neg then -(ScaleUp(k, scale) as int) else ScaleUp(k, scale), scale)
      == IntToString(if neg then -(k as int) else k)
  {
    var m := ScaleUp(k, scale);
    WholeDecimalText(k, scale);
    ScaleUpZero(k, scale);
    if neg {
      assert SignedDecimalToString(-(m as int), scale)
        == (if m > 0 then "-" else "") + DecimalToString(m, scale);
    } else {
      assert SignedDecimalToString(m, scale) == DecimalToString(m, scale);
    }
  }

  /** At precision 0 the result is the rounded integer's text: no point,
      no epsilon, and `-` only when the rounded value is negative. */
  lemma NormalizeNumberPrecisionZero(n: int, scale: nat)
    ensures var k := RoundDecimal(Abs(n), scale, 0);
      NormalizeNumberEval(n, scale, 0) == IntToString(if n < 0 then -(k as int) else k)
  {
    SignedWholeText(n < 0, RoundDecimal(Abs(n), scale, 0), scale);
  }

  // ---------------------------------------------------------------------
  // Worked values: each takes its inputs as parameters that its
  // precondition fixes.

  lemma NormalizeNumberExampleTrailingZero(n: int, scale: nat, p: nat)
    requires n == 110 && scale == 2 && p == 2
    ensures NormalizeNumberEval(n, scale, p) == "1.10"
  {
    assert RoundDecimal(110, 2, 2) == 110 && ScaleDown(110, 2) == 1;
    assert FixedDigits(110, 2) == "10";
    assert Canonical(110, 2) == "1.10";
    NormalizeNumberNoCarry(n, scale, p);
  }

  lemma NormalizeNumberExampleWhole(n: int, scale: nat, p: nat)
    requires n == 100 && scale == 2 && p == 2
    ensures NormalizeNumberEval(n, scale, p) == "1.00"
  {
    assert RoundDecimal(100, 2, 2) == 100 && ScaleDown(100, 2) == 1;
    assert FixedDigits(100, 2) == "00";
    assert Canonical(100, 2) == "1.00";
    NormalizeNumberNoCarry(n, scale, p);
  }

  lemma NormalizeNumberExampleNegative(n: int, scale: nat, p: nat)
    requires n == -5 && scale == 1 && p == 2
    ensures NormalizeNumberEval(n, scale, p) == "-0.50"
  {
    assert RoundDecimal(5, 1, 2) == 50 && ScaleDown(50, 2) == 0 && ScaleDown(5, 1) == 0;
    assert FixedDigits(50, 2) == "50";
    NormalizeNumberNoCarry(n, scale, p);
  }

  /** A negative value that rounds to zero keeps its minus sign. */
  lemma NormalizeNumberExampleNegativeZero(n: int, scale: nat, p: nat)
    requires n == -1 && scale == 3 && p == 2
    ensures NormalizeNumberEval(n, scale, p) == "-0.00"
  {
    assert ScaleUp(1, 0) == 1 && ScaleDown(6, 1) == 0;
    assert RoundDecimal(1, 3, 2) == 0;
    assert ScaleDown(1, 3) == 0 && ScaleDown(0, 2) == 0;
    assert IntegerDigits(1, 3) == 1 && IntegerDigits(0, 2) == 1;
    assert FixedDigits(0, 2) == "00";
    assert Canonical(0, 2) == "0.00";
    NormalizeNumberNoCarry(n, scale, p);
  }

  /** At precision 0 the half is rounded away from zero. */
  lemma NormalizeNumberExamplePrecisionZero(n: int, scale: nat)
    requires n == -25 && scale == 1
    ensures NormalizeNumberEval(n, scale, 0) == "-3"
  {
    assert RoundDecimal(25, 1, 0) == 3;
    NormalizeNumberPrecisionZero(n, scale);
  }

  /** 9.999 at precision 2: rounding gives 10.00, but the cut is sized for
      the one integer digit of 9.999, so only one fractional digit is kept. */
  lemma NormalizeNumberCarryExample(n: int, scale: nat, p: nat)
    requires n == 9999 && scale == 3 && p == 2
    ensures NormalizeNumberEval(n, scale, p) == "10.0"
  {
    assert RoundDecimal(9999, 3, 2) == 1000;
    assert ScaleDown(1000, 2) == 10 && ScaleDown(9999, 3) == 9;
    assert NatToString(10) == "10" && NatToString(9) == "9";
    assert FixedDigits(1000, 2) == "00";
    NormalizeNumberCarry(n, scale, p);
  }

  // ---------------------------------------------------------------------
  // Corrected fragment: digits counted on the rounded value

  /** The value of the corrected fragment, which sizes the cut with
      `log10(round(abs(value), p))`. */
  function NormalizeNumberEvalFixed(n: int, scale: nat, p: nat): (r: string)
    ensures p == 0 ==> r == NormalizeNumberEval(n, scale, 0)
    ensures p > 0 ==> |r| <= |SignPrefix(n)| + IntegerDigits(RoundDecimal(Abs(n), scale, p), p) + 1 + p
    ensures p > 0 && n < 0 ==> StartsWith(r, "-")
  {
    if p == 0 then NormalizeNumberEval(n, scale, 0)
    else
      var rounded := RoundDecimal(Abs(n), scale, p);
      CutText(n, rounded, IntegerDigits(rounded, p), p)
  }

  /** The corrected fragment always yields the sign and exactly p
      fractional digits of round(|v|, p), carry or not. */
  lemma NormalizeNumberFixedCanonical(n: int, scale: nat, p: nat)
    requires p > 0
    ensures NormalizeNumberEvalFixed(n, scale, p)
      == SignPrefix(n) + Canonical(RoundDecimal(Abs(n), scale, p), p)
  {
    var rounded := RoundDecimal(Abs(n), scale, p);
    CutTextCanonical(n, rounded, IntegerDigits(rounded, p), p);
    var body := Canonical(rounded, p);
    assert (body + "1")[..|body|] == body;
  }

  /** The two agree exactly when rounding does not carry. */
  lemma NormalizeNumberFixedAgrees(n: int, scale: nat, p: nat)
    requires p > 0
    ensures (NormalizeNumberEvalFixed(n, scale, p) == NormalizeNumberEval(n, scale, p))
      <==> IntegerDigits(RoundDecimal(Abs(n), scale, p), p) == IntegerDigits(Abs(n), scale)
  {
    var rounded := RoundDecimal(Abs(n), scale, p);
    NormalizeNumberFixedCanonical(n, scale, p);
    RoundingAddsAtMostOneDigit(Abs(n), scale, p);
    if IntegerDigits(rounded, p) == IntegerDigits(Abs(n), scale) {
      NormalizeNumberNoCarry(n, scale, p);
    } else {
      NormalizeNumberCarry(n, scale, p);
      assert |NormalizeNumberEval(n, scale, p)| < |NormalizeNumberEvalFixed(n, scale, p)|;
    }
  }

  lemma NormalizeNumberFixedExample(n: int, scale: nat, p: nat)
    requires n == 9999 && scale == 3 && p == 2
    ensures NormalizeNumberEvalFixed(n, scale, p) == "10.00"
  {
    assert RoundDecimal(9999, 3, 2) == 1000;
    assert ScaleDown(1000, 2) == 10;
    assert NatToString(10) == "10";
    assert FixedDigits(1000, 2) == "00";
    assert Canonical(1000, 2) == "10.00";
    NormalizeNumberFixedCanonical(n, scale, p);
  }

  // ---------------------------------------------------------------------
  // Reading the fixed-format text back

  /** Reads `digits.ddd` with exactly p fractional digits as an integer
      at scale p. */
  function ParseFixed(body: string, p: nat): Option<nat> {
    if |body| < p + 2 || body[|body| - p - 1] != '.' then None
    else
      var whole, frac := body[..|body| - p - 1], body[|body| - p..];
      if !AllDigits(whole) || !AllDigits(frac) then None
      else Some(ScaleUp(ParseNat(whole), p) + ParseNat(frac))
  }

  /** Reads `[-]digits.ddd` with exactly p fractional digits as an integer
      at scale p. */
  function ParseCanonical(t: string, p: nat): Option<int> {
    if |t| > 0 && t[0] == '-' then
      match ParseFixed(t[1..], p)
      case None => None
      case Some(a) => Some(-(a as int))
    else
      match ParseFixed(t, p)
      case None => None
      case Some(a) => Some(a)
  }

  lemma ParseFixedCanonical(a: nat, p: nat)
    ensures ParseFixed(Canonical(a, p), p) == Some(a)
  {
    var whole := NatToString(ScaleDown(a, p));
    var body := Canonical(a, p);
    assert body == whole + "." + FixedDigits(a, p);
    assert body[|body| - p - 1] == '.';
    assert body[..|body| - p - 1] == whole;
    assert body[|body| - p..] == FixedDigits(a, p);
    ParseNatToString(ScaleDown(a, p));
    SplitAtPoint(a, p);
  }

  /** The fixed-format text of m / 10^p reads back as m: two values that
      normalize to the same text are equal at that precision. */
  lemma CanonicalRoundTrip(m: int, p: nat)
    ensures ParseCanonical(SignPrefix(m) + Canonical(Abs(m), p), p) == Some(m)
  {
    var body := Canonical(Abs(m), p);
    var t := SignPrefix(m) + body;
    ParseFixedCanonical(Abs(m), p);
    assert IsDigit(body[0]);
    if m < 0 {
      assert t[1..] == body;
    } else {
      assert t == body;
    }
  }

  /** Normalizing a value already at scale p with p > 0 gives its
      fixed-format text, which reads back as the same value. */
  lemma NormalizeNumberIdempotent(m: int, p: nat)
    requires p > 0
    ensures NormalizeNumberEval(m, p, p) == SignPrefix(m) + Canonical(Abs(m), p)
    ensures ParseCanonical(NormalizeNumberEval(m, p, p), p) == Some(m)
  {
    assert RoundDecimal(Abs(m), p, p) == Abs(m);
    NormalizeNumberNoCarry(m, p, p);
    CanonicalRoundTrip(m, p);
  }
}
