/** The value of the non-rounding branch of `normalize_timestamp`: a
    timestamp is cut to its column's precision and written as the whole
    seconds, a point, and six micro-second digits, padded on the right to a
    fixed width. */
module ClickhouseTimestamp {
  import opened Strings
  import opened ClickhouseNumber

  const MicrosPerSecond: nat := 1000000

  /** `toUnixTimestamp64Micro(toDateTime64(v, prec))` for a timestamp v
      holding `micros` micro-seconds since the epoch: the conversion to
      prec fractional digits truncates, and from 6 digits up nothing is lost
      at micro-second resolution. */
  function TruncateMicros(micros: nat, prec: nat): nat {
    if prec >= 6 then micros else ScaleUp(ScaleDown(micros, 6 - prec), 6 - prec)
  }

  /** The text of the non-rounding branch for a timestamp of `micros`
      micro-seconds, where `fmt(s)` is what `formatDateTime(v,
      '%Y-%m-%d %H:%M:%S')` writes for a timestamp in whole second s, and
      `pos` is the position of the first fractional digit. */
  function NormalizeTimestampEval(micros: nat, prec: nat, fmt: nat -> string, pos: nat): (r: string)
    ensures |r| == pos + 6
  {
    var fractional := LeftPad(NatToString(TruncateMicros(micros, prec) % MicrosPerSecond), 6, '0');
    RightPad(fmt(micros / MicrosPerSecond) + "." + fractional, pos + 6, '0')
  }

  lemma MicrosPerSecondIsPow10()
    ensures Pow10(6) == MicrosPerSecond
  {
  }

  /** Truncation never moves a timestamp forward and never leaves its
      second. */
  lemma TruncateMicrosBounds(micros: nat, prec: nat)
    ensures TruncateMicros(micros, prec) <= micros
    ensures TruncateMicros(micros, prec) / MicrosPerSecond == micros / MicrosPerSecond
  {
    if prec < 6 {
      var k := 6 - prec;
      var t := TruncateMicros(micros, prec);
      SplitAtPoint(micros, k);
      ScaleDownScaleUp(ScaleDown(micros, k), k);
      MicrosPerSecondIsPow10();
      ScaleDownAdd(t, prec, k);
      ScaleDownAdd(micros, prec, k);
      ScaleDownIsDiv(t, 6);
      ScaleDownIsDiv(micros, 6);
    }
  }

  /** Truncating twice to the same precision is truncating once. */
  lemma TruncateMicrosIdempotent(micros: nat, prec: nat)
    ensures TruncateMicros(TruncateMicros(micros, prec), prec) == TruncateMicros(micros, prec)
  {
    if prec < 6 {
      ScaleDownScaleUp(ScaleDown(micros, 6 - prec), 6 - prec);
    }
  }

  /** The six-digit field keeps the first `prec` digits of the timestamp's
      micro-second field and writes the rest as zeros. */
  lemma FractionField(micros: nat, prec: nat)
    ensures var keep := if prec < 6 then prec else 6;
      LeftPad(NatToString(TruncateMicros(micros, prec) % MicrosPerSecond), 6, '0')
        == FixedDigits(micros, 6)[..keep] + Repeat('0', 6 - keep)
  {
    var t := TruncateMicros(micros, prec);
    MicrosPerSecondIsPow10();
    LeftPadDigits(t % MicrosPerSecond, 6);
    FixedDigitsMod(t, 6);
    if prec < 6 {
      var k := 6 - prec;
      var q := ScaleDown(micros, k);
      FixedDigitsSplit(t, prec, k);
      ScaleDownScaleUp(q, k);
      FixedDigitsOfScaleUp(q, k);
      FixedDigitsSplit(micros, prec, k);
    } else {
      assert FixedDigits(micros, 6)[..6] == FixedDigits(micros, 6);
    }
  }

  /** When the formatted seconds fill exactly the positions before the
      fractional digits, the right-padding changes nothing: the text is the
      seconds, a point, and the six-digit field. */
  lemma NormalizeTimestampLayout(micros: nat, prec: nat, fmt: nat -> string, pos: nat)
    requires |fmt(micros / MicrosPerSecond)| + 1 == pos
    ensures var keep := if prec < 6 then prec else 6;
      NormalizeTimestampEval(micros, prec, fmt, pos)
        == fmt(micros / MicrosPerSecond) + "." + (FixedDigits(micros, 6)[..keep] + Repeat('0', 6 - keep))
  {
    FractionField(micros, prec);
  }

  /** Two timestamps that agree once truncated to `prec` digits give the
      same text: the value depends only on the truncated timestamp. */
  lemma NormalizeTimestampAgrees(m1: nat, m2: nat, prec: nat, fmt: nat -> string, pos: nat)
    requires TruncateMicros(m1, prec) == TruncateMicros(m2, prec)
    ensures NormalizeTimestampEval(m1, prec, fmt, pos) == NormalizeTimestampEval(m2, prec, fmt, pos)
  {
    TruncateMicrosBounds(m1, prec);
    TruncateMicrosBounds(m2, prec);
  }

  /** With the exact layout, the last six characters are the truncated
      timestamp's micro-second field. */
  lemma NormalizeTimestampField(micros: nat, prec: nat, fmt: nat -> string, pos: nat)
    requires |fmt(micros / MicrosPerSecond)| + 1 == pos
    ensures NormalizeTimestampEval(micros, prec, fmt, pos)[pos..]
      == FixedDigits(TruncateMicros(micros, prec) % MicrosPerSecond, 6)
  {
    var t := TruncateMicros(micros, prec);
    MicrosPerSecondIsPow10();
    LeftPadDigits(t % MicrosPerSecond, 6);
  }

  lemma FieldDetermines(x1: nat, x2: nat)
    requires x1 < MicrosPerSecond && x2 < MicrosPerSecond
    requires FixedDigits(x1, 6) == FixedDigits(x2, 6)
    ensures x1 == x2
  {
    MicrosPerSecondIsPow10();
    ParseFixedDigits(x1, 6);
    ParseFixedDigits(x2, 6);
    DivModUnique(x1, Pow10(6), 0, x1);
    DivModUnique(x2, Pow10(6), 0, x2);
  }

  /** Conversely, with the exact layout, equal texts mean equal truncated
      micro-second fields. */
  lemma NormalizeTimestampDistinguishes(m1: nat, m2: nat, prec: nat, fmt: nat -> string, pos: nat)
    requires |fmt(m1 / MicrosPerSecond)| + 1 == pos && |fmt(m2 / MicrosPerSecond)| + 1 == pos
    requires NormalizeTimestampEval(m1, prec, fmt, pos) == NormalizeTimestampEval(m2, prec, fmt, pos)
    ensures TruncateMicros(m1, prec) % MicrosPerSecond == TruncateMicros(m2, prec) % MicrosPerSecond
  {
    var x1, x2 := TruncateMicros(m1, prec) % MicrosPerSecond, TruncateMicros(m2, prec) % MicrosPerSecond;
    NormalizeTimestampField(m1, prec, fmt, pos);
    NormalizeTimestampField(m2, prec, fmt, pos);
    assert FixedDigits(x1, 6) == FixedDigits(x2, 6);
    FieldDetermines(x1, x2);
  }
}
