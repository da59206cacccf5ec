/** Text helpers shared by the ClickHouse dialect model: prefix tests,
    Python's `str.rstrip`, decimal rendering of integers (Python's `str()` of
    an int and ClickHouse's `toString` of an unsigned integer), fixed-width
    digit fields, and ClickHouse's `left`, `leftPad` and `rightPad`. */
module Strings {

  datatype Option<T> = None | Some(value: T)

  predicate StartsWith(s: string, prefix: string) {
    |prefix| <= |s| && s[..|prefix|] == prefix
  }

  /** Python's `s.rstrip(c)`: every trailing `c` is removed, nothing else. */
  function RStrip(s: string, c: char): (r: string)
    ensures |r| <= |s| && r == s[..|r|]
    ensures |r| == 0 || r[|r| - 1] != c
    ensures forall i :: |r| <= i < |s| ==> s[i] == c
    decreases |s|
  {
    if |s| > 0 && s[|s| - 1] == c then RStrip(s[..|s| - 1], c) else s
  }

  /** Stripping never reaches into a prefix that does not end in `c`. */
  lemma {:induction false} RStripKeepsPrefix(s: string, prefix: string, c: char)
    requires StartsWith(s, prefix)
    requires |prefix| > 0 && prefix[|prefix| - 1] != c
    ensures StartsWith(RStrip(s, c), prefix)
  {
    var r := RStrip(s, c);
    assert |r| >= |prefix|;
    assert r[..|prefix|] == s[..|r|][..|prefix|];
  }

  /** A string that does not end in `c` is its own `rstrip`. */
  lemma RStripNoTrailing(s: string, c: char)
    requires |s| == 0 || s[|s| - 1] != c
    ensures RStrip(s, c) == s
  {
  }

  /** Appending one more `c` does not change the stripped result. */
  lemma RStripAppend(s: string, c: char)
    ensures RStrip(s + [c], c) == RStrip(s, c)
  {
    assert (s + [c])[..|s|] == s;
  }

  /** Any number of trailing `c` go, and nothing before them. */
  lemma {:induction false} RStripRepeat(t: string, c: char, k: nat)
    requires |t| == 0 || t[|t| - 1] != c
    ensures RStrip(t + Repeat(c, k), c) == t
  {
    if k == 0 {
      assert t + Repeat(c, 0) == t;
      RStripNoTrailing(t, c);
    } else {
      assert t + Repeat(c, k) == (t + Repeat(c, k - 1)) + [c];
      RStripAppend(t + Repeat(c, k - 1), c);
      RStripRepeat(t, c, k - 1);
    }
  }

  // ---------------------------------------------------------------------
  // Decimal digits

  predicate IsDigit(c: char) {
    '0' <= c <= '9'
  }

  predicate AllDigits(s: string) {
    forall i :: 0 <= i < |s| ==> IsDigit(s[i])
  }

  function DigitValue(c: char): (d: nat)
    requires IsDigit(c)
    ensures d < 10
  {
    c as int - '0' as int
  }

  function DigitChar(d: nat): (c: char)
    requires d < 10
    ensures IsDigit(c) && DigitValue(c) == d
  {
    ('0' as int + d) as char
  }

  function Pow10(k: nat): (r: nat)
    ensures r >= 1
  {
    if k == 0 then 1 else 10 * Pow10(k - 1)
  }

  /** The decimal digits of `n` with no leading zero (a lone "0" for zero). */
  function NatToString(n: nat): (r: string)
    ensures 1 <= |r| && AllDigits(r)
    ensures r[0] == '0' ==> n == 0
    decreases n
  {
    if n < 10 then [DigitChar(n)] else NatToString(n / 10) + [DigitChar(n % 10)]
  }

  /** Reads a string of digits as a big-endian decimal number. */
  function ParseNat(s: string): nat
    requires AllDigits(s)
    decreases |s|
  {
    if s == [] then 0 else 10 * ParseNat(s[..|s| - 1]) + DigitValue(s[|s| - 1])
  }

  lemma {:induction false} ParseNatToString(n: nat)
    ensures ParseNat(NatToString(n)) == n
  {
    if n >= 10 {
      var s := NatToString(n);
      assert s[..|s| - 1] == NatToString(n / 10);
      ParseNatToString(n / 10);
    }
  }

  /** A number below 10^w needs at most w digits. */
  lemma {:induction false} NatToStringFits(n: nat, w: nat)
    requires 1 <= w && n < Pow10(w)
    ensures |NatToString(n)| <= w
    decreases n
  {
    if n >= 10 {
      NatToStringFits(n / 10, w - 1);
    }
  }

  /** Python's `str()` of an int. */
  function IntToString(i: int): (r: string)
    ensures |r| >= 1
  {
    if i < 0 then "-" + NatToString(-i) else NatToString(i)
  }

  /** The low `w` decimal digits of `m`, zero-filled: a fixed-width field. */
  function FixedDigits(m: nat, w: nat): (r: string)
    ensures |r| == w && AllDigits(r)
  {
    if w == 0 then [] else FixedDigits(m / 10, w - 1) + [DigitChar(m % 10)]
  }

  lemma DivModUnique(m: int, d: int, q: int, r: int)
    requires d > 0 && m == q * d + r && 0 <= r < d
    ensures m / d == q && m % d == r
  {
    var q0, r0 := m / d, m % d;
    assert (q - q0) * d == r0 - r;
    if q > q0 {
      MulAtLeast(q - q0, d);
    } else if q < q0 {
      MulAtLeast(q0 - q, d);
    }
  }

  lemma MulAtLeast(a: int, d: int)
    requires a >= 1 && d > 0
    ensures a * d >= d
  {
  }

  lemma {:induction false} ModTenSplit(m: nat, p: nat)
    requires p > 0
    ensures m % (10 * p) == 10 * ((m / 10) % p) + m % 10
  {
    var q := m / 10;
    var r0 := m % 10;
    var q2 := q / p;
    var r1 := q % p;
    assert q == q2 * p + r1;
    assert m == q2 * (10 * p) + (10 * r1 + r0);
    DivModUnique(m, 10 * p, q2, 10 * r1 + r0);
  }

  lemma {:induction false} ParseFixedDigits(m: nat, w: nat)
    ensures ParseNat(FixedDigits(m, w)) == m % Pow10(w)
  {
    if w > 0 {
      var s := FixedDigits(m, w);
      assert s[..|s| - 1] == FixedDigits(m / 10, w - 1);
      ParseFixedDigits(m / 10, w - 1);
      ModTenSplit(m, Pow10(w - 1));
    }
  }

  /** Reading a digit string of width w and writing it back at width w
      gives the same string, leading zeros included. */
  lemma {:induction false} FixedDigitsOfParse(s: string)
    requires AllDigits(s)
    ensures FixedDigits(ParseNat(s), |s|) == s
  {
    if s != [] {
      var init, last := s[..|s| - 1], s[|s| - 1];
      var q, d := ParseNat(init), DigitValue(last);
      assert ParseNat(s) == 10 * q + d;
      DivModUnique(10 * q + d, 10, q, d);
      FixedDigitsOfParse(init);
      assert FixedDigits(ParseNat(s), |s|) == FixedDigits(q, |init|) + [DigitChar(d)];
      assert s == init + [last];
    }
  }

  /** The field only depends on m modulo 10^w. */
  lemma FixedDigitsMod(m: nat, w: nat)
    ensures FixedDigits(m % Pow10(w), w) == FixedDigits(m, w)
  {
    ParseFixedDigits(m, w);
    FixedDigitsOfParse(FixedDigits(m, w));
  }

  lemma {:induction false} FixedDigitsOfZero(w: nat)
    ensures FixedDigits(0, w) == Repeat('0', w)
  {
    if w > 0 {
      FixedDigitsOfZero(w - 1);
    }
  }

  // ---------------------------------------------------------------------
  // ClickHouse text built-ins

  function Repeat(c: char, k: nat): (r: string)
    ensures |r| == k && forall i :: 0 <= i < k ==> r[i] == c
  {
    if k == 0 then [] else Repeat(c, k - 1) + [c]
  }

  /** ClickHouse `left(s, k)`: the first k characters, or all of s. */
  function Left(s: string, k: nat): (r: string)
    ensures |r| == if k <= |s| then k else |s|
    ensures r == s[..|r|]
  {
    if k <= |s| then s[..k] else s
  }

  /** ClickHouse `leftPad(s, len, c)` (`lpad`): pads on the left, or shortens to len. */
  function LeftPad(s: string, len: nat, c: char): (r: string)
    ensures |r| == len
  {
    if |s| >= len then s[..len] else Repeat(c, len - |s|) + s
  }

  /** ClickHouse `rightPad(s, len, c)` (`rpad`): pads on the right, or shortens to len. */
  function RightPad(s: string, len: nat, c: char): (r: string)
    ensures |r| == len
  {
    if |s| >= len then s[..len] else s + Repeat(c, len - |s|)
  }

  /** Zero-padding the decimal rendering of m < 10^w to width w gives the fixed field. */
  lemma {:induction false} LeftPadDigits(m: nat, w: nat)
    requires m < Pow10(w)
    ensures LeftPad(NatToString(m), w, '0') == FixedDigits(m, w)
    decreases m
  {
    if m < 10 {
      if w > 0 {
        FixedDigitsOfZero(w - 1);
        assert FixedDigits(m, w) == Repeat('0', w - 1) + [DigitChar(m)];
      }
    } else {
      var t := NatToString(m / 10);
      NatToStringFits(m / 10, w - 1);
      LeftPadDigits(m / 10, w - 1);
      assert NatToString(m) == t + [DigitChar(m % 10)];
      assert LeftPad(t + [DigitChar(m % 10)], w, '0') == LeftPad(t, w - 1, '0') + [DigitChar(m % 10)];
    }
  }
}
