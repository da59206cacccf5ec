/** What the `md5_as_int` fragment computes, on exact integers. The digest
    itself is opaque: a string of hex digits, MD5_HEXDIGITS long. Each
    ClickHouse built-in the fragment applies is a function here. */
module ClickhouseChecksum {
  import opened Strings
  import opened ClickhouseFragments

  predicate IsHexDigit(c: char) {
    '0' <= c <= '9' || 'a' <= c <= 'f' || 'A' <= c <= 'F'
  }

  predicate AllHex(s: string) {
    forall i :: 0 <= i < |s| ==> IsHexDigit(s[i])
  }

  function HexValue(c: char): (v: nat)
    requires IsHexDigit(c)
    ensures v < 16
  {
    if '0' <= c <= '9' then c as int - '0' as int
    else if 'a' <= c <= 'f' then c as int - 'a' as int + 10
    else c as int - 'A' as int + 10
  }

  function LowerChar(c: char): char {
    if 'A' <= c <= 'Z' then (c as int + 32) as char else c
  }

  /** ClickHouse `lowerUTF8`, on ASCII letters. */
  function LowerUTF8(s: string): (r: string)
    ensures |r| == |s| && forall i :: 0 <= i < |s| ==> r[i] == LowerChar(s[i])
    ensures AllHex(s) ==> AllHex(r)
  {
    seq(|s|, i requires 0 <= i < |s| => LowerChar(s[i]))
  }

  /** ClickHouse `substr(s, offset)` for a positive offset: from the
      offset-th character (counting from 1) to the end. */
  function Substr(s: string, offset: int): string
    requires offset >= 1
  {
    if offset - 1 <= |s| then s[offset - 1..] else []
  }

  /** ClickHouse `unhex`: two digits to a byte, and a leading odd digit makes
      a byte of its own. */
  function Unhex(s: string): (r: seq<nat>)
    requires AllHex(s)
    ensures |r| == (|s| + 1) / 2
    decreases |s|
  {
    if |s| == 0 then []
    else if |s| == 1 then [HexValue(s[0])]
    else Unhex(s[..|s| - 2]) + [16 * HexValue(s[|s| - 2]) + HexValue(s[|s| - 1])]
  }

  function Reverse<T>(s: seq<T>): (r: seq<T>)
    ensures |r| == |s|
  {
    if s == [] then [] else Reverse(s[1..]) + [s[0]]
  }

  /** Bytes read least significant first. */
  function LittleEndian(bytes: seq<nat>): nat {
    if bytes == [] then 0 else bytes[0] + 256 * LittleEndian(bytes[1..])
  }

  /** ClickHouse `reinterpretAsUInt128`: the first 16 bytes, little-endian. */
  function ReinterpretAsUInt128(bytes: seq<nat>): nat {
    LittleEndian(if |bytes| <= 16 then bytes else bytes[..16])
  }

  /** Hex digits read most significant first: the reference reading. */
  function BigEndianHex(s: string): nat
    requires AllHex(s)
  {
    if s == [] then 0 else 16 * BigEndianHex(s[..|s| - 1]) + HexValue(s[|s| - 1])
  }

  function Pow16(k: nat): (r: nat)
    ensures r >= 1
  {
    if k == 0 then 1 else 16 * Pow16(k - 1)
  }

  /** 2^127: Int128 holds [-2^127, 2^127). */
  const Int128Half: int := 0x8000_0000_0000_0000_0000_0000_0000_0000

  /** ClickHouse's `minus` of a UInt128 and an integer constant yields an
      Int128: the exact difference, wrapped modulo 2^128 into the Int128
      range. */
  function WrapInt128(x: int): (r: int)
    ensures -Int128Half <= r < Int128Half
  {
    (x + Int128Half) % (2 * Int128Half) - Int128Half
  }

  /** A difference that fits in an Int128 is kept; one just above the range
      comes out 2^128 lower. */
  lemma WrapInt128Cases(x: int)
    ensures -Int128Half <= x < Int128Half ==> WrapInt128(x) == x
    ensures Int128Half <= x < 3 * Int128Half ==> WrapInt128(x) == x - 2 * Int128Half
  {
    var m := 2 * Int128Half;
    if -Int128Half <= x < Int128Half {
      DivModUnique(x + Int128Half, m, 0, x + Int128Half);
    } else if Int128Half <= x < 3 * Int128Half {
      DivModUnique(x + Int128Half, m, 1, x - Int128Half);
    }
  }

  /** The value `md5_as_int` produces for the digest `hex(MD5(s))`: always
      an Int128. */
  function Md5AsIntEval(digest: string, c: Constants): (r: int)
    requires AllHex(digest) && SubstrIndex(c) >= 1
    ensures -Int128Half <= r < Int128Half
  {
    var window := LowerUTF8(Substr(digest, SubstrIndex(c)));
    WrapInt128(ReinterpretAsUInt128(Reverse(Unhex(window))) - c.checksumOffset)
  }

  lemma ReverseAppend<T>(s: seq<T>, x: T)
    ensures Reverse(s + [x]) == [x] + Reverse(s)
  {
    if s != [] {
      assert (s + [x])[1..] == s[1..] + [x];
    }
  }

  /** Reversing the bytes and reading them little-endian is the big-endian
      reading of the hex digits. */
  lemma {:induction false} ReverseUnhexIsBigEndian(s: string)
    requires AllHex(s)
    ensures LittleEndian(Reverse(Unhex(s))) == BigEndianHex(s)
    decreases |s|
  {
    var n := |s|;
    if n == 1 {
      assert s[..0] == [];
    } else if n >= 2 {
      var prefix := s[..n - 2];
      var b: nat := 16 * HexValue(s[n - 2]) + HexValue(s[n - 1]);
      assert Unhex(s) == Unhex(prefix) + [b];
      ReverseAppend(Unhex(prefix), b);
      var rest := Reverse(Unhex(prefix));
      assert ([b] + rest)[1..] == rest;
      assert LittleEndian(Reverse(Unhex(s))) == b + 256 * LittleEndian(rest);
      ReverseUnhexIsBigEndian(prefix);
      assert s[..n - 1][..n - 2] == prefix;
      assert BigEndianHex(s[..n - 1]) == 16 * BigEndianHex(prefix) + HexValue(s[n - 2]);
      assert BigEndianHex(s) == 256 * BigEndianHex(prefix) + b;
    }
  }

  lemma {:induction false} BigEndianHexBound(s: string)
    requires AllHex(s)
    ensures BigEndianHex(s) < Pow16(|s|)
  {
    if s != [] {
      BigEndianHexBound(s[..|s| - 1]);
    }
  }

  /** Lower-casing changes no digit's value. */
  lemma {:induction false} LowerKeepsValue(s: string)
    requires AllHex(s)
    ensures BigEndianHex(LowerUTF8(s)) == BigEndianHex(s)
  {
    if s != [] {
      var t := LowerUTF8(s);
      assert t[..|t| - 1] == LowerUTF8(s[..|s| - 1]);
      LowerKeepsValue(s[..|s| - 1]);
    }
  }

  /** For valid widths the window starting at SubstrIndex is exactly the
      last CHECKSUM_HEXDIGITS digits of the digest. */
  lemma WindowIsSuffix(digest: string, c: Constants)
    requires 0 < c.checksumHexDigits <= c.md5HexDigits && |digest| == c.md5HexDigits
    ensures 1 <= SubstrIndex(c) <= c.md5HexDigits
    ensures Substr(digest, SubstrIndex(c)) == digest[|digest| - c.checksumHexDigits..]
  {
  }

  /** `md5_as_int` is the big-endian value of the last CHECKSUM_HEXDIGITS
      digits of the digest, less CHECKSUM_OFFSET, taken into an Int128: kept
      when the difference fits, 2^128 lower when it lies just above. */
  lemma Md5AsIntIsWindowValue(digest: string, c: Constants)
    requires ValidChecksumWidths(c) && |digest| == c.md5HexDigits && AllHex(digest)
    ensures var window := digest[|digest| - c.checksumHexDigits..];
      Md5AsIntEval(digest, c) == WrapInt128(BigEndianHex(window) - c.checksumOffset)
    ensures var d := BigEndianHex(digest[|digest| - c.checksumHexDigits..]) - c.checksumOffset;
      (-Int128Half <= d < Int128Half ==> Md5AsIntEval(digest, c) == d)
      && (Int128Half <= d < 3 * Int128Half ==> Md5AsIntEval(digest, c) == d - 2 * Int128Half)
  {
    WindowIsSuffix(digest, c);
    var window := digest[|digest| - c.checksumHexDigits..];
    var lower := LowerUTF8(window);
    assert |Unhex(lower)| <= 16;
    ReverseUnhexIsBigEndian(lower);
    LowerKeepsValue(window);
    WrapInt128Cases(BigEndianHex(window) - c.checksumOffset);
  }

  lemma {:induction false} Pow16Monotone(k: nat, k': nat)
    requires k <= k'
    ensures Pow16(k) <= Pow16(k')
    decreases k'
  {
    if k < k' {
      Pow16Monotone(k, k' - 1);
    }
  }

  /** 16^31 = 2^124, an eighth of 2^127. */
  lemma Pow16ThirtyOne()
    ensures 8 * Pow16(31) == Int128Half
  {
    assert Pow16(8) == 0x1_0000_0000;
    assert Pow16(16) == 0x1_0000_0000_0000_0000;
    assert Pow16(24) == 0x1_0000_0000_0000_0000_0000_0000;
  }

  /** With a window of at most 31 digits and an offset in [0, 2^127], no
      wrap occurs: the value is the window's less the offset, in
      [-CHECKSUM_OFFSET, 16^CHECKSUM_HEXDIGITS - CHECKSUM_OFFSET). */
  lemma Md5AsIntNoWrap(digest: string, c: Constants)
    requires ValidChecksumWidths(c) && |digest| == c.md5HexDigits && AllHex(digest)
    requires c.checksumHexDigits <= 31 && 0 <= c.checksumOffset <= Int128Half
    ensures Md5AsIntEval(digest, c) == BigEndianHex(digest[|digest| - c.checksumHexDigits..]) - c.checksumOffset
    ensures -c.checksumOffset <= Md5AsIntEval(digest, c) < Pow16(c.checksumHexDigits) - c.checksumOffset
  {
    var window := digest[|digest| - c.checksumHexDigits..];
    BigEndianHexBound(window);
    Pow16Monotone(c.checksumHexDigits, 31);
    Pow16ThirtyOne();
    Md5AsIntIsWindowValue(digest, c);
  }

  /** Two digests whose windows agree up to letter case give the same
      integer: nothing outside the window, and no letter case, matters. */
  lemma Md5AsIntDependsOnlyOnWindow(d1: string, d2: string, c: Constants)
    requires ValidChecksumWidths(c)
    requires |d1| == |d2| == c.md5HexDigits && AllHex(d1) && AllHex(d2)
    requires LowerUTF8(d1[|d1| - c.checksumHexDigits..]) == LowerUTF8(d2[|d2| - c.checksumHexDigits..])
    ensures Md5AsIntEval(d1, c) == Md5AsIntEval(d2, c)
  {
    WindowIsSuffix(d1, c);
    WindowIsSuffix(d2, c);
  }
}
