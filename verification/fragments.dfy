/** The SQL fragments the ClickHouse dialect emits. Each builder reproduces
    its template from `Dialect` literally; what the interesting ones compute
    when ClickHouse runs them is modelled in ClickhouseChecksum,
    ClickhouseNumber and ClickhouseTimestamp. */
module ClickhouseFragments {
  import opened Strings
  import opened ClickhouseTypes

  /** The shared constants the dialect imports from the base module:
      MD5_HEXDIGITS, CHECKSUM_HEXDIGITS, CHECKSUM_OFFSET and
      TIMESTAMP_PRECISION_POS. Their values are not part of this model. */
  datatype Constants = Constants(
    md5HexDigits: nat,
    checksumHexDigits: nat,
    checksumOffset: int,
    timestampPrecisionPos: nat)

  /** The constraint the checksum window needs: a non-empty window that fits
      in the digest and in the 32 hex digits of a UInt128. */
  predicate ValidChecksumWidths(c: Constants) {
    0 < c.checksumHexDigits <= c.md5HexDigits && c.checksumHexDigits <= 32
  }

  /** Reads a call `fn(arg)` back into `arg`. */
  function UnwrapCall(fn: string, r: string): Option<string> {
    if |r| >= |fn| + 2 && r[..|fn| + 1] == fn + "(" && r[|r| - 1] == ')'
    then Some(r[|fn| + 1..|r| - 1])
    else None
  }

  lemma UnwrapCallOf(fn: string, arg: string)
    ensures UnwrapCall(fn, fn + "(" + arg + ")") == Some(arg)
  {
    var r := fn + "(" + arg + ")";
    assert r[..|fn| + 1] == fn + "(";
    assert r[|fn| + 1..|r| - 1] == arg;
  }

  lemma StartsWithAppend(a: string, b: string)
    ensures StartsWith(a + b, a)
  {
    assert (a + b)[..|a|] == a;
  }

  /** `Dialect.quote`: the identifier between double quotes, unescaped. */
  function Quote(s: string): (r: string)
    ensures |r| == |s| + 2 && r[0] == '"' && r[|r| - 1] == '"'
    ensures r[1..|r| - 1] == s
  {
    "\"" + s + "\""
  }

  /** Distinct identifiers quote to distinct strings. */
  lemma QuoteInjective(s: string, t: string)
    ensures Quote(s) == Quote(t) ==> s == t
  {
  }

  /** Nothing is escaped: the quoted text has a `"` strictly inside its
      delimiters exactly when the identifier holds one. */
  lemma QuoteDelimited(s: string)
    ensures (exists i :: 0 < i < |Quote(s)| - 1 && Quote(s)[i] == '"') <==> '"' in s
  {
    var q := Quote(s);
    if '"' in s {
      var j :| 0 <= j < |s| && s[j] == '"';
      assert q[j + 1] == s[j];
    }
    if exists i :: 0 < i < |q| - 1 && q[i] == '"' {
      var i :| 0 < i < |q| - 1 && q[i] == '"';
      assert s[i - 1] == q[i];
    }
  }

  /** `Dialect.to_string`. */
  function ToString(s: string): (r: string)
    ensures UnwrapCall("toString", r) == Some(s)
  {
    UnwrapCallOf("toString", s);
    "toString(" + s + ")"
  }

  /** `Dialect.current_timestamp`: a call with no argument. */
  function CurrentTimestamp(): (r: string)
    ensures UnwrapCall("now", r) == Some("")
  {
    assert "now()" == "now" + "(" + "" + ")";
    UnwrapCallOf("now", "");
    "now()"
  }

  /** `Dialect.set_timezone_to_utc`: the dialect cannot express it, so the
      request always fails instead of producing SQL. */
  function SetTimezoneToUtc(): (r: Result<string>)
    ensures r.Err? && r.error.NotImplemented?
  {
    Err(NotImplemented("set_timezone_to_utc"))
  }

  /** `Dialect._convert_db_precision_to_digits`: the shared base conversion
      (a parameter here, since the base dialect is not part of this model)
      less a fixed correction of two digits. */
  function ConvertDbPrecisionToDigits(baseline: int -> int, p: int): (r: int)
    ensures baseline(p) - r == 2
  {
    baseline(p) - 2
  }

  /** `Dialect.md5_as_hex`: the hex form of the MD5 digest of `s`. */
  function Md5AsHex(s: string): (r: string)
    ensures UnwrapCall("hex", r).Some?
    ensures UnwrapCall("MD5", UnwrapCall("hex", r).value) == Some(s)
  {
    var inner := "MD5(" + s + ")";
    UnwrapCallOf("MD5", s);
    UnwrapCallOf("hex", inner);
    "hex(" + inner + ")"
  }

  /** The 1-based position of the checksum window in the hex digest. */
  function SubstrIndex(c: Constants): int {
    1 + c.md5HexDigits - c.checksumHexDigits
  }

  const Md5AsIntHead: string := "reinterpretAsUInt128(reverse(unhex(lowerUTF8(substr("

  /** `Dialect.md5_as_int`. The digest expression it embeds is exactly
      `md5_as_hex(s)`, and for valid widths the window index lies inside the
      digest. */
  function Md5AsInt(s: string, c: Constants): (r: string)
    ensures r == Md5AsIntHead + Md5AsHex(s) + ", " + IntToString(SubstrIndex(c))
      + "))))) - " + IntToString(c.checksumOffset)
    ensures 0 < c.checksumHexDigits <= c.md5HexDigits ==> 1 <= SubstrIndex(c) <= c.md5HexDigits
  {
    var substrIdx := 1 + c.md5HexDigits - c.checksumHexDigits;
    Md5AsIntShape(s, IntToString(substrIdx), IntToString(c.checksumOffset));
    "reinterpretAsUInt128(reverse(unhex(lowerUTF8(substr(hex(MD5(" + s + ")), "
      + IntToString(substrIdx) + "))))) - " + IntToString(c.checksumOffset)
  }

  lemma Md5AsIntShape(s: string, idx: string, offset: string)
    ensures "reinterpretAsUInt128(reverse(unhex(lowerUTF8(substr(hex(MD5(" + s + ")), "
      + idx + "))))) - " + offset
      == Md5AsIntHead + Md5AsHex(s) + ", " + idx + "))))) - " + offset
  {
  }

  /** The part of the `normalize_number` template after the integer-digit
      expression: ` + 1 + {precision}` and the closing lines. */
  function NumberTemplateTail(precision: nat): string {
    "                ) + 1 + " + IntToString(precision) + "\n" +
    "            )\n" +
    "        "
  }

  /** The first two lines of the `normalize_number` template: the sign
      prefix, decided by the sign of the value itself, and the opening of `left`. */
  function NumberSignTest(value: string): string {
    "\n" +
    "            if(" + value + " >= 0, '', '-') || left(\n"
  }

  /** The `normalize_number` template; `digitsArg` is the argument of
      `log10` in the integer-digit count. */
  function NumberTemplate(value: string, precision: nat, digitsArg: string): string {
    NumberSignTest(value) + NumberTemplateCut(value, precision, digitsArg)
  }

  /** The arguments of `left`: the cast text and the cut length, with
      `digitsArg` in the `log10` slot. */
  function NumberTemplateCut(value: string, precision: nat, digitsArg: string): string {
    NumberCutHead(value, precision) + digitsArg + NumberCutTail(precision)
  }

  /** The cast text and the cut length up to the `log10` argument. */
  function NumberCutHead(value: string, precision: nat): string {
    NumberCastHead(value, precision) + "                        floor(log10("
  }

  /** The cast text and the opening of the cut length. */
  function NumberCastHead(value: string, precision: nat): string {
    "                toString(\n" +
    "                    toDecimal128(\n" +
    "                        round(abs(" + value + "), " + IntToString(precision) + "),\n" +
    "                        " + IntToString(precision) + " + 1\n" +
    "                    )\n" +
    "                    +\n" +
    "                    toDecimal128(\n" +
    "                        exp10(-" + IntToString(precision + 1) + "),\n" +
    "                        " + IntToString(precision) + " + 1\n" +
    "                    )\n" +
    "                ),\n" +
    "                toUInt8(\n" +
    "                    greatest(\n"
  }

  /** The cut length after the `log10` argument. */
  function NumberCutTail(precision: nat): string {
    ")) + 1,\n" +
    "                        1\n" +
    "                    )\n" +
    NumberTemplateTail(precision)
  }

  /** The template is the same text around whatever fills the `log10`
      slot. */
  lemma NumberTemplateSlot(value: string, precision: nat, digitsArg: string)
    ensures NumberTemplate(value, precision, digitsArg)
      == (NumberSignTest(value) + NumberCutHead(value, precision)) + digitsArg + NumberCutTail(precision)
  {
  }

  lemma SuffixOfAppend(a: string, b: string, k: nat)
    requires k <= |b|
    ensures (a + b)[|a + b| - k..] == b[|b| - k..]
  {
  }

  /** Everything before the `log10` slot ends in `floor(log10(`. */
  lemma NumberHeadEndsAtLog10(value: string, precision: nat)
    ensures var pre := NumberSignTest(value) + NumberCutHead(value, precision);
      |pre| >= 12 && pre[|pre| - 12..] == "floor(log10("
  {
    var open := "                        floor(log10(";
    SuffixOfAppend(NumberCastHead(value, precision), open, 12);
    SuffixOfAppend(NumberSignTest(value), NumberCutHead(value, precision), 12);
  }

  /** `Dialect.normalize_number`. At precision 0 it is a plain rounded cast;
      otherwise the sign comes from the value itself and the cast text is
      cut after the integer digits of `abs(value)`, the point and `precision`
      digits. */
  function NormalizeNumber(value: string, precision: nat): (r: string)
    ensures precision == 0 ==> UnwrapCall("toString", r) == Some("round(" + value + ")")
    ensures precision > 0 ==> StartsWith(r, NumberSignTest(value))
  {
    if precision == 0 then ToString("round(" + value + ")")
    else
      StartsWithAppend(NumberSignTest(value), NumberTemplateCut(value, precision, "abs(" + value + ")"));
      NumberTemplate(value, precision, "abs(" + value + ")")
  }

  /** `normalize_number` with the integer digits counted on the ROUNDED
      magnitude, as the algorithm intends; it differs from `normalize_number`
      only in the argument of `log10`. */
  function NormalizeNumberFixed(value: string, precision: nat): (r: string)
    ensures precision == 0 ==> r == NormalizeNumber(value, precision)
    ensures precision > 0 ==> exists pre, post ::
      // the replaced `abs(value)` is the one inside `floor(log10(...))`
      |pre| >= 12 && pre[|pre| - 12..] == "floor(log10("
      && NormalizeNumber(value, precision) == pre + ("abs(" + value + ")") + post
      && r == pre + ("round(abs(" + value + "), " + IntToString(precision) + ")") + post
  {
    if precision == 0 then ToString("round(" + value + ")")
    else
      var rounded := "round(abs(" + value + "), " + IntToString(precision) + ")";
      var pre, post := NumberSignTest(value) + NumberCutHead(value, precision), NumberCutTail(precision);
      NumberTemplateSlot(value, precision, "abs(" + value + ")");
      NumberTemplateSlot(value, precision, rounded);
      assert NormalizeNumber(value, precision) == pre + ("abs(" + value + ")") + post;
      NumberHeadEndsAtLog10(value, precision);
      NumberTemplate(value, precision, rounded)
  }

  lemma RpadCallOf(value: string, width: string)
    ensures UnwrapCall("rpad", "rpad(" + value + ", " + width + ", '0')") == Some(value + ", " + width + ", '0'")
  {
    var args := value + ", " + width + ", '0'";
    UnwrapCallOf("rpad", args);
    assert "rpad(" + value + ", " + width + ", '0')" == "rpad" + "(" + args + ")";
  }

  /** `Dialect.normalize_timestamp`. A rounding column is re-expanded from
      a rounded microsecond count; a truncating one (ClickHouse's own) joins
      the formatted whole seconds, a point and the six-digit microsecond
      field, right-padded to TIMESTAMP_PRECISION_POS + 6. */
  function NormalizeTimestamp(value: string, prec: nat, rounds: bool, c: Constants): (r: string)
    ensures rounds ==> UnwrapCall("toString", r).Some?
    ensures !rounds ==> UnwrapCall("rpad", r) == Some(
      "formatDateTime(" + value + ", '%Y-%m-%d %H:%M:%S') || '.' || "
      + ToString("lpad(" + ToString("toUnixTimestamp64Micro(toDateTime64(" + value + ", "
      + IntToString(prec) + ")) % 1000000") + ", 6, '0')")
      + ", " + IntToString(c.timestampPrecisionPos + 6) + ", '0'")
  {
    if rounds then
      var timestamp := "toDateTime64(round(toUnixTimestamp64Micro(toDateTime64(" + value
        + ", 6)) / 1000000, " + IntToString(prec) + "), 6)";
      ToString(timestamp)
    else
      // `value` is rebound to the formatted text, as `normalize_timestamp` does
      var fractional := "toUnixTimestamp64Micro(toDateTime64(" + value + ", " + IntToString(prec) + ")) % 1000000";
      var fractional := "lpad(" + ToString(fractional) + ", 6, '0')";
      var value := "formatDateTime(" + value + ", '%Y-%m-%d %H:%M:%S') || '.' || " + ToString(fractional);
      RpadCallOf(value, IntToString(c.timestampPrecisionPos + 6));
      "rpad(" + value + ", " + IntToString(c.timestampPrecisionPos + 6) + ", '0')"
  }
}
