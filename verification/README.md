# ClickHouse dialect of data-diff, modelled in Dafny

data-diff compares tables across databases by running checksum and
normalisation SQL on each side. Its ClickHouse `Dialect` does two things. It
classifies ClickHouse column types (`Nullable(Decimal(10, 2))`,
`DateTime64(3)`, ...) into the abstract column kinds data-diff compares. It
also builds the SQL fragments that hash rows and render numbers and
timestamps in one canonical text form.

The model has three layers:

- **Classification** (`types.dfy`, module `ClickhouseTypes`). `ParseType`
  strips a `Nullable(` wrapper together with every trailing `)`. It then
  collapses the `Decimal`, `FixedString` and `DateTime64` families to their
  bare names and looks the name up in the 21-entry type table. A name not in
  the table is an explicit `UnsupportedType` error.
- **Fragment builders** (`fragments.dfy`, module `ClickhouseFragments`).
  Each builder returns the same SQL text as the dialect's template. The
  imported constants `MD5_HEXDIGITS`, `CHECKSUM_HEXDIGITS`, `CHECKSUM_OFFSET`
  and `TIMESTAMP_PRECISION_POS` are a `Constants` parameter.
  `set_timezone_to_utc` is a `NotImplemented` error.
- **What the fragments compute**, on exact integers:
  - `checksum.dfy` (`ClickhouseChecksum`): the `md5_as_int` window is the
    big-endian value of the digest's last `CHECKSUM_HEXDIGITS` hex digits,
    minus `CHECKSUM_OFFSET`, taken into an Int128.
  - `number.dfy` (`ClickhouseNumber`): `normalize_number` on a decimal
    `n / 10^scale`. Rounding, the `10^-(p+1)` epsilon, `toString` and the
    `left` cut are modelled step by step.
  - `timestamp.dfy` (`ClickhouseTimestamp`): the truncating
    `normalize_timestamp` branch on a micro-second count.

`strings.dfy` (`Strings`) holds the text helpers these layers share:
Python's `rstrip`, decimal digit rendering and parsing, fixed-width digit
fields, and ClickHouse's `left`, `lpad` and `rpad`.

ClickHouse semantics the model assumes:

- `toString` of a Decimal drops trailing fractional zeros, and drops the
  point when nothing is left after it.
- `round` on a Decimal rounds halves away from zero.
- `lpad`/`rpad` shorten an input that is longer than the target width.
- `unhex` turns an odd leading digit into a byte of its own.
- `reinterpretAsUInt128` reads the first 16 bytes little-endian.
- `minus` of a UInt128 and an integer constant yields an Int128: the exact
  difference, wrapped modulo 2^128 into [-2^127, 2^127).
- Converting a timestamp to `DateTime64(prec)` truncates sub-precision digits.

## Model

| member | source | states |
|---|---|---|
| ClickhouseTypes.LookupType | data_diff/databases/clickhouse.py:92 | the inherited exact-name lookup succeeds exactly when the name is in the table, with one of the table's classes, and otherwise fails with `UnsupportedType` naming the type and the table path |
| ClickhouseTypes.ParseType | data_diff/databases/clickhouse.py:80-92 | a success is one of the table's classes, and a Timestamp never rounds; a failure is `UnsupportedType` for the same table path, naming a type that is not in the table |
| ClickhouseTypes.ParseTypeVerbatim | data_diff/databases/clickhouse.py:85-92 | a name that is neither wrapped nor in a family classifies exactly when it is in the table, as the table says, and fails with its own name otherwise |
| ClickhouseTypes.CollapseFamily | data_diff/databases/clickhouse.py:85-90 | a name beginning with a family name is replaced by that bare family name, the families being checked in the order Decimal, FixedString, DateTime64 |
| ClickhouseTypes.FamilyParametersIgnored | data_diff/databases/clickhouse.py:85-92 | `Decimal(...)`, `FixedString(...)` and `DateTime64(...)` classify as the bare family, whatever follows the family name |
| ClickhouseTypes.NullableFamilyParametersIgnored | data_diff/databases/clickhouse.py:81-92 | the same inside `Nullable(...)`: the wrapper and trailing brackets go before the family test |
| ClickhouseTypes.NullableTransparent | data_diff/databases/clickhouse.py:81-83 | `Nullable(T)` classifies exactly as `T` for any `T` that has no `Nullable(` prefix and no trailing `)` |
| ClickhouseTypes.TableNamesClassify | data_diff/databases/clickhouse.py:45-67 | every table name, bare or wrapped in `Nullable(`, classifies to its table entry |
| ClickhouseTypes.DateTimeVerbatim | data_diff/databases/clickhouse.py:64-65 | among names beginning with `DateTime` but not `DateTime64`, exactly `DateTime` classifies, as a non-rounding Timestamp |
| ClickhouseTypes.CompositeTypeFails | data_diff/databases/clickhouse.py:92 | `Array(String)` fails with an `UnsupportedType` error naming it |
| ClickhouseTypes.NullableUnknownFails | data_diff/databases/clickhouse.py:81-92 | `Nullable(` + T + any number of `)` fails when T is not in the table and not in a family, and the error names T without its closing brackets (`Nullable(Array(String))` fails as `Array(String`) |
| ClickhouseFragments.Quote | data_diff/databases/clickhouse.py:69-70 | the identifier between two double quotes, unchanged |
| ClickhouseFragments.QuoteInjective | data_diff/databases/clickhouse.py:69-70 | distinct identifiers quote to distinct texts |
| ClickhouseFragments.QuoteDelimited | data_diff/databases/clickhouse.py:69-70 | nothing is escaped: a `"` appears inside the quotes exactly when the identifier holds one |
| ClickhouseFragments.ToString | data_diff/databases/clickhouse.py:72-73 | the text is a `toString` call whose argument is the input |
| ClickhouseFragments.CurrentTimestamp | data_diff/databases/clickhouse.py:101-102 | the text is a `now` call with no argument |
| ClickhouseFragments.SetTimezoneToUtc | data_diff/databases/clickhouse.py:98-99 | always a `NotImplemented` error |
| ClickhouseFragments.ConvertDbPrecisionToDigits | data_diff/databases/clickhouse.py:75-78 | two digits fewer than the shared base conversion |
| ClickhouseFragments.Md5AsHex | data_diff/databases/clickhouse.py:110-111 | the text is `hex` of `MD5` of the input expression |
| ClickhouseFragments.Md5AsInt | data_diff/databases/clickhouse.py:103-108 | the text embeds `Md5AsHex` of the input, the window start `1 + MD5_HEXDIGITS - CHECKSUM_HEXDIGITS` and the offset, and that start lies in 1..MD5_HEXDIGITS for a non-empty window that fits the digest |
| ClickhouseFragments.NormalizeNumber | data_diff/databases/clickhouse.py:113-156 | at precision 0 the text is `toString(round(v))`, with no epsilon; otherwise it begins with the sign test of `v` |
| ClickhouseFragments.NormalizeNumberFixed | data_diff/databases/clickhouse.py:136-153 | the written template with the one `abs(v)` that directly follows `floor(log10(` replaced by `round(abs(v), p)`, everything before and after it unchanged; identical at precision 0 |
| ClickhouseFragments.NormalizeTimestamp | data_diff/databases/clickhouse.py:158-167 | a rounding column gives a `toString` call; a truncating one gives an `rpad` of the formatted seconds, `.`, and the six-digit micro-second field, padded to `TIMESTAMP_PRECISION_POS + 6` |
| ClickhouseChecksum.ReverseUnhexIsBigEndian | data_diff/databases/clickhouse.py:107 | reading the `unhex` bytes reversed, little-endian, is reading the hex digits big-endian |
| ClickhouseChecksum.LowerKeepsValue | data_diff/databases/clickhouse.py:107 | `lowerUTF8` changes no hex digit's value |
| ClickhouseChecksum.WindowIsSuffix | data_diff/databases/clickhouse.py:104-107 | for any `0 < CHECKSUM_HEXDIGITS <= MD5_HEXDIGITS`, the 1-based `substr` from the window start is exactly the digest's last `CHECKSUM_HEXDIGITS` digits |
| ClickhouseChecksum.WrapInt128Cases | data_diff/databases/clickhouse.py:107 | the Int128 `minus` keeps a difference inside [-2^127, 2^127) and takes one in [2^127, 3 * 2^127) down by 2^128 |
| ClickhouseChecksum.Md5AsIntEval | data_diff/databases/clickhouse.py:107 | the value of `md5_as_int` on a digest is always an Int128; `Md5AsIntIsWindowValue` and `Md5AsIntNoWrap` say which one |
| ClickhouseChecksum.Md5AsIntIsWindowValue | data_diff/databases/clickhouse.py:104-107 | with at most 32 window digits, `md5_as_int` is the big-endian value of the window minus `CHECKSUM_OFFSET`, wrapped into an Int128: equal to that difference when it fits, 2^128 lower when it lies just above |
| ClickhouseChecksum.Md5AsIntNoWrap | data_diff/databases/clickhouse.py:104-107 | with at most 31 window digits and `0 <= CHECKSUM_OFFSET <= 2^127` nothing wraps: the value is the window's big-endian value minus `CHECKSUM_OFFSET`, in `[-CHECKSUM_OFFSET, 16^CHECKSUM_HEXDIGITS - CHECKSUM_OFFSET)` |
| ClickhouseChecksum.Md5AsIntDependsOnlyOnWindow | data_diff/databases/clickhouse.py:107 | digests whose windows agree up to letter case give the same value |
| ClickhouseNumber.NormalizeNumberEval | data_diff/databases/clickhouse.py:130-153 | at p > 0 the value is no longer than the sign, the unrounded value's integer digits, the point and p digits, and begins with `-` when v < 0; `EvalPositive`, `NormalizeNumberNoCarry`, `NormalizeNumberCarry`, `NormalizeNumberSign` and `NormalizeNumberPrecisionZero` give its exact value |
| ClickhouseNumber.RoundDecimalIsNearest | data_diff/databases/clickhouse.py:139 | `round(abs(v), p)` is the nearest multiple of `10^-p`, halves going up |
| ClickhouseNumber.RoundingAddsAtMostOneDigit | data_diff/databases/clickhouse.py:139-150 | rounding to p digits adds at most one integer digit, so the carry and no-carry cases are all there is |
| ClickhouseNumber.NatToStringLength | data_diff/databases/clickhouse.py:148-153 | the decimal length d of the integer part is `greatest(floor(log10(x)) + 1, 1)`: `10^(d-1) <= q < 10^d`, or d = 1 |
| ClickhouseNumber.EvalPositive | data_diff/databases/clickhouse.py:136-153 | at p > 0 the value is the sign, then the rounded value with exactly p digits and the epsilon digit `1`, cut after the unrounded value's integer digits + 1 + p characters |
| ClickhouseNumber.NormalizeNumberNoCarry | data_diff/databases/clickhouse.py:136-153 | when rounding does not carry, the value is the sign and the rounded value with exactly p fractional digits, trailing zeros kept |
| ClickhouseNumber.NormalizeNumberCarry | data_diff/databases/clickhouse.py:150 | when rounding carries into a new integer digit, only p - 1 fractional digits survive the cut |
| ClickhouseNumber.NormalizeNumberSign | data_diff/databases/clickhouse.py:137 | at p > 0 the value begins with `-` exactly when v < 0, even when v rounds to zero |
| ClickhouseNumber.NormalizeNumberPrecisionZero | data_diff/databases/clickhouse.py:130-131 | at precision 0 the value is the text of the rounded integer, with `-` only when the rounded value is negative |
| ClickhouseNumber.NormalizeNumberExampleTrailingZero | data_diff/databases/clickhouse.py:114-128 | 1.10 at precision 2 is `1.10` |
| ClickhouseNumber.NormalizeNumberExampleWhole | data_diff/databases/clickhouse.py:114-128 | 1.00 at precision 2 is `1.00` |
| ClickhouseNumber.NormalizeNumberExampleNegative | data_diff/databases/clickhouse.py:137-140 | -0.5 at precision 2 is `-0.50` |
| ClickhouseNumber.NormalizeNumberExampleNegativeZero | data_diff/databases/clickhouse.py:137 | -0.001 at precision 2 is `-0.00` |
| ClickhouseNumber.NormalizeNumberExamplePrecisionZero | data_diff/databases/clickhouse.py:130-131 | -2.5 at precision 0 is `-3` |
| ClickhouseNumber.NormalizeNumberCarryExample | data_diff/databases/clickhouse.py:150 | 9.999 at precision 2 is `10.0`, one fractional digit short |
| ClickhouseNumber.NormalizeNumberEvalFixed | data_diff/databases/clickhouse.py:136-153 | the corrected value equals the written one at precision 0; at p > 0 it is no longer than the sign, the rounded value's integer digits, the point and p digits, and begins with `-` when v < 0; `NormalizeNumberFixedCanonical` gives its exact value |
| ClickhouseNumber.NormalizeNumberFixedCanonical | data_diff/databases/clickhouse.py:136-153 | with digits counted on the rounded value, the result is always the sign and the rounded value with exactly p fractional digits |
| ClickhouseNumber.NormalizeNumberFixedAgrees | data_diff/databases/clickhouse.py:150 | the corrected and the written fragment agree exactly when rounding does not carry |
| ClickhouseNumber.NormalizeNumberFixedExample | data_diff/databases/clickhouse.py:150 | 9.999 at precision 2 is `10.00` with the correction |
| ClickhouseNumber.CanonicalRoundTrip | data_diff/databases/clickhouse.py:113-128 | the fixed-format text of a value reads back as that value, so equal texts mean equal values at that precision |
| ClickhouseNumber.NormalizeNumberIdempotent | data_diff/databases/clickhouse.py:136-153 | a value already at scale p normalizes to its own fixed-format text, which reads back as the value |
| ClickhouseTimestamp.NormalizeTimestampEval | data_diff/databases/clickhouse.py:164-167 | the text is always `TIMESTAMP_PRECISION_POS + 6` characters long |
| ClickhouseTimestamp.TruncateMicrosBounds | data_diff/databases/clickhouse.py:164 | truncation to `prec` digits never moves a timestamp forward or out of its second |
| ClickhouseTimestamp.TruncateMicrosIdempotent | data_diff/databases/clickhouse.py:164 | truncating twice to the same precision is truncating once |
| ClickhouseTimestamp.FractionField | data_diff/databases/clickhouse.py:164-165 | the six-digit field keeps the first `prec` digits of the micro-second field and zeroes the rest |
| ClickhouseTimestamp.NormalizeTimestampLayout | data_diff/databases/clickhouse.py:164-167 | when the seconds fill the positions before the fraction, the text is the seconds, `.`, and that field |
| ClickhouseTimestamp.NormalizeTimestampField | data_diff/databases/clickhouse.py:164-167 | with that layout, the last six characters are the truncated micro-second field |
| ClickhouseTimestamp.NormalizeTimestampAgrees | data_diff/databases/clickhouse.py:164-167 | two instants that agree after truncation to `prec` digits give identical texts |
| ClickhouseTimestamp.NormalizeTimestampDistinguishes | data_diff/databases/clickhouse.py:164-167 | with that layout, identical texts mean identical truncated micro-second fields |

## Left out

- The `Clickhouse` database class and `import_clickhouse` are left out. They cover driver import, connections, threading and error re-wrapping, which are all I/O.
- The MD5 digest, `hex` and `formatDateTime` are not modelled. The digest is an opaque hex string of `MD5_HEXDIGITS` digits. The formatted seconds are a function `fmt` of the whole second. Calendars and time zones are not modelled.
- Floating point is not modelled:
  - `log10` is replaced by the exact digit count of the integer part.
  - `exp10(-(p + 1))` is replaced by the exact `10^-(p+1)`.
  - The rounding branch of `normalize_timestamp` (Float64 division and `round`) is a template only, with no value semantics.
- The shared base dialect is not part of this model. This covers its type lookup beyond the exact-name table, the precision, scale and rounding fields of the column type it builds, its precision-to-digits formula (`ConvertDbPrecisionToDigits` takes it as a parameter), and the numeric values of the imported constants (`Constants` is a parameter).
- Decimal range limits are not modelled: `toDecimal128` overflow and `toUInt8` wrap-around of the digit count. Values are unbounded integers. Decimal128 holds at most 38 digits, so the `toUInt8` cast never wraps for it.
- ClickhouseNumber.NormalizeNumberEval models the value of `normalize_number` for Decimal columns only. Float32 and Float64 columns (the `Float` class) reach the same fragment, but ClickHouse's `round` on a float rounds halves to even, and `toDecimal128` and `toString` of a float are not exact; none of that is modelled.
- ClickhouseTimestamp.NormalizeTimestampEval takes a non-negative micro-second count. Before 1970, `%` on a negative count gives a negative remainder, and that case is not modelled.
- The commented-out `timestamp_value` is not modelled.
- ClickhouseFragments.NormalizeNumber states the prefix of its template rather than its whole text. The full template is its body, and its value is modelled by `ClickhouseNumber.NormalizeNumberEval`.
- ClickhouseFragments.NormalizeTimestamp states only that the rounding branch is a `toString` call, because that branch's value is floating point.

## Findings

| source | as written | input that shows it | evidently intended | confidence | as-written member | corrected member |
|---|---|---|---|---|---|---|
| data_diff/databases/clickhouse.py:150 | the cut length counts the integer digits of the unrounded `abs(v)` | 9.999 at precision 2 rounds to 10.00 but is cut to `10.0` | count the integer digits of `round(abs(v), p)`, which always keeps p fractional digits | not executed | ClickhouseNumber.NormalizeNumberCarryExample | ClickhouseNumber.NormalizeNumberFixedCanonical |
