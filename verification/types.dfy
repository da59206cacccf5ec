/** Classification of ClickHouse column types: `Dialect.parse_type` over the
    `TYPE_CLASSES` table, producing the canonical, engine-independent column
    types. A name the table does not hold fails explicitly. */
module ClickhouseTypes {
  import opened Strings

  /** Canonical column types. Precision and scale, which the shared base
      dialect attaches, are not part of this model. */
  datatype ColType =
    | Integer
    | Float
    | Decimal
    | Text
    | Timestamp(rounds: bool)
    | Boolean
    | NativeUUID

  type DbPath = seq<string>

  /** A column as schema introspection reports it; `dataType` is the raw type
      string that the dialect reads as `type_repr` and rewrites with `evolve`. */
  datatype RawColumnInfo = RawColumnInfo(columnName: string, dataType: string)

  datatype DialectError =
    | UnsupportedType(typeName: string, tablePath: DbPath)
    | NotImplemented(operation: string)

  datatype Result<T> = Ok(value: T) | Err(error: DialectError)

  /** ClickHouse truncates, rather than rounds, sub-precision digits. */
  const RoundsOnPrecLoss: bool := false

  const TypeClasses: map<string, ColType> := map[
    "Int8" := Integer,
    "Int16" := Integer,
    "Int32" := Integer,
    "Int64" := Integer,
    "Int128" := Integer,
    "Int256" := Integer,
    "UInt8" := Integer,
    "UInt16" := Integer,
    "UInt32" := Integer,
    "UInt64" := Integer,
    "UInt128" := Integer,
    "UInt256" := Integer,
    "Float32" := Float,
    "Float64" := Float,
    "Decimal" := Decimal,
    "UUID" := NativeUUID,
    "String" := Text,
    "FixedString" := Text,
    "DateTime" := Timestamp(RoundsOnPrecLoss),
    "DateTime64" := Timestamp(RoundsOnPrecLoss),
    "Bool" := Boolean
  ]

  const NullablePrefix: string := "Nullable("

  /** The parameterised families, in the order `parse_type` tests them. */
  const Families: seq<string> := ["Decimal", "FixedString", "DateTime64"]

  /** The inherited exact-name lookup of the shared base dialect. */
  function LookupType(tablePath: DbPath, info: RawColumnInfo): (r: Result<ColType>)
    ensures r.Ok? <==> info.dataType in TypeClasses
    ensures r.Ok? ==> r.value in TypeClasses.Values
    ensures r.Err? ==> r.error == UnsupportedType(info.dataType, tablePath)
  {
    if info.dataType in TypeClasses then Ok(TypeClasses[info.dataType])
    else Err(UnsupportedType(info.dataType, tablePath))
  }

  /** The `Nullable(` step of `parse_type`: the prefix goes, and so does
      every trailing `)`, not only the one that closes the wrapper. */
  function Unwrap(info: RawColumnInfo): RawColumnInfo {
    if StartsWith(info.dataType, NullablePrefix)
    then info.(dataType := RStrip(info.dataType[|NullablePrefix|..], ')'))
    else info
  }

  /** The family step of `parse_type`: the first family the name begins
      with replaces the whole name. */
  function Collapse(info: RawColumnInfo): RawColumnInfo {
    if StartsWith(info.dataType, "Decimal") then info.(dataType := "Decimal")
    else if StartsWith(info.dataType, "FixedString") then info.(dataType := "FixedString")
    else if StartsWith(info.dataType, "DateTime64") then info.(dataType := "DateTime64")
    else info
  }

  /** `Dialect.parse_type`: unwrap, collapse, then the inherited lookup. */
  function ParseType(tablePath: DbPath, info: RawColumnInfo): (r: Result<ColType>)
    ensures r.Ok? ==> r.value in TypeClasses.Values
    ensures r.Ok? && r.value.Timestamp? ==> !r.value.rounds
    ensures r.Err? ==> r.error.UnsupportedType? && r.error.tablePath == tablePath
    ensures r.Err? ==> r.error.typeName !in TypeClasses
  {
    LookupType(tablePath, Collapse(Unwrap(info)))
  }

  predicate HasFamilyPrefix(s: string) {
    StartsWith(s, "Decimal") || StartsWith(s, "FixedString") || StartsWith(s, "DateTime64")
  }

  /** A name that is neither wrapped nor in a family is looked up verbatim:
      it classifies exactly when the table holds it, and fails otherwise. */
  lemma ParseTypeVerbatim(tablePath: DbPath, info: RawColumnInfo)
    requires !StartsWith(info.dataType, NullablePrefix) && !HasFamilyPrefix(info.dataType)
    ensures info.dataType in TypeClasses ==> ParseType(tablePath, info) == Ok(TypeClasses[info.dataType])
    ensures info.dataType !in TypeClasses ==>
      ParseType(tablePath, info) == Err(UnsupportedType(info.dataType, tablePath))
  {
  }

  /** A string that begins with a family name collapses to that bare name. */
  lemma CollapseFamily(info: RawColumnInfo, i: nat)
    requires i < |Families| && StartsWith(info.dataType, Families[i])
    ensures Collapse(info).dataType == Families[i]
  {
    var s := info.dataType;
    if i == 1 {
      assert s[0] != "Decimal"[0];
    } else if i == 2 {
      assert s[1] != "Decimal"[1] && s[0] != "FixedString"[0];
    }
  }

  /** Any string that begins with a family name is classified under that
      bare name, whatever parameter list follows. */
  lemma FamilyParametersIgnored(tablePath: DbPath, info: RawColumnInfo, i: nat, params: string)
    requires i < |Families|
    ensures ParseType(tablePath, info.(dataType := Families[i] + params))
      == Ok(TypeClasses[Families[i]])
  {
    var family := Families[i];
    var plain := info.(dataType := family + params);
    assert plain.dataType[..|family|] == family;
    assert plain.dataType[0] != 'N';
    assert Unwrap(plain) == plain;
    CollapseFamily(plain, i);
  }

  /** The same holds inside `Nullable(…)`: the wrapper and the trailing
      brackets go before the family test. */
  lemma NullableFamilyParametersIgnored(tablePath: DbPath, info: RawColumnInfo, i: nat, params: string)
    requires i < |Families|
    ensures ParseType(tablePath, info.(dataType := NullablePrefix + Families[i] + params + ")"))
      == Ok(TypeClasses[Families[i]])
  {
    var family := Families[i];
    var wrapped := info.(dataType := NullablePrefix + family + params + ")");
    assert wrapped.dataType[..|NullablePrefix|] == NullablePrefix;
    assert wrapped.dataType[|NullablePrefix|..] == family + params + ")";
    RStripKeepsPrefix(family + params + ")", family, ')');
    CollapseFamily(Unwrap(wrapped), i);
  }

  /** `Nullable(T)` classifies exactly as `T` when T is not itself wrapped and
      does not end in `)`: the wrapper and its closing parenthesis vanish. */
  lemma NullableTransparent(tablePath: DbPath, info: RawColumnInfo, t: string)
    requires !StartsWith(t, NullablePrefix)
    requires |t| == 0 || t[|t| - 1] != ')'
    ensures ParseType(tablePath, info.(dataType := NullablePrefix + t + ")"))
      == ParseType(tablePath, info.(dataType := t))
  {
    var wrapped := NullablePrefix + t + ")";
    assert wrapped[..|NullablePrefix|] == NullablePrefix;
    assert wrapped[|NullablePrefix|..] == t + ")";
    RStripAppend(t, ')');
    RStripNoTrailing(t, ')');
  }

  /** The second character and the length tell the family names apart from
      the other names of the table. */
  lemma TableNameShapes(name: string)
    requires name in TypeClasses
    ensures |name| >= 2 && name[0] != 'N' && name[|name| - 1] != ')'
    ensures name[1] == 'e' ==> name == "Decimal"
    ensures name[1] == 'i' ==> name == "FixedString"
    ensures name[1] == 'a' && |name| >= 10 ==> name == "DateTime64"
  {
  }

  /** A table name is left alone by the family step: the only table names
      that begin with a family name are the bare family names. */
  lemma CollapseTableName(info: RawColumnInfo)
    requires info.dataType in TypeClasses
    ensures Collapse(info) == info
  {
    var name := info.dataType;
    TableNameShapes(name);
    if StartsWith(name, "Decimal") {
      assert name[1] == 'e';
    } else if StartsWith(name, "FixedString") {
      assert name[1] == 'i';
    } else if StartsWith(name, "DateTime64") {
      assert name[1] == 'a';
    }
  }

  /** Every name of the table classifies to its entry, bare or wrapped in
      `Nullable(…)`. */
  lemma TableNamesClassify(tablePath: DbPath, info: RawColumnInfo, name: string)
    requires name in TypeClasses
    ensures ParseType(tablePath, info.(dataType := name)) == Ok(TypeClasses[name])
    ensures ParseType(tablePath, info.(dataType := NullablePrefix + name + ")")) == Ok(TypeClasses[name])
  {
    var named := info.(dataType := name);
    TableNameShapes(name);
    assert !StartsWith(name, NullablePrefix);
    assert Unwrap(named) == named;
    CollapseTableName(named);
    NullableTransparent(tablePath, info, name);
  }

  /** Plain `DateTime` is looked up verbatim: of all the names that begin with
      `DateTime` but not `DateTime64`, it alone classifies (as a truncating
      Timestamp); `DateTime('UTC')` and the like fail. */
  lemma DateTimeVerbatim(tablePath: DbPath, info: RawColumnInfo)
    requires StartsWith(info.dataType, "DateTime") && !StartsWith(info.dataType, "DateTime64")
    ensures ParseType(tablePath, info).Ok? <==> info.dataType == "DateTime"
    ensures info.dataType == "DateTime" ==> ParseType(tablePath, info) == Ok(Timestamp(false))
  {
    var s := info.dataType;
    assert s[0] == 'D' && s[1] == 'a';
    assert !StartsWith(s, NullablePrefix) && !HasFamilyPrefix(s);
  }

  /** Composite types are not in the table and fail with their own name. */
  lemma CompositeTypeFails(tablePath: DbPath, info: RawColumnInfo)
    ensures ParseType(tablePath, info.(dataType := "Array(String)"))
      == Err(UnsupportedType("Array(String)", tablePath))
  {
    var plain := "Array(String)";
    assert plain[0] == 'A';
    assert !StartsWith(plain, NullablePrefix) && !HasFamilyPrefix(plain);
    assert plain !in TypeClasses;
  }

  /** A wrapped name that is not in the table fails, and the error names it
      without any of its closing brackets: `Nullable(Array(String))` fails
      as `Array(String`. */
  lemma NullableUnknownFails(tablePath: DbPath, info: RawColumnInfo, t: string, k: nat)
    requires |t| == 0 || t[|t| - 1] != ')'
    requires !HasFamilyPrefix(t) && t !in TypeClasses
    ensures ParseType(tablePath, info.(dataType := NullablePrefix + t + Repeat(')', k)))
      == Err(UnsupportedType(t, tablePath))
  {
    var wrapped := NullablePrefix + t + Repeat(')', k);
    assert wrapped[..|NullablePrefix|] == NullablePrefix;
    assert wrapped[|NullablePrefix|..] == t + Repeat(')', k);
    RStripRepeat(t, ')', k);
    assert Unwrap(info.(dataType := wrapped)) == info.(dataType := t);
  }
}
