/**
 * The record normaliser of the shipwreck-registry converter.  The converter
 * reads the registry's semicolon-separated export into a list of records (one
 * mapping from column name to text per wreck) and then rewrites every record
 * in place: blank and "not specified" texts become null, the "destroyed" flag
 * and the "underwater" flag become booleans, the registry id becomes an
 * integer and the coordinate and depth columns become floats.
 */
module ParseMjRekisteri {
  import opened Wrappers
  import opened PyText

  /** A JSON value held under one key of a record. */
  datatype Value =
    | Null
    | Str(s: string)
    | Bool(b: bool)
    | Int(i: int)
      /** A Python float, identified by the literal `float()` parsed. */
    | Dec(literal: string)

  /** One registry record: column name to value. */
  type Row = map<string, Value>

  /** The Python exception a failing conversion raises. */
  datatype ErrorKind = ValueError | TypeError | AttributeError

  /** Where `modify_content` stopped: the row index, the key and the exception. */
  datatype Raised = Raised(row: nat, key: string, kind: ErrorKind)

  /** The columns of the registry export, in file order. */
  const FieldNames: seq<string> := [
    "kunta", "mj_id", "kohdenimi", "ajoitus", "tyyppi", "alatyyppi", "laji",
    "longitude", "latitude", "paikannustarkkuus", "paikannustapa", "selite",
    "tuhoutunut", "luontipvm", "muutospvm", "zala", "zylä", "vedenalainen"
  ]

  /** The columns converted to floats: the two coordinates and the two depths. */
  const FloatColumns: seq<string> := ["longitude", "latitude", "zala", "zylä"]

  /**
   * The registry's text for "not specified".  Written as a concatenation so
   * that the verifier does not evaluate every conversion on it eagerly.
   */
  const Unspecified: string := "ei " + "määritelty"

  /** The conversions act on exactly four special columns besides the float ones, all in the export. */
  lemma SpecialColumnsAreFields()
    ensures forall c | c in FloatColumns :: c in FieldNames
    ensures "mj_id" in FieldNames && "tuhoutunut" in FieldNames && "vedenalainen" in FieldNames
    ensures "mj_id" !in FloatColumns && "tuhoutunut" !in FloatColumns && "vedenalainen" !in FloatColumns
  {
  }

  /** The rule a column follows. */
  datatype Column = Underwater | RegistryId | Measure | Destroyed | Plain

  /** `vedenalainen` is Underwater, `mj_id` RegistryId, the float columns Measure, `tuhoutunut` Destroyed. */
  function ColumnOf(key: string): (c: Column)
    ensures c == Underwater <==> key == "vedenalainen"
    ensures c == RegistryId <==> key == "mj_id"
    ensures c == Measure <==> key in FloatColumns
    ensures c == Destroyed <==> key == "tuhoutunut"
  {
    if key == "vedenalainen" then Underwater
    else if key == "mj_id" then RegistryId
    else if key in FloatColumns then Measure
    else if key == "tuhoutunut" then Destroyed
    else Plain
  }

  /** What `json.load` yields for a file the CSV step wrote: texts and nulls. */
  predicate IsText(v: Value) { v.Null? || v.Str? }

  predicate IsRawRow(row: Row) { forall k | k in row :: IsText(row[k]) }

  predicate AllRaw(rows: seq<Row>) { forall i | 0 <= i < |rows| :: IsRawRow(rows[i]) }

  /** The two texts the normaliser treats as "no value". */
  predicate IsSentinel(v: Value) { v == Str("") || v == Str(Unspecified) }

  /** The first rewrite every key receives: a sentinel becomes null. */
  function Blank(v: Value): (r: Value)
    ensures r.Null? <==> v.Null? || IsSentinel(v)
    ensures !r.Null? ==> r == v
  {
    if IsSentinel(v) then Null else v
  }

  lemma SentinelNotNumber(v: Value)
    ensures IsSentinel(v) ==> ParseInt(v.s) == None && !IsFloatLiteral(ReplaceChar(v.s, ',', '.'))
  {
    if IsSentinel(v) {
      LetterFirstIsNotNumber(ReplaceChar(v.s, ',', '.'));
    }
  }

  /** `vedenalainen` ("underwater"): true exactly for "k" or "K", false for any other text. */
  function UnderwaterRule(value: Value): (r: Result<Value, ErrorKind>)
    requires IsText(value)
    ensures r == if value.Str? then Success(Bool(value.s == "k" || value.s == "K")) else Failure(AttributeError)
  {
    if value.Str? then LowerIsK(value.s); Success(Bool(Lower(value.s) == "k"))
    else Failure(AttributeError)
  }

  /** `mj_id` (registry id): the integer the text spells; a sentinel is a ValueError. */
  function IdRule(value: Value): (r: Result<Value, ErrorKind>)
    requires IsText(value)
    ensures IsSentinel(value) ==> r == Failure(ValueError)
    ensures r.Success? <==> value.Str? && IsIntLiteral(value.s)
    ensures r.Success? ==> r.value.Int?
  {
    SentinelNotNumber(value);
    if value.Null? then Failure(TypeError)
    else match ParseInt(value.s)
      case Some(n) => Success(Int(n))
      case None => Failure(ValueError)
  }

  /** A coordinate or depth column: the float of the text with decimal commas as points. */
  function FloatRule(value: Value): (r: Result<Value, ErrorKind>)
    requires IsText(value)
    ensures IsSentinel(value) ==> r == Failure(ValueError)
    ensures value.Str? ==> (r.Success? <==> IsFloatLiteral(ReplaceChar(value.s, ',', '.')))
    ensures r.Success? ==> value.Str? && r.value.Dec? && IsFloatLiteral(r.value.literal) && ',' !in r.value.literal
    ensures r.Success? ==> |r.value.literal| == |value.s|
    ensures r.Success? ==>
              forall i | 0 <= i < |value.s| :: r.value.literal[i] == (if value.s[i] == ',' then '.' else value.s[i])
  {
    SentinelNotNumber(value);
    if value.Null? then Failure(AttributeError)
    else
      var t := ReplaceChar(value.s, ',', '.');
      if IsFloatLiteral(t) then Success(Dec(t)) else Failure(ValueError)
  }

  /** Every other column: sentinels become null, and "Ei" in `tuhoutunut` ("destroyed") becomes false. */
  function PlainRule(column: Column, value: Value): (r: Value)
    ensures IsSentinel(value) ==> r == Null
    ensures column == Destroyed && value == Str("Ei") ==> r == Bool(false)
    ensures r != value ==> IsSentinel(value) || (column == Destroyed && value == Str("Ei") && r == Bool(false))
  {
    if IsSentinel(value) then Null
    else if column == Destroyed && value == Str("Ei") then Bool(false)
    else value
  }

  /**
   * The value a key ends with, given the value it started with, or the
   * exception raised while converting it: the rule of its column applied to
   * its original value alone.
   */
  function NormalizeValue(key: string, value: Value): (r: Result<Value, ErrorKind>)
    requires IsText(value)
    ensures r.Failure? ==> ColumnOf(key) == Underwater || ColumnOf(key) == RegistryId || ColumnOf(key) == Measure
  {
    match ColumnOf(key)
    case Underwater => UnderwaterRule(value)
    case RegistryId => IdRule(value)
    case Measure => FloatRule(value)
    case _ => Success(PlainRule(ColumnOf(key), value))
  }

  /** Some key of the row cannot be converted. */
  predicate RowFails(row: Row)
    requires IsRawRow(row)
  {
    exists k | k in row :: NormalizeValue(k, row[k]).Failure?
  }

  /** A row with every key converted. */
  function NormalizeRow(row: Row): (r: Row)
    requires IsRawRow(row) && !RowFails(row)
    ensures r.Keys == row.Keys
    ensures forall k | k in row :: NormalizeValue(k, row[k]) == Success(r[k])
  {
    map k | k in row :: NormalizeValue(k, row[k]).value
  }

  /**
   * What `modify_content` does to a list of records: either every row
   * normalised, in the same order, or the index of the first row that fails.
   */
  function NormalizeContent(rows: seq<Row>): (r: Result<seq<Row>, nat>)
    requires AllRaw(rows)
    ensures r.Success? <==> forall i | 0 <= i < |rows| :: !RowFails(rows[i])
    ensures r.Success? ==>
      |r.value| == |rows| && forall i | 0 <= i < |rows| :: r.value[i] == NormalizeRow(rows[i])
    ensures r.Failure? ==>
      r.error < |rows| && RowFails(rows[r.error]) && forall j | 0 <= j < r.error :: !RowFails(rows[j])
  {
    if rows == [] then Success([])
    else if RowFails(rows[0]) then Failure(0)
    else
      var tail := rows[1..];
      assert forall i | 1 <= i < |rows| :: rows[i] == tail[i - 1];
      var rest := NormalizeContent(tail);
      if rest.Failure? then Failure(rest.error + 1)
      else
        var out := [NormalizeRow(rows[0])] + rest.value;
        assert forall i | 1 <= i < |rows| :: out[i] == rest.value[i - 1];
        Success(out)
  }

  // ------------------------------------------------------------ column rules

  /** Outside the four special kinds of column a sentinel becomes null and every other value stays. */
  lemma PlainColumnRule(key: string, value: Value)
    requires IsText(value) && ColumnOf(key) == Plain
    ensures NormalizeValue(key, value) == Success(Blank(value))
  {
  }

  /** `tuhoutunut`: exactly "Ei" becomes false, a sentinel null, any other text stays. */
  lemma DestroyedRule(value: Value)
    requires IsText(value)
    ensures NormalizeValue("tuhoutunut", value) ==
      Success(if value == Str("Ei") then Bool(false) else Blank(value))
  {
  }

  /**
   * `vedenalainen` always ends as a boolean when it held text, sentinels
   * included: the null the sentinel rule writes is overwritten with false.
   */
  lemma UnderwaterIsBoolean(value: Value)
    requires IsText(value)
    ensures NormalizeValue("vedenalainen", value).Success? <==> value.Str?
    ensures value.Str? ==> NormalizeValue("vedenalainen", value) == Success(Bool(value == Str("k") || value == Str("K")))
    ensures IsSentinel(value) ==> NormalizeValue("vedenalainen", value) == Success(Bool(false))
  {
  }

  /** A registry id written by `str` is read back as that integer. */
  lemma IdRoundTrip(n: int)
    ensures NormalizeValue("mj_id", Str(FormatInt(n))) == Success(Int(n))
  {
    ParseFormatInt(n);
  }

  /** In `mj_id` and the float columns a sentinel is an error, never a null. */
  lemma SentinelIsErrorInNumericColumns(key: string, value: Value)
    requires IsSentinel(value) && (key == "mj_id" || key in FloatColumns)
    ensures NormalizeValue(key, value) == Failure(ValueError)
  {
  }

  /** A coordinate or depth written with a decimal comma becomes the float of the same digits with a point. */
  lemma MeasureWithComma(key: string, whole: string, fraction: string)
    requires key in FloatColumns && IsDigits(whole) && IsDigits(fraction)
    ensures NormalizeValue(key, Str(whole + "," + fraction)) == Success(Dec(whole + "." + fraction))
  {
    var written := whole + "," + fraction;
    DecimalCommaAccepted(whole, fraction);
    assert ColumnOf(key) == Measure;
    assert FloatRule(Str(written)) == Success(Dec(whole + "." + fraction));
  }

  /**
   * A float written back as its point-normalised text converts to the same
   * float: the float rule leaves its own output unchanged.
   */
  lemma {:induction false} FloatRuleIdempotent(value: Value)
    requires IsText(value)
    requires FloatRule(value).Success?
    ensures FloatRule(Str(FloatRule(value).value.literal)) == FloatRule(value)
  {
    var t := FloatRule(value).value.literal;
    ReplaceAbsent(t, ',', '.');
  }

  // ---------------------------------------------------------------- records

  /**
   * A record converts without an exception exactly when `vedenalainen` holds
   * text, `mj_id` holds an integer numeral and every float column holds text
   * that `float()` accepts once commas are points.
   */
  lemma RowSucceedsIff(row: Row)
    requires IsRawRow(row)
    ensures !RowFails(row) <==>
      && ("vedenalainen" in row ==> row["vedenalainen"].Str?)
      && ("mj_id" in row ==> row["mj_id"].Str? && IsIntLiteral(row["mj_id"].s))
      && forall c | c in FloatColumns && c in row ::
           row[c].Str? && IsFloatLiteral(ReplaceChar(row[c].s, ',', '.'))
  {
  }

  /**
   * In a converted record `mj_id` is an integer, `vedenalainen` a boolean,
   * every float column a float, and no sentinel text is left in any column.
   */
  lemma NormalizedRowTypes(row: Row)
    requires IsRawRow(row) && !RowFails(row)
    ensures var out := NormalizeRow(row);
      && ("mj_id" in row ==> out["mj_id"].Int?)
      && ("vedenalainen" in row ==> out["vedenalainen"].Bool?)
      && (forall c | c in FloatColumns && c in row :: out[c].Dec?)
      && forall k | k in row :: !IsSentinel(out[k])
  {
  }

  // ---------------------------------------------------------------- lists

  /** Converting a list row by row: the first row, then the rest. */
  lemma NormalizeContentCons(row: Row, rest: seq<Row>)
    requires IsRawRow(row) && AllRaw(rest)
    ensures AllRaw([row] + rest)
    ensures NormalizeContent([row] + rest) ==
      if RowFails(row) then Failure(0)
      else match NormalizeContent(rest)
        case Failure(e) => Failure(e + 1)
        case Success(x) => Success([NormalizeRow(row)] + x)
  {
  }

  /** Prepending an element commutes with appending a sequence. */
  lemma ConsAppend<T>(h: T, x: seq<T>, y: seq<T>)
    ensures [h] + (x + y) == ([h] + x) + y
  {
  }

  /**
   * Converting a list is converting its two halves: it succeeds exactly when
   * both do, the rows keep their order, and a failure is reported at the
   * first failing row of the whole list.
   */
  lemma {:induction false} NormalizeContentAppend(a: seq<Row>, b: seq<Row>)
    requires AllRaw(a) && AllRaw(b)
    ensures AllRaw(a + b)
    ensures NormalizeContent(a + b) ==
      match NormalizeContent(a)
      case Failure(e) => Failure(e)
      case Success(x) =>
        match NormalizeContent(b)
        case Failure(e) => Failure(|a| + e)
        case Success(y) => Success(x + y)
  {
    if a == [] {
      assert a + b == b;
      if NormalizeContent(b).Success? {
        assert [] + NormalizeContent(b).value == NormalizeContent(b).value;
      }
    } else {
      var tail := a[1..];
      ConsAppend(a[0], tail, b);
      assert a == [a[0]] + tail;
      NormalizeContentAppend(tail, b);
      NormalizeContentCons(a[0], tail);
      NormalizeContentCons(a[0], tail + b);
      if !RowFails(a[0]) && NormalizeContent(tail).Success? && NormalizeContent(b).Success? {
        ConsAppend(NormalizeRow(a[0]), NormalizeContent(tail).value, NormalizeContent(b).value);
      }
    }
  }

  /**
   * The value a key ends with depends only on the key and its original value:
   * not on the other keys of its record nor on the other records.
   */
  lemma CellDependsOnlyOnOriginal(rows1: seq<Row>, rows2: seq<Row>, i1: nat, i2: nat, key: string)
    requires AllRaw(rows1) && AllRaw(rows2)
    requires NormalizeContent(rows1).Success? && NormalizeContent(rows2).Success?
    requires i1 < |rows1| && i2 < |rows2| && key in rows1[i1] && key in rows2[i2]
    requires rows1[i1][key] == rows2[i2][key]
    ensures NormalizeContent(rows1).value[i1][key] == NormalizeContent(rows2).value[i2][key]
  {
  }

  /** `value.lower() == 'k'`, or the AttributeError a null raises. */
  method ToBoolean(value: Value) returns (cell: Value, err: Option<ErrorKind>)
    requires IsText(value)
    ensures match UnderwaterRule(value)
      case Success(v) => err == None && cell == v
      case Failure(e) => err == Some(e)
  {
    if !value.Str? {
      return value, Some(AttributeError);
    }
    if Lower(value.s) == "k" {
      cell := Bool(true);
    } else {
      cell := Bool(false);
    }
    err := None;
  }

  /** `int(value)`, or the TypeError a null raises, or the ValueError a non-numeral raises. */
  method ToInteger(value: Value) returns (cell: Value, err: Option<ErrorKind>)
    requires IsText(value)
    ensures match IdRule(value)
      case Success(v) => err == None && cell == v
      case Failure(e) => err == Some(e)
  {
    if !value.Str? {
      return value, Some(TypeError);
    }
    var n := ParseInt(value.s);
    if n.None? {
      return value, Some(ValueError);
    }
    return Int(n.value), None;
  }

  /** `float(value.replace(',', '.'))`, or the AttributeError a null raises, or the ValueError of a non-literal. */
  method ToFloat(value: Value) returns (cell: Value, err: Option<ErrorKind>)
    requires IsText(value)
    ensures match FloatRule(value)
      case Success(v) => err == None && cell == v
      case Failure(e) => err == Some(e)
  {
    if !value.Str? {
      return value, Some(AttributeError);
    }
    var t := ReplaceChar(value.s, ',', '.');
    if !IsFloatLiteral(t) {
      return value, Some(ValueError);
    }
    return Dec(t), None;
  }

  /**
   * The body of the inner loop of `modify_content` for one key: the rules run
   * in source order, each testing the value the key had before any of them,
   * and each conversion overwrites what the sentinel rule wrote.  On an
   * exception the record keeps what was written before it.
   */
  method RewriteField(row: Row, key: string) returns (row': Row, err: Option<ErrorKind>)
    requires key in row && IsText(row[key])
    ensures match NormalizeValue(key, row[key])
      case Success(v) => err == None && row' == row[key := v]
      case Failure(e) => err == Some(e) && row' == row[key := Blank(row[key])]
  {
    var column := ColumnOf(key);
    var value := row[key];
    row' := row;
    if value == Str("") || value == Str(Unspecified) {
      row' := row'[key := Null];
    }
    if column == Destroyed && value == Str("Ei") {
      row' := row'[key := Bool(false)];
    }
    err := None;
    var cell: Value;
    if column == Underwater {
      cell, err := ToBoolean(value);
      if err.Some? {
        return;
      }
      row' := row'[key := cell];
    }
    if column == RegistryId {
      cell, err := ToInteger(value);
      if err.Some? {
        return;
      }
      row' := row'[key := cell];
    }
    if column == Measure {
      cell, err := ToFloat(value);
      if err.Some? {
        return;
      }
      row' := row'[key := cell];
    }
  }

  /**
   * The inner loop of `modify_content` over the keys of one record.  Keys are
   * visited in an unspecified order (Python visits them in insertion order);
   * the loop stops at the first exception, keeping what it already wrote.
   */
  method RewriteRow(row: Row) returns (row': Row, failure: Option<(string, ErrorKind)>)
    requires IsRawRow(row)
    ensures row'.Keys == row.Keys
    ensures failure.None? <==> !RowFails(row)
    ensures failure.None? ==> row' == NormalizeRow(row)
    ensures failure.Some? ==>
      var (key, kind) := failure.value;
      && key in row && NormalizeValue(key, row[key]) == Failure(kind)
      && row'[key] == Blank(row[key])
      && forall k | k in row && k != key ::
           row'[k] == row[k] || NormalizeValue(k, row[k]) == Success(row'[k])
  {
    row' := row;
    var keys := row.Keys;
    while keys != {}
      invariant keys <= row.Keys
      invariant row'.Keys == row.Keys
      invariant forall k | k in keys :: row'[k] == row[k]
      invariant forall k | k in row && k !in keys :: NormalizeValue(k, row[k]) == Success(row'[k])
      decreases keys
    {
      var key :| key in keys;
      var err;
      row', err := RewriteField(row', key);
      if err.Some? {
        return row', Some((key, err.value));
      }
      keys := keys - {key};
    }
    failure := None;
  }

  /**
   * `modify_content`: rewrites every record of `content` in place and returns
   * the same list, or stops at the first exception, leaving the records
   * before it rewritten, the failing one partly rewritten and the rest as
   * they were.
   */
  method ModifyContent(content: array<Row>) returns (r: Result<array<Row>, Raised>)
    requires forall i | 0 <= i < content.Length :: IsRawRow(content[i])
    modifies content
    ensures AllRaw(old(content[..]))
    ensures r.Success? <==> NormalizeContent(old(content[..])).Success?
    ensures r.Success? ==> r.value == content && content[..] == NormalizeContent(old(content[..])).value
    ensures r.Failure? ==>
      var i, key := r.error.row, r.error.key;
      var rows := old(content[..]);
      && NormalizeContent(rows) == Failure(i)
      && i < content.Length
      && key in rows[i] && NormalizeValue(key, rows[i][key]) == Failure(r.error.kind)
      && (forall j | 0 <= j < i :: content[j] == NormalizeRow(rows[j]))
      && (forall j | i < j < content.Length :: content[j] == rows[j])
      && content[i].Keys == rows[i].Keys
      && content[i][key] == Blank(rows[i][key])
      && forall k | k in rows[i] && k != key ::
           content[i][k] == rows[i][k] || NormalizeValue(k, rows[i][k]) == Success(content[i][k])
  {
    ghost var rows := content[..];
    assert AllRaw(rows);
    var i := 0;
    while i < content.Length
      invariant 0 <= i <= content.Length
      invariant forall j | 0 <= j < i :: !RowFails(rows[j]) && content[j] == NormalizeRow(rows[j])
      invariant forall j | i <= j < content.Length :: content[j] == rows[j]
    {
      var row', failure := RewriteRow(content[i]);
      content[i] := row';
      if failure.Some? {
        return Failure(Raised(i, failure.value.0, failure.value.1));
      }
      i := i + 1;
    }
    assert content[..] == NormalizeContent(rows).value;
    return Success(content);
  }
}
