/**
 * Typed field decoding with "unset" sentinels, the sentinel writers, and the
 * small string utilities of the EA helper module.
 */
module EaUtils {
  import opened Wrappers
  import opened Text
  import opened Numbers
  import LegacyTransform

  /** The Python types `decode` is asked for. */
  datatype FieldKind = DecimalKind | StrKind | BoolKind | IntKind | FloatKind

  /**
   * A decoded field. Floating-point and decimal payloads stay as their text;
   * `UnsetDouble`, `UnsetDecimal` and `DoubleInfinity` stand for the imported
   * constants `UNSET_DOUBLE`, `UNSET_DECIMAL` and `DOUBLE_INFINITY`.
   */
  datatype Value =
    | Str(text: string)
    | Int(n: int)
    | Bool(b: bool)
    | Double(numeral: string)
    | Decimal(digits: string)
    | UnsetDouble
    | UnsetDecimal
    | DoubleInfinity

  /** The imported integer sentinels and the infinity token, whose values this model leaves open. */
  datatype Sentinels = Sentinels(unsetInteger: int, unsetLong: int, infinityStr: string)

  datatype DecodeError =
    | NoMoreFields    // `BadMessage("no more fields")`
    | ValueError      // `int(...)` or `float(...)` of a non-numeral
    | AttributeError  // `.decode()` called on `None`
    | TypeError       // a `None` field asked for as `str`
    | InvalidOperation  // `Decimal(...)` of a non-numeral

  /** The three literal encodings of "unset" that a decimal field may carry. */
  predicate IsDecimalSentinel(s: string)
  {
    s == "2147483647" || s == "9223372036854775807" || s == "1.7976931348623157E308"
  }

  /** The integer `decode` reads for an int or bool field before any bool conversion. */
  function DecodeInteger(field: Option<string>, showUnset: bool, c: Sentinels): Result<int, DecodeError>
  {
    if field.None? || field.value == "" then Ok(if showUnset then c.unsetInteger else 0)
    else match ParseInt(field.value)
      case Some(n) => Ok(n)
      case None => Err(ValueError)
  }

  /** The Python type a decoded value has. */
  predicate OfKind(v: Value, kind: FieldKind)
  {
    match v
    case Str(_) => kind == StrKind
    case Int(_) => kind == IntKind
    case Bool(_) => kind == BoolKind
    case Double(_) | UnsetDouble | DoubleInfinity => kind == FloatKind
    case Decimal(_) | UnsetDecimal => kind == DecimalKind
  }

  /**
   * What `decode` returns for one field already taken from the iterator: a
   * value of the asked type, or one of the errors the conversions raise. A
   * missing field fails only for `str` and `float`.
   */
  function DecodeField(kind: FieldKind, field: Option<string>, showUnset: bool, c: Sentinels): (r: Result<Value, DecodeError>)
    ensures r.Ok? ==> OfKind(r.value, kind)
    ensures r.Err? ==> r.error != NoMoreFields
    ensures field.None? ==> (r.Err? <==> kind == StrKind || kind == FloatKind)
    ensures r.Ok? && r.value.Str? ==> field == Some(r.value.text)
  {
    match kind
    case DecimalKind =>
      if field.None? || field.value == "" || IsDecimalSentinel(field.value) then Ok(UnsetDecimal)
      else if IsDecimalNumeral(field.value) then Ok(Decimal(field.value))
      else Err(InvalidOperation)
    case StrKind =>
      if field.None? then Err(TypeError) else Ok(Str(field.value))
    case FloatKind =>
      if field.None? then Err(AttributeError)
      else if field.value == c.infinityStr then Ok(DoubleInfinity)
      else if field.value == "" then Ok(if showUnset then UnsetDouble else Double("0"))
      else if IsDecimalNumeral(field.value) then Ok(Double(field.value))
      else Err(ValueError)
    case IntKind =>
      (match DecodeInteger(field, showUnset, c)
       case Ok(n) => Ok(Int(n))
       case Err(e) => Err(e))
    case BoolKind =>
      (match DecodeInteger(field, showUnset, c)
       case Ok(n) => Ok(Bool(n != 0))
       case Err(e) => Err(e))
  }

  /** The shared iterator of fields that successive `decode` calls draw from. */
  class FieldStream {
    const fields: seq<Option<string>>
    var next: nat

    ghost predicate Valid()
      reads this
    {
      next <= |fields|
    }

    constructor (fields: seq<Option<string>>)
      ensures Valid() && this.fields == fields && next == 0
    {
      this.fields := fields;
      next := 0;
    }

    /**
     * `decode`: takes exactly one field, or fails with `NoMoreFields` and takes
     * nothing when the iterator is exhausted; a field whose conversion raises
     * is consumed all the same.
     */
    method Decode(kind: FieldKind, showUnset: bool, c: Sentinels) returns (r: Result<Value, DecodeError>)
      requires Valid()
      modifies this
      ensures Valid()
      ensures old(next) < |fields| ==> next == old(next) + 1 && r == DecodeField(kind, fields[old(next)], showUnset, c)
      ensures old(next) == |fields| ==> next == old(next) && r == Err(NoMoreFields)
    {
      if next == |fields| {
        return Err(NoMoreFields);
      }
      var s := fields[next];
      next := next + 1;
      r := DecodeField(kind, s, showUnset, c);
    }
  }

  /**
   * Every way of writing "unset" into a decimal field reads back as
   * `UNSET_DECIMAL`, and nothing else does; any other field is a decimal
   * exactly when it is a numeral, and raises `InvalidOperation` otherwise.
   */
  lemma DecimalUnsetForms(field: Option<string>, showUnset: bool, c: Sentinels)
    ensures DecodeField(DecimalKind, field, showUnset, c) == Ok(UnsetDecimal)
        <==> field.None? || field.value == "" || IsDecimalSentinel(field.value)
    ensures DecodeField(DecimalKind, field, showUnset, c).Err?
        <==> field.Some? && field.value != "" && !IsDecimalSentinel(field.value) && !IsDecimalNumeral(field.value)
    ensures DecodeField(DecimalKind, field, showUnset, c).Err?
        ==> DecodeField(DecimalKind, field, showUnset, c).error == InvalidOperation
  {
  }

  /**
   * A present float field other than the infinity token and the empty text is
   * its own numeral, or raises `ValueError` when it is not one.
   */
  lemma FloatNumerals(field: string, showUnset: bool, c: Sentinels)
    requires field != c.infinityStr && field != ""
    ensures DecodeField(FloatKind, Some(field), showUnset, c)
         == if IsDecimalNumeral(field) then Ok(Double(field)) else Err(ValueError)
  {
  }

  /** A bool field is its integer compared with zero: false exactly for 0. */
  lemma BoolIsNonZero(field: string, showUnset: bool, c: Sentinels)
    requires field != ""
    ensures DecodeField(BoolKind, Some(field), showUnset, c).Ok? <==> ParseInt(field).Some?
    ensures DecodeField(BoolKind, Some(field), showUnset, c) == Ok(Bool(false))
        <==> ParseInt(field) == Some(0)
  {
  }

  /** The infinity token is recognised before any other float handling, `show_unset` or not. */
  lemma InfinityFirst(showUnset: bool, c: Sentinels)
    ensures DecodeField(FloatKind, Some(c.infinityStr), showUnset, c) == Ok(DoubleInfinity)
  {
  }

  /**
   * Without `show_unset` an empty int field reads as 0, the same as "0"; with it,
   * it reads as `UNSET_INTEGER`, which differs from 0 whenever that constant does.
   * Empty float fields behave the same way with `UNSET_DOUBLE`.
   */
  lemma AbsentVersusZero(c: Sentinels)
    ensures DecodeField(IntKind, Some(""), false, c) == DecodeField(IntKind, Some("0"), false, c)
    ensures DecodeField(IntKind, Some(""), true, c) == Ok(Int(c.unsetInteger))
    ensures c.unsetInteger != 0 ==>
      DecodeField(IntKind, Some(""), true, c) != DecodeField(IntKind, Some("0"), true, c)
    ensures c.infinityStr != "" ==> DecodeField(FloatKind, Some(""), true, c) == Ok(UnsetDouble)
    ensures c.infinityStr != "" ==> DecodeField(FloatKind, Some(""), false, c) == Ok(Double("0"))
  {
    assert ParseInt("0") == Some(0) by {
      assert AllDigits("0");
      assert DigitsValue("0") == DigitsValue("0"[..0]) * 10 + 0;
    }
  }

  /** `intMaxString`: the empty field exactly for `UNSET_INTEGER`, the decimal digits otherwise. */
  function IntMaxString(val: int, unsetInteger: int): (r: string)
    ensures r == "" <==> val == unsetInteger
    ensures r != "" ==> ParseInt(r) == Some(val)
  {
    if val != unsetInteger then (ParseIntToString(val); IntToString(val)) else ""
  }

  /** `longMaxString`: the empty field exactly for `UNSET_LONG`, the decimal digits otherwise. */
  function LongMaxString(val: int, unsetLong: int): (r: string)
    ensures r == "" <==> val == unsetLong
    ensures r != "" ==> ParseInt(r) == Some(val)
  {
    if val != unsetLong then (ParseIntToString(val); IntToString(val)) else ""
  }

  /**
   * `decimalMaxString`: the empty field exactly for `UNSET_DECIMAL`, the
   * value's fixed-point text otherwise (`format` stands for `"{:f}".format`,
   * which never yields the empty text).
   */
  function DecimalMaxString<D(==,!new)>(val: D, unsetDecimal: D, format: D -> string): (r: string)
    requires forall v :: format(v) != ""
    ensures r == "" <==> val == unsetDecimal
    ensures val != unsetDecimal ==> r == format(val)
  {
    if val != unsetDecimal then format(val) else ""
  }

  /** Writing an integer, unset or not, and reading it back with `show_unset` gives the same value. */
  lemma IntSentinelRoundTrip(val: int, c: Sentinels)
    ensures DecodeField(IntKind, Some(IntMaxString(val, c.unsetInteger)), true, c) == Ok(Int(val))
  {
  }

  /**
   * A long reads back as itself unless it is `UNSET_LONG`, which is written
   * empty and so reads back as `UNSET_INTEGER`: the reader knows one integer sentinel.
   */
  lemma LongSentinelRoundTrip(val: int, c: Sentinels)
    ensures val != c.unsetLong ==>
      DecodeField(IntKind, Some(LongMaxString(val, c.unsetLong)), true, c) == Ok(Int(val))
    ensures val == c.unsetLong ==>
      DecodeField(IntKind, Some(LongMaxString(val, c.unsetLong)), true, c) == Ok(Int(c.unsetInteger))
  {
  }

  /**
   * An unset decimal written by `decimalMaxString` reads back as
   * `UNSET_DECIMAL`; any other decimal whose text is a numeral and not a
   * sentinel spelling reads back as that text.
   */
  lemma DecimalSentinelRoundTrip<D(!new)>(val: D, unsetDecimal: D, format: D -> string, showUnset: bool, c: Sentinels)
    requires forall v :: format(v) != ""
    ensures val == unsetDecimal ==>
      DecodeField(DecimalKind, Some(DecimalMaxString(val, unsetDecimal, format)), showUnset, c) == Ok(UnsetDecimal)
    ensures val != unsetDecimal && IsDecimalNumeral(format(val)) && !IsDecimalSentinel(format(val)) ==>
      DecodeField(DecimalKind, Some(DecimalMaxString(val, unsetDecimal, format)), showUnset, c) == Ok(Decimal(format(val)))
  {
  }

  /** Text is printable exactly when both of its halves are. */
  lemma AsciiPrintableConcat(a: string, b: string)
    ensures IsAsciiPrintable(a + b) <==> IsAsciiPrintable(a) && IsAsciiPrintable(b)
  {
    if IsAsciiPrintable(a + b) {
      forall i | 0 <= i < |a| ensures 32 <= a[i] as int < 128 {
        assert a[i] == (a + b)[i];
      }
      forall i | 0 <= i < |b| ensures 32 <= b[i] as int < 128 {
        assert b[i] == (a + b)[|a| + i];
      }
    }
  }

  /** `isAsciiPrintable`: every character code in [32, 128). */
  predicate IsAsciiPrintable(val: string)
  {
    forall i :: 0 <= i < |val| ==> 32 <= val[i] as int < 128
  }

  /** The legacy shift decoder yields printable ASCII exactly for bytes in [74, 170). */
  lemma ShiftDecodedPrintable(encoded: seq<LegacyTransform.byte>)
    requires LegacyTransform.DecodeString(encoded).Ok?
    ensures IsAsciiPrintable(LegacyTransform.DecodeString(encoded).value)
        <==> forall i :: 0 <= i < |encoded| ==> 74 <= encoded[i] as int < 170
  {
    var t := LegacyTransform.DecodeString(encoded).value;
    if IsAsciiPrintable(t) {
      forall i | 0 <= i < |encoded| ensures 74 <= encoded[i] as int < 170 {
        assert 32 <= t[i] as int < 128;
      }
    }
  }

  /** What `MQL5parse` returns. */
  datatype Parsed =
    | NoText                           // the input was `None`
    | Scalar(value: string)            // one group of one element
    | Table(groups: seq<seq<string>>)  // ';'-groups of ','-elements

  /** The text with its last character dropped (`text[0:len(text)-1]`), empty for empty text. */
  function DropLast(s: string): string
  {
    if |s| == 0 then s else s[..|s| - 1]
  }

  /**
   * `MQL5parse`: drop the final character, split on ';' and each group on ',',
   * and collapse a single group of a single element to that element.
   */
  method MQL5Parse(text: Option<string>) returns (r: Parsed)
    ensures text.None? <==> r == NoText
    ensures text.Some? ==>
      var body := DropLast(text.value);
      && (r.Scalar? <==> ';' !in body && ',' !in body)
      && (r.Scalar? ==> r.value == body)
      && (r.Table? ==> r.groups == SplitGroups(body))
  {
    if text.None? {
      return NoText;
    }
    var body := DropLast(text.value);
    var groups := Split(body, ';');
    var result: seq<seq<string>> := [];
    ghost var spec := SplitGroups(body);
    for i := 0 to |groups|
      invariant |result| == i
      invariant forall k :: 0 <= k < i ==> result[k] == Split(groups[k], ',')
    {
      result := result + [Split(groups[i], ',')];
    }
    SplitCount(body, ';');
    CountZero(body, ';');
    if |groups| == 1 && |result[0]| == 1 {
      SplitCount(body, ',');
      CountZero(body, ',');
      JoinSplit(body, ';');
      JoinSplit(body, ',');
      r := Scalar(result[0][0]);
    } else {
      if ';' !in body && ',' !in body {
        SplitCount(groups[0], ',');
        CountZero(groups[0], ',');
        JoinSplit(body, ';');
      }
      assert result == spec;
      r := Table(result);
    }
  }

  lemma {:induction false} CountZero(s: string, d: char)
    ensures Count(s, d) == 0 <==> d !in s
    decreases |s|
  {
    if |s| > 0 {
      CountZero(s[1..], d);
      assert s == [s[0]] + s[1..];
    }
  }

  /** The text split on ';' and every group on ','. */
  function SplitGroups(body: string): (r: seq<seq<string>>)
    ensures |r| == |Split(body, ';')|
    ensures forall i :: 0 <= i < |r| ==> r[i] == Split(Split(body, ';')[i], ',')
  {
    var groups := Split(body, ';');
    seq(|groups|, i requires 0 <= i < |groups| => Split(groups[i], ','))
  }

  /** Groups joined with ',' inside and ';' between. */
  function JoinGroups(groups: seq<seq<string>>): string
  {
    Join(seq(|groups|, i requires 0 <= i < |groups| => Join(groups[i], ',')), ';')
  }

  /** Joining the groups back with ',' and ';' rebuilds the text `MQL5parse` split. */
  lemma MQL5ParseRebuilds(body: string)
    ensures JoinGroups(SplitGroups(body)) == body
  {
    var groups := Split(body, ';');
    var split := SplitGroups(body);
    var rebuilt := seq(|split|, i requires 0 <= i < |split| => Join(split[i], ','));
    forall i | 0 <= i < |groups| ensures rebuilt[i] == groups[i] {
      JoinSplit(groups[i], ',');
    }
    assert rebuilt == groups;
    JoinSplit(body, ';');
  }

  /** The 21 period names `MQL5Period` recognises, in its scan order. */
  const PeriodNames: seq<string> := [
    "M1", "M2", "M3", "M4", "M5", "M6", "M10", "M12", "M15", "M20", "M30",
    "H1", "H2", "H3", "H4", "H6", "H8", "H12", "D1", "W1", "MN1"]

  /**
   * `MQL5Period`: scan the names for the upper-cased text, returning at the
   * first match; no match gives the current period.
   */
  method MQL5Period(text: string) returns (r: string)
    ensures Upper(text) in PeriodNames ==> r == "PERIOD_" + Upper(text)
    ensures Upper(text) !in PeriodNames ==> r == "PERIOD_CURRENT"
  {
    var upper := Upper(text);
    for i := 0 to |PeriodNames|
      invariant forall k :: 0 <= k < i ==> PeriodNames[k] != upper
    {
      if PeriodNames[i] == upper {
        return "PERIOD_" + PeriodNames[i];
      }
    }
    r := "PERIOD_CURRENT";
  }
}
