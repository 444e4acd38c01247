/**
 * The lookup tables of the JavaScript client: the timeframe names of the
 * terminal and the translation between universal and broker instrument names.
 */
module JsLookup {
  import opened Wrappers
  import opened Text
  import EaUtils

  datatype LookupError = InvalidTimeframe | InstrumentNotFound

  /** `getTimeframeValue`'s table: the terminal's numeric code of each timeframe name. */
  const TimeframeMap: map<string, int> := map[
    "MN1" := 49153, "W1" := 32769, "D1" := 16408, "H12" := 16396, "H8" := 16392,
    "H6" := 16390, "H4" := 16388, "H3" := 16387, "H2" := 16386, "H1" := 16385,
    "M30" := 30, "M20" := 20, "M15" := 15, "M12" := 12, "M10" := 10,
    "M6" := 6, "M5" := 5, "M4" := 4, "M3" := 3, "M2" := 2, "M1" := 1]

  /** `getTimeframeValue`: the code of the upper-cased name, or `INVALID_TIMEFRAME`. */
  function TimeframeValue(timeframe: string): (r: Result<int, LookupError>)
    ensures r.Ok? <==> Upper(timeframe) in TimeframeMap.Keys
    ensures r.Err? ==> r.error == InvalidTimeframe
    ensures r.Ok? ==> r.value >= 1
  {
    var key := Upper(timeframe);
    if key in TimeframeMap then Ok(TimeframeMap[key]) else Err(InvalidTimeframe)
  }

  lemma UpperIdempotent(s: string)
    ensures Upper(Upper(s)) == Upper(s)
  {
  }

  /** The lookup ignores case. */
  lemma TimeframeCaseInsensitive(timeframe: string)
    ensures TimeframeValue(timeframe) == TimeframeValue(Upper(timeframe))
  {
    UpperIdempotent(timeframe);
  }

  /** Sample entries: M5 is 5, H1 is 16385, D1 is 16408, MN1 is 49153. */
  lemma TimeframeSamples()
    ensures TimeframeValue("M5") == Ok(5) && TimeframeValue("H1") == Ok(16385)
    ensures TimeframeValue("D1") == Ok(16408) && TimeframeValue("MN1") == Ok(49153)
  {
    assert Upper("M5") == "M5";
    assert Upper("H1") == "H1";
    assert Upper("D1") == "D1";
    assert Upper("MN1") == "MN1";
  }

  /** Lower case is accepted (`h1` is `H1`); an unknown name such as `M7` is refused. */
  lemma TimeframeCaseAndUnknown()
    ensures TimeframeValue("h1") == Ok(16385)
    ensures TimeframeValue("M7") == Err(InvalidTimeframe)
  {
    assert Upper("h1") == "H1";
    assert Upper("M7") == "M7";
  }

  /** Distinct timeframe names have distinct codes, so a code names one timeframe. */
  lemma TimeframeCodesDistinct(a: string, b: string)
    requires a in TimeframeMap && b in TimeframeMap && a != b
    ensures TimeframeMap[a] != TimeframeMap[b]
  {
  }

  /** The JavaScript table and the Python `MQL5Period` list know exactly the same 21 names. */
  lemma TimeframesMatchPeriods(timeframe: string)
    ensures TimeframeValue(timeframe).Ok? <==> Upper(timeframe) in EaUtils.PeriodNames
  {
  }

  /**
   * The instrument conversion list, universal name to broker name, in the key
   * order of the JavaScript object. An object literal keeps one entry per key,
   * so the lists the client builds satisfy `KeysUnique`; which entry comes
   * first matters only when looking up by value, where a broker name may
   * repeat.
   */
  type ConversionList = seq<(string, string)>

  predicate KeysUnique(list: ConversionList)
  {
    forall i, j :: 0 <= i < j < |list| ==> list[i].0 != list[j].0
  }

  predicate ValuesUnique(list: ConversionList)
  {
    forall i, j :: 0 <= i < j < |list| ==> list[i].1 != list[j].1
  }

  /** Index of the first entry whose key is `key`. */
  function FindKey(list: ConversionList, key: string): (r: Option<nat>)
    ensures r.Some? ==> (r.value < |list| && list[r.value].0 == key
                         && forall i :: 0 <= i < r.value ==> list[i].0 != key)
    ensures r.None? ==> forall i :: 0 <= i < |list| ==> list[i].0 != key
  {
    if |list| == 0 then None
    else if list[0].0 == key then Some(0)
    else match FindKey(list[1..], key)
      case Some(i) => Some(i + 1)
      case None => None
  }

  /** Index of the first entry whose value is `value` (`Object.keys(...).find`). */
  function FindValue(list: ConversionList, value: string): (r: Option<nat>)
    ensures r.Some? ==> (r.value < |list| && list[r.value].1 == value
                         && forall i :: 0 <= i < r.value ==> list[i].1 != value)
    ensures r.None? ==> forall i :: 0 <= i < |list| ==> list[i].1 != value
  {
    if |list| == 0 then None
    else if list[0].1 == value then Some(0)
    else match FindValue(list[1..], value)
      case Some(i) => Some(i + 1)
      case None => None
  }

  /**
   * `getBrokerInstrumentName`: the non-empty broker name listed for the
   * universal name; a missing or empty (falsy) broker name is
   * `INSTRUMENT_NOT_FOUND`.
   */
  function BrokerName(list: ConversionList, universal: string): (r: Result<string, LookupError>)
    ensures r.Ok? ==> r.value != "" && (universal, r.value) in list
    ensures r.Err? ==> r.error == InstrumentNotFound
    ensures (forall i :: 0 <= i < |list| ==> list[i].0 != universal) ==> r.Err?
    ensures KeysUnique(list) ==>
      forall i :: 0 <= i < |list| && list[i].0 == universal && list[i].1 != "" ==> r == Ok(list[i].1)
  {
    match FindKey(list, universal)
    case Some(i) => if list[i].1 == "" then Err(InstrumentNotFound) else Ok(list[i].1)
    case None => Err(InstrumentNotFound)
  }

  /**
   * `getUniversalInstrumentName`: the non-empty universal name listed with the
   * broker name, the first one when several are; none, or an empty (falsy)
   * first key, is `INSTRUMENT_NOT_FOUND`.
   */
  function UniversalName(list: ConversionList, broker: string): (r: Result<string, LookupError>)
    ensures r.Ok? <==> FindValue(list, broker).Some? && list[FindValue(list, broker).value].0 != ""
    ensures r.Ok? ==> r.value == list[FindValue(list, broker).value].0
    ensures r.Ok? ==> r.value != "" && (r.value, broker) in list
    ensures r.Err? ==> r.error == InstrumentNotFound
    ensures (forall i :: 0 <= i < |list| ==> list[i].1 != broker) ==> r.Err?
    ensures ValuesUnique(list) ==>
      forall i :: 0 <= i < |list| && list[i].1 == broker && list[i].0 != "" ==> r == Ok(list[i].0)
  {
    match FindValue(list, broker)
    case Some(i) => if list[i].0 == "" then Err(InstrumentNotFound) else Ok(list[i].0)
    case None => Err(InstrumentNotFound)
  }

  /** With injective broker names, translating a non-empty universal name there and back gives it again. */
  lemma UniversalInvertsBroker(list: ConversionList, universal: string)
    requires KeysUnique(list) && ValuesUnique(list)
    requires universal != "" && BrokerName(list, universal).Ok?
    ensures UniversalName(list, BrokerName(list, universal).value) == Ok(universal)
  {
    var i := FindKey(list, universal).value;
    var j := FindValue(list, list[i].1).value;
    assert j == i;
  }

  /** A broker name that translates to a universal name is that name's broker name. */
  lemma BrokerInvertsUniversal(list: ConversionList, broker: string)
    requires KeysUnique(list)
    requires broker != "" && UniversalName(list, broker).Ok?
    ensures BrokerName(list, UniversalName(list, broker).value) == Ok(broker)
  {
    var j := FindValue(list, broker).value;
    var i := FindKey(list, list[j].0).value;
    assert i == j;
  }

  /** The empty key is never translated back, even though the forward lookup finds it. */
  lemma EmptyKeyNotInvertible()
    ensures BrokerName([("", "EURUSD.x")], "") == Ok("EURUSD.x")
    ensures UniversalName([("", "EURUSD.x")], "EURUSD.x") == Err(InstrumentNotFound)
  {
  }
}
