/**
 * The parts of DatasetController that compute something rather than route:
 * the input checks and defaults of the JSON MKT endpoint, and the dataset
 * export (format choice, row table, CSV body, download filename). Requests,
 * responses and headers are reduced to the values they carry.
 */
module DatasetController {
  import opened Wrappers
  import opened PhpValue
  import PhpText
  import opened Entities
  import MktCalculator

  // ---------------------------------------------------------------------
  // apiCalculateMkt
  // ---------------------------------------------------------------------

  /**
   * PHP Errors escape the endpoint's `catch (\Exception)` and become an
   * HTTP 500: a TypeError when the activation energy cannot be passed as a
   * float, a DivisionByZeroError from the MKT arithmetic.
   */
  datatype ServerFault = ParameterTypeError | DivisionByZeroError

  datatype MktResponse =
    | Ok(mkt: real, activationEnergy: Value, temperatureCount: nat)  // 200
    | BadRequest(error: string)                                       // 400, { "error": ... }
    | ServerError(fault: ServerFault)                                 // 500

  const TemperaturesRequired: string := "temperatures array is required"
  const EmptyTemperatures: string := "Temperature array cannot be empty"

  /** The body carries `temperatures`, set and an array. */
  predicate HasTemperatureArray(data: Value)
  {
    IsSet(data, "temperatures") && Get(data, "temperatures").Arr?
  }

  /** `$data['activationEnergy'] ?? 83.144`: the request's value, or the default when unset or null. */
  function ActivationEnergyArgument(data: Value): (ae: Value)
    ensures ae != Null
    ensures !IsSet(data, "activationEnergy") ==> ae == Num(MktCalculator.DefaultActivationEnergy)
  {
    if IsSet(data, "activationEnergy") then Get(data, "activationEnergy")
    else Num(MktCalculator.DefaultActivationEnergy)
  }

  /**
   * Passing a value to a `float` parameter in PHP's coercive typing mode:
   * numbers and booleans convert, a string converts when it starts with a
   * number, and anything else is a TypeError (None).
   */
  function CoerceFloatParameter(v: Value): (r: Option<real>)
    ensures r.Some? ==> r.value == FloatCast(v)
    ensures r.None? <==> v.Null? || v.Arr? || (v.Str? && PhpText.NumericPrefixLength(v.s, |v.s|) == 0)
  {
    match v
    case Null => None
    case Bool(b) => Some(if b then 1.0 else 0.0)
    case Num(n) => Some(n)
    case Str(s) => if PhpText.NumericPrefixLength(s, |s|) > 0 then Some(PhpText.FloatCast(s)) else None
    case Arr(_) => None
  }

  /** The `(float) $temperature` of each array element, in iteration order. */
  function CastTemperatures(entries: seq<Entry>): (temps: seq<real>)
    ensures |temps| == |entries|
    ensures forall i :: 0 <= i < |entries| ==> temps[i] == FloatCast(entries[i].value)
  {
    seq(|entries|, i requires 0 <= i < |entries| => FloatCast(entries[i].value))
  }

  /**
   * What `apiCalculateMkt` answers for a decoded request body: a body without
   * a `temperatures` array is a 400; the activation energy is defaulted, then
   * coerced to float at the call; an empty array is a 400 from the service;
   * a success echoes the activation energy as sent and the element count.
   */
  function ApiCalculateMkt(data: Value, t: MktCalculator.Transcendental): (resp: MktResponse)
    ensures resp == BadRequest(TemperaturesRequired) <==> !HasTemperatureArray(data)
    ensures resp.Ok? ==>
              && HasTemperatureArray(data)
              && resp.temperatureCount == |Get(data, "temperatures").entries| > 0
              && resp.activationEnergy == ActivationEnergyArgument(data)
              && CoerceFloatParameter(resp.activationEnergy).Some?
              && MktCalculator.MktFromArray(CastTemperatures(Get(data, "temperatures").entries),
                                            CoerceFloatParameter(resp.activationEnergy).value, t)
                 == Success(resp.mkt)
  {
    if !HasTemperatureArray(data) then BadRequest(TemperaturesRequired)
    else
      var entries := Get(data, "temperatures").entries;
      var ae := ActivationEnergyArgument(data);
      match CoerceFloatParameter(ae)
      case None => ServerError(ParameterTypeError)
      case Some(energy) =>
        match MktCalculator.MktFromArray(CastTemperatures(entries), energy, t)
        case Success(mkt) => Ok(mkt, ae, |entries|)
        case Failure(e) =>
          if e == MktCalculator.EmptyTemperatureArray then BadRequest(EmptyTemperatures)
          else ServerError(DivisionByZeroError)
  }

  /**
   * Without an activation energy the endpoint computes with 83.144 and echoes
   * 83.144; with an empty array it is a 400 from the service.
   */
  lemma DefaultActivationEnergyApplies(data: Value, t: MktCalculator.Transcendental)
    requires HasTemperatureArray(data) && !IsSet(data, "activationEnergy")
    ensures var entries := Get(data, "temperatures").entries;
      var expected := MktCalculator.MktFromArray(CastTemperatures(entries), MktCalculator.DefaultActivationEnergy, t);
      var resp := ApiCalculateMkt(data, t);
      (|entries| == 0 ==> resp == BadRequest(EmptyTemperatures))
      && (expected.Success? ==> resp == Ok(expected.value, Num(MktCalculator.DefaultActivationEnergy), |entries|))
      && (|entries| > 0 && expected.Failure? ==> resp == ServerError(DivisionByZeroError))
  {
    var entries := Get(data, "temperatures").entries;
    assert CoerceFloatParameter(ActivationEnergyArgument(data)) == Some(MktCalculator.DefaultActivationEnergy);
    if |entries| > 0 {
      assert MktCalculator.MktFromArray(CastTemperatures(entries), MktCalculator.DefaultActivationEnergy, t)
        != Failure(MktCalculator.EmptyTemperatureArray);
    }
  }

  /** The array `[v0, v1, ...]` as decoded JSON: list positions are the keys. */
  function List(vs: seq<Value>): (v: Value)
    ensures v.Arr? && |v.entries| == |vs|
    ensures forall i :: 0 <= i < |vs| ==> v.entries[i] == Entry(NatText(i), vs[i])
  {
    Arr(seq(|vs|, i requires 0 <= i < |vs| => Entry(NatText(i), vs[i])))
  }

  /** The body `{"temperatures": temps, "activationEnergy": 83.144}`. */
  function RequestBody(temps: seq<Value>): Value
  {
    Arr([Entry("temperatures", List(temps)), Entry("activationEnergy", Num(83.144))])
  }

  /**
   * Three readings with activation energy 83.144: the answer, whenever the
   * service succeeds, echoes 83.144 and counts 3.
   */
  lemma ThreeTemperaturesEchoEnergyAndCount(t: MktCalculator.Transcendental)
    ensures var resp := ApiCalculateMkt(RequestBody([Num(20.0), Num(25.0), Num(30.0)]), t);
      (resp.Ok? <==> MktCalculator.MktFromArray([20.0, 25.0, 30.0], 83.144, t).Success?)
      && (resp.Ok? ==> resp.activationEnergy == Num(83.144) && resp.temperatureCount == 3)
  {
    var data := RequestBody([Num(20.0), Num(25.0), Num(30.0)]);
    assert IsSet(data, "temperatures") && Get(data, "temperatures") == List([Num(20.0), Num(25.0), Num(30.0)]);
    assert IsSet(data, "activationEnergy") && Get(data, "activationEnergy") == Num(83.144);
    var entries := Get(data, "temperatures").entries;
    assert CastTemperatures(entries) == [20.0, 25.0, 30.0];
  }

  /** An empty `temperatures` array with a numeric activation energy is a 400. */
  lemma EmptyTemperaturesAreBadRequest(t: MktCalculator.Transcendental)
    ensures ApiCalculateMkt(RequestBody([]), t) == BadRequest(EmptyTemperatures)
  {
    var data := RequestBody([]);
    assert IsSet(data, "temperatures") && Get(data, "temperatures") == List([]);
    assert IsSet(data, "activationEnergy") && Get(data, "activationEnergy") == Num(83.144);
  }

  /**
   * The activation energy is coerced when the service is called, before the
   * service looks at the array: a non-numeric one is a TypeError (500) even
   * for an empty array.
   */
  lemma NonNumericEnergyIsTypeError(data: Value, t: MktCalculator.Transcendental)
    requires HasTemperatureArray(data) && IsSet(data, "activationEnergy")
    requires Get(data, "activationEnergy").Str? && PhpText.NumericPrefixLength(Get(data, "activationEnergy").s, |Get(data, "activationEnergy").s|) == 0
    ensures ApiCalculateMkt(data, t) == ServerError(ParameterTypeError)
  {
  }

  // ---------------------------------------------------------------------
  // apiExport
  // ---------------------------------------------------------------------

  datatype ExportFormat = Csv | Json

  /**
   * `$request->query->get('format', 'csv')` and the switch on it: only the
   * exact value "json" selects JSON; no value, "csv" and any other value
   * produce CSV.
   */
  function ExportFormatOf(query: Option<string>): (f: ExportFormat)
    ensures f == Json <==> query == Some("json")
  {
    var format := if query.Some? then query.value else "csv";
    if format == "json" then Json else Csv
  }

  function Extension(f: ExportFormat): string
  {
    if f == Json then "json" else "csv"
  }

  function ContentType(f: ExportFormat): string
  {
    if f == Json then "application/json" else "text/csv"
  }

  /**
   * How values become text: `format('Y-m-d H:i:s')` of an instant, and the
   * text a DECIMAL(8,4) column reads back as.
   */
  datatype Formatter = Formatter(dateTime: int -> string, decimal: real -> string)

  /** One entry of `$temperatureReadings`. */
  datatype ExportRow = ExportRow(timestamp: string, temperature: string, temperatureKelvin: string, unixTimestamp: int)

  function RowOf(r: TemperatureReading, fmt: Formatter): ExportRow
    reads r
  {
    ExportRow(fmt.dateTime(r.timestamp), fmt.decimal(r.temperature), fmt.decimal(r.temperatureKelvin), r.unixTimestamp)
  }

  /** The export table: one row per reading, in collection order. */
  function RowsOf(readings: seq<TemperatureReading>, fmt: Formatter): (rows: seq<ExportRow>)
    reads readings
    ensures |rows| == |readings|
  {
    seq(|readings|, i reads readings requires 0 <= i < |readings| => RowOf(readings[i], fmt))
  }

  /** The `foreach` that builds `$temperatureReadings`. */
  method ExportRows(readings: seq<TemperatureReading>, fmt: Formatter) returns (rows: seq<ExportRow>)
    ensures rows == RowsOf(readings, fmt)
  {
    rows := [];
    var i := 0;
    while i < |readings|
      invariant 0 <= i <= |readings|
      invariant rows == RowsOf(readings[..i], fmt)
    {
      rows := rows + [RowOf(readings[i], fmt)];
      i := i + 1;
    }
    assert readings[..i] == readings;
  }

  /** PHP's decimal text of a natural number. */
  function NatText(n: nat): (s: string)
    ensures |s| >= 1 && PhpText.AllDigits(s)
    ensures PhpText.DigitsValue(s) == n
  {
    var d := [('0' as int + n % 10) as char];
    if n < 10 then d
    else
      var s := NatText(n / 10) + d;
      assert s[..|s| - 1] == NatText(n / 10);
      s
  }

  /** PHP's decimal text of an integer, as `implode` writes it. */
  function IntText(n: int): (s: string)
    ensures n >= 0 ==> s == NatText(n)
    ensures n < 0 ==> s == "-" + NatText(-n)
  {
    if n >= 0 then NatText(n) else "-" + NatText(-n)
  }

  /** The values of one row, in the order `implode` joins them. */
  function RowFields(row: ExportRow): seq<string>
  {
    [row.timestamp, row.temperature, row.temperatureKelvin, IntText(row.unixTimestamp)]
  }

  const CsvColumns: seq<string> := ["timestamp", "temperature", "temperature_kelvin", "unix_timestamp"]

  /** The header line, "timestamp,temperature,temperature_kelvin,unix_timestamp". */
  const CsvHeader: string := PhpText.Join(CsvColumns, ",")

  /** `implode(',', $reading)`. */
  function CsvLine(row: ExportRow): string
  {
    PhpText.Join(RowFields(row), ",")
  }

  /** The CSV content: the header line, then one newline-terminated line per row. */
  function CsvBody(rows: seq<ExportRow>): string
  {
    if |rows| == 0 then CsvHeader + "\n"
    else CsvBody(rows[..|rows| - 1]) + CsvLine(rows[|rows| - 1]) + "\n"
  }

  /** The `csv`/default branch: `$content` grows by one line per row. */
  method CsvContent(rows: seq<ExportRow>) returns (content: string)
    ensures content == CsvBody(rows)
  {
    content := CsvHeader + "\n";
    var i := 0;
    while i < |rows|
      invariant 0 <= i <= |rows|
      invariant content == CsvBody(rows[..i])
    {
      assert rows[..i + 1][..i] == rows[..i];
      content := content + CsvLine(rows[i]) + "\n";
      i := i + 1;
    }
    assert rows[..i] == rows;
  }

  /** `preg_replace('/[^a-zA-Z0-9_-]/', '_', ...)` keeps exactly these characters. */
  predicate IsFilenameChar(c: char)
  {
    'a' <= c <= 'z' || 'A' <= c <= 'Z' || '0' <= c <= '9' || c == '_' || c == '-'
  }

  /**
   * The filename sanitiser: every character outside [a-zA-Z0-9_-] becomes
   * '_', the others stay, so the length is kept and every character is safe.
   */
  function SanitizeFilenamePart(s: string): (r: string)
    ensures |r| == |s|
    ensures forall i :: 0 <= i < |s| ==> (IsFilenameChar(s[i]) ==> r[i] == s[i])
    ensures forall i :: 0 <= i < |s| ==> (!IsFilenameChar(s[i]) ==> r[i] == '_')
    ensures forall i :: 0 <= i < |r| ==> IsFilenameChar(r[i])
  {
    if |s| == 0 then ""
    else [if IsFilenameChar(s[0]) then s[0] else '_'] + SanitizeFilenamePart(s[1..])
  }

  /** Sanitising twice changes nothing more. */
  lemma SanitizeIsIdempotent(s: string)
    ensures SanitizeFilenamePart(SanitizeFilenamePart(s)) == SanitizeFilenamePart(s)
  {
  }

  /** A name made only of safe characters is kept as it is. */
  lemma SafeNamesAreKept(s: string)
    requires forall i :: 0 <= i < |s| ==> IsFilenameChar(s[i])
    ensures SanitizeFilenamePart(s) == s
  {
  }

  /**
   * `<name>_export_<stamp>.<ext>`, where a missing name is sanitised as the
   * empty string and `stamp` is `date('Y-m-d_H-i-s')`.
   */
  function ExportFilename(name: Option<string>, stamp: string, f: ExportFormat): string
  {
    SanitizeFilenamePart(if name.Some? then name.value else "") + "_export_" + stamp + "." + Extension(f)
  }

  /** What `json_encode` is given in the JSON branch. */
  datatype JsonExport = JsonExport(name: Option<string>, mktValue: Option<real>, activationEnergy: string, readings: seq<ExportRow>)

  /** The download: content, `Content-Type` and the attachment's filename. */
  datatype ExportFile = ExportFile(content: string, contentType: string, filename: string)

  /**
   * `apiExport`: builds the row table, then the JSON document (through
   * `encode`, standing for `json_encode`) or the CSV body, and the filename.
   */
  method ApiExport(dataset: Dataset, query: Option<string>, fmt: Formatter, encode: JsonExport -> string, stamp: string)
    returns (file: ExportFile)
    ensures var f := ExportFormatOf(query);
      var rows := RowsOf(dataset.readings, fmt);
      file.contentType == ContentType(f)
      && file.filename == ExportFilename(dataset.name, stamp, f)
      && (f == Csv ==> file.content == CsvBody(rows))
      && (f == Json ==> file.content == encode(JsonExport(dataset.name, dataset.mktValue, dataset.activationEnergy, rows)))
  {
    var format := ExportFormatOf(query);
    var rows := ExportRows(dataset.readings, fmt);
    var content;
    if format == Json {
      content := encode(JsonExport(dataset.name, dataset.mktValue, dataset.activationEnergy, rows));
    } else {
      content := CsvContent(rows);
    }
    var filename := ExportFilename(dataset.name, stamp, format);
    return ExportFile(content, ContentType(format), filename);
  }

  // ---------------------------------------------------------------------
  // Reading the CSV body back
  // ---------------------------------------------------------------------

  predicate NoSeparators(s: string)
  {
    ',' !in s && '\n' !in s
  }

  /** A row whose formatted values hold no comma and no line break. */
  predicate PlainRow(row: ExportRow)
  {
    NoSeparators(row.timestamp) && NoSeparators(row.temperature) && NoSeparators(row.temperatureKelvin)
  }

  /** Dates and decimals are written without commas or line breaks. */
  ghost predicate PlainFormatter(fmt: Formatter)
  {
    (forall x :: NoSeparators(fmt.dateTime(x))) && (forall y :: NoSeparators(fmt.decimal(y)))
  }

  function CsvLines(rows: seq<ExportRow>): (lines: seq<string>)
    ensures |lines| == |rows|
    ensures forall i :: 0 <= i < |rows| ==> lines[i] == CsvLine(rows[i])
  {
    seq(|rows|, i requires 0 <= i < |rows| => CsvLine(rows[i]))
  }

  lemma {:induction false} JoinAppend(parts: seq<string>, x: string, sep: string)
    requires |parts| >= 1
    ensures PhpText.Join(parts + [x], sep) == PhpText.Join(parts, sep) + sep + x
  {
    if |parts| > 1 {
      assert (parts + [x])[1..] == parts[1..] + [x];
      JoinAppend(parts[1..], x, sep);
    }
  }

  /** The CSV body is its lines joined by newlines, with a final newline. */
  lemma {:induction false} CsvBodyIsJoinedLines(rows: seq<ExportRow>)
    ensures CsvBody(rows) == PhpText.Join([CsvHeader] + CsvLines(rows), "\n") + "\n"
  {
    if |rows| > 0 {
      var init, last := rows[..|rows| - 1], rows[|rows| - 1];
      var line := CsvLine(last);
      assert rows == init + [last];
      calc {
        CsvBody(rows);
        CsvBody(init) + line + "\n";
        { CsvBodyIsJoinedLines(init); }
        PhpText.Join([CsvHeader] + CsvLines(init), "\n") + "\n" + line + "\n";
        { JoinAfterHead(CsvHeader, CsvLines(init), line, "\n"); }
        PhpText.Join([CsvHeader] + (CsvLines(init) + [line]), "\n") + "\n";
        { CsvLinesSnoc(init, last); }
        PhpText.Join([CsvHeader] + CsvLines(rows), "\n") + "\n";
      }
    } else {
      assert [CsvHeader] + CsvLines(rows) == [CsvHeader];
    }
  }

  lemma JoinAfterHead(head: string, lines: seq<string>, line: string, sep: string)
    ensures PhpText.Join([head] + (lines + [line]), sep) == PhpText.Join([head] + lines, sep) + sep + line
  {
    assert [head] + (lines + [line]) == ([head] + lines) + [line];
    JoinAppend([head] + lines, line, sep);
  }

  lemma CsvLinesSnoc(init: seq<ExportRow>, last: ExportRow)
    ensures CsvLines(init + [last]) == CsvLines(init) + [CsvLine(last)]
  {
  }

  lemma IntTextHasNoSeparators(n: int)
    ensures NoSeparators(IntText(n))
  {
    var s := NatText(if n >= 0 then n else -n);
    assert forall i :: 0 <= i < |s| ==> PhpText.IsDigit(s[i]);
  }

  /** Joining pieces with a comma introduces no line break. */
  lemma {:induction false} JoinHasNoNewline(parts: seq<string>)
    requires forall k :: 0 <= k < |parts| ==> '\n' !in parts[k]
    ensures '\n' !in PhpText.Join(parts, ",")
  {
    if |parts| > 1 {
      JoinHasNoNewline(parts[1..]);
    }
  }

  /** The header holds no line break and splits back into the column names. */
  lemma HeaderReadsBack()
    ensures '\n' !in CsvHeader
    ensures PhpText.Explode(CsvHeader, ',') == CsvColumns
  {
    assert forall k :: 0 <= k < |CsvColumns| ==> NoSeparators(CsvColumns[k]);
    JoinHasNoNewline(CsvColumns);
    PhpText.ExplodeJoin(CsvColumns, ',');
  }

  /** A plain row's line has no line break and splits back into the row's four values. */
  lemma CsvLineReadsBack(row: ExportRow)
    requires PlainRow(row)
    ensures '\n' !in CsvLine(row)
    ensures PhpText.Explode(CsvLine(row), ',') == RowFields(row)
  {
    IntTextHasNoSeparators(row.unixTimestamp);
    var fields := RowFields(row);
    assert forall k :: 0 <= k < |fields| ==> NoSeparators(fields[k]);
    JoinHasNoNewline(fields);
    PhpText.ExplodeJoin(fields, ',');
  }

  /**
   * Splitting the CSV body at line breaks gives the header, one line per row
   * in order, and the empty rest after the final newline: rows + 1 lines.
   */
  lemma CsvBodyReadsBack(rows: seq<ExportRow>)
    requires forall i :: 0 <= i < |rows| ==> PlainRow(rows[i])
    ensures var lines := PhpText.Explode(CsvBody(rows), '\n');
      && |lines| == |rows| + 2
      && lines[0] == CsvHeader
      && lines[|rows| + 1] == ""
      && forall i :: 0 <= i < |rows| ==> lines[i + 1] == CsvLine(rows[i])
  {
    CsvBodySplitsIntoLines(rows);
  }

  lemma CsvBodySplitsIntoLines(rows: seq<ExportRow>)
    requires forall i :: 0 <= i < |rows| ==> PlainRow(rows[i])
    ensures PhpText.Explode(CsvBody(rows), '\n') == [CsvHeader] + CsvLines(rows) + [""]
  {
    var parts := [CsvHeader] + CsvLines(rows) + [""];
    CsvBodyIsTerminatedLines(rows);
    LinesHaveNoNewline(rows);
    PhpText.ExplodeJoin(parts, '\n');
  }

  lemma LinesHaveNoNewline(rows: seq<ExportRow>)
    requires forall i :: 0 <= i < |rows| ==> PlainRow(rows[i])
    ensures var parts := [CsvHeader] + CsvLines(rows) + [""];
      forall k :: 0 <= k < |parts| ==> '\n' !in parts[k]
  {
    var parts := [CsvHeader] + CsvLines(rows) + [""];
    forall k | 0 <= k < |parts|
      ensures '\n' !in parts[k]
    {
      if k == 0 {
        HeaderReadsBack();
      } else if k <= |rows| {
        assert parts[k] == CsvLine(rows[k - 1]);
        CsvLineReadsBack(rows[k - 1]);
      } else {
        assert parts[k] == "";
      }
    }
  }

  /** The CSV body joined the other way: every line, then the empty rest, joined by newlines. */
  lemma CsvBodyIsTerminatedLines(rows: seq<ExportRow>)
    ensures CsvBody(rows) == PhpText.Join([CsvHeader] + CsvLines(rows) + [""], "\n")
  {
    var lines := [CsvHeader] + CsvLines(rows);
    CsvBodyIsJoinedLines(rows);
    JoinAppend(lines, "", "\n");
    assert PhpText.Join(lines, "\n") + "\n" + "" == PhpText.Join(lines, "\n") + "\n";
  }

  lemma PlainFormatterGivesPlainRow(fmt: Formatter, instant: int, celsius: real, kelvin: real, unix: int)
    requires PlainFormatter(fmt)
    ensures PlainRow(ExportRow(fmt.dateTime(instant), fmt.decimal(celsius), fmt.decimal(kelvin), unix))
  {
  }

  lemma RowsOfPlainFormatterArePlain(readings: seq<TemperatureReading>, fmt: Formatter)
    requires PlainFormatter(fmt)
    ensures forall i :: 0 <= i < |readings| ==> PlainRow(RowsOf(readings, fmt)[i])
  {
    forall i | 0 <= i < |readings|
      ensures PlainRow(RowsOf(readings, fmt)[i])
    {
      var r := readings[i];
      PlainFormatterGivesPlainRow(fmt, r.timestamp, r.temperature, r.temperatureKelvin, r.unixTimestamp);
    }
  }

  /**
   * Reading an export back: readings + 1 lines after the header split, the
   * first the header, and line i + 1 the values of reading i, in order.
   */
  lemma CsvExportReadsBack(readings: seq<TemperatureReading>, fmt: Formatter)
    requires PlainFormatter(fmt)
    ensures var rows := RowsOf(readings, fmt);
      var lines := PhpText.Explode(CsvBody(rows), '\n');
      && |lines| == |readings| + 2
      && PhpText.Explode(lines[0], ',') == CsvColumns
      && forall i :: 0 <= i < |readings| ==> PhpText.Explode(lines[i + 1], ',') == RowFields(rows[i])
  {
    var rows := RowsOf(readings, fmt);
    RowsOfPlainFormatterArePlain(readings, fmt);
    CsvBodyReadsBack(rows);
    HeaderReadsBack();
    forall i | 0 <= i < |rows|
      ensures PhpText.Explode(CsvLine(rows[i]), ',') == RowFields(rows[i])
    {
      CsvLineReadsBack(rows[i]);
    }
  }
}
