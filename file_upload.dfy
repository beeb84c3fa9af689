/**
 * The ingestion pipeline (FileUploadService): upload validation, dispatch on
 * the extension, the scalar parsers for timestamps and temperatures, the CSV
 * and JSON/YAML adapters, and the bookkeeping that turns parsed entries into
 * readings of a dataset.
 *
 * Date-format matching and PHP's date construction are not modelled: a
 * `DateParser` supplies them, so only which of them is asked, in which order,
 * and what happens when one throws, is.
 */
module FileUpload {
  import opened Wrappers
  import opened PhpText
  import opened PhpValue
  import opened Entities
  import MktCalculator

  const MaxFileSize: int := 10 * 1024 * 1024
  const AllowedExtensions: seq<string> := ["csv", "xml", "yml", "yaml", "json"]

  /** Synonyms for the CSV header columns, in priority order. */
  const TimestampColumns: seq<string> := ["timestamp", "time", "date", "datetime"]
  const TemperatureColumns: seq<string> := ["temperature", "temp", "value"]

  /** Synonyms for the keys of a JSON/YAML reading, in priority order. */
  const TimestampKeys: seq<string> := ["timestamp", "time", "date"]
  const TemperatureKeys: seq<string> := ["temperature", "temp", "value"]

  /** The formats tried, in order, on a non-numeric timestamp. */
  const DateFormats: seq<string> := [
    "Y-m-d H:i:s",
    "Y-m-d\\TH:i:s",
    "Y-m-d\\TH:i:s\\Z",
    "Y-m-d",
    "d/m/Y H:i:s",
    "d-m-Y H:i:s",
    "m/d/Y H:i:s"
  ]

  datatype IngestError =
    | UploadFailed                        // "File upload failed"
    | FileTypeNotSupported                // "File type not supported. Allowed types: csv, xml, yml, yaml, json"
    | FileTooLarge                        // "File size too large. Maximum size is 10MB"
    | UnsupportedFileType(extension: string) // "Unsupported file type: <extension>"
    | CsvEmpty                            // "CSV file is empty or invalid"
    | DocumentUnreadable(message: string) // invalid JSON, or a YAML parse exception
    | DocumentNotAnArray                  // TypeError: the decoded document is a scalar
    | TimestampNotAString                 // TypeError: a date format applied to an array
    | UnixTimestampRejected               // `new DateTimeImmutable('@' . $t)` threw, outside any try
    | MktFailed(cause: MktCalculator.MktError)

  datatype Format = Csv | Xml | Yaml | Json

  /**
   * PHP's date parsing, as Unix seconds; `None` where PHP returns false or
   * throws. `createFromFormat(format, text)` is
   * `DateTimeImmutable::createFromFormat`; `construct(text)` is
   * `new DateTimeImmutable(text)`, which also serves the '@' form of a numeric
   * string; `fromNumber(n)` is `new DateTimeImmutable('@' . $n)` for a decoded
   * number, PHP's number-to-text conversion included.
   */
  datatype DateParser = DateParser(
    createFromFormat: (string, string) -> Option<int>,
    construct: string -> Option<int>,
    fromNumber: real -> Option<int>)

  /** A candidate reading the adapters emit. */
  datatype ParsedEntry = ParsedEntry(timestamp: int, temperature: real, originalData: string)

  // ------------------------------------------------------------ validation

  /** `validateFile`: the upload succeeded, the extension is allowed, the size fits. */
  function ValidateFile(uploadOk: bool, extension: string, size: int): (r: Outcome<IngestError>)
    ensures r == Pass <==> uploadOk && ToLower(extension) in AllowedExtensions && size <= MaxFileSize
    ensures !uploadOk ==> r == Fail(UploadFailed)
    ensures uploadOk && ToLower(extension) !in AllowedExtensions ==> r == Fail(FileTypeNotSupported)
  {
    if !uploadOk then Fail(UploadFailed)
    else if ToLower(extension) !in AllowedExtensions then Fail(FileTypeNotSupported)
    else if size > MaxFileSize then Fail(FileTooLarge)
    else Pass
  }

  /** Exactly 10 MiB is accepted; one byte more is refused. */
  lemma SizeCeiling(extension: string)
    requires ToLower(extension) in AllowedExtensions
    ensures ValidateFile(true, extension, 10485760) == Pass
    ensures ValidateFile(true, extension, 10485761) == Fail(FileTooLarge)
  {
  }

  /** The adapter `parseFile` dispatches to, by lower-cased extension. */
  function FormatFor(extension: string): (r: Result<Format, IngestError>)
    ensures r.Success? <==> ToLower(extension) in AllowedExtensions
    ensures r.Failure? ==> r.error == UnsupportedFileType(extension)
  {
    var e := ToLower(extension);
    if e == "csv" then Success(Csv)
    else if e == "xml" then Success(Xml)
    else if e == "yml" || e == "yaml" then Success(Yaml)
    else if e == "json" then Success(Json)
    else Failure(UnsupportedFileType(extension))
  }

  lemma {:induction false} ToLowerIdempotent(s: string)
    ensures ToLower(ToLower(s)) == ToLower(s)
  {
    if |s| > 0 {
      ToLowerIdempotent(s[1..]);
    }
  }

  /** Dispatch ignores case, and a validated upload always has an adapter. */
  lemma DispatchIsCaseInsensitive(extension: string)
    ensures FormatFor(ToLower(extension)).Success? == FormatFor(extension).Success?
    ensures FormatFor(extension).Success? ==> FormatFor(ToLower(extension)) == FormatFor(extension)
    ensures ValidateFile(true, extension, 0) == Pass ==> FormatFor(extension).Success?
  {
    ToLowerIdempotent(extension);
  }

  lemma YmlAndYamlShareAnAdapter()
    ensures FormatFor("YML") == FormatFor("yaml") == Success(Yaml)
  {
    assert ToLower("YML") == "yml";
  }

  // ------------------------------------------------------------ scalar parsers

  /** `parseTemperature`: strips everything but digits, '.' and '-', then reads a number. */
  function ParseTemperature(v: Value): (r: Option<real>)
    ensures IsEmpty(v) || v.Null? || v.Arr? ==> r.None?
    ensures v.Str? && !IsEmpty(v) ==> (r.Some? <==> IsNumeric(KeepNumericChars(v.s)))
    ensures v.Str? && r.Some? ==> r.value == NumericValue(KeepNumericChars(v.s))
    ensures v.Num? && !IsEmpty(v) ==> r == Some(v.n)
    ensures v.Bool? && !IsEmpty(v) ==> r == Some(1.0)
  {
    if IsEmpty(v) then None
    else match v
      case Str(s) =>
        var cleaned := KeepNumericChars(s);
        if IsNumeric(cleaned) then Some(NumericValue(cleaned)) else None
      case Num(n) => Some(n)
      case Bool(_) => Some(1.0)   // true reads as "1"
      case Arr(_) => None         // preg_replace yields an array, which is not numeric
      case Null => None
  }

  /** The formats tried in order from `formats`; the first that parses wins. */
  function FirstFormatMatch(formats: seq<string>, s: string, dp: DateParser): (r: Option<int>)
    ensures r.None? <==> forall j :: 0 <= j < |formats| ==> dp.createFromFormat(formats[j], s).None?
  {
    if |formats| == 0 then None
    else match dp.createFromFormat(formats[0], s)
      case Some(t) => Some(t)
      case None => FirstFormatMatch(formats[1..], s, dp)
  }

  /** The non-numeric branch of `parseTimestamp`: the formats, then a generic parse. */
  function TimestampByFormats(s: string, dp: DateParser): Option<int>
  {
    match FirstFormatMatch(DateFormats, s, dp)
    case Some(t) => Some(t)
    case None => dp.construct(s)
  }

  /** The '@' construction of a numeric timestamp: nothing catches its exception. */
  function UnixForm(t: Option<int>): Result<Option<int>, IngestError>
  {
    match t
    case Some(x) => Success(Some(x))
    case None => Failure(UnixTimestampRejected)
  }

  /**
   * `parseTimestamp` of a string: empty text is no date, numeric text is
   * Unix seconds in the '@' form, anything else goes to the formats.
   */
  function TimestampOfText(s: string, dp: DateParser): (r: Result<Option<int>, IngestError>)
    ensures IsEmptyString(s) ==> r == Success(None)
    ensures r.Failure? <==> !IsEmptyString(s) && IsNumeric(s) && dp.construct("@" + s).None?
    ensures r.Failure? ==> r.error == UnixTimestampRejected
  {
    if IsEmptyString(s) then Success(None)
    else if IsNumeric(s) then UnixForm(dp.construct("@" + s))
    else Success(TimestampByFormats(s, dp))
  }

  /** The '@' construction is reached and throws: the value is numeric and PHP rejects its '@' form. */
  ghost predicate UnixFormRejected(v: Value, dp: DateParser)
  {
    !IsEmpty(v) &&
    match v
    case Str(s) => IsNumeric(s) && dp.construct("@" + s).None?
    case Num(n) => dp.fromNumber(n).None?
    case _ => false
  }

  /**
   * `parseTimestamp` of a decoded value. It throws in two places that no
   * `catch (\Exception)` covers: a rejected '@' form, and a non-empty array,
   * which reaches `createFromFormat` and raises a TypeError.
   */
  function TimestampOf(v: Value, dp: DateParser): (r: Result<Option<int>, IngestError>)
    ensures r.Failure? <==> (v.Arr? && |v.entries| > 0) || UnixFormRejected(v, dp)
    ensures v.Str? ==> r == TimestampOfText(v.s, dp)
  {
    if IsEmpty(v) then Success(None)
    else match v
      case Str(s) => TimestampOfText(s, dp)
      case Num(n) => UnixForm(dp.fromNumber(n))
      case Bool(_) => Success(TimestampByFormats("1", dp))  // true is not numeric; it reads as "1"
      case Arr(_) => Failure(TimestampNotAString)
      case Null => Success(None)
  }

  method ParseTimestamp(v: Value, dp: DateParser) returns (r: Result<Option<int>, IngestError>)
    ensures r == TimestampOf(v, dp)
  {
    if IsEmpty(v) {
      return Success(None);
    }
    if v.Num? {
      var t := dp.fromNumber(v.n);
      if t.None? {
        return Failure(UnixTimestampRejected);
      }
      return Success(t);
    }
    if v.Str? && IsNumeric(v.s) {
      var t := dp.construct("@" + v.s);
      if t.None? {
        return Failure(UnixTimestampRejected);
      }
      return Success(t);
    }
    if v.Arr? {
      return Failure(TimestampNotAString);
    }
    var text := if v.Str? then v.s else "1";
    var i := 0;
    while i < |DateFormats|
      invariant 0 <= i <= |DateFormats|
      invariant FirstFormatMatch(DateFormats, text, dp) == FirstFormatMatch(DateFormats[i..], text, dp)
    {
      var date := dp.createFromFormat(DateFormats[i], text);
      if date.Some? {
        return Success(date);
      }
      assert DateFormats[i..][1..] == DateFormats[i + 1..];
      i := i + 1;
    }
    return Success(dp.construct(text));
  }

  // ------------------------------------------------------------ scalar parser properties

  /**
   * A numeric string goes to the '@' construction before any format is
   * consulted; when that construction throws, the exception escapes.
   */
  lemma NumericTimestampIgnoresFormats(s: string, dp: DateParser, formats: (string, string) -> Option<int>)
    requires !IsEmptyString(s) && IsNumeric(s)
    ensures TimestampOfText(s, dp)
         == if dp.construct("@" + s).Some? then Success(dp.construct("@" + s)) else Failure(UnixTimestampRejected)
    ensures TimestampOfText(s, DateParser(formats, dp.construct, dp.fromNumber)) == TimestampOfText(s, dp)
  {
  }

  lemma {:induction false} FirstFormatMatchAt(formats: seq<string>, s: string, dp: DateParser, k: nat)
    requires k < |formats| && dp.createFromFormat(formats[k], s).Some?
    requires forall j :: 0 <= j < k ==> dp.createFromFormat(formats[j], s).None?
    ensures FirstFormatMatch(formats, s, dp) == dp.createFromFormat(formats[k], s)
  {
    if k > 0 {
      FirstFormatMatchAt(formats[1..], s, dp, k - 1);
    }
  }

  /**
   * On a non-empty, non-numeric string the k-th format is used exactly when it
   * is the first to parse; the generic parse is not consulted then.
   */
  lemma FirstParsingFormatWins(s: string, dp: DateParser, k: nat)
    requires !IsEmptyString(s) && !IsNumeric(s)
    requires k < |DateFormats| && dp.createFromFormat(DateFormats[k], s).Some?
    requires forall j :: 0 <= j < k ==> dp.createFromFormat(DateFormats[j], s).None?
    ensures TimestampOfText(s, dp) == Success(dp.createFromFormat(DateFormats[k], s))
    ensures forall g :: TimestampOfText(s, DateParser(dp.createFromFormat, g, dp.fromNumber)) == TimestampOfText(s, dp)
  {
    FirstFormatMatchAt(DateFormats, s, dp, k);
    forall g ensures TimestampOfText(s, DateParser(dp.createFromFormat, g, dp.fromNumber)) == TimestampOfText(s, dp) {
      FirstFormatMatchAt(DateFormats, s, DateParser(dp.createFromFormat, g, dp.fromNumber), k);
    }
  }

  /** When several formats accept a string, day-first d/m/Y beats month-first m/d/Y. */
  lemma DayFirstBeatsMonthFirst(s: string, dp: DateParser)
    requires !IsEmptyString(s) && !IsNumeric(s)
    requires forall j :: 0 <= j < 4 ==> dp.createFromFormat(DateFormats[j], s).None?
    requires dp.createFromFormat("d/m/Y H:i:s", s).Some?
    ensures TimestampOfText(s, dp) == Success(dp.createFromFormat("d/m/Y H:i:s", s))
  {
    FirstParsingFormatWins(s, dp, 4);
  }

  /** The generic parse decides only when every format has failed. */
  lemma GenericParseIsTheLastResort(s: string, dp: DateParser)
    requires !IsEmptyString(s) && !IsNumeric(s)
    requires forall j :: 0 <= j < |DateFormats| ==> dp.createFromFormat(DateFormats[j], s).None?
    ensures TimestampOfText(s, dp) == Success(dp.construct(s))
  {
  }

  lemma {:induction false} DigitsAreNumericChars(s: string)
    requires AllDigits(s)
    ensures forall i :: 0 <= i < |s| ==> IsNumericChar(s[i])
  {
  }

  lemma DecimalTextHasOnlyNumericChars(sign: string, whole: string, fraction: string)
    requires sign == "" || sign == "-"
    requires AllDigits(whole) && AllDigits(fraction)
    ensures forall i :: 0 <= i < |sign + whole + "." + fraction| ==> IsNumericChar((sign + whole + "." + fraction)[i])
  {
    var text := sign + whole + "." + fraction;
    forall i | 0 <= i < |text| ensures IsNumericChar(text[i]) {
      if i < |sign| {
        assert text[i] == sign[i];
      } else if i < |sign| + |whole| {
        assert text[i] == whole[i - |sign|];
      } else if i > |sign| + |whole| {
        assert text[i] == fraction[i - |sign| - |whole| - 1];
      }
    }
  }

  lemma PointPosition(whole: string, fraction: string)
    requires AllDigits(whole)
    ensures IndexOf(whole + "." + fraction, '.') == |whole|
  {
    var body := whole + "." + fraction;
    assert body[|whole|] == '.';
    assert forall i :: 0 <= i < |whole| ==> body[i] == whole[i];
  }

  lemma UnsignedDecimalText(whole: string, fraction: string)
    requires AllDigits(whole) && AllDigits(fraction) && |whole| + |fraction| > 0
    ensures IsUnsignedDecimal(whole + "." + fraction)
    ensures UnsignedDecimalValue(whole + "." + fraction)
         == DigitsValue(whole) as real + DigitsValue(fraction) as real / Pow10(|fraction|) as real
  {
    var body := whole + "." + fraction;
    PointPosition(whole, fraction);
    assert body[..|whole|] == whole;
    assert body[|whole| + 1..] == fraction;
  }

  lemma SignedDecimalText(negative: bool, whole: string, fraction: string)
    requires AllDigits(whole) && AllDigits(fraction) && |whole| + |fraction| > 0
    ensures var text := (if negative then "-" else "") + whole + "." + fraction;
      var magnitude := DigitsValue(whole) as real + DigitsValue(fraction) as real / Pow10(|fraction|) as real;
      IsNumeric(text) && NumericValue(text) == if negative then -magnitude else magnitude
  {
    var sign := if negative then "-" else "";
    var body := whole + "." + fraction;
    var text := sign + whole + "." + fraction;
    assert text == sign + body;
    assert SignLength(text) == |sign| by {
      if !negative && |whole| == 0 {
        assert text[0] == '.';
      } else if !negative {
        assert text[0] == whole[0];
      }
    }
    assert text[SignLength(text)..] == body;
    UnsignedDecimalText(whole, fraction);
  }

  /**
   * A decimal written as [-]digits.digits reads back as the number it denotes
   * (the text is never PHP-empty, since it holds a point).
   */
  lemma ParseTemperatureOfDecimal(negative: bool, whole: string, fraction: string)
    requires AllDigits(whole) && AllDigits(fraction) && |whole| + |fraction| > 0
    ensures var text := (if negative then "-" else "") + whole + "." + fraction;
      var magnitude := DigitsValue(whole) as real + DigitsValue(fraction) as real / Pow10(|fraction|) as real;
      ParseTemperature(Str(text)) == Some(if negative then -magnitude else magnitude)
  {
    var sign := if negative then "-" else "";
    var text := sign + whole + "." + fraction;
    DecimalTextHasOnlyNumericChars(sign, whole, fraction);
    SignedDecimalText(negative, whole, fraction);
    ParseTemperatureOfCleanNumeric(text);
  }

  /** A numeric text made only of numeric characters, other than "0", reads as its value. */
  lemma ParseTemperatureOfCleanNumeric(text: string)
    requires |text| >= 2 && IsNumeric(text)
    requires forall i :: 0 <= i < |text| ==> IsNumericChar(text[i])
    ensures ParseTemperature(Str(text)) == Some(NumericValue(text))
  {
    KeepNumericCharsOfNumericChars(text);
  }

  /** Units and other noise after the number are ignored: "21.5°C" reads as "21.5". */
  lemma ParseTemperatureIgnoresUnits(s: string, unit: string)
    requires !IsEmptyString(s)
    requires forall i :: 0 <= i < |unit| ==> !IsNumericChar(unit[i])
    ensures ParseTemperature(Str(s + unit)) == ParseTemperature(Str(s))
  {
    KeepNumericCharsAppend(s, unit);
    KeepNumericCharsOfNoise(unit);
    assert KeepNumericChars(s) + "" == KeepNumericChars(s);
    assert !IsEmptyString(s + unit) by {
      assert |s + unit| >= |s|;
      if |s + unit| == 1 {
        assert |s| == 1 && s + unit == s;
      }
    }
  }

  /** PHP's `empty()` drops a reading written as exactly "0" or 0, but not "0.0". */
  lemma ZeroCelsiusWrittenAsZeroIsDropped()
    ensures ParseTemperature(Str("0")) == None
    ensures ParseTemperature(Num(0.0)) == None
    ensures ParseTemperature(Str("0.0")) == Some(0.0)
  {
    ZeroCelsiusWithPointIsKept();
  }

  lemma ZeroCelsiusWithPointIsKept()
    ensures ParseTemperature(Str("0.0")) == Some(0.0)
  {
    ParseTemperatureOfDecimal(false, "0", "0");
    assert "" + "0" + "." + "0" == "0.0";
    assert DigitsValue("0") == 0;
  }

  // ------------------------------------------------------------ CSV adapter

  /** `array_search($field, $header)`: the first position holding `field`. */
  function SearchIndex(header: seq<string>, field: string): (r: Option<nat>)
    ensures r.None? <==> field !in header
    ensures r.Some? ==> r.value < |header| && header[r.value] == field
    ensures r.Some? ==> forall i :: 0 <= i < r.value ==> header[i] != field
  {
    if |header| == 0 then None
    else if header[0] == field then Some(0)
    else match SearchIndex(header[1..], field)
      case Some(i) => Some(i + 1)
      case None => None
  }

  /** The column of the first synonym present in the header, or `default`. */
  function ColumnIndex(header: seq<string>, synonyms: seq<string>, default: nat): nat
  {
    if |synonyms| == 0 then default
    else match SearchIndex(header, synonyms[0])
      case Some(i) => i
      case None => ColumnIndex(header, synonyms[1..], default)
  }

  /**
   * `index` is where the header first holds the highest-priority synonym it
   * holds at all; with no synonym present, it is the default.
   */
  ghost predicate IsFirstPresentSynonymColumn(header: seq<string>, synonyms: seq<string>, default: nat, index: nat)
  {
    if exists k :: 0 <= k < |synonyms| && synonyms[k] in header then
      exists k :: 0 <= k < |synonyms| && synonyms[k] in header
        && (forall j :: 0 <= j < k ==> synonyms[j] !in header)
        && index < |header| && header[index] == synonyms[k]
        && (forall i :: 0 <= i < index ==> header[i] != synonyms[k])
    else index == default
  }

  lemma {:induction false} ColumnIndexIsFirstPresentSynonym(header: seq<string>, synonyms: seq<string>, default: nat)
    ensures IsFirstPresentSynonymColumn(header, synonyms, default, ColumnIndex(header, synonyms, default))
  {
    if |synonyms| > 0 {
      var index := ColumnIndex(header, synonyms, default);
      if synonyms[0] in header {
        assert synonyms[0] in header && index < |header| && header[index] == synonyms[0];
      } else {
        ColumnIndexIsFirstPresentSynonym(header, synonyms[1..], default);
        if exists k :: 0 <= k < |synonyms[1..]| && synonyms[1..][k] in header {
          var k :| 0 <= k < |synonyms[1..]| && synonyms[1..][k] in header
            && (forall j :: 0 <= j < k ==> synonyms[1..][j] !in header)
            && index < |header| && header[index] == synonyms[1..][k]
            && (forall i :: 0 <= i < index ==> header[i] != synonyms[1..][k]);
          assert synonyms[k + 1] in header && header[index] == synonyms[k + 1];
        } else {
          assert forall k :: 1 <= k < |synonyms| ==> synonyms[k] == synonyms[1..][k - 1];
        }
      }
    }
  }

  /** The early-return loop of `findTimestampColumn` / `findTemperatureColumn`. */
  method FindColumn(header: seq<string>, synonyms: seq<string>, default: nat) returns (index: nat)
    ensures index == ColumnIndex(header, synonyms, default)
  {
    var k := 0;
    while k < |synonyms|
      invariant 0 <= k <= |synonyms|
      invariant ColumnIndex(header, synonyms, default) == ColumnIndex(header, synonyms[k..], default)
    {
      var found := SearchIndex(header, synonyms[k]);
      if found.Some? {
        return found.value;
      }
      assert synonyms[k..][1..] == synonyms[k + 1..];
      k := k + 1;
    }
    return default;
  }

  method FindTimestampColumn(header: seq<string>) returns (index: nat)
    ensures index == ColumnIndex(header, TimestampColumns, 0)
  {
    index := FindColumn(header, TimestampColumns, 0);
  }

  method FindTemperatureColumn(header: seq<string>) returns (index: nat)
    ensures index == ColumnIndex(header, TemperatureColumns, 1)
  {
    index := FindColumn(header, TemperatureColumns, 1);
  }

  /** `array_map('strtolower', $header)`. */
  function LowerAll(header: seq<string>): (r: seq<string>)
    ensures |r| == |header| && forall i :: 0 <= i < |header| ==> r[i] == ToLower(header[i])
  {
    seq(|header|, i requires 0 <= i < |header| => ToLower(header[i]))
  }

  function Max(a: int, b: int): int { if a >= b then a else b }

  /**
   * What the CSV loop does with one record: nothing for a short row; the
   * timestamp's exception, which aborts the file; otherwise an entry when the
   * timestamp parses and the temperature parses above absolute zero.
   */
  function RowEntry(row: seq<string>, ti: nat, pi: nat, dp: DateParser): (r: Result<Option<ParsedEntry>, IngestError>)
    ensures r.Failure? <==> |row| >= Max(ti + 1, pi + 1) && TimestampOfText(row[ti], dp).Failure?
    ensures r.Success? && r.value.Some? ==>
              && |row| >= Max(ti + 1, pi + 1)
              && TimestampOfText(row[ti], dp) == Success(Some(r.value.value.timestamp))
              && ParseTemperature(Str(row[pi])) == Some(r.value.value.temperature)
              && MktCalculator.IsValidTemperature(r.value.value.temperature)
              && r.value.value.originalData == Join(row, ",")
    ensures (&& |row| >= Max(ti + 1, pi + 1)
             && TimestampOfText(row[ti], dp).Success? && TimestampOfText(row[ti], dp).value.Some?
             && ParseTemperature(Str(row[pi])).Some?
             && MktCalculator.IsValidTemperature(ParseTemperature(Str(row[pi])).value))
            ==> r.Success? && r.value.Some?
  {
    if |row| < Max(ti + 1, pi + 1) then Success(None)
    else
      match TimestampOfText(row[ti], dp)
      case Failure(e) => Failure(e)
      case Success(timestamp) =>
        var temperature := ParseTemperature(Str(row[pi]));
        if timestamp.Some? && temperature.Some? && MktCalculator.IsValidTemperature(temperature.value)
        then Success(Some(ParsedEntry(timestamp.value, temperature.value, Join(row, ","))))
        else Success(None)
  }

  function AsSeq(o: Option<ParsedEntry>): seq<ParsedEntry>
  {
    match o
    case Some(e) => [e]
    case None => []
  }

  /** The entries the CSV loop emits for the data rows, in file order; the first throwing row aborts. */
  function CsvEntries(rows: seq<seq<string>>, ti: nat, pi: nat, dp: DateParser): (r: Result<seq<ParsedEntry>, IngestError>)
    ensures r.Success? ==> |r.value| <= |rows|
    ensures r.Success? ==> forall e :: e in r.value ==> MktCalculator.IsValidTemperature(e.temperature)
  {
    if |rows| == 0 then Success([])
    else
      match CsvEntries(rows[..|rows| - 1], ti, pi, dp)
      case Failure(e) => Failure(e)
      case Success(init) =>
        match RowEntry(rows[|rows| - 1], ti, pi, dp)
        case Failure(e) => Failure(e)
        case Success(entry) => Success(init + AsSeq(entry))
  }

  /** `parseCsvFile` on the records `fgetcsv` yields, header first. */
  function CsvData(records: seq<seq<string>>, dp: DateParser): Result<seq<ParsedEntry>, IngestError>
  {
    if |records| == 0 then Failure(CsvEmpty)
    else
      var header := LowerAll(records[0]);
      var ti := ColumnIndex(header, TimestampColumns, 0);
      var pi := ColumnIndex(header, TemperatureColumns, 1);
      CsvEntries(records[1..], ti, pi, dp)
  }

  method ParseCsvFile(records: seq<seq<string>>, dp: DateParser) returns (r: Result<seq<ParsedEntry>, IngestError>)
    ensures r == CsvData(records, dp)
  {
    if |records| == 0 {
      return Failure(CsvEmpty);
    }
    var header := LowerAll(records[0]);
    var ti := FindTimestampColumn(header);
    var pi := FindTemperatureColumn(header);
    var rows := records[1..];
    var data: seq<ParsedEntry> := [];
    var i := 0;
    while i < |rows|
      invariant 0 <= i <= |rows|
      invariant CsvEntries(rows[..i], ti, pi, dp) == Success(data)
    {
      var entry := ParseRow(rows[i], ti, pi, dp);
      CsvEntriesStep(rows, i, ti, pi, dp);
      if entry.Failure? {
        CsvEntriesFailurePersists(rows, i + 1, ti, pi, dp);
        return Failure(entry.error);
      }
      data := data + AsSeq(entry.value);
      i := i + 1;
    }
    assert rows[..i] == rows;
    return Success(data);
  }

  lemma CsvEntriesStep(rows: seq<seq<string>>, i: nat, ti: nat, pi: nat, dp: DateParser)
    requires i < |rows|
    ensures CsvEntries(rows[..i + 1], ti, pi, dp) ==
      match CsvEntries(rows[..i], ti, pi, dp)
      case Failure(e) => Failure(e)
      case Success(init) =>
        match RowEntry(rows[i], ti, pi, dp)
        case Failure(e) => Failure(e)
        case Success(entry) => Success(init + AsSeq(entry))
  {
    assert rows[..i + 1][..i] == rows[..i];
  }

  /** Once a prefix of the rows throws, so does the whole file, with the same error. */
  lemma {:induction false} CsvEntriesFailurePersists(rows: seq<seq<string>>, i: nat, ti: nat, pi: nat, dp: DateParser)
    requires i <= |rows|
    requires CsvEntries(rows[..i], ti, pi, dp).Failure?
    ensures CsvEntries(rows, ti, pi, dp) == CsvEntries(rows[..i], ti, pi, dp)
    decreases |rows| - i
  {
    if i < |rows| {
      CsvEntriesStep(rows, i, ti, pi, dp);
      CsvEntriesFailurePersists(rows, i + 1, ti, pi, dp);
    } else {
      assert rows[..i] == rows;
    }
  }

  lemma CsvEntriesAppend(rows: seq<seq<string>>, row: seq<string>, ti: nat, pi: nat, dp: DateParser)
    ensures CsvEntries(rows + [row], ti, pi, dp) ==
      match CsvEntries(rows, ti, pi, dp)
      case Failure(e) => Failure(e)
      case Success(init) =>
        match RowEntry(row, ti, pi, dp)
        case Failure(e) => Failure(e)
        case Success(entry) => Success(init + AsSeq(entry))
  {
    assert (rows + [row])[..|rows|] == rows;
  }

  /** The body of the CSV loop for one record. */
  method ParseRow(row: seq<string>, ti: nat, pi: nat, dp: DateParser) returns (r: Result<Option<ParsedEntry>, IngestError>)
    ensures r == RowEntry(row, ti, pi, dp)
  {
    if |row| < Max(ti + 1, pi + 1) {
      return Success(None);
    }
    var timestamp := ParseTimestamp(Str(row[ti]), dp);
    if timestamp.Failure? {
      return Failure(timestamp.error);
    }
    var temperature := ParseTemperature(Str(row[pi]));
    if timestamp.value.Some? && temperature.Some? && MktCalculator.IsValidTemperature(temperature.value) {
      return Success(Some(ParsedEntry(timestamp.value.value, temperature.value, Join(row, ","))));
    }
    return Success(None);
  }

  /**
   * Rows are read independently: the rows of a concatenation emit the
   * concatenation, and the first block's abort, else the second's, wins.
   */
  lemma {:induction false} CsvEntriesConcat(a: seq<seq<string>>, b: seq<seq<string>>, ti: nat, pi: nat, dp: DateParser)
    ensures CsvEntries(a + b, ti, pi, dp) ==
      match CsvEntries(a, ti, pi, dp)
      case Failure(e) => Failure(e)
      case Success(x) =>
        match CsvEntries(b, ti, pi, dp)
        case Failure(e) => Failure(e)
        case Success(y) => Success(x + y)
  {
    if |b| == 0 {
      assert a + b == a;
      match CsvEntries(a, ti, pi, dp)
      case Failure(_) =>
      case Success(x) => assert x + [] == x;
    } else {
      var init := b[..|b| - 1];
      assert (a + b)[..|a + b| - 1] == a + init;
      assert (a + b)[|a + b| - 1] == b[|b| - 1];
      CsvEntriesConcat(a, init, ti, pi, dp);
      match CsvEntries(a, ti, pi, dp)
      case Failure(_) =>
      case Success(x) =>
        match CsvEntries(init, ti, pi, dp)
        case Failure(_) =>
        case Success(y) =>
          match RowEntry(b[|b| - 1], ti, pi, dp)
          case Failure(_) =>
          case Success(entry) => assert x + y + AsSeq(entry) == x + (y + AsSeq(entry));
    }
  }

  /** A row with fewer fields than the two columns need is skipped, not padded. */
  lemma ShortRowIsSkipped(rows: seq<seq<string>>, row: seq<string>, ti: nat, pi: nat, dp: DateParser)
    requires |row| < Max(ti + 1, pi + 1)
    ensures CsvEntries(rows + [row], ti, pi, dp) == CsvEntries(rows, ti, pi, dp)
  {
    CsvEntriesAppend(rows, row, ti, pi, dp);
    match CsvEntries(rows, ti, pi, dp)
    case Failure(_) =>
    case Success(init) => assert init + [] == init;
  }

  /** Every emitted entry is the one its own row yields: same values, the row joined by ','. */
  lemma {:induction false} CsvEntriesComeFromRows(rows: seq<seq<string>>, ti: nat, pi: nat, dp: DateParser)
    ensures CsvEntries(rows, ti, pi, dp).Success? ==>
      forall e :: e in CsvEntries(rows, ti, pi, dp).value ==>
        exists i :: 0 <= i < |rows| && RowEntry(rows[i], ti, pi, dp) == Success(Some(e))
  {
    if |rows| > 0 && CsvEntries(rows, ti, pi, dp).Success? {
      var init := rows[..|rows| - 1];
      CsvEntriesComeFromRows(init, ti, pi, dp);
      forall e | e in CsvEntries(rows, ti, pi, dp).value
        ensures exists i :: 0 <= i < |rows| && RowEntry(rows[i], ti, pi, dp) == Success(Some(e))
      {
        if e in CsvEntries(init, ti, pi, dp).value {
          var i :| 0 <= i < |init| && RowEntry(init[i], ti, pi, dp) == Success(Some(e));
          assert rows[i] == init[i];
        } else {
          assert RowEntry(rows[|rows| - 1], ti, pi, dp) == Success(Some(e));
        }
      }
    }
  }

  /**
   * A numeric timestamp cell whose '@' form PHP rejects (such as "+5") aborts
   * the whole file, whatever the other rows hold.
   */
  lemma RejectedUnixTimestampAbortsCsv(rows: seq<seq<string>>, i: nat, ti: nat, pi: nat, dp: DateParser)
    requires i < |rows| && CsvEntries(rows[..i], ti, pi, dp).Success?
    requires |rows[i]| >= Max(ti + 1, pi + 1)
    requires !IsEmptyString(rows[i][ti]) && IsNumeric(rows[i][ti]) && dp.construct("@" + rows[i][ti]).None?
    ensures CsvEntries(rows, ti, pi, dp) == Failure(UnixTimestampRejected)
  {
    CsvEntriesStep(rows, i, ti, pi, dp);
    CsvEntriesFailurePersists(rows, i + 1, ti, pi, dp);
  }

  /**
   * Header "date,value" and rows "2024-01-01 00:00:00,20.0" and
   * "2024-01-01 01:00:00,-999.0": the second row is below absolute zero and is
   * dropped, leaving one entry.
   */
  lemma SubAbsoluteZeroRowIsDropped(dp: DateParser)
    requires dp.createFromFormat("Y-m-d H:i:s", "2024-01-01 00:00:00").Some?
    ensures var records := [["date", "value"], ["2024-01-01 00:00:00", "20.0"], ["2024-01-01 01:00:00", "-999.0"]];
      CsvData(records, dp).Success? && |CsvData(records, dp).value| == 1
  {
    var kept := ["2024-01-01 00:00:00", "20.0"];
    var dropped := ["2024-01-01 01:00:00", "-999.0"];
    HeaderDateValue();
    TwentyDegreeRowIsKept(dp);
    MinusNineNineNineRowIsDropped(dp);
    OneOfTwoRowsKept(kept, dropped, dp);
    CsvDataOfHeaderAndRows(["date", "value"], [kept, dropped], dp);
  }

  lemma TwentyDegreeRowIsKept(dp: DateParser)
    requires dp.createFromFormat("Y-m-d H:i:s", "2024-01-01 00:00:00").Some?
    ensures RowEntry(["2024-01-01 00:00:00", "20.0"], 0, 1, dp).Success?
    ensures RowEntry(["2024-01-01 00:00:00", "20.0"], 0, 1, dp).value.Some?
  {
    assert "2024-01-01 00:00:00"[10] == ' ';
    assert "20.0" == "20" + "." + "0";
    DecimalRowIsKept("2024-01-01 00:00:00", 10, "20", "0", dp);
  }

  lemma MinusNineNineNineRowIsDropped(dp: DateParser)
    ensures RowEntry(["2024-01-01 01:00:00", "-999.0"], 0, 1, dp) == Success(None)
  {
    assert "-999.0" == "-" + "999" + "." + "0";
    assert "2024-01-01 01:00:00"[10] == ' ';
    SpacedDateBelowAbsoluteZeroIsDropped("2024-01-01 01:00:00", 10, "999", "0", dp);
  }

  lemma SpacedDateBelowAbsoluteZeroIsDropped(date: string, gap: nat, whole: string, fraction: string, dp: DateParser)
    requires 0 < gap < |date| && date[gap] == ' '
    requires AllDigits(whole) && AllDigits(fraction) && |whole| + |fraction| > 0
    requires DigitsValue(whole) >= 274
    ensures RowEntry([date, "-" + whole + "." + fraction], 0, 1, dp) == Success(None)
  {
    SpacedDateDoesNotAbort(date, gap, dp);
    BelowAbsoluteZeroRowIsDropped(date, whole, fraction, dp);
  }

  /** A date with a space inside is not numeric, so it goes to the formats and never throws. */
  lemma SpacedDateDoesNotAbort(date: string, gap: nat, dp: DateParser)
    requires 0 < gap < |date| && date[gap] == ' '
    ensures TimestampOfText(date, dp) == Success(TimestampByFormats(date, dp))
  {
    NonNumericCharRulesOutNumeric(date, gap);
  }

  lemma CsvDataOfHeaderAndRows(header: seq<string>, rows: seq<seq<string>>, dp: DateParser)
    ensures CsvData([header] + rows, dp) == CsvEntries(rows,
      ColumnIndex(LowerAll(header), TimestampColumns, 0), ColumnIndex(LowerAll(header), TemperatureColumns, 1), dp)
  {
    assert ([header] + rows)[1..] == rows;
  }

  lemma OneOfTwoRowsKept(kept: seq<string>, dropped: seq<string>, dp: DateParser)
    requires RowEntry(kept, 0, 1, dp).Success? && RowEntry(kept, 0, 1, dp).value.Some?
    requires RowEntry(dropped, 0, 1, dp) == Success(None)
    ensures CsvEntries([kept, dropped], 0, 1, dp).Success?
    ensures |CsvEntries([kept, dropped], 0, 1, dp).value| == 1
  {
    var rows := [kept, dropped];
    assert rows == [] + [kept] + [dropped];
    CsvEntriesAppend([], kept, 0, 1, dp);
    CsvEntriesAppend([kept], dropped, 0, 1, dp);
  }

  lemma HeaderDateValue()
    ensures var header := LowerAll(["date", "value"]);
      ColumnIndex(header, TimestampColumns, 0) == 0 && ColumnIndex(header, TemperatureColumns, 1) == 1
  {
    LowerHeaderDateValue();
    DateColumnOfDateValue();
    ValueColumnOfDateValue();
  }

  lemma LowerHeaderDateValue()
    ensures LowerAll(["date", "value"]) == ["date", "value"]
  {
    assert ToLower("date") == "date" && ToLower("value") == "value";
  }

  lemma DateColumnOfDateValue()
    ensures ColumnIndex(["date", "value"], TimestampColumns, 0) == 0
  {
    var header := ["date", "value"];
    assert SearchIndex(header, "timestamp") == None;
    assert SearchIndex(header, "time") == None;
    assert SearchIndex(header, "date") == Some(0);
  }

  lemma ValueColumnOfDateValue()
    ensures ColumnIndex(["date", "value"], TemperatureColumns, 1) == 1
  {
    var header := ["date", "value"];
    assert SearchIndex(header, "temperature") == None;
    assert SearchIndex(header, "temp") == None;
    assert SearchIndex(header, "value") == Some(1);
  }

  /** A two-field row whose date a format accepts and whose temperature is a valid decimal is kept. */
  lemma DecimalRowIsKept(date: string, gap: nat, whole: string, fraction: string, dp: DateParser)
    requires 0 < gap < |date| && date[gap] == ' '
    requires dp.createFromFormat(DateFormats[0], date).Some?
    requires AllDigits(whole) && AllDigits(fraction) && |whole| + |fraction| > 0
    ensures RowEntry([date, whole + "." + fraction], 0, 1, dp).Success?
    ensures RowEntry([date, whole + "." + fraction], 0, 1, dp).value.Some?
  {
    NonNumericCharRulesOutNumeric(date, gap);
    assert FirstFormatMatch(DateFormats, date, dp).Some?;
    ParseTemperatureOfDecimal(false, whole, fraction);
    assert "" + whole + "." + fraction == whole + "." + fraction;
  }

  /** A row whose temperature is a decimal at or below -273.15 is dropped, unless its timestamp aborts the file. */
  lemma BelowAbsoluteZeroRowIsDropped(date: string, whole: string, fraction: string, dp: DateParser)
    requires AllDigits(whole) && AllDigits(fraction) && |whole| + |fraction| > 0
    requires DigitsValue(whole) >= 274
    ensures RowEntry([date, "-" + whole + "." + fraction], 0, 1, dp)
         == match TimestampOfText(date, dp) case Failure(e) => Failure(e) case Success(_) => Success(None)
  {
    NegativeDecimalBelowAbsoluteZero(whole, fraction);
    var text := "-" + whole + "." + fraction;
    InvalidTemperatureRowIsDropped([date, text], 0, 1, ParseTemperature(Str(text)).value, dp);
  }

  lemma NegativeDecimalBelowAbsoluteZero(whole: string, fraction: string)
    requires AllDigits(whole) && AllDigits(fraction) && |whole| + |fraction| > 0
    requires DigitsValue(whole) >= 274
    ensures var p := ParseTemperature(Str("-" + whole + "." + fraction)); p.Some? && p.value <= -274.0
  {
    ParseTemperatureOfDecimal(true, whole, fraction);
    NonNegativeQuotient(DigitsValue(fraction), Pow10(|fraction|));
  }

  /** A row whose temperature is at or below absolute zero yields no entry: only its timestamp's abort can come out. */
  lemma InvalidTemperatureRowIsDropped(row: seq<string>, ti: nat, pi: nat, t: real, dp: DateParser)
    requires ti < |row| && pi < |row|
    requires ParseTemperature(Str(row[pi])) == Some(t) && t <= -MktCalculator.KelvinOffset
    ensures RowEntry(row, ti, pi, dp)
         == match TimestampOfText(row[ti], dp) case Failure(e) => Failure(e) case Success(_) => Success(None)
  {
  }

  lemma NonNegativeQuotient(a: nat, b: nat)
    requires b >= 1
    ensures a as real / b as real >= 0.0
  {
  }

  // ------------------------------------------------------------ JSON/YAML adapter

  /** Position in `keys` of the first key `isset` finds in `item`; `|keys|` if none. */
  function FirstSetKey(item: Value, keys: seq<string>): (k: nat)
    ensures k <= |keys|
    ensures k < |keys| ==> IsSet(item, keys[k])
    ensures forall j :: 0 <= j < k ==> !IsSet(item, keys[j])
  {
    if |keys| == 0 then 0
    else if IsSet(item, keys[0]) then 0
    else 1 + FirstSetKey(item, keys[1..])
  }

  /** The list iterated: the `readings` array if set, else the `data` array, else the document. */
  function ReadingItems(document: seq<Entry>): seq<Value>
  {
    var d := Arr(document);
    if IsSet(d, "readings") && Get(d, "readings").Arr? then Values(Get(d, "readings").entries)
    else if IsSet(d, "data") && Get(d, "data").Arr? then Values(Get(d, "data").entries)
    else Values(document)
  }

  /**
   * One pass of the `parseArrayData` loop. Non-arrays are skipped; the first
   * set timestamp key and the first set temperature key are parsed (no fallback
   * to a later key); a non-empty array under the timestamp key throws.
   */
  function ItemEntry(item: Value, dp: DateParser, encode: Value -> string): (r: Result<Option<ParsedEntry>, IngestError>)
    ensures r.Success? && r.value.Some? ==> MktCalculator.IsValidTemperature(r.value.value.temperature)
    ensures r.Success? && r.value.Some? ==> r.value.value.originalData == encode(item)
  {
    if !item.Arr? then Success(None)
    else
      var tk := FirstSetKey(item, TimestampKeys);
      var timestamp := if tk < |TimestampKeys| then TimestampOf(Get(item, TimestampKeys[tk]), dp) else Success(None);
      if timestamp.Failure? then Failure(timestamp.error)
      else
        var pk := FirstSetKey(item, TemperatureKeys);
        var temperature := if pk < |TemperatureKeys| then ParseTemperature(Get(item, TemperatureKeys[pk])) else None;
        if timestamp.value.Some? && temperature.Some? && MktCalculator.IsValidTemperature(temperature.value)
        then Success(Some(ParsedEntry(timestamp.value.value, temperature.value, encode(item))))
        else Success(None)
  }

  /** The entries the loop emits, in order; the first throwing item aborts the whole parse. */
  function ArrayEntries(items: seq<Value>, dp: DateParser, encode: Value -> string): (r: Result<seq<ParsedEntry>, IngestError>)
    ensures r.Success? ==> |r.value| <= |items|
    ensures r.Success? ==> forall e :: e in r.value ==> MktCalculator.IsValidTemperature(e.temperature)
  {
    if |items| == 0 then Success([])
    else
      match ArrayEntries(items[..|items| - 1], dp, encode)
      case Failure(e) => Failure(e)
      case Success(init) =>
        match ItemEntry(items[|items| - 1], dp, encode)
        case Failure(e) => Failure(e)
        case Success(entry) => Success(init + AsSeq(entry))
  }

  /** `parseArrayData` on a decoded document; a scalar document is a TypeError. */
  function ArrayData(document: Value, dp: DateParser, encode: Value -> string): Result<seq<ParsedEntry>, IngestError>
  {
    if !document.Arr? then Failure(DocumentNotAnArray)
    else ArrayEntries(ReadingItems(document.entries), dp, encode)
  }

  method ParseItem(item: Value, dp: DateParser, encode: Value -> string) returns (r: Result<Option<ParsedEntry>, IngestError>)
    ensures r == ItemEntry(item, dp, encode)
  {
    if !item.Arr? {
      return Success(None);
    }
    var timestamp: Option<int> := None;
    var k := 0;
    while k < |TimestampKeys|
      invariant 0 <= k <= |TimestampKeys|
      invariant forall j :: 0 <= j < k ==> !IsSet(item, TimestampKeys[j])
    {
      if IsSet(item, TimestampKeys[k]) {
        var parsed := ParseTimestamp(Get(item, TimestampKeys[k]), dp);
        if parsed.Failure? {
          return Failure(parsed.error);
        }
        timestamp := parsed.value;
        break;
      }
      k := k + 1;
    }
    assert k == FirstSetKey(item, TimestampKeys);
    var temperature: Option<real> := None;
    var m := 0;
    while m < |TemperatureKeys|
      invariant 0 <= m <= |TemperatureKeys|
      invariant forall j :: 0 <= j < m ==> !IsSet(item, TemperatureKeys[j])
    {
      if IsSet(item, TemperatureKeys[m]) {
        temperature := ParseTemperature(Get(item, TemperatureKeys[m]));
        break;
      }
      m := m + 1;
    }
    assert m == FirstSetKey(item, TemperatureKeys);
    if timestamp.Some? && temperature.Some? && MktCalculator.IsValidTemperature(temperature.value) {
      return Success(Some(ParsedEntry(timestamp.value, temperature.value, encode(item))));
    }
    return Success(None);
  }

  method ParseArrayData(document: Value, dp: DateParser, encode: Value -> string) returns (r: Result<seq<ParsedEntry>, IngestError>)
    ensures r == ArrayData(document, dp, encode)
  {
    if !document.Arr? {
      return Failure(DocumentNotAnArray);
    }
    var items := ReadingItems(document.entries);
    var result: seq<ParsedEntry> := [];
    var i := 0;
    while i < |items|
      invariant 0 <= i <= |items|
      invariant ArrayEntries(items[..i], dp, encode) == Success(result)
    {
      var entry := ParseItem(items[i], dp, encode);
      ArrayEntriesStep(items, i, dp, encode);
      if entry.Failure? {
        ArrayEntriesFailurePersists(items, i + 1, dp, encode);
        return Failure(entry.error);
      }
      result := result + AsSeq(entry.value);
      i := i + 1;
    }
    assert items[..i] == items;
    return Success(result);
  }

  lemma ArrayEntriesStep(items: seq<Value>, i: nat, dp: DateParser, encode: Value -> string)
    requires i < |items|
    ensures ArrayEntries(items[..i + 1], dp, encode) ==
      match ArrayEntries(items[..i], dp, encode)
      case Failure(e) => Failure(e)
      case Success(init) =>
        match ItemEntry(items[i], dp, encode)
        case Failure(e) => Failure(e)
        case Success(entry) => Success(init + AsSeq(entry))
  {
    assert items[..i + 1][..i] == items[..i];
  }

  /** Once a prefix of the items throws, so does the whole list, with the same error. */
  lemma {:induction false} ArrayEntriesFailurePersists(items: seq<Value>, i: nat, dp: DateParser, encode: Value -> string)
    requires i <= |items|
    requires ArrayEntries(items[..i], dp, encode).Failure?
    ensures ArrayEntries(items, dp, encode) == ArrayEntries(items[..i], dp, encode)
    decreases |items| - i
  {
    if i < |items| {
      ArrayEntriesStep(items, i, dp, encode);
      ArrayEntriesFailurePersists(items, i + 1, dp, encode);
    } else {
      assert items[..i] == items;
    }
  }

  /**
   * Only the first key present is consulted: an item whose `timestamp` is set
   * but unparseable is skipped even when `time` or `date` would parse.
   */
  lemma UnparseableFirstKeyIsNotRetried(item: Value, dp: DateParser, encode: Value -> string)
    requires IsSet(item, "timestamp") && TimestampOf(Get(item, "timestamp"), dp) == Success(None)
    ensures ItemEntry(item, dp, encode) == Success(None)
  {
    assert FirstSetKey(item, TimestampKeys) == 0 by {
      assert IsSet(item, TimestampKeys[0]);
    }
  }

  /** Every emitted entry is what one of the items yields, its original data that item encoded. */
  lemma {:induction false} ArrayEntriesComeFromItems(items: seq<Value>, dp: DateParser, encode: Value -> string)
    ensures ArrayEntries(items, dp, encode).Success? ==>
      forall e :: e in ArrayEntries(items, dp, encode).value ==>
        exists i :: 0 <= i < |items| && ItemEntry(items[i], dp, encode) == Success(Some(e)) && e.originalData == encode(items[i])
  {
    if |items| > 0 && ArrayEntries(items, dp, encode).Success? {
      var init := items[..|items| - 1];
      ArrayEntriesComeFromItems(init, dp, encode);
      forall e | e in ArrayEntries(items, dp, encode).value
        ensures exists i :: 0 <= i < |items| && ItemEntry(items[i], dp, encode) == Success(Some(e)) && e.originalData == encode(items[i])
      {
        if e in ArrayEntries(init, dp, encode).value {
          var i :| 0 <= i < |init| && ItemEntry(init[i], dp, encode) == Success(Some(e)) && e.originalData == encode(init[i]);
          assert items[i] == init[i];
        } else {
          assert ItemEntry(items[|items| - 1], dp, encode) == Success(Some(e));
        }
      }
    }
  }

  /**
   * A nested, non-empty array under the first timestamp key an item holds is a
   * TypeError that aborts the whole parse, whatever the other items hold.
   */
  lemma NestedTimestampAbortsParse(items: seq<Value>, i: nat, dp: DateParser, encode: Value -> string)
    requires i < |items| && ArrayEntries(items[..i], dp, encode).Success?
    requires items[i].Arr?
    requires var k := FirstSetKey(items[i], TimestampKeys);
      k < |TimestampKeys| && Get(items[i], TimestampKeys[k]).Arr? && |Get(items[i], TimestampKeys[k]).entries| > 0
    ensures ArrayEntries(items, dp, encode) == Failure(TimestampNotAString)
  {
    ArrayEntriesStep(items, i, dp, encode);
    ArrayEntriesFailurePersists(items, i + 1, dp, encode);
  }

  /** Scalars in the list are skipped without effect on the rest. */
  lemma ScalarItemIsSkipped(items: seq<Value>, scalar: Value, dp: DateParser, encode: Value -> string)
    requires !scalar.Arr?
    ensures ArrayEntries(items + [scalar], dp, encode) == ArrayEntries(items, dp, encode)
  {
    assert (items + [scalar])[..|items|] == items;
    match ArrayEntries(items, dp, encode)
    case Failure(_) =>
    case Success(init) => assert init + [] == init;
  }

  // ------------------------------------------------------------ dispatch

  /**
   * What the upload holds once stored, as each adapter would read it: the CSV
   * records `fgetcsv` yields, the outcome of the XML adapter (not modelled),
   * and the decoded YAML and JSON documents or the decoder's failure.
   */
  datatype RawFile = RawFile(
    csvRecords: seq<seq<string>>,
    xmlEntries: Result<seq<ParsedEntry>, IngestError>,
    yamlDocument: Result<Value, IngestError>,
    jsonDocument: Result<Value, IngestError>)

  /** `parseFile`: the adapter chosen by the lower-cased extension. */
  function FileData(file: RawFile, extension: string, dp: DateParser, encode: Value -> string): Result<seq<ParsedEntry>, IngestError>
  {
    match FormatFor(extension)
    case Failure(e) => Failure(e)
    case Success(Csv) => CsvData(file.csvRecords, dp)
    case Success(Xml) => file.xmlEntries
    case Success(Yaml) =>
      (match file.yamlDocument
       case Failure(e) => Failure(e)
       case Success(document) => ArrayData(document, dp, encode))
    case Success(Json) =>
      (match file.jsonDocument
       case Failure(e) => Failure(e)
       case Success(document) => ArrayData(document, dp, encode))
  }

  method ParseFile(file: RawFile, extension: string, dp: DateParser, encode: Value -> string)
    returns (r: Result<seq<ParsedEntry>, IngestError>)
    ensures r == FileData(file, extension, dp, encode)
  {
    var format := FormatFor(extension);
    if format.Failure? {
      return Failure(format.error);
    }
    match format.value {
      case Csv => r := ParseCsvFile(file.csvRecords, dp);
      case Xml => r := file.xmlEntries;
      case Yaml =>
        if file.yamlDocument.Failure? {
          return Failure(file.yamlDocument.error);
        }
        r := ParseArrayData(file.yamlDocument.value, dp, encode);
      case Json =>
        if file.jsonDocument.Failure? {
          return Failure(file.jsonDocument.error);
        }
        r := ParseArrayData(file.jsonDocument.value, dp, encode);
    }
  }

  // ------------------------------------------------------------ dataset bookkeeping

  /** `r` is the reading built for `e` and attached to `d`. */
  ghost predicate ReadingOf(r: TemperatureReading, e: ParsedEntry, d: Dataset)
    reads r
  {
    r.dataset == d && r.timestamp == e.timestamp && r.unixTimestamp == e.timestamp
    && r.temperature == e.temperature
    && r.temperatureKelvin == MktCalculator.CelsiusToKelvin(e.temperature)
    && r.originalData == e.originalData
  }

  /**
   * `createTemperatureReadings`: one new reading per entry, in order, each
   * pointing at the dataset and appended to its collection.
   */
  method CreateTemperatureReadings(dataset: Dataset, entries: seq<ParsedEntry>) returns (created: seq<TemperatureReading>)
    requires dataset.Valid()
    modifies dataset`readings
    ensures dataset.Valid()
    ensures |created| == |entries|
    ensures dataset.readings == old(dataset.readings) + created
    ensures forall i :: 0 <= i < |entries| ==> fresh(created[i]) && ReadingOf(created[i], entries[i], dataset)
    ensures old(dataset.OwnsReadings()) ==> dataset.OwnsReadings()
  {
    created := [];
    for i := 0 to |entries|
      invariant dataset.Valid()
      invariant |created| == i
      invariant dataset.readings == old(dataset.readings) + created
      invariant forall k :: 0 <= k < i ==> fresh(created[k]) && ReadingOf(created[k], entries[k], dataset)
      invariant old(dataset.OwnsReadings()) ==> dataset.OwnsReadings()
    {
      var e := entries[i];
      var reading := new TemperatureReading(e.timestamp, e.temperature,
        MktCalculator.CelsiusToKelvin(e.temperature), e.timestamp, e.originalData);
      reading.SetDataset(dataset);
      dataset.AddTemperatureReading(reading);
      created := created + [reading];
    }
  }

  /** The readings' timestamps, in collection order. */
  function Timestamps(rs: seq<TemperatureReading>): (ts: seq<int>)
    reads rs
    ensures |ts| == |rs|
    ensures forall i :: 0 <= i < |rs| ==> ts[i] == rs[i].timestamp
  {
    seq(|rs|, i reads rs requires 0 <= i < |rs| => rs[i].timestamp)
  }

  /** `min()` of a non-empty array of instants. */
  function EarliestOf(s: seq<int>): (m: int)
    requires |s| > 0
    ensures m in s
    ensures forall i :: 0 <= i < |s| ==> m <= s[i]
  {
    var r := MktCalculator.SeqMin(AsReals(s));
    MemberOfRealsIsInstant(s, r);
    r.Floor
  }

  /** `max()` of a non-empty array of instants. */
  function LatestOf(s: seq<int>): (m: int)
    requires |s| > 0
    ensures m in s
    ensures forall i :: 0 <= i < |s| ==> s[i] <= m
  {
    var r := MktCalculator.SeqMax(AsReals(s));
    MemberOfRealsIsInstant(s, r);
    r.Floor
  }

  /** The instants as reals, so that one `min()`/`max()` serves instants and temperatures. */
  function AsReals(s: seq<int>): (r: seq<real>)
    ensures |r| == |s| && forall i :: 0 <= i < |s| ==> r[i] == s[i] as real
  {
    seq(|s|, i requires 0 <= i < |s| => s[i] as real)
  }

  lemma MemberOfRealsIsInstant(s: seq<int>, r: real)
    requires r in AsReals(s)
    ensures r.Floor in s && r.Floor as real == r
  {
    var k :| 0 <= k < |s| && AsReals(s)[k] == r;
    assert r.Floor == s[k];
  }

  /** The recorded span never runs backwards. */
  lemma StartNotAfterEnd(s: seq<int>)
    requires |s| > 0
    ensures EarliestOf(s) <= LatestOf(s)
  {
    assert EarliestOf(s) <= s[0] <= LatestOf(s);
  }

  /**
   * The dataset's summary columns hold these statistics and this MKT, and,
   * when there are instants, the earliest and latest of them.
   */
  ghost predicate Summarises(d: Dataset, st: MktCalculator.Statistics, mkt: real, stamps: seq<int>)
    reads d
  {
    d.temperatureReadingsCount == Some(st.count as int)
    && d.minTemperature == st.min && d.maxTemperature == st.max
    && d.avgTemperature == st.average
    && d.mktValue == Some(mkt)
    && (|stamps| > 0 ==> d.startTime == Some(EarliestOf(stamps)) && d.endTime == Some(LatestOf(stamps)))
  }

  /**
   * `updateDatasetStatistics`. The MKT is computed before any setter runs, so
   * when it throws (no readings, or a division by zero) nothing is written;
   * otherwise the summary columns and the start/end instants are.
   */
  method UpdateDatasetStatistics(dataset: Dataset, t: MktCalculator.Transcendental) returns (outcome: Outcome<IngestError>)
    modifies dataset`temperatureReadingsCount, dataset`minTemperature, dataset`maxTemperature,
      dataset`avgTemperature, dataset`mktValue, dataset`startTime, dataset`endTime
    ensures var mkt := old(MktCalculator.DatasetMkt(dataset.readings, dataset.activationEnergy, t));
      mkt.Failure? ==> outcome == Fail(MktFailed(mkt.error)) && unchanged(dataset)
    ensures var mkt := old(MktCalculator.DatasetMkt(dataset.readings, dataset.activationEnergy, t));
      mkt.Success? ==>
        outcome == Pass
        && Summarises(dataset, old(MktCalculator.StatisticsOf(MktCalculator.Temperatures(dataset.readings))),
                      mkt.value, old(Timestamps(dataset.readings)))
  {
    var statistics := MktCalculator.CalculateStatistics(dataset);
    var mkt := MktCalculator.CalculateMkt(dataset, t);
    if mkt.Failure? {
      return Fail(MktFailed(mkt.error));
    }
    var timestamps := CollectTimestamps(dataset.readings);
    WriteSummary(dataset, statistics, mkt.value, timestamps);
    return Pass;
  }

  /** The setters of `updateDatasetStatistics`; start and end only when there are instants. */
  method WriteSummary(dataset: Dataset, statistics: MktCalculator.Statistics, mktValue: real, timestamps: seq<int>)
    modifies dataset`temperatureReadingsCount, dataset`minTemperature, dataset`maxTemperature,
      dataset`avgTemperature, dataset`mktValue, dataset`startTime, dataset`endTime
    ensures Summarises(dataset, statistics, mktValue, timestamps)
    ensures |timestamps| == 0 ==> dataset.startTime == old(dataset.startTime) && dataset.endTime == old(dataset.endTime)
  {
    dataset.SetTemperatureReadingsCount(statistics.count);
    dataset.SetMinTemperature(statistics.min);
    dataset.SetMaxTemperature(statistics.max);
    dataset.SetAvgTemperature(statistics.average);
    dataset.SetMktValue(Some(mktValue));
    if |timestamps| > 0 {
      dataset.SetStartTime(Some(EarliestOf(timestamps)));
      dataset.SetEndTime(Some(LatestOf(timestamps)));
    }
  }

  method CollectTimestamps(readings: seq<TemperatureReading>) returns (timestamps: seq<int>)
    ensures timestamps == Timestamps(readings)
  {
    timestamps := [];
    for i := 0 to |readings|
      invariant timestamps == Timestamps(readings[..i])
    {
      timestamps := timestamps + [readings[i].timestamp];
    }
    assert readings[..|readings|] == readings;
  }

  // ------------------------------------------------------------ the whole upload

  /** What the client sent: whether the transfer succeeded, the original extension, the size. */
  datatype Upload = Upload(ok: bool, extension: string, size: int)

  function EntryTemperatures(entries: seq<ParsedEntry>): (ts: seq<real>)
    ensures |ts| == |entries| && forall i :: 0 <= i < |entries| ==> ts[i] == entries[i].temperature
  {
    seq(|entries|, i requires 0 <= i < |entries| => entries[i].temperature)
  }

  function EntryTimestamps(entries: seq<ParsedEntry>): (ts: seq<int>)
    ensures |ts| == |entries| && forall i :: 0 <= i < |entries| ==> ts[i] == entries[i].timestamp
  {
    seq(|entries|, i requires 0 <= i < |entries| => entries[i].timestamp)
  }

  /** `createDataset`: a new dataset carrying the upload's metadata and no readings. */
  method CreateDataset(name: string, description: Option<string>, filename: string,
                       fileSize: int, fileExtension: string, now: int) returns (d: Dataset)
    ensures fresh(d) && d.Valid() && d.OwnsReadings() && d.readings == []
    ensures d.name == Some(name) && d.description == description && d.filename == Some(filename)
    ensures d.fileType == Some(fileExtension) && d.fileSize == Some(fileSize) && d.uploadedAt == Some(now)
    ensures d.activationEnergy == DefaultActivationEnergyText
  {
    d := new Dataset(now);
    d.SetName(name);
    d.SetDescription(description);
    d.SetFilename(filename);
    d.SetFileType(fileExtension);
    d.SetFileSize(fileSize);
    d.SetUploadedAt(now);
  }

  /**
   * What `createDataset` and `createTemperatureReadings` leave behind: a
   * dataset with the upload's metadata and the default activation energy, and
   * one reading per entry in entry order, each pointing back at it.
   */
  ghost predicate BuiltFrom(d: Dataset, upload: Upload, name: string, description: Option<string>,
                            storedName: string, now: int, entries: seq<ParsedEntry>)
    reads d, d.readings
  {
    d.Valid() && d.OwnsReadings()
    && d.name == Some(name) && d.description == description && d.filename == Some(storedName)
    && d.fileType == Some(upload.extension) && d.fileSize == Some(upload.size) && d.uploadedAt == Some(now)
    && d.activationEnergy == DefaultActivationEnergyText
    && |d.readings| == |entries|
    && (forall i :: 0 <= i < |entries| ==> ReadingOf(d.readings[i], entries[i], d))
  }

  /**
   * What a successful upload leaves behind: the dataset built from the
   * entries, with summary columns computed from exactly those entries.
   */
  ghost predicate IngestedAs(d: Dataset, upload: Upload, name: string, description: Option<string>,
                             storedName: string, now: int, entries: seq<ParsedEntry>, mkt: real)
    reads d, d.readings
  {
    BuiltFrom(d, upload, name, description, storedName, now, entries)
    && Summarises(d, MktCalculator.StatisticsOf(EntryTemperatures(entries)), mkt, EntryTimestamps(entries))
  }

  /** The MKT the new dataset of an upload gets, from its entries and the default activation energy. */
  function UploadMkt(entries: seq<ParsedEntry>, t: MktCalculator.Transcendental): Result<real, MktCalculator.MktError>
  {
    if |entries| == 0 then Failure(MktCalculator.NoReadings)
    else MktCalculator.MktFromArray(EntryTemperatures(entries),
      MktCalculator.EffectiveActivationEnergy(DefaultActivationEnergyText), t)
  }

  /** Readings built from entries give the MKT the entries give. */
  lemma ReadingsCarryMkt(rs: seq<TemperatureReading>, entries: seq<ParsedEntry>, d: Dataset, t: MktCalculator.Transcendental)
    requires |rs| == |entries| && forall i :: 0 <= i < |entries| ==> ReadingOf(rs[i], entries[i], d)
    ensures MktCalculator.DatasetMkt(rs, DefaultActivationEnergyText, t) == UploadMkt(entries, t)
  {
    assert MktCalculator.Temperatures(rs) == EntryTemperatures(entries);
  }

  /** Readings built from entries give the statistics and instants the entries give. */
  lemma ReadingsCarryStats(rs: seq<TemperatureReading>, entries: seq<ParsedEntry>, d: Dataset, st: MktCalculator.Statistics, stamps: seq<int>)
    requires |rs| == |entries| && forall i :: 0 <= i < |entries| ==> ReadingOf(rs[i], entries[i], d)
    requires st == MktCalculator.StatisticsOf(MktCalculator.Temperatures(rs)) && stamps == Timestamps(rs)
    ensures st == MktCalculator.StatisticsOf(EntryTemperatures(entries))
    ensures stamps == EntryTimestamps(entries)
  {
    assert MktCalculator.Temperatures(rs) == EntryTemperatures(entries);
  }

  /**
   * The tail of `processUploadedFile` once the entries are parsed:
   * `createDataset`, `createTemperatureReadings`, `updateDatasetStatistics`.
   */
  method IngestEntries(upload: Upload, name: string, description: Option<string>, storedName: string,
                       now: int, entries: seq<ParsedEntry>, t: MktCalculator.Transcendental)
    returns (r: Result<Dataset, IngestError>)
    ensures UploadMkt(entries, t).Failure? ==> r == Failure(MktFailed(UploadMkt(entries, t).error))
    ensures UploadMkt(entries, t).Success? ==>
      r.Success? && fresh(r.value) && (forall x :: x in r.value.readings ==> fresh(x))
      && IngestedAs(r.value, upload, name, description, storedName, now, entries, UploadMkt(entries, t).value)
  {
    var dataset := BuildDataset(upload, name, description, storedName, now, entries);
    var outcome := SummariseDataset(dataset, entries, t);
    assert BuiltFrom(dataset, upload, name, description, storedName, now, entries);
    if outcome.Fail? {
      return Failure(outcome.error);
    }
    return Success(dataset);
  }

  /**
   * `updateDatasetStatistics` on a dataset whose readings were just built
   * from `entries` under the default activation energy.
   */
  method SummariseDataset(dataset: Dataset, entries: seq<ParsedEntry>, t: MktCalculator.Transcendental)
    returns (outcome: Outcome<IngestError>)
    requires dataset.activationEnergy == DefaultActivationEnergyText
    requires |dataset.readings| == |entries|
    requires forall i :: 0 <= i < |entries| ==> ReadingOf(dataset.readings[i], entries[i], dataset)
    modifies dataset`temperatureReadingsCount, dataset`minTemperature, dataset`maxTemperature,
      dataset`avgTemperature, dataset`mktValue, dataset`startTime, dataset`endTime
    ensures UploadMkt(entries, t).Failure? ==> outcome == Fail(MktFailed(UploadMkt(entries, t).error))
    ensures UploadMkt(entries, t).Success? ==>
      outcome == Pass
      && Summarises(dataset, MktCalculator.StatisticsOf(EntryTemperatures(entries)), UploadMkt(entries, t).value,
                    EntryTimestamps(entries))
  {
    ghost var rs := dataset.readings;
    ReadingsCarryMkt(rs, entries, dataset, t);
    ReadingsCarryStats(rs, entries, dataset, MktCalculator.StatisticsOf(MktCalculator.Temperatures(rs)), Timestamps(rs));
    outcome := UpdateDatasetStatistics(dataset, t);
  }

  /** `createDataset` followed by `createTemperatureReadings`. */
  method BuildDataset(upload: Upload, name: string, description: Option<string>, storedName: string,
                      now: int, entries: seq<ParsedEntry>) returns (d: Dataset)
    ensures fresh(d) && (forall x :: x in d.readings ==> fresh(x))
    ensures BuiltFrom(d, upload, name, description, storedName, now, entries)
  {
    d := CreateDataset(name, description, storedName, upload.size, upload.extension, now);
    var created := CreateTemperatureReadings(d, entries);
    assert d.readings == created;
  }

  /**
   * `processUploadedFile`: validate the upload, parse the stored file, then
   * build and summarise the dataset. The first failure aborts the upload.
   */
  method ProcessUploadedFile(upload: Upload, name: string, description: Option<string>,
                             storedName: string, now: int, file: RawFile,
                             dp: DateParser, encode: Value -> string, t: MktCalculator.Transcendental)
    returns (r: Result<Dataset, IngestError>)
    ensures var check := ValidateFile(upload.ok, upload.extension, upload.size);
      check.Fail? ==> r == Failure(check.error)
    ensures var data := FileData(file, upload.extension, dp, encode);
      ValidateFile(upload.ok, upload.extension, upload.size) == Pass && data.Failure? ==> r == Failure(data.error)
    ensures var data := FileData(file, upload.extension, dp, encode);
      ValidateFile(upload.ok, upload.extension, upload.size) == Pass && data.Success? ==>
        (UploadMkt(data.value, t).Failure? ==> r == Failure(MktFailed(UploadMkt(data.value, t).error)))
        && (UploadMkt(data.value, t).Success? ==>
              r.Success? && fresh(r.value)
              && IngestedAs(r.value, upload, name, description, storedName, now, data.value, UploadMkt(data.value, t).value))
  {
    var check := ValidateFile(upload.ok, upload.extension, upload.size);
    if check.Fail? {
      return Failure(check.error);
    }
    var data := ParseFile(file, upload.extension, dp, encode);
    if data.Failure? {
      return Failure(data.error);
    }
    r := IngestEntries(upload, name, description, storedName, now, data.value, t);
  }
}
