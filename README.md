# Mean Kinetic Temperature calculator — a Dafny model

This project models the core of a Symfony application that ingests temperature
logs, stores them as datasets and computes their Mean Kinetic Temperature
(MKT). The modelled parts are:

- **MktCalculatorService.** Computes the MKT of a dataset or of a bare array of
  Celsius temperatures:

  `MKT = -(ΔH/R) / ln( Σ exp(-(ΔH/R) / T_K) / n )`

  with ΔH = 83.144 kJ/mol by default and R = 8.314 J/(mol·K). It also computes
  per-dataset statistics and converts between Celsius and Kelvin.
- **FileUploadService.** Validates an uploaded file by its extension and size,
  parses CSV, YAML or JSON content into timestamped readings, builds a
  `Dataset` with its `TemperatureReading`s, and writes the dataset's summary
  columns.
- **The `Dataset` entity** and its reading collection.
- **`AppExtension::formatFileSize`.** Picks the unit (B … TB) a byte count is
  shown in.
- **Parts of `DatasetController`:**
  - the `/api/calculate-mkt` endpoint's input checks, defaults and responses;
  - the export endpoint's format choice, CSV body and file name.

Files:

| file | module | models |
|---|---|---|
| `wrappers.dfy` | `Wrappers` | `Option`, `Result`, `Outcome` |
| `php_text.dfy` | `PhpText` | the PHP string primitives the core relies on: `is_numeric`, `(float)`, `strtolower`, `implode`, `explode`, the digit filter of `parseTemperature` |
| `php_value.dfy` | `PhpValue` | decoded JSON/YAML values as PHP arrays (`isset`, `empty`, `(float)`) |
| `entities.dfy` | `Entities` | the `Dataset` and `TemperatureReading` classes |
| `mkt_calculator.dfy` | `MktCalculator` | `MktCalculatorService` |
| `file_upload.dfy` | `FileUpload` | `FileUploadService` |
| `file_size.dfy` | `FileSize` | `AppExtension::formatFileSize` |
| `dataset_controller.dfy` | `DatasetController` | `apiCalculateMkt` and `apiExport` |

How the model stands in for things Dafny cannot compute:

- **Exponential and logarithm.** They are the fields of a `Transcendental`
  value passed to every MKT member. Lemmas that need `ln(exp(x)) = x` require
  `LnInvertsExp`.
- **`DateTimeImmutable::createFromFormat` and `new DateTimeImmutable(...)`.**
  They are the fields of a `DateParser`, so the model does not fix how
  individual dates parse. It does fix which parser is asked, in which order,
  and that a rejected '@' form (for numeric input) aborts the parse, since
  the source calls it outside any `try`.
- **Instants.** They are Unix seconds.
- **`json_encode`.** It is an `encode` function parameter.
- **The export's date and decimal rendering.** It is a `Formatter` parameter.
- **Decimal columns.** PHP stores them as strings; here they are the reals
  they denote.
- **Division by zero and `TypeError`.** PHP 8 raises both as `Error`s, which
  `catch (\Exception)` does not catch. They appear as explicit error results
  (`DivisionByZero`, and `ServerError` in the endpoint model).

## Model

| member | source | states |
|---|---|---|
| MktCalculator.CelsiusToKelvin | src/Service/MktCalculatorService.php:137-140 | adding the Kelvin offset is undone by the Kelvin-to-Celsius conversion |
| MktCalculator.KelvinToCelsius | src/Service/MktCalculatorService.php:148-151 | subtracting the offset is undone by adding it back, and a positive Kelvin value is exactly a Celsius value above absolute zero |
| MktCalculator.KelvinCelsiusRoundTrip | src/Service/MktCalculatorService.php:137-151 | converting Kelvin to Celsius and back gives the original value |
| MktCalculator.IsValidTemperature | src/Service/MktCalculatorService.php:159-163 | a Celsius temperature is valid exactly when it is above absolute zero in Kelvin |
| MktCalculator.EffectiveActivationEnergy | src/Service/MktCalculatorService.php:34 | the stored activation energy cast to float, or 83.144 when the cast gives 0 (the `?:` fallback); the result is never 0 |
| MktCalculator.Temperatures | src/Service/MktCalculatorService.php:40-41 | the Celsius temperatures of the readings, one per reading and in collection order |
| MktCalculator.CalculateMktFromArray | src/Service/MktCalculatorService.php:64-84 | the loop returns the closed-form MKT of the array: an empty-array error first, then the exponential average; a zero Kelvin value or a zero activation energy gives DivisionByZero |
| MktCalculator.CalculateMkt | src/Service/MktCalculatorService.php:26-55 | a dataset's MKT is the closed form over its readings' temperatures with the fallback activation energy; no readings is an error |
| MktCalculator.CloseMkt | src/Service/MktCalculatorService.php:51-54 | the closing step (average, log, invert, back to Celsius) equals the closed form for a positive count |
| MktCalculator.SumExponentialsStep | src/Service/MktCalculatorService.php:40-45 | one loop iteration adds exactly exp of the next reading's exponent to the running sum |
| MktCalculator.SumExponentialsOfConstant | src/Service/MktCalculatorService.php:74-78 | for n equal temperatures, the sum of exponentials is n times one term |
| MktCalculator.ConstantTemperaturesGiveThatTemperature | tests/Service/MktCalculatorServiceTest.php:17-23 | when ln inverts exp, the MKT of a non-empty array of one repeated temperature is that temperature |
| MktCalculator.ZeroActivationEnergyDividesByZero | src/Service/MktCalculatorService.php:80-83 | activation energy 0 makes the logarithm 0, so the final division fails with DivisionByZero |
| MktCalculator.SumExponentialsOfZeroEnergy | src/Service/MktCalculatorService.php:74-78 | with activation energy 0, every exponent is 0 and the sum is n·exp(0) |
| MktCalculator.DatasetActivationEnergyFallback | src/Service/MktCalculatorService.php:34 | a stored activation energy that casts to 0 is replaced by 83.144 |
| MktCalculator.SeqMin | src/Service/MktCalculatorService.php:111 | the minimum is a member of the temperatures and no larger than any of them |
| MktCalculator.SeqMax | src/Service/MktCalculatorService.php:112 | the maximum is a member of the temperatures and no smaller than any of them |
| MktCalculator.StatisticsOf | src/Service/MktCalculatorService.php:92-130 | the statistics' count is the number of temperatures |
| MktCalculator.CalculateStatistics | src/Service/MktCalculatorService.php:92-130 | the loop gives the statistics of the dataset's temperatures: count, min, max, mean and variance, or only the count 0 when there are no readings |
| MktCalculator.StatisticsOfNothing | src/Service/MktCalculatorService.php:99-107 | with no readings, the count is 0 and min, max, average and spread are null |
| MktCalculator.StatisticsBounds | src/Service/MktCalculatorService.php:109-129 | for at least one reading: every statistic is present, min and max are readings, min ≤ average ≤ max, and the variance is non-negative |
| MktCalculator.AverageWithinRange | src/Service/MktCalculatorService.php:113 | the mean of values lying in [lo, hi] lies in [lo, hi] |
| MktCalculator.SumAtLeast | src/Service/MktCalculatorService.php:113 | the sum of n values each ≥ lo is at least n·lo |
| MktCalculator.SumAtMost | src/Service/MktCalculatorService.php:113 | the sum of n values each ≤ hi is at most n·hi |
| MktCalculator.SumSquaresNonNegative | src/Service/MktCalculatorService.php:116-119 | the sum of squared deviations is non-negative |
| FileUpload.ValidateFile | src/Service/FileUploadService.php:79-96 | an upload passes exactly when it succeeded, its lower-cased extension is csv/xml/yaml/yml/json, and its size is at most 10 MB; failed uploads and unknown types are rejected with their own errors, in that order |
| FileUpload.SizeCeiling | src/Service/FileUploadService.php:92-95 | 10485760 bytes are accepted and 10485761 are rejected as too large |
| FileUpload.FormatFor | src/Service/FileUploadService.php:105-120 | the parser is chosen exactly for the allowed extensions, compared case-insensitively; any other extension is an unsupported-type error naming it |
| FileUpload.ToLowerIdempotent | src/Service/FileUploadService.php:86 | lower-casing twice is lower-casing once |
| FileUpload.DispatchIsCaseInsensitive | src/Service/FileUploadService.php:86-107 | the dispatch does not depend on case, and every validated extension has a parser |
| FileUpload.YmlAndYamlShareAnAdapter | src/Service/FileUploadService.php:111-113 | "YML" and "yaml" both select the YAML parser |
| FileUpload.FirstFormatMatch | src/Service/FileUploadService.php:356-365 | no date is found exactly when none of the formats parses the text |
| FileUpload.TimestampOf | src/Service/FileUploadService.php:334-373 | a non-empty array aborts (a TypeError), and so does a number or numeric text whose '@' form the date parser rejects, since that call is outside any try; a string goes through the text rules |
| FileUpload.TimestampOfText | src/Service/FileUploadService.php:334-373 | empty text gives no date; text aborts exactly when it is numeric and its '@' form is rejected, and then with that error |
| FileUpload.ParseTimestamp | src/Service/FileUploadService.php:334-373 | the method returns what the timestamp rules give for its argument |
| FileUpload.NumericTimestampIgnoresFormats | src/Service/FileUploadService.php:340-342 | numeric text is read only through its '@' form: that form's instant, or an abort when it is rejected; the listed formats never change the result |
| FileUpload.FirstFormatMatchAt | src/Service/FileUploadService.php:356-365 | the first format in the list that parses the text decides the result |
| FileUpload.FirstParsingFormatWins | src/Service/FileUploadService.php:346-365 | for non-numeric text, the first of the seven formats that parses decides, and the generic parser is then never consulted |
| FileUpload.DayFirstBeatsMonthFirst | src/Service/FileUploadService.php:346-354 | text that both day-first and month-first formats parse is read day-first, since "d/m/Y H:i:s" comes first |
| FileUpload.GenericParseIsTheLastResort | src/Service/FileUploadService.php:367-372 | when no listed format parses the text, the generic parser's answer is used |
| FileUpload.ParseTemperature | src/Service/FileUploadService.php:377-392 | empty values, null and arrays give nothing; a string gives a value exactly when its digits, '.' and '-' form numeric text, and that value is the text's; a number gives itself and `true` gives 1 |
| FileUpload.ParseTemperatureOfDecimal | src/Service/FileUploadService.php:378-392 | a written decimal (optional minus, digits, point, digits) parses to the number it denotes |
| FileUpload.ParseTemperatureOfCleanNumeric | src/Service/FileUploadService.php:385-389 | numeric text made only of digits, '.' and '-' (at least two characters) parses to its value |
| FileUpload.ParseTemperatureIgnoresUnits | src/Service/FileUploadService.php:385 | appending unit text such as "°C" does not change the parsed value |
| FileUpload.ZeroCelsiusWrittenAsZeroIsDropped | src/Service/FileUploadService.php:380-382 | "0" and the number 0 count as empty and give no temperature, while "0.0" gives 0 |
| FileUpload.ZeroCelsiusWithPointIsKept | src/Service/FileUploadService.php:380-389 | "0.0" is not empty and parses to 0 |
| FileUpload.SearchIndex | src/Service/FileUploadService.php:304 | `array_search`: none exactly when the name is absent; otherwise the first position holding it |
| FileUpload.ColumnIndexIsFirstPresentSynonym | src/Service/FileUploadService.php:300-329 | the column found is the position of the first synonym, in list order, that the header contains, or the default when none does |
| FileUpload.FindColumn | src/Service/FileUploadService.php:300-312 | the synonym loop returns the first present synonym's position, or the default |
| FileUpload.FindTimestampColumn | src/Service/FileUploadService.php:300-312 | timestamp/time/date/datetime are searched in that order, defaulting to column 0 |
| FileUpload.FindTemperatureColumn | src/Service/FileUploadService.php:317-329 | the temperature synonyms are searched in order, defaulting to column 1 |
| FileUpload.LowerAll | src/Service/FileUploadService.php:143 | every header name is lower-cased, position by position |
| FileUpload.RowEntry | src/Service/FileUploadService.php:146-158 | a short row gives nothing; a row aborts exactly when its timestamp aborts; an entry carries the row's parsed timestamp, its parsed temperature above absolute zero and the row joined by ','; and a row whose timestamp parses and whose temperature parses above absolute zero always gives an entry |
| FileUpload.CsvEntries | src/Service/FileUploadService.php:145-160 | unless a row aborts, at most one entry per data row, and every entry is above absolute zero |
| FileUpload.ParseCsvFile | src/Service/FileUploadService.php:128-164 | the loop produces the entries of the CSV rules: header lower-cased, columns found, then row by row |
| FileUpload.ParseRow | src/Service/FileUploadService.php:146-158 | one loop iteration yields the row's entry, nothing, or the row's abort |
| FileUpload.CsvEntriesStep | src/Service/FileUploadService.php:145-160 | each row appends its own entry, if any, to those of the rows before it; an abort of the earlier rows or of the row itself is the result |
| FileUpload.CsvEntriesFailurePersists | src/Service/FileUploadService.php:145-160 | once some row aborts, the whole file aborts with that row's error, whatever rows follow |
| FileUpload.CsvEntriesAppend | src/Service/FileUploadService.php:145-160 | a row appended to the file contributes exactly its own entry, or its abort |
| FileUpload.CsvEntriesConcat | src/Service/FileUploadService.php:145-160 | rows are processed independently: two blocks of rows give the concatenation of each block's entries, and the first block's abort, else the second's |
| FileUpload.ShortRowIsSkipped | src/Service/FileUploadService.php:146 | a row shorter than max(timestamp column, temperature column) + 1 adds nothing |
| FileUpload.CsvEntriesComeFromRows | src/Service/FileUploadService.php:145-160 | every entry is the entry of some row of the file |
| FileUpload.RejectedUnixTimestampAbortsCsv | src/Service/FileUploadService.php:145-149 | a row whose numeric timestamp has a rejected '@' form aborts the whole file, after rows that parsed cleanly |
| FileUpload.CsvDataOfHeaderAndRows | src/Service/FileUploadService.php:137-160 | the first record is the header; the columns are searched in its lower-cased names and only the remaining rows are read |
| FileUpload.HeaderDateValue | src/Service/FileUploadService.php:143-145 | for the header "date,value", the timestamp is column 0 and the temperature column 1 |
| FileUpload.SubAbsoluteZeroRowIsDropped | src/Service/FileUploadService.php:145-160 | a file with a 20.0 row and a -999.0 row parses without abort to exactly one entry |
| FileUpload.TwentyDegreeRowIsKept | src/Service/FileUploadService.php:146-158 | a parseable date with 20.0 °C gives an entry |
| FileUpload.MinusNineNineNineRowIsDropped | src/Service/FileUploadService.php:150-151 | -999.0 °C is below absolute zero, so the row gives no entry, and its date does not abort |
| FileUpload.SpacedDateBelowAbsoluteZeroIsDropped | src/Service/FileUploadService.php:146-151 | a row whose date contains a space and whose temperature is at or below -274 gives no entry and no abort |
| FileUpload.SpacedDateDoesNotAbort | src/Service/FileUploadService.php:339-342 | text with a space is not numeric, so it never aborts and is left to the formats |
| FileUpload.OneOfTwoRowsKept | src/Service/FileUploadService.php:145-160 | of a kept row and a dropped row, the file parses without abort to exactly one entry |
| FileUpload.DecimalRowIsKept | src/Service/FileUploadService.php:146-158 | a row whose date parses with the first format and whose temperature is a non-negative decimal is kept |
| FileUpload.BelowAbsoluteZeroRowIsDropped | src/Service/FileUploadService.php:150-151 | a decimal temperature at or below -274 gives no entry, whatever the date; only the date's abort can come out |
| FileUpload.NegativeDecimalBelowAbsoluteZero | src/Service/FileUploadService.php:378-392 | "-" followed by a decimal with a whole part of at least 274 parses to at most -274 |
| FileUpload.InvalidTemperatureRowIsDropped | src/Service/FileUploadService.php:150-151 | a temperature at or below -273.15 gives no entry; only the timestamp's abort can come out |
| FileUpload.FirstSetKey | src/Service/FileUploadService.php:270-283 | the key used is the first one in the synonym list that is set on the item; none before it is set |
| FileUpload.ItemEntry | src/Service/FileUploadService.php:262-291 | an item's entry is above absolute zero and carries the item's JSON encoding as its original data |
| FileUpload.ArrayEntries | src/Service/FileUploadService.php:261-292 | at most one entry per item, all above absolute zero |
| FileUpload.ParseItem | src/Service/FileUploadService.php:262-291 | one loop iteration gives the item's entry, none, or the abort |
| FileUpload.ParseArrayData | src/Service/FileUploadService.php:250-295 | the loop gives the entries of the readings/data/top-level items |
| FileUpload.ArrayEntriesStep | src/Service/FileUploadService.php:261-292 | each item appends its entry, and an abort persists |
| FileUpload.ArrayEntriesFailurePersists | src/Service/FileUploadService.php:261-292 | once an item aborts parsing, the whole parse fails with that error |
| FileUpload.UnparseableFirstKeyIsNotRetried | src/Service/FileUploadService.php:270-275 | when the "timestamp" key is set but does not parse, the other timestamp keys are not tried and the item is skipped |
| FileUpload.ArrayEntriesComeFromItems | src/Service/FileUploadService.php:261-292 | every entry is the entry of some item and carries that item's encoding |
| FileUpload.NestedTimestampAbortsParse | src/Service/FileUploadService.php:271-273 | a non-empty array under the chosen timestamp key aborts the whole parse |
| FileUpload.ScalarItemIsSkipped | src/Service/FileUploadService.php:262-264 | an item that is not an array contributes nothing |
| FileUpload.ParseFile | src/Service/FileUploadService.php:105-120 | the parse dispatches on the lower-cased extension to the CSV, YAML or JSON rules |
| FileUpload.CreateTemperatureReadings | src/Service/FileUploadService.php:413-427 | one fresh reading per entry, appended in order to the dataset; each carries its entry's time, its Celsius and Kelvin temperatures and its original data, and points to the dataset |
| FileUpload.Timestamps | src/Service/FileUploadService.php:446-449 | the readings' instants, one per reading and in order |
| FileUpload.EarliestOf | src/Service/FileUploadService.php:450 | the earliest instant is one of the instants and is no later than any of them |
| FileUpload.LatestOf | src/Service/FileUploadService.php:451 | the latest instant is one of the instants and is no earlier than any of them |
| FileUpload.StartNotAfterEnd | src/Service/FileUploadService.php:450-451 | the start time written is never after the end time |
| FileUpload.UpdateDatasetStatistics | src/Service/FileUploadService.php:432-453 | when the MKT fails, nothing is written; otherwise the count, min, max, average, MKT, and earliest and latest instants of the readings are written |
| FileUpload.WriteSummary | src/Service/FileUploadService.php:437-452 | the summary columns get the given values; start and end stay as they were when there are no instants |
| FileUpload.CollectTimestamps | src/Service/FileUploadService.php:446-449 | the loop collects the readings' instants in order |
| FileUpload.EntryTemperatures | src/Service/FileUploadService.php:419-420 | the parsed temperatures, one per entry |
| FileUpload.EntryTimestamps | src/Service/FileUploadService.php:418 | the parsed instants, one per entry |
| FileUpload.CreateDataset | src/Service/FileUploadService.php:397-408 | a fresh, empty dataset with the given name, description, stored file name, type, size and upload instant, and the default activation energy "83.144" |
| FileUpload.ReadingsCarryMkt | src/Service/FileUploadService.php:413-435 | the MKT of the created readings is the MKT of the parsed temperatures |
| FileUpload.ReadingsCarryStats | src/Service/FileUploadService.php:413-451 | the statistics and instants of the created readings are those of the parsed entries |
| FileUpload.IngestEntries | src/Service/FileUploadService.php:57-64 | with an MKT failure the ingest fails; otherwise the result is a fresh dataset built from the entries and summarised with their MKT |
| FileUpload.SummariseDataset | src/Service/FileUploadService.php:432-453 | the dataset's summary is the statistics, MKT and instant range of the parsed entries, or the MKT error |
| FileUpload.BuildDataset | src/Service/FileUploadService.php:57-61 | a fresh dataset holding one fresh reading per entry, in order |
| FileUpload.ProcessUploadedFile | src/Service/FileUploadService.php:35-71 | validation errors come first, then parse errors, then MKT errors; otherwise the result is a fresh dataset holding the file's readings with its statistics and MKT |
| FileSize.SizeLabel | src/Twig/AppExtension.php:17-33 | "Unknown" exactly for null or non-positive sizes |
| FileSize.FormatFileSize | src/Twig/AppExtension.php:17-33 | the division loop shows the count divided by 1024^k in unit k, where k is the largest unit ≤ the count, capped at TB |
| FileSize.StepDown | src/Twig/AppExtension.php:27-30 | one division by 1024 keeps size·1024^k equal to the byte count |
| FileSize.StopsAtUnit | src/Twig/AppExtension.php:27-30 | where the loop stops, the count is below the next power unless the unit is TB |
| FileSize.Pow1024Monotone | src/Twig/AppExtension.php:27-30 | the unit powers increase |
| FileSize.UnitIndexIsCharacterised | src/Twig/AppExtension.php:23-30 | unit k is chosen exactly when 1024^k ≤ count < 1024^(k+1), with TB as the cap |
| FileSize.LargestUnitUpToFinds | src/Twig/AppExtension.php:23-30 | searching down from a cap finds the unit the bounds single out |
| FileSize.UnitIndexBounds | src/Twig/AppExtension.php:23-30 | the chosen unit is no bigger than the count, and the next unit is bigger unless it is TB |
| FileSize.LargestUnitUpToBounds | src/Twig/AppExtension.php:23-30 | the search down from a cap stops at a unit no bigger than the count |
| FileSize.SmallCountsAreBytes | src/Twig/AppExtension.php:23-32 | fewer than 1024 bytes are shown undivided, in B |
| FileSize.ShownSizeRange | src/Twig/AppExtension.php:23-32 | the shown size is at least 1, and below 1024 unless the unit is TB |
| Entities.TemperatureReading.constructor | src/Entity/TemperatureReading.php:19-33 | a new reading has its given fields and no dataset |
| Entities.TemperatureReading.SetDataset | src/Entity/TemperatureReading.php:46-50 | sets the owning dataset and nothing else |
| Entities.RemoveFirst | src/Entity/Dataset.php:247-249 | `removeElement`: without its first occurrence of r, one shorter when r was held, otherwise unchanged, and still duplicate-free |
| Entities.Dataset.constructor | src/Entity/Dataset.php:58-68 | a new dataset has an empty collection, the upload instant "now", activation energy "83.144" and every other column null |
| Entities.Dataset.AddTemperatureReading | src/Entity/Dataset.php:237-245 | a reading not yet held is appended and pointed at this dataset; one already held changes nothing; the collection stays duplicate-free and owned |
| Entities.Dataset.RemoveTemperatureReading | src/Entity/Dataset.php:247-257 | a held reading is removed, and its back-reference is cleared only if it still points here; a reading not held is untouched; the collection stays duplicate-free and owned |
| Entities.Dataset.SetName | src/Entity/Dataset.php:80-84 | sets the name |
| Entities.Dataset.SetDescription | src/Entity/Dataset.php:91-95 | sets the (nullable) description |
| Entities.Dataset.SetFilename | src/Entity/Dataset.php:102-106 | sets the stored file name |
| Entities.Dataset.SetFileType | src/Entity/Dataset.php:113-117 | sets the file type |
| Entities.Dataset.SetFileSize | src/Entity/Dataset.php:124-128 | sets the file size |
| Entities.Dataset.SetUploadedAt | src/Entity/Dataset.php:135-139 | sets the upload instant |
| Entities.Dataset.SetMktValue | src/Entity/Dataset.php:146-150 | sets the (nullable) MKT |
| Entities.Dataset.SetTemperatureReadingsCount | src/Entity/Dataset.php:157-161 | sets the reading count |
| Entities.Dataset.SetMinTemperature | src/Entity/Dataset.php:168-172 | sets the (nullable) minimum |
| Entities.Dataset.SetMaxTemperature | src/Entity/Dataset.php:179-183 | sets the (nullable) maximum |
| Entities.Dataset.SetAvgTemperature | src/Entity/Dataset.php:190-194 | sets the (nullable) average |
| Entities.Dataset.SetStartTime | src/Entity/Dataset.php:201-205 | sets the (nullable) start instant |
| Entities.Dataset.SetEndTime | src/Entity/Dataset.php:212-216 | sets the (nullable) end instant |
| Entities.Dataset.SetActivationEnergy | src/Entity/Dataset.php:223-227 | sets the activation energy text |
| DatasetController.ActivationEnergyArgument | src/Controller/DatasetController.php:193 | the activation energy argument is never null; when it is absent from the body it is 83.144 |
| DatasetController.CoerceFloatParameter | src/Controller/DatasetController.php:195 | passing a value to the `float` parameter fails exactly for null, arrays and strings without a numeric prefix; otherwise it yields the value cast to float |
| DatasetController.CastTemperatures | src/Service/MktCalculatorService.php:74-75 | each array element is cast to float, in order |
| DatasetController.ApiCalculateMkt | src/Controller/DatasetController.php:183-207 | a 400 "temperatures array is required" exactly when `temperatures` is missing or not an array; a success echoes the activation energy argument and the element count, and reports the MKT of the array |
| DatasetController.DefaultActivationEnergyApplies | src/Controller/DatasetController.php:188-205 | without `activationEnergy`, an empty array is a 400, a computable MKT uses 83.144 and echoes it, and a division by zero is a 500 |
| DatasetController.List | tests/Controller/DatasetControllerApiTest.php:14 | a JSON list decodes to an array holding its elements in order under the keys "0", "1", "2", … |
| DatasetController.ThreeTemperaturesEchoEnergyAndCount | tests/Controller/DatasetControllerApiTest.php:9-41 | the body [20, 25, 30] succeeds exactly when their MKT at 83.144 is computable, and then echoes 83.144 and count 3 |
| DatasetController.EmptyTemperaturesAreBadRequest | tests/Controller/DatasetControllerApiTest.php:42-64 | an empty temperature array is a 400 carrying the service's message |
| DatasetController.NonNumericEnergyIsTypeError | src/Controller/DatasetController.php:193-195 | a non-numeric activation energy string is a TypeError at the call, which the `\Exception` handler does not catch |
| DatasetController.ExportFormatOf | src/Controller/DatasetController.php:212-239 | the export is JSON exactly when `format=json`; anything else, including no format, is CSV |
| DatasetController.RowsOf | src/Controller/DatasetController.php:214-222 | one export row per reading |
| DatasetController.ExportRows | src/Controller/DatasetController.php:214-222 | the loop builds each reading's row (time, Celsius, Kelvin, Unix seconds), in collection order |
| DatasetController.NatText | src/Controller/DatasetController.php:242 | the decimal text of a natural number is digits denoting that number |
| DatasetController.IntText | src/Controller/DatasetController.php:242 | an integer's text is its magnitude's digits, with '-' in front when negative |
| DatasetController.CsvContent | src/Controller/DatasetController.php:240-243 | the loop gives the header line followed by one comma-joined line per row, each ending in a newline |
| DatasetController.SanitizeFilenamePart | src/Controller/DatasetController.php:251 | each character outside [a-zA-Z0-9_-] becomes '_', every other one is kept, and the length is unchanged |
| DatasetController.SanitizeIsIdempotent | src/Controller/DatasetController.php:251 | sanitising twice is sanitising once |
| DatasetController.SafeNamesAreKept | src/Controller/DatasetController.php:251 | a name made only of safe characters is left as it is |
| DatasetController.ApiExport | src/Controller/DatasetController.php:209-261 | the file gets the format's content type and the name `<sanitised name>_export_<stamp>.<ext>`; its content is the CSV body of the rows, or the encoding of the dataset's name, MKT, activation energy and rows |
| DatasetController.CsvLines | src/Controller/DatasetController.php:241-243 | one CSV line per row, in order |
| DatasetController.JoinAppend | src/Controller/DatasetController.php:242 | joining one more part appends the separator and that part |
| DatasetController.CsvBodyIsJoinedLines | src/Controller/DatasetController.php:240-243 | the CSV body is the header and the row lines joined by newlines, plus a final newline |
| DatasetController.IntTextHasNoSeparators | src/Controller/DatasetController.php:220 | an integer's text holds neither ',' nor a newline |
| DatasetController.JoinHasNoNewline | src/Controller/DatasetController.php:242 | comma-joining parts without newlines gives a line without newlines |
| DatasetController.HeaderReadsBack | src/Controller/DatasetController.php:240 | the header is one line, and splitting it on ',' gives the four column names |
| DatasetController.CsvLineReadsBack | src/Controller/DatasetController.php:242 | a row whose fields contain no ',' or newline is one line, and splitting it on ',' gives back its four fields |
| DatasetController.CsvBodyReadsBack | src/Controller/DatasetController.php:240-243 | splitting the body on newlines gives the header, one line per row in order, and an empty last piece |
| DatasetController.CsvBodySplitsIntoLines | src/Controller/DatasetController.php:240-243 | the body splits on newlines into exactly the header, the row lines and "" |
| DatasetController.LinesHaveNoNewline | src/Controller/DatasetController.php:240-243 | no line of the body contains a newline |
| DatasetController.CsvBodyIsTerminatedLines | src/Controller/DatasetController.php:240-243 | the body is the newline-join of the header, the row lines and a final empty piece |
| DatasetController.PlainFormatterGivesPlainRow | src/Controller/DatasetController.php:216-221 | rendering without separators gives a row whose fields contain no separators |
| DatasetController.RowsOfPlainFormatterArePlain | src/Controller/DatasetController.php:214-222 | every exported row is free of separators when the rendering is |
| DatasetController.CsvExportReadsBack | src/Controller/DatasetController.php:238-246 | when dates and decimals render without ',' or newlines, the CSV has the header plus one line per reading, and each line splits back into that reading's fields |
| PhpText.ExplodeJoin | src/Controller/DatasetController.php:242 | `explode` undoes `implode` when no part contains the separator |
| PhpText.ToLower | src/Service/FileUploadService.php:86 | `strtolower` maps each character to its lower-case form and keeps the length |
| PhpText.KeepNumericChars | src/Service/FileUploadService.php:385 | the filter keeps only digits, '.' and '-' |
| PhpText.KeepNumericCharsAppend | src/Service/FileUploadService.php:385 | the filter works character by character, so filtering a concatenation is concatenating the filtered parts |
| PhpText.FloatCast | src/Service/FileUploadService.php:387-388 | the float cast of numeric text is the number it denotes |
| PhpText.NumericPrefixLength | src/Controller/DatasetController.php:195 | the longest numeric prefix: numeric when non-empty, and no longer prefix is numeric |
| PhpValue.Lookup | src/Service/FileUploadService.php:271 | a key is found exactly when some entry has it, and the value found is that of the last entry with the key, as the decoder keeps the last of repeated keys |

## Left out

- **XML files** (`parseXmlFile`, `src/Service/FileUploadService.php:172-212`).
  The model has no XML document tree. An `.xml` upload is validated and
  dispatched like the other formats, but its parse result (entries or an
  error) is a field of the raw-file parameter.
- **File system, PHP streams and persistence.** Reading the file (`fopen`,
  `fgetcsv`, `file_get_contents`), moving the upload, `mkdir`, Doctrine
  `persist`/`flush`, `generateUniqueFilename` and `getUploadPath` are I/O.
  The CSV records, the decoded document and the stored file name are
  parameters instead.
- **Parsing outside the model.** `Yaml::parseFile` and `json_decode` are not
  modelled; their result is the `Value` parameter. `json_encode` is the
  `encode` parameter.
- **Clock, routing and headers.** The clock (`new \DateTimeImmutable()`,
  `date(...)`) is an instant or text parameter. Routing and HTTP response
  headers are not modelled.
- **Date parsing and rendering.** `DateTimeImmutable::createFromFormat`, the
  generic constructor (also used with '@' for numeric text) and the '@' form
  of a decoded number are the `DateParser` parameter. Which of them rejects
  which text is not modelled; a rejected '@' form aborts the parse. Microseconds and
  time zones are not modelled.
- **Floating-point rounding.** `exp`, `log`, `sqrt`, `round` and float
  arithmetic are exact reals or function parameters, so rounding and
  NaN/INF are not modelled.
- **PHP numeric-string grammar.** The model covers an optional sign, digits
  and one point. Leading and trailing whitespace and exponent forms are not
  modelled. For example, PHP takes a CSV timestamp cell "1700000000 " as Unix
  seconds, while the model sends it to the date formats.
  When a string with a numeric prefix is coerced to a `float` parameter, PHP
  issues a warning; that warning is not modelled.
- FileUpload.ParseTemperature: a decoded number is read as its own value.
  PHP first converts it to text, and magnitudes below 1e-4 or from 1e14 up
  are written with an exponent. The character filter mangles that text, so
  PHP drops or misreads the value:
  - 0.00001 becomes "1.0E-5", cleaned to "1.0-5", which is not numeric, so
    PHP drops it;
  - 1e14 becomes "1.0E+14", cleaned to "1.014", which PHP reads as 1.014;
  - -1e14 is likewise read as -1.014 and kept as a valid reading.

  The model keeps each number's own value: it keeps 0.00001, reads 1e14 as
  1e14, and drops -1e14 as below absolute zero.
- MktCalculator.CalculateStatistics: returns the variance, not its square
  root. `sqrt` is not available over the reals here, so the reported
  standard deviation (`src/Service/MktCalculatorService.php:120`) is stated
  by its square.
- FileSize.FormatFileSize: returns the exact quotient and the unit. The
  `round(..., 2)` and the text concatenation are not modelled.
- DatasetController.ApiExport: the JSON branch's content is stated through
  the `encode` parameter, not as pretty-printed text. The dates and decimals
  in a CSV row come from the `Formatter` parameter. The read-back lemmas
  assume that rendering produces no ',' or newline.
- **Filename sanitising (`preg_replace`).** It applies to bytes, so a
  non-ASCII character becomes one '_' per UTF-8 byte; the model works on
  characters and gives one '_' per character.
- **The `$count === 0` check** (`src/Service/MktCalculatorService.php:47-49`)
  is unreachable after the emptiness check at lines 30-32, so it has no error
  case in the model.
- **Code differs from the system's documentation; the model follows the
  code:**
  - a file with no usable readings is reported through the MKT calculation's
    "must have temperature readings" error, because no separate "no valid
    readings" check exists;
  - the activation energy is never range-checked; 0 leads to a division by
    zero.
- **MKT range claims in the tests** (MKT above the arithmetic mean and below
  the maximum, `tests/Service/MktCalculatorServiceTest.php:26-34`, 80-91).
  These need the convexity of `exp` and the monotonicity of `ln`, which the
  `Transcendental` parameter does not provide. Only the constant-temperature
  property is proved.
- **Temperature "0" is dropped.** `parseTemperature` treats "0" and the
  number 0 as empty (PHP's `empty`), so a reading of exactly 0 °C written
  without a decimal point is dropped. The model keeps this behaviour; see
  `FileUpload.ZeroCelsiusWrittenAsZeroIsDropped`.
