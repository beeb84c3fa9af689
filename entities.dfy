/**
 * The two Doctrine entities. A `TemperatureReading` belongs to at most one
 * `Dataset` through its `dataset` back-reference; a `Dataset` keeps its
 * readings in an ordered, duplicate-free collection. Decimal columns, which
 * PHP holds as strings, are held here as the reals they denote; instants are
 * Unix seconds.
 */
module Entities {
  import opened Wrappers

  /** The activation energy a new dataset starts with, as stored (kJ/mol). */
  const DefaultActivationEnergyText: string := "83.144"

  class TemperatureReading {
    var dataset: Dataset?
    var timestamp: int
    var temperature: real
    var temperatureKelvin: real
    var unixTimestamp: int
    var originalData: string

    constructor (timestamp: int, temperature: real, temperatureKelvin: real,
                 unixTimestamp: int, originalData: string)
      ensures this.dataset == null
      ensures this.timestamp == timestamp && this.temperature == temperature
      ensures this.temperatureKelvin == temperatureKelvin
      ensures this.unixTimestamp == unixTimestamp && this.originalData == originalData
    {
      this.dataset := null;
      this.timestamp := timestamp;
      this.temperature := temperature;
      this.temperatureKelvin := temperatureKelvin;
      this.unixTimestamp := unixTimestamp;
      this.originalData := originalData;
    }

    method SetDataset(d: Dataset?)
      modifies this`dataset
      ensures dataset == d
    {
      dataset := d;
    }
  }

  predicate NoDuplicates(rs: seq<TemperatureReading>)
  {
    forall i, j :: 0 <= i < j < |rs| ==> rs[i] != rs[j]
  }

  /** `rs` without its first occurrence of `r` (ArrayCollection::removeElement). */
  function RemoveFirst(rs: seq<TemperatureReading>, r: TemperatureReading): (out: seq<TemperatureReading>)
    ensures r !in rs ==> out == rs
    ensures r in rs ==> |out| == |rs| - 1
    ensures forall x :: x in out ==> x in rs
    ensures forall x :: x in rs && x != r ==> x in out
    ensures NoDuplicates(rs) ==> NoDuplicates(out) && r !in out
  {
    if |rs| == 0 then []
    else if rs[0] == r then rs[1..]
    else
      var rest := RemoveFirst(rs[1..], r);
      assert NoDuplicates(rs) ==> NoDuplicates(rs[1..]) && rs[0] !in rs[1..];
      assert NoDuplicates(rs) ==> rs[0] !in rest;
      [rs[0]] + rest
  }

  class Dataset {
    var name: Option<string>
    var description: Option<string>
    var filename: Option<string>
    var fileType: Option<string>
    var fileSize: Option<int>
    var uploadedAt: Option<int>
    var mktValue: Option<real>
    var temperatureReadingsCount: Option<int>
    var minTemperature: Option<real>
    var maxTemperature: Option<real>
    var avgTemperature: Option<real>
    var startTime: Option<int>
    var endTime: Option<int>
    var activationEnergy: string
    var readings: seq<TemperatureReading>

    /** The collection never holds the same reading twice. */
    ghost predicate Valid()
      reads this
    {
      NoDuplicates(readings)
    }

    /** Every reading in the collection points back to this dataset. */
    ghost predicate OwnsReadings()
      reads this, readings
    {
      forall r :: r in readings ==> r.dataset == this
    }

    /** `now` is the upload instant the constructor stamps. */
    constructor (now: int)
      ensures Valid() && OwnsReadings()
      ensures readings == [] && activationEnergy == DefaultActivationEnergyText
      ensures uploadedAt == Some(now)
      ensures name.None? && description.None? && filename.None? && fileType.None?
      ensures fileSize.None? && mktValue.None? && temperatureReadingsCount.None?
      ensures minTemperature.None? && maxTemperature.None? && avgTemperature.None?
      ensures startTime.None? && endTime.None?
    {
      name, description, filename, fileType := None, None, None, None;
      fileSize, mktValue, temperatureReadingsCount := None, None, None;
      minTemperature, maxTemperature, avgTemperature := None, None, None;
      startTime, endTime := None, None;
      activationEnergy := DefaultActivationEnergyText;
      readings := [];
      uploadedAt := Some(now);
    }

    /** Appends `r` unless it is already held; only then does `r` point here. */
    method AddTemperatureReading(r: TemperatureReading)
      requires Valid()
      modifies this`readings, r`dataset
      ensures Valid() && r in readings
      ensures readings == if r in old(readings) then old(readings) else old(readings) + [r]
      ensures r.dataset == if r in old(readings) then old(r.dataset) else this
      ensures old(OwnsReadings()) ==> OwnsReadings()
    {
      if r !in readings {
        readings := readings + [r];
        r.SetDataset(this);
      }
    }

    /**
     * Removes `r` if held, and then clears its back-reference only when it
     * still points here. A reading that is not held is left untouched.
     */
    method RemoveTemperatureReading(r: TemperatureReading)
      requires Valid()
      modifies this`readings, r`dataset
      ensures Valid() && r !in readings
      ensures readings == RemoveFirst(old(readings), r)
      ensures forall x :: x in readings <==> x in old(readings) && x != r
      ensures r.dataset == if r in old(readings) && old(r.dataset) == this then null else old(r.dataset)
      ensures old(OwnsReadings()) ==> OwnsReadings()
    {
      if r in readings {
        readings := RemoveFirst(readings, r);
        if r.dataset == this {
          r.SetDataset(null);
        }
      }
    }

    method SetName(v: string) modifies this`name ensures name == Some(v) { name := Some(v); }
    method SetDescription(v: Option<string>) modifies this`description ensures description == v { description := v; }
    method SetFilename(v: string) modifies this`filename ensures filename == Some(v) { filename := Some(v); }
    method SetFileType(v: string) modifies this`fileType ensures fileType == Some(v) { fileType := Some(v); }
    method SetFileSize(v: int) modifies this`fileSize ensures fileSize == Some(v) { fileSize := Some(v); }
    method SetUploadedAt(v: int) modifies this`uploadedAt ensures uploadedAt == Some(v) { uploadedAt := Some(v); }
    method SetMktValue(v: Option<real>) modifies this`mktValue ensures mktValue == v { mktValue := v; }
    method SetTemperatureReadingsCount(v: int)
      modifies this`temperatureReadingsCount
      ensures temperatureReadingsCount == Some(v)
    {
      temperatureReadingsCount := Some(v);
    }
    method SetMinTemperature(v: Option<real>) modifies this`minTemperature ensures minTemperature == v { minTemperature := v; }
    method SetMaxTemperature(v: Option<real>) modifies this`maxTemperature ensures maxTemperature == v { maxTemperature := v; }
    method SetAvgTemperature(v: Option<real>) modifies this`avgTemperature ensures avgTemperature == v { avgTemperature := v; }
    method SetStartTime(v: Option<int>) modifies this`startTime ensures startTime == v { startTime := v; }
    method SetEndTime(v: Option<int>) modifies this`endTime ensures endTime == v { endTime := v; }
    method SetActivationEnergy(v: string)
      modifies this`activationEnergy
      ensures activationEnergy == v
    {
      activationEnergy := v;
    }
  }
}
