/**
 * The `formatFileSize` Twig function (AppExtension): a byte count becomes a
 * size and a unit among B, KB, MB, GB and TB, dividing by 1024 until the size
 * drops below 1024 or the largest unit is reached. The size is kept exact;
 * `round($size, 2)` and the string concatenation are not modelled.
 */
module FileSize {
  import opened Wrappers

  const Units: seq<string> := ["B", "KB", "MB", "GB", "TB"]

  /** Index of the largest unit, "TB". */
  const LastUnit: nat := 4

  datatype FileSizeLabel = Unknown | Label(size: real, unit: string)

  function Pow1024(k: nat): (p: nat)
    ensures p >= 1
  {
    if k == 0 then 1 else 1024 * Pow1024(k - 1)
  }

  /**
   * The unit a positive byte count is shown in, stated without the loop: the
   * largest unit no bigger than the count, capped at TB.
   */
  function UnitIndex(bytes: nat): (k: nat)
    ensures k <= LastUnit
  {
    LargestUnitUpTo(bytes, LastUnit)
  }

  function LargestUnitUpTo(bytes: nat, k: nat): (j: nat)
    ensures j <= k
  {
    if k == 0 || Pow1024(k) <= bytes then k else LargestUnitUpTo(bytes, k - 1)
  }

  /** What `formatFileSize` shows for a byte count, before rounding. */
  function SizeLabel(bytes: Option<int>): (shown: FileSizeLabel)
    ensures shown == Unknown <==> bytes.None? || bytes.value <= 0
  {
    if bytes.None? || bytes.value <= 0 then Unknown
    else
      var k := UnitIndex(bytes.value);
      Label(bytes.value as real / Pow1024(k) as real, Units[k])
  }

  /**
   * `formatFileSize`: null or non-positive counts are "Unknown"; otherwise the
   * size is divided by 1024 while it is at least 1024 and a larger unit exists.
   */
  method FormatFileSize(bytes: Option<int>) returns (shown: FileSizeLabel)
    ensures shown == SizeLabel(bytes)
  {
    if bytes.None? || bytes.value <= 0 {
      return Unknown;
    }
    var b: nat := bytes.value;
    var unitIndex: nat := 0;
    var size: real := b as real;
    while size >= 1024.0 && unitIndex < |Units| - 1
      invariant unitIndex <= LastUnit
      invariant size * Pow1024(unitIndex) as real == b as real
      invariant Pow1024(unitIndex) <= b
      decreases LastUnit - unitIndex
    {
      StepDown(size, unitIndex, b);
      size := size / 1024.0;
      unitIndex := unitIndex + 1;
    }
    StopsAtUnit(size, unitIndex, b);
    UnitIndexIsCharacterised(b, unitIndex);
    return Label(size, Units[unitIndex]);
  }

  /** One division keeps size · 1024^k equal to the byte count and 1024^(k+1) within it. */
  lemma StepDown(size: real, k: nat, b: nat)
    requires size >= 1024.0 && size * Pow1024(k) as real == b as real
    ensures (size / 1024.0) * Pow1024(k + 1) as real == b as real
    ensures Pow1024(k + 1) <= b
  {
    var p := Pow1024(k) as real;
    assert Pow1024(k + 1) as real == 1024.0 * p;
    assert (size / 1024.0) * (1024.0 * p) == size * p;
    assert 1024.0 * p <= size * p;
  }

  /** Where the loop stops, the size is below 1024 unless the unit is TB. */
  lemma StopsAtUnit(size: real, k: nat, b: nat)
    requires size * Pow1024(k) as real == b as real
    requires size < 1024.0 || k == LastUnit
    ensures k == LastUnit || b < Pow1024(k + 1)
    ensures size == b as real / Pow1024(k) as real
  {
    var p := Pow1024(k) as real;
    var q := Pow1024(k + 1) as real;
    assert q == 1024.0 * p;
    if size < 1024.0 {
      BelowNextPower(size, p, q, b as real);
    }
    QuotientOfProduct(size, p, b as real);
  }

  lemma BelowNextPower(size: real, p: real, q: real, x: real)
    requires size * p == x && q == 1024.0 * p && p > 0.0 && size < 1024.0
    ensures x < q
  {
    assert (1024.0 - size) * p > 0.0;
  }

  lemma QuotientOfProduct(size: real, p: real, x: real)
    requires size * p == x && p > 0.0
    ensures size == x / p
  {
  }

  /** 1024^i <= 1024^j whenever i <= j. */
  lemma {:induction false} Pow1024Monotone(i: nat, j: nat)
    requires i <= j
    ensures Pow1024(i) <= Pow1024(j)
  {
    if i < j {
      Pow1024Monotone(i, j - 1);
    }
  }

  /**
   * The characterisation of the unit: k is the unit of b exactly when
   * 1024^k <= b (or k is B) and b < 1024^(k+1) (or k is TB).
   */
  lemma UnitIndexIsCharacterised(b: nat, k: nat)
    requires b >= 1 && k <= LastUnit
    requires Pow1024(k) <= b
    requires k == LastUnit || b < Pow1024(k + 1)
    ensures UnitIndex(b) == k
  {
    LargestUnitUpToFinds(b, LastUnit, k);
  }

  lemma {:induction false} LargestUnitUpToFinds(b: nat, top: nat, k: nat)
    requires k <= top
    requires Pow1024(k) <= b
    requires k == top || b < Pow1024(k + 1)
    ensures LargestUnitUpTo(b, top) == k
  {
    if top > k {
      Pow1024Monotone(k + 1, top);
      LargestUnitUpToFinds(b, top - 1, k);
    }
  }

  /** The unit chosen for a positive count really is no bigger than the count, and the next one is. */
  lemma {:induction false} UnitIndexBounds(b: nat)
    requires b >= 1
    ensures Pow1024(UnitIndex(b)) <= b
    ensures UnitIndex(b) == LastUnit || b < Pow1024(UnitIndex(b) + 1)
  {
    LargestUnitUpToBounds(b, LastUnit);
  }

  lemma {:induction false} LargestUnitUpToBounds(b: nat, top: nat)
    requires b >= 1
    ensures Pow1024(LargestUnitUpTo(b, top)) <= b
    ensures LargestUnitUpTo(b, top) == top || b < Pow1024(LargestUnitUpTo(b, top) + 1)
  {
    if top > 0 && Pow1024(top) > b {
      LargestUnitUpToBounds(b, top - 1);
    }
  }

  /** Fewer than 1024 bytes are shown in B, undivided. */
  lemma SmallCountsAreBytes(b: int)
    requires 1 <= b < 1024
    ensures SizeLabel(Some(b)) == Label(b as real, "B")
  {
    UnitIndexIsCharacterised(b, 0);
  }

  /** A shown size lies in [1, 1024) unless the unit is TB, where it is at least 1. */
  lemma ShownSizeRange(b: int)
    requires b >= 1
    ensures SizeLabel(Some(b)).size >= 1.0
    ensures SizeLabel(Some(b)).unit != "TB" ==> SizeLabel(Some(b)).size < 1024.0
  {
    var k := UnitIndex(b);
    UnitIndexBounds(b);
    var p := Pow1024(k) as real;
    var size := b as real / p;
    assert size * p == b as real;
    assert Pow1024(k + 1) as real == 1024.0 * p;
    assert p <= b as real;
    if k != LastUnit {
      assert b as real < 1024.0 * p;
    }
  }
}
