/** Human-readable sizes (`DirEntry.human_format`): base-1000 scaling through the units
    B, KB, MB, GB, TB and PB. The unit is chosen on integers; the one-decimal rendering of
    the scaled value for KB and above is floating-point formatting and is not modelled. */
module SizeFormat {
  import opened Wrappers
  import opened Text

  /** The unit table, indexed by the magnitude. */
  const UNITS: seq<string> := ["B", "KB", "MB", "GB", "TB", "PB"]

  function Pow(b: nat, e: nat): nat
  {
    if e == 0 then 1 else b * Pow(b, e - 1)
  }

  /** The number of times the scaling loop divides by 1000: the number of times `n` can
      be divided by 1000 and stay at least 1000. */
  function Magnitude(n: nat): nat
  {
    if n < 1000 then 0 else 1 + Magnitude(n / 1000)
  }

  /** A rendered size. `Whole(text)` is the byte count in whole bytes; `Scaled(bytes,
      magnitude, unit)` stands for the byte count divided by 1000^magnitude, printed with
      one decimal place, then the unit. */
  datatype DisplaySize = Whole(text: string) | Scaled(bytes: nat, magnitude: nat, unit: string)

  /** Indexing the unit table past its end (an `IndexError` in the source). */
  datatype FormatError = UnitIndexOutOfRange

  function HumanSize(bytes: nat): Result<DisplaySize, FormatError>
  {
    var k := Magnitude(bytes);
    if k >= |UNITS| then Err(UnitIndexOutOfRange)
    else if k == 0 then Ok(Whole(DecimalString(bytes) + " " + UNITS[0]))
    else Ok(Scaled(bytes, k, UNITS[k]))
  }

  lemma {:induction false} PowPositive(e: nat)
    ensures Pow(1000, e) >= 1
  {
    if e > 0 {
      PowPositive(e - 1);
    }
  }

  lemma {:induction false} PowMonotonic(i: nat, j: nat)
    requires i <= j
    ensures Pow(1000, i) <= Pow(1000, j)
    decreases j
  {
    if i < j {
      PowMonotonic(i, j - 1);
      PowPositive(j - 1);
    }
  }

  /** The magnitude of `n` is the k with 1000^k <= n < 1000^(k+1) (for n = 0, k = 0). */
  lemma {:induction false} MagnitudeBounds(n: nat)
    ensures n < Pow(1000, Magnitude(n) + 1)
    ensures n >= 1 ==> Pow(1000, Magnitude(n)) <= n
  {
    if n >= 1000 {
      var m := n / 1000;
      var k := Magnitude(m);
      MagnitudeBounds(m);
      assert 1000 * m <= n < 1000 * (m + 1);
      assert Pow(1000, k + 1) * 1000 == Pow(1000, k + 2);
      assert Pow(1000, k) * 1000 == Pow(1000, k + 1);
      assert m + 1 <= Pow(1000, k + 1);
      assert 1000 * (m + 1) <= 1000 * Pow(1000, k + 1);
      assert Pow(1000, k) <= m;
      assert 1000 * Pow(1000, k) <= 1000 * m;
    }
  }

  /** Only one k satisfies 1000^k <= n < 1000^(k+1), so the magnitude is the largest k
      with 1000^k <= n. */
  lemma MagnitudeUnique(n: nat, k: nat)
    requires Pow(1000, k) <= n < Pow(1000, k + 1)
    ensures Magnitude(n) == k
  {
    var m := Magnitude(n);
    MagnitudeBounds(n);
    PowPositive(k);
    if k < m {
      PowMonotonic(k + 1, m);
    } else if m < k {
      PowMonotonic(m + 1, k);
    }
  }

  /** What `human_format` returns: whole bytes below 1000; otherwise the unit of the
      magnitude k, 1 <= k <= 5, with 1000^k <= bytes < 1000^(k+1); and an index error
      from 1000^6 bytes on, where the unit table ends. */
  lemma HumanSizeSpec(bytes: nat)
    ensures HumanSize(bytes).Err? <==> bytes >= Pow(1000, 6)
    ensures bytes < 1000 ==> HumanSize(bytes) == Ok(Whole(DecimalString(bytes) + " B"))
    ensures 1000 <= bytes < Pow(1000, 6) ==>
      && HumanSize(bytes).Ok?
      && HumanSize(bytes).value.Scaled?
      && HumanSize(bytes).value.bytes == bytes
      && var k := HumanSize(bytes).value.magnitude;
      && 1 <= k <= 5
      && Pow(1000, k) <= bytes < Pow(1000, k + 1)
      && HumanSize(bytes).value.unit == UNITS[k]
  {
    var k := Magnitude(bytes);
    assert DecimalString(bytes) + " " + UNITS[0] == DecimalString(bytes) + " B";
    MagnitudeBounds(bytes);
    if k >= 6 {
      PowMonotonic(6, k);
    } else {
      PowMonotonic(k + 1, 6);
    }
    if bytes >= 1000 {
      assert k >= 1;
    }
  }

  /** Whole bytes print as the decimal digits of the count, with no decimal point, and
      read back as the count. */
  lemma WholeBytesText(bytes: nat)
    requires bytes < 1000
    ensures HumanSize(bytes).Ok? && HumanSize(bytes).value.Whole?
    ensures var t := HumanSize(bytes).value.text;
      && |t| >= 3
      && t[|t| - 2..] == " B"
      && '.' !in t
      && DecimalValue(t[..|t| - 2]) == bytes
  {
    var d := DecimalString(bytes);
    var t := d + " B";
    HumanSizeSpec(bytes);
    assert t[..|t| - 2] == d;
    assert t[|t| - 2..] == " B";
    DecimalRoundTrip(bytes);
    assert forall i :: 0 <= i < |t| ==> t[i] != '.' by {
      forall i | 0 <= i < |t|
        ensures t[i] != '.'
      {
        if i < |d| {
          assert t[i] == d[i];
        }
      }
    }
  }

  /** The unit is promoted only once the value reaches 1000, so 999999999999 bytes stay in
      GB (shown as about 1000.0 GB after rounding), and 1000 bytes are 1 KB. */
  lemma HumanSizeExamples()
    ensures HumanSize(0) == Ok(Whole("0 B"))
    ensures HumanSize(999) == Ok(Whole("999 B"))
    ensures HumanSize(1000) == Ok(Scaled(1000, 1, "KB"))
    ensures HumanSize(1500000) == Ok(Scaled(1500000, 2, "MB"))
    ensures HumanSize(999999999999) == Ok(Scaled(999999999999, 3, "GB"))
    ensures HumanSize(Pow(1000, 6)).Err?
  {
    HumanSizeSpec(0);
    HumanSizeSpec(999);
    assert DecimalString(0) == "0";
    assert DecimalString(9) == "9";
    assert DecimalString(99) == DecimalString(9) + "9";
    assert DecimalString(999) == DecimalString(99) + "9";
    assert DecimalString(0) + " B" == "0 B";
    assert DecimalString(999) + " B" == "999 B";
    assert Pow(1000, 4) == 1000000000000;
    MagnitudeUnique(999999999999, 3);
    HumanSizeSpec(Pow(1000, 6));
  }

  /** `human_format`: divide by 1000 while the value is at least 1000, counting the
      divisions, then look the unit up in the table. */
  method HumanFormat(bytes: nat) returns (r: Result<DisplaySize, FormatError>)
    ensures r == HumanSize(bytes)
  {
    var magnitudeValue := bytes;
    var magnitude := 0;
    while magnitudeValue >= 1000
      invariant Magnitude(bytes) == magnitude + Magnitude(magnitudeValue)
      invariant magnitude == 0 ==> magnitudeValue == bytes
      decreases magnitudeValue
    {
      magnitude := magnitude + 1;
      magnitudeValue := magnitudeValue / 1000;
    }
    if magnitude >= |UNITS| {
      r := Err(UnitIndexOutOfRange);
    } else if magnitude == 0 {
      r := Ok(Whole(DecimalString(magnitudeValue) + " " + UNITS[magnitude]));
    } else {
      r := Ok(Scaled(bytes, magnitude, UNITS[magnitude]));
    }
  }
}
