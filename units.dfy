/**
 * Normalisation of a reading to µg/m³: a value reported in ppm is scaled by a
 * fixed per-pollutant factor; every other unit passes through unchanged. The
 * sub-daily extractor knows three pollutants, the daily one only two.
 */
module Units {

  const No2Factor: real := 1880.0
  const O3Factor: real := 1960.0
  const HchoFactor: real := 1230.0

  /** Lower-cases the ASCII letters of `s` and leaves every other character as it is. */
  function LowerAscii(s: string): (r: string)
    ensures |r| == |s|
  {
    if s == [] then []
    else [LowerChar(s[0])] + LowerAscii(s[1..])
  }

  function LowerChar(c: char): char
  {
    if 'A' <= c <= 'Z' then (c as int - 'A' as int + 'a' as int) as char else c
  }

  /** The unit string names parts per million, whatever its letter case. */
  predicate IsPpm(unit: string)
  {
    LowerAscii(unit) == "ppm"
  }

  /**
   * The factor the sub-daily extractor applies: the pollutant's ppm factor
   * when the unit is ppm and the pollutant is NO2, O3 or HCHO, and 1 otherwise.
   */
  function HourlyFactor(unit: string, parameter: string): real
  {
    var p := LowerAscii(parameter);
    if !IsPpm(unit) then 1.0
    else if p == "no2" then No2Factor
    else if p == "o3" then O3Factor
    else if p == "hcho" then HchoFactor
    else 1.0
  }

  /** The factor the daily extractor applies: it has no HCHO branch. */
  function DailyFactor(unit: string, parameter: string): real
  {
    var p := LowerAscii(parameter);
    if !IsPpm(unit) then 1.0
    else if p == "no2" then No2Factor
    else if p == "o3" then O3Factor
    else 1.0
  }

  /** Conversion used by the sub-daily extractor. */
  function ConvertHourly(value: real, unit: string, parameter: string): real
  {
    value * HourlyFactor(unit, parameter)
  }

  /** Conversion used by the daily extractor. */
  function ConvertDaily(value: real, unit: string, parameter: string): real
  {
    value * DailyFactor(unit, parameter)
  }

  /** A character lower-cases to an ASCII lower-case letter only from that letter or its capital. */
  lemma LowerCharIs(c: char, l: char)
    requires 'a' <= l <= 'z'
    ensures LowerChar(c) == l <==> c == l || c as int == l as int - 32
  {
  }

  /** Lower-casing works character by character. */
  lemma {:induction false} LowerAsciiAt(s: string, i: nat)
    requires i < |s|
    ensures LowerAscii(s)[i] == LowerChar(s[i])
  {
    if i > 0 {
      LowerAsciiAt(s[1..], i - 1);
    }
  }

  /** `IsPpm` is the case-insensitive comparison with "ppm", spelled out letter by letter. */
  lemma IsPpmLetters(unit: string)
    ensures IsPpm(unit) <==>
      |unit| == 3 && unit[0] in "pP" && unit[1] in "pP" && unit[2] in "mM"
  {
    if |unit| == 3 {
      var l := LowerAscii(unit);
      LowerAsciiAt(unit, 0);
      LowerAsciiAt(unit, 1);
      LowerAsciiAt(unit, 2);
      assert l == "ppm" <==> l[0] == 'p' && l[1] == 'p' && l[2] == 'm';
      LowerCharIs(unit[0], 'p');
      LowerCharIs(unit[1], 'p');
      LowerCharIs(unit[2], 'm');
    }
  }

  /**
   * Every factor is one of the constants of its extractor's table, so a
   * conversion keeps a recorded 0 at 0 and never changes the sign of a value.
   */
  lemma ConvertIsScaling(value: real, unit: string, parameter: string)
    ensures HourlyFactor(unit, parameter) in {1.0, No2Factor, O3Factor, HchoFactor}
    ensures DailyFactor(unit, parameter) in {1.0, No2Factor, O3Factor}
    ensures ConvertHourly(0.0, unit, parameter) == 0.0 && ConvertDaily(0.0, unit, parameter) == 0.0
    ensures value >= 0.0 ==> ConvertHourly(value, unit, parameter) >= 0.0 && ConvertDaily(value, unit, parameter) >= 0.0
    ensures value < 0.0 ==> ConvertHourly(value, unit, parameter) < 0.0 && ConvertDaily(value, unit, parameter) < 0.0
  {
  }

  /** A unit other than ppm leaves the value unchanged, in both extractors. */
  lemma NonPpmUnchanged(value: real, unit: string, parameter: string)
    requires !IsPpm(unit)
    ensures ConvertHourly(value, unit, parameter) == value
    ensures ConvertDaily(value, unit, parameter) == value
  {
  }

  /** The daily extractor never scales HCHO, even when it is reported in ppm. */
  lemma DailyNeverScalesHcho(value: real, unit: string, parameter: string)
    requires LowerAscii(parameter) == "hcho"
    ensures ConvertDaily(value, unit, parameter) == value
    ensures IsPpm(unit) ==> ConvertHourly(value, unit, parameter) == value * 1230.0
  {
  }

  /** Apart from HCHO the two extractors convert alike. */
  lemma VariantsAgreeExceptHcho(value: real, unit: string, parameter: string)
    requires LowerAscii(parameter) != "hcho"
    ensures ConvertDaily(value, unit, parameter) == ConvertHourly(value, unit, parameter)
  {
  }

  /** Worked cases of the conversion table. */
  lemma ConversionExamples()
    ensures ConvertHourly(1.0, "ppm", "no2") == 1880.0
    ensures ConvertHourly(1.0, "PPM", "O3") == 1960.0
    ensures ConvertHourly(2.0, "ppm", "hcho") == 2460.0
    ensures ConvertHourly(5.0, "µg/m³", "o3") == 5.0
    ensures ConvertHourly(0.5, "ppm", "co") == 0.5
    ensures ConvertDaily(2.0, "ppm", "hcho") == 2.0
  {
    assert LowerAscii("ppm") == "ppm";
    assert LowerAscii("PPM") == "ppm";
    assert LowerAscii("no2") == "no2";
    assert LowerAscii("O3") == "o3";
    assert LowerAscii("hcho") == "hcho";
    assert LowerAscii("co") == "co";
    assert LowerAscii("µg/m³") != "ppm";
  }
}
