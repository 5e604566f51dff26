/** The unit converter's arithmetic: conversion through a table of factors relative to a
    base unit (value / factor of the source unit * factor of the target unit), the length
    and mass tables, and the two temperature formulas. Values are exact reals. */
module UnitConversion {
  import opened Wrappers

  /** A category's unit table: how many of each unit make one base unit. */
  type Units = map<string, real>

  const LengthUnits: Units := map["m" := 1.0, "ft" := 3.28084, "km" := 0.001, "mile" := 0.000621371]
  const MassUnits: Units := map["kg" := 1.0, "lb" := 2.20462]

  /** `convert_by_factor`: `None` where the lookup fails (a unit missing from the table) or
      the division does (a zero factor); otherwise the value `r` in unit `to`, which is
      the one that weighs as much as `value` in unit `from` when both are taken back to
      the base unit. */
  function ConvertByFactor(value: real, from: string, to: string, units: Units): (r: Option<real>)
    ensures r.Some? <==> from in units && to in units && units[from] != 0.0
    ensures r.Some? ==> r.value * units[from] == value * units[to]
  {
    if from !in units || units[from] == 0.0 || to !in units then None
    else Some(value / units[from] * units[to])
  }

  /** Every factor of the program's tables is positive, so every conversion between two of
      their units succeeds. */
  predicate PositiveFactors(units: Units)
  {
    forall u :: u in units ==> units[u] > 0.0
  }

  lemma TablesHavePositiveFactors()
    ensures PositiveFactors(LengthUnits) && PositiveFactors(MassUnits)
    ensures LengthUnits.Keys == {"m", "ft", "km", "mile"} && MassUnits.Keys == {"kg", "lb"}
    ensures LengthUnits["m"] == 1.0 && MassUnits["kg"] == 1.0
  {
  }

  /** Converting a value to its own unit leaves it unchanged. */
  lemma ConvertSameUnit(value: real, u: string, units: Units)
    requires u in units && units[u] != 0.0
    ensures ConvertByFactor(value, u, u, units) == Some(value)
  {
  }

  /** Converting there and back returns the original value. */
  lemma ConvertRoundTrip(value: real, a: string, b: string, units: Units)
    requires a in units && b in units && units[a] != 0.0 && units[b] != 0.0
    ensures ConvertByFactor(ConvertByFactor(value, a, b, units).value, b, a, units) == Some(value)
  {
    var x := ConvertByFactor(value, a, b, units).value;
    var y := ConvertByFactor(x, b, a, units).value;
    assert y * units[b] == x * units[a];
    assert x * units[a] == value * units[b];
    assert (y - value) * units[b] == 0.0;
    ZeroFactor(y - value, units[b]);
  }

  lemma ZeroFactor(x: real, k: real)
    requires x * k == 0.0 && k != 0.0
    ensures x == 0.0
  {
  }

  /** Converting through an intermediate unit is the same as converting directly. */
  lemma ConvertCompose(value: real, a: string, b: string, c: string, units: Units)
    requires a in units && b in units && c in units
    requires units[a] != 0.0 && units[b] != 0.0
    ensures ConvertByFactor(ConvertByFactor(value, a, b, units).value, b, c, units)
            == ConvertByFactor(value, a, c, units)
  {
    var x := ConvertByFactor(value, a, b, units).value;
    var y := ConvertByFactor(x, b, c, units).value;
    var z := ConvertByFactor(value, a, c, units).value;
    assert y * units[b] == x * units[c];
    assert x * units[a] == value * units[b];
    assert z * units[a] == value * units[c];
    assert (y * units[a] - z * units[a]) * units[b] == 0.0;
    ZeroFactor(y * units[a] - z * units[a], units[b]);
    assert (y - z) * units[a] == 0.0;
    ZeroFactor(y - z, units[a]);
  }

  /** From the base unit (factor 1.0), conversion multiplies by the target's factor. */
  lemma ConvertFromBaseUnit(value: real, from: string, to: string, units: Units)
    requires from in units && to in units && units[from] == 1.0
    ensures ConvertByFactor(value, from, to, units) == Some(value * units[to])
  {
    var r := ConvertByFactor(value, from, to, units);
    assert r.Some?;
    assert r.value * 1.0 == value * units[to];
  }

  lemma KnownConversions()
    ensures ConvertByFactor(1.0, "km", "m", LengthUnits) == Some(1000.0)
    ensures ConvertByFactor(2.0, "m", "ft", LengthUnits) == Some(6.56168)
    ensures ConvertByFactor(1.0, "kg", "lb", MassUnits) == Some(2.20462)
    ensures ConvertByFactor(1.0, "m", "yard", LengthUnits) == None
    ensures ConvertByFactor(1.0, "kg", "m", MassUnits) == None
  {
  }

  /** `c_to_f`. */
  function CToF(c: real): (f: real)
    ensures (f - 32.0) * 5.0 == c * 9.0
  {
    (c * 9.0 / 5.0) + 32.0
  }

  /** `f_to_c`. */
  function FToC(f: real): (c: real)
    ensures c * 9.0 == (f - 32.0) * 5.0
  {
    (f - 32.0) * 5.0 / 9.0
  }

  /** The two formulas are inverse to each other. */
  lemma TemperatureRoundTrip(c: real, f: real)
    ensures FToC(CToF(c)) == c
    ensures CToF(FToC(f)) == f
  {
  }

  /** Both formulas preserve order: a warmer reading stays warmer. */
  lemma TemperatureMonotone(a: real, b: real)
    requires a < b
    ensures CToF(a) < CToF(b) && FToC(a) < FToC(b)
  {
  }

  lemma KnownTemperatures()
    ensures CToF(0.0) == 32.0 && CToF(100.0) == 212.0 && CToF(-40.0) == -40.0
    ensures FToC(32.0) == 0.0 && FToC(212.0) == 100.0
  {
  }
}
