/** convert_product_weights: a product weight string to kilograms, with real
    arithmetic standing for Python floats. */
module Weights {
  import opened Values
  import opened Text

  predicate IsDecimalChar(c: char) { IsDigit(c) || c == '.' }

  /** re.match(r'([\d.]+)([a-zA-Z]+)', w): the magnitude and unit groups.
      The greedy `[\d.]+` takes the longest run of digits and dots; a unit
      must follow it directly. */
  function MatchWeight(w: string): (m: Option<(string, string)>)
    ensures m.Some? ==> |m.value.0| >= 1 && DecimalChars(m.value.0)
    ensures m.Some? ==> |m.value.1| >= 1 && forall i :: 0 <= i < |m.value.1| ==> IsLetter(m.value.1[i])
  {
    var n := LeadingRun(w, IsDecimalChar);
    var u := LeadingRun(w[n..], IsLetter);
    if n == 0 || u == 0 then None else Some((w[..n], w[n..][..u]))
  }

  /** The matcher reads back a magnitude and unit written side by side. */
  lemma MatchWeightOf(num: string, unit: string, rest: string)
    requires |num| >= 1 && DecimalChars(num)
    requires |unit| >= 1 && forall i :: 0 <= i < |unit| ==> IsLetter(unit[i])
    requires rest == [] || !IsLetter(rest[0])
    ensures MatchWeight(num + unit + rest) == Some((num, unit))
  {
    var w := num + unit + rest;
    assert w == num + (unit + rest);
    assert unit + rest != [] && (unit + rest)[0] == unit[0];
    LeadingRunOf(num, unit + rest, IsDecimalChar);
    assert w[|num|..] == unit + rest;
    LeadingRunOf(unit, rest, IsLetter);
  }

  const OzPerKg: real := 35.274

  /** The unit table on a single magnitude, in kilograms; None for a unit
      outside g, ml, kg and oz. */
  function UnitToKg(unit: string, value: real): (r: Option<real>)
    ensures r.Some? <==> unit in {"g", "ml", "kg", "oz"}
  {
    if unit == "g" then
      // a gram value written with a decimal part is taken to be kilograms
      Some(if !IsInteger(value) then value else value / 1000.0)
    else if unit == "ml" then Some(value / 1000.0)
    else if unit == "kg" then Some(value)
    else if unit == "oz" then Some(value / OzPerKg)
    else None
  }

  /** The multiplier applied to a weight in kilograms. */
  function Times(multiplier: int, kg: real): real
  {
    multiplier as real * kg
  }

  /** The part after the multiplier: None for no match or an unparseable
      magnitude, otherwise the unit table applied to the magnitude, times the
      multiplier. The source multiplies before it divides; on reals the two
      orders agree. */
  function ConvertMagnitude(multiplier: int, w: string): Option<real>
  {
    var groups := MatchWeight(w);
    if groups.None? then None
    else
      var value := ParseDecimal(groups.value.0);
      if value.None? then None
      else
        var kg := UnitToKg(Lower(groups.value.1), value.value);
        if kg.None? then None else Some(Times(multiplier, kg.value))
  }

  /** convert_product_weights on one cell: Ok(Some(kg)) for a weight,
      Ok(None) where the source returns None, Raised(ValueError) where its
      multiplier handling raises. */
  function ConvertProductWeights(weight: Value): (r: Result<Option<real>>)
    ensures !weight.Text? ==> r == Ok(None)
    ensures r.Raised? ==> r.error == ValueError && weight.Text? && 'x' in weight.text
  {
    if !weight.Text? then Ok(None)
    else if 'x' in weight.text then ConvertMultiplied(Split(weight.text, 'x'))
    else Ok(ConvertMagnitude(1, weight.text))
  }

  /** `multiplier, weight = weight.split("x")` and `int(multiplier.strip())`:
      unpacking raises ValueError unless there are exactly two parts, and so
      does int() on a head that is not an integer. */
  function ConvertMultiplied(parts: seq<string>): (r: Result<Option<real>>)
    ensures r.Raised? ==> r.error == ValueError
    ensures r.Ok? <==> |parts| == 2 && ParseInt(Strip(parts[0])).Some?
  {
    if |parts| != 2 then Raised(ValueError)
    else
      match ParseInt(Strip(parts[0]))
      case None => Raised(ValueError)
      case Some(multiplier) => Ok(ConvertMagnitude(multiplier, Strip(parts[1])))
  }

  /** The kilograms a magnitude and unit denote once the multiplier is applied. */
  predicate UnitKnown(unit: string)
  {
    Lower(unit) in {"g", "ml", "kg", "oz"}
  }

  predicate IsUnit(unit: string)
  {
    |unit| >= 1 && (forall i :: 0 <= i < |unit| ==> IsLetter(unit[i])) && UnitKnown(unit)
  }

  lemma UnitHasNoX(unit: string)
    requires IsUnit(unit)
    ensures 'x' !in unit
  {
    forall i | 0 <= i < |unit| ensures unit[i] != 'x' {
      assert Lower(unit)[i] == LowerChar(unit[i]);
    }
  }

  lemma MagnitudeThenUnit(m: int, num: string, unit: string)
    requires |num| >= 1 && DecimalChars(num) && ParseDecimal(num).Some?
    requires |unit| >= 1 && forall i :: 0 <= i < |unit| ==> IsLetter(unit[i])
    ensures var kg := UnitToKg(Lower(unit), ParseDecimal(num).value);
      ConvertMagnitude(m, num + unit) == if kg.None? then None else Some(Times(m, kg.value))
  {
    MatchWeightOf(num, unit, []);
    assert num + unit + [] == num + unit;
  }

  lemma SplitMultiplier(k: nat, body: string)
    requires 'x' !in body
    ensures Split(Render(k) + " x " + body, 'x') == [Render(k) + " ", " " + body]
  {
    var head := Render(k) + " ";
    DigitsExclude(Render(k), 'x');
    assert 'x' !in head;
    assert Render(k) + " x " + body == head + ['x'] + (" " + body);
    SplitAtFirst(head, 'x', " " + body);
  }

  lemma StripMultiplier(k: nat)
    ensures ParseInt(Strip(Render(k) + " ")) == Some(k)
  {
    var r := Render(k);
    assert IsDigit(r[0]) && IsDigit(r[|r| - 1]);
    TrimStartKeeps(r + " ");
    TrimEndDropsSpace(r);
    TrimEndKeeps(r);
    RenderRoundTrip(k);
  }

  lemma StripBody(body: string)
    requires body != [] && !IsSpace(body[0]) && !IsSpace(body[|body| - 1])
    ensures Strip(" " + body) == body
  {
    assert (" " + body)[1..] == body;
    TrimStartKeeps(body);
    TrimEndKeeps(body);
  }

  /** "<k> x <body>": the multiplier is split off and stripped, and the body
      is converted with it. */
  lemma MultipliedBody(k: nat, body: string, r: Option<real>)
    requires 'x' !in body
    requires body != [] && !IsSpace(body[0]) && !IsSpace(body[|body| - 1])
    requires ConvertMagnitude(k, body) == r
    ensures ConvertProductWeights(Text(Render(k) + " x " + body)) == Ok(r)
  {
    MultiplierParts(k, body);
    MultiplierCase(Render(k) + " x " + body, Render(k) + " ", " " + body, k);
  }

  /** "<k> x <body>" splits at its one `x` into a head that strips to k and a
      tail that strips to body. */
  lemma MultiplierParts(k: nat, body: string)
    requires 'x' !in body
    requires body != [] && !IsSpace(body[0]) && !IsSpace(body[|body| - 1])
    ensures var s := Render(k) + " x " + body;
      && 'x' in s && Split(s, 'x') == [Render(k) + " ", " " + body]
      && ParseInt(Strip(Render(k) + " ")) == Some(k) && Strip(" " + body) == body
  {
    var s := Render(k) + " x " + body;
    assert s[|Render(k)| + 1] == 'x';
    SplitMultiplier(k, body);
    StripMultiplier(k);
    StripBody(body);
  }

  /** A weight with one `x` whose head strips to an integer is that many
      times its stripped tail. */
  lemma MultiplierCase(s: string, head: string, tail: string, k: int)
    requires 'x' in s && Split(s, 'x') == [head, tail]
    requires ParseInt(Strip(head)) == Some(k)
    ensures ConvertProductWeights(Text(s)) == Ok(ConvertMagnitude(k, Strip(tail)))
  {
    var parts := [head, tail];
    assert |parts| == 2 && parts[0] == head && parts[1] == tail;
    assert ConvertMultiplied(parts) == Ok(ConvertMagnitude(k, Strip(tail)));
  }

  /** ConvertMagnitude is linear in the multiplier. */
  lemma MagnitudeLinear(k: int, w: string)
    ensures ConvertMagnitude(k, w).Some? <==> ConvertMagnitude(1, w).Some?
    ensures ConvertMagnitude(1, w).Some? ==> ConvertMagnitude(k, w).value == Times(k, ConvertMagnitude(1, w).value)
  {
  }

  /** "<k> x <body>" weighs k times what <body> weighs on its own, and is
      None where <body> is. */
  lemma {:induction false} ConvertsMultipliedWeight(k: nat, body: string)
    requires 'x' !in body
    requires body != [] && !IsSpace(body[0]) && !IsSpace(body[|body| - 1])
    ensures var single := ConvertProductWeights(Text(body));
      single.Ok? &&
      ConvertProductWeights(Text(Render(k) + " x " + body)) ==
        Ok(if single.value.Some? then Some(Times(k, single.value.value)) else None)
  {
    assert ConvertProductWeights(Text(body)) == Ok(ConvertMagnitude(1, body));
    MagnitudeLinear(k, body);
    MultipliedBody(k, body, ConvertMagnitude(k, body));
  }

  /** A magnitude that float() reads as v followed by a known unit: kg as
      is, oz divided by 35.274, ml divided by 1000, and g divided by 1000
      unless v has a fractional part, in which case it is already taken to
      be kilograms. */
  lemma ConvertsAs(num: string, unit: string, v: real)
    requires |num| >= 1 && DecimalChars(num) && 'x' !in num && ParseDecimal(num) == Some(v)
    requires IsUnit(unit)
    ensures var u := Lower(unit);
      ConvertProductWeights(Text(num + unit)) == Ok(Some(
        if u == "kg" then v
        else if u == "oz" then v / OzPerKg
        else if u == "g" && !IsInteger(v) then v
        else v / 1000.0))
  {
    UnitHasNoX(unit);
    NoMultiplier(num, unit);
    MagnitudeThenUnit(1, num, unit);
    KnownUnitKg(Lower(unit), v);
  }

  /** Text without an `x` is converted with multiplier 1. */
  lemma NoMultiplier(num: string, unit: string)
    requires 'x' !in num && 'x' !in unit
    ensures ConvertProductWeights(Text(num + unit)) == Ok(ConvertMagnitude(1, num + unit))
  {
  }

  /** The unit table for a known unit, with the multiplier 1 applied. */
  lemma KnownUnitKg(u: string, v: real)
    requires u in {"g", "ml", "kg", "oz"}
    ensures UnitToKg(u, v).Some?
    ensures Times(1, UnitToKg(u, v).value) ==
      if u == "kg" then v
      else if u == "oz" then v / OzPerKg
      else if u == "g" && !IsInteger(v) then v
      else v / 1000.0
  {
  }

  /** A magnitude float() rejects (two decimal points, as in "1.2.3g") gives
      None whatever the unit. */
  lemma UnreadMagnitudeIsNotAWeight(num: string, unit: string)
    requires |num| >= 1 && DecimalChars(num) && 'x' !in num && ParseDecimal(num).None?
    requires |unit| >= 1 && (forall i :: 0 <= i < |unit| ==> IsLetter(unit[i])) && 'x' !in unit
    ensures ConvertProductWeights(Text(num + unit)) == Ok(None)
  {
    NoMultiplier(num, unit);
    MatchWeightOf(num, unit, []);
    assert num + unit + [] == num + unit;
  }

  /** A unit outside g, ml, kg and oz gives None. */
  lemma UnknownUnitIsNotAWeight(num: string, unit: string)
    requires |num| >= 1 && DecimalChars(num) && 'x' !in num && ParseDecimal(num).Some?
    requires |unit| >= 1 && (forall i :: 0 <= i < |unit| ==> IsLetter(unit[i])) && 'x' !in unit
    requires !UnitKnown(unit)
    ensures ConvertProductWeights(Text(num + unit)) == Ok(None)
  {
    NoMultiplier(num, unit);
    MagnitudeThenUnit(1, num, unit);
  }

  /** Text that does not start with a digit or a dot (and has no 'x') is not
      a weight. */
  lemma NoLeadingMagnitudeIsNotAWeight(s: string)
    requires 'x' !in s
    requires s == [] || !IsDecimalChar(s[0])
    ensures ConvertProductWeights(Text(s)) == Ok(None)
  {
  }

  /** More than one 'x' makes the unpacking of the split raise ValueError. */
  lemma {:induction false} TwoMultipliersRaise(a: string, b: string, c: string)
    requires 'x' !in a && 'x' !in b && 'x' !in c
    ensures ConvertProductWeights(Text(a + "x" + b + "x" + c)) == Raised(ValueError)
  {
    var w := a + "x" + b + "x" + c;
    assert w == a + ['x'] + (b + ['x'] + c);
    assert w[|a|] == 'x';
    SplitAtFirst(a, 'x', b + ['x'] + c);
    SplitAtFirst(b, 'x', c);
  }
}
