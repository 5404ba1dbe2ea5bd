/** The product price extract: `str.extract(r"(\d*\.\d+|\d+)")` followed by a
    conversion of the matched text to a float (real here). */
module Currency {
  import opened Values
  import opened Text

  /** A match of `\d*\.\d+|\d+` can start at the head of `t`: a digit, or a
      dot directly followed by a digit. */
  predicate StartsNumber(t: string)
  {
    t != [] && (IsDigit(t[0]) || (t[0] == '.' && |t| >= 2 && IsDigit(t[1])))
  }

  /** The text the pattern matches at the head of `t`. The first alternative
      wins when a dot and a digit follow the leading digits; otherwise the
      leading digits alone match the second. */
  function NumberAt(t: string): (m: string)
    requires StartsNumber(t)
    ensures 1 <= |m| <= |t| && m == t[..|m|]
    ensures DecimalChars(m) && HasDigit(m)
    ensures '.' in m ==> '.' !in m[IndexOf(m, '.') + 1..]
  {
    var d := LeadingRun(t, IsDigit);
    if d + 1 < |t| && t[d] == '.' && IsDigit(t[d + 1]) then
      var f := LeadingRun(t[d + 1..], IsDigit);
      var m := t[..d + 1 + f];
      assert m[d + 1] == t[d + 1];
      assert m[..d] == t[..d] && '.' !in m[..d];
      assert IndexOf(m, '.') == d;
      assert m[d + 1..] == t[d + 1..][..f];
      m
    else
      var m := t[..d];
      assert m[0] == t[0];
      m
  }

  /** The leftmost match, scanning from the left as `re.search` does. */
  function CurrencyMatch(s: string): (r: Option<string>)
    ensures r.None? <==> !HasDigit(s)
    ensures r.Some? ==> |r.value| >= 1 && DecimalChars(r.value) && HasDigit(r.value)
    ensures r.Some? ==> ('.' in r.value ==> '.' !in r.value[IndexOf(r.value, '.') + 1..])
    decreases |s|
  {
    if s == [] then None
    else if StartsNumber(s) then
      var m := NumberAt(s);
      assert exists i :: 0 <= i < |m| && IsDigit(m[i]);
      var i :| 0 <= i < |m| && IsDigit(m[i]);
      assert s[i] == m[i];
      Some(m)
    else
      var r := CurrencyMatch(s[1..]);
      assert HasDigit(s) ==> HasDigit(s[1..]) by {
        if HasDigit(s) {
          var i :| 0 <= i < |s| && IsDigit(s[i]);
          assert i >= 1;
          assert s[1..][i - 1] == s[i];
        }
      }
      assert HasDigit(s[1..]) ==> HasDigit(s) by {
        if HasDigit(s[1..]) {
          var i :| 0 <= i < |s[1..]| && IsDigit(s[1..][i]);
          assert s[i + 1] == s[1..][i];
        }
      }
      r
  }

  /** The cleaned product_price cell: the matched number, or missing where
      nothing matches or the cell is not text. */
  function ExtractPrice(v: Value): (r: Value)
    ensures r == Missing || r.Number?
    ensures r != Missing <==> v.Text? && HasDigit(v.text)
    ensures r.Number? ==> r.number >= 0.0
  {
    if !v.Text? then Missing
    else
      match CurrencyMatch(v.text)
      case None => Missing
      case Some(m) => Number(ParseDecimal(m).value)
  }

  /** Characters that neither start nor continue a number. */
  predicate NoNumberChars(p: string)
  {
    forall i :: 0 <= i < |p| ==> !IsDigit(p[i]) && p[i] != '.'
  }

  /** A prefix of currency symbols and letters is skipped. */
  lemma {:induction false} SkipPrefix(p: string, t: string)
    requires NoNumberChars(p)
    ensures CurrencyMatch(p + t) == CurrencyMatch(t)
    decreases |p|
  {
    if p != [] {
      assert (p + t)[0] == p[0];
      assert (p + t)[1..] == p[1..] + t;
      SkipPrefix(p[1..], t);
    } else {
      assert p + t == t;
    }
  }

  /** The first alternative reads a whole decimal number. */
  lemma DecimalAt(ra: string, f: string, q: string)
    requires ra != [] && AllDigits(ra) && f != [] && AllDigits(f)
    requires q == [] || !IsDigit(q[0])
    ensures StartsNumber(ra + "." + f + q) && NumberAt(ra + "." + f + q) == ra + "." + f
  {
    var t := ra + "." + f + q;
    assert t == ra + ("." + f + q);
    LeadingRunOf(ra, "." + f + q, IsDigit);
    assert t[|ra|] == '.' && t[|ra| + 1] == f[0];
    assert t[|ra| + 1..] == f + q;
    LeadingRunOf(f, q, IsDigit);
    assert t[..|ra| + 1 + |f|] == ra + "." + f;
  }

  /** A prefix of currency symbols and letters does not change the price. */
  lemma PrefixIgnored(p: string, t: string)
    requires NoNumberChars(p)
    ensures ExtractPrice(Text(p + t)) == ExtractPrice(Text(t))
  {
    SkipPrefix(p, t);
  }

  /** "<a>.<f><rest>" is priced a + 0.f. */
  lemma {:induction false} ExtractsDecimalPrice(a: nat, f: string, q: string)
    requires f != [] && AllDigits(f)
    requires q == [] || !IsDigit(q[0])
    ensures ExtractPrice(Text(Render(a) + "." + f + q)) == Number(a as real + Fraction(f))
  {
    var s, m := Render(a) + "." + f + q, Render(a) + "." + f;
    MatchesDecimal(a, f, q);
    RenderedDecimal(a, f);
    PriceOfMatch(s, m, a as real + Fraction(f));
  }

  /** The price is the parse of the leftmost match. */
  lemma PriceOfMatch(s: string, m: string, v: real)
    requires CurrencyMatch(s) == Some(m) && ParseDecimal(m) == Some(v)
    ensures ExtractPrice(Text(s)) == Number(v)
  {
  }

  /** Without a prefix, the search finds the whole decimal at the head. */
  lemma MatchesDecimal(a: nat, f: string, q: string)
    requires f != [] && AllDigits(f)
    requires q == [] || !IsDigit(q[0])
    ensures CurrencyMatch(Render(a) + "." + f + q) == Some(Render(a) + "." + f)
  {
    DecimalAt(Render(a), f, q);
  }

  /** "<n><rest>" with no fraction is priced n. */
  lemma {:induction false} ExtractsWholePrice(n: nat, q: string)
    requires q == [] || (!IsDigit(q[0]) && q[0] != '.')
    ensures ExtractPrice(Text(Render(n) + q)) == Number(n as real)
  {
    var rn := Render(n);
    LeadingRunOf(rn, q, IsDigit);
    assert (rn + q)[..|rn|] == rn;
    RenderedMagnitude(n);
  }
}
