/** The string primitives the cleaner relies on: ASCII character classes,
    Python's str.split, str.strip, str.lower, int() and float() on the inputs
    the cleaner hands them, and a decimal rendering of naturals used to state
    round trips. */
module Text {
  import opened Values

  predicate IsDigit(c: char) { '0' <= c <= '9' }
  predicate IsLetter(c: char) { 'a' <= c <= 'z' || 'A' <= c <= 'Z' }
  predicate IsAlnum(c: char) { IsDigit(c) || IsLetter(c) }

  /** str.isspace() restricted to ASCII: what str.strip() removes. */
  predicate IsSpace(c: char) { c == ' ' || '\t' <= c <= '\r' || '\U{001C}' <= c <= '\U{001F}' }

  predicate AllDigits(s: string) { forall i :: 0 <= i < |s| ==> IsDigit(s[i]) }

  predicate HasDigit(s: string) { exists i :: 0 <= i < |s| && IsDigit(s[i]) }

  /** The number a string of decimal digits denotes ("" denotes 0). */
  function DigitsValue(s: string): nat
    requires AllDigits(s)
  {
    if s == [] then 0 else 10 * DigitsValue(s[..|s| - 1]) + (s[|s| - 1] as int - '0' as int)
  }

  /** The decimal digits of n, most significant first, without leading zeros. */
  function Render(n: nat): (s: string)
    ensures |s| >= 1 && AllDigits(s)
  {
    if n < 10 then [('0' as int + n) as char]
    else Render(n / 10) + [('0' as int + n % 10) as char]
  }

  lemma {:induction false} RenderRoundTrip(n: nat)
    ensures DigitsValue(Render(n)) == n
  {
    if n >= 10 {
      var s := Render(n);
      assert s[..|s| - 1] == Render(n / 10);
      RenderRoundTrip(n / 10);
    }
  }

  /** The position of the first occurrence of c (str.index). */
  function IndexOf(s: string, c: char): (k: nat)
    requires c in s
    ensures k < |s| && s[k] == c && c !in s[..k]
  {
    if s[0] == c then 0 else 1 + IndexOf(s[1..], c)
  }

  /** sep.join(parts) for a one-character separator. */
  function Join(parts: seq<string>, sep: char): string
    requires |parts| >= 1
  {
    if |parts| == 1 then parts[0] else parts[0] + [sep] + Join(parts[1..], sep)
  }

  /** str.split(sep) with a one-character separator: Join undoes it, and no
      part holds the separator. */
  function Split(s: string, sep: char): (parts: seq<string>)
    ensures |parts| >= 1
    ensures forall k :: 0 <= k < |parts| ==> sep !in parts[k]
    ensures Join(parts, sep) == s
    decreases |s|
  {
    if sep !in s then [s]
    else
      var k := IndexOf(s, sep);
      var rest := Split(s[k + 1..], sep);
      assert ([s[..k]] + rest)[1..] == rest;
      assert s == s[..k] + [sep] + s[k + 1..];
      [s[..k]] + rest
  }

  lemma SplitAtFirst(a: string, sep: char, rest: string)
    requires sep !in a
    ensures Split(a + [sep] + rest, sep) == [a] + Split(rest, sep)
  {
    var s := a + [sep] + rest;
    var k := IndexOf(s, sep);
    assert s[..|a|] == a;
    assert s[|a|] == sep;
    assert k == |a|;
    assert s[..k] == a;
    assert s[k + 1..] == rest;
  }

  /** str.lstrip() */
  function TrimStart(s: string): (t: string)
    ensures |t| <= |s| && t == s[|s| - |t|..]
    ensures t == [] || !IsSpace(t[0])
  {
    if s != [] && IsSpace(s[0]) then TrimStart(s[1..]) else s
  }

  /** str.rstrip() */
  function TrimEnd(s: string): (t: string)
    ensures |t| <= |s| && t == s[..|t|]
    ensures t == [] || !IsSpace(t[|t| - 1])
  {
    if s != [] && IsSpace(s[|s| - 1]) then TrimEnd(s[..|s| - 1]) else s
  }

  /** str.strip() */
  function Strip(s: string): (t: string)
    ensures |t| <= |s|
    ensures t == [] || (!IsSpace(t[0]) && !IsSpace(t[|t| - 1]))
  {
    TrimEnd(TrimStart(s))
  }

  function LowerChar(c: char): char
  {
    if 'A' <= c <= 'Z' then (c as int + 32) as char else c
  }

  /** str.lower() on ASCII text. */
  function Lower(s: string): (t: string)
    ensures |t| == |s|
    ensures forall i :: 0 <= i < |s| ==> t[i] == LowerChar(s[i])
  {
    seq(|s|, i requires 0 <= i < |s| => LowerChar(s[i]))
  }

  /** The characters of s that satisfy p, in order (re.sub of the complement class by ''). */
  function Keep(s: string, p: char -> bool): (t: string)
    ensures |t| <= |s|
    ensures forall i :: 0 <= i < |t| ==> p(t[i])
    ensures (forall i :: 0 <= i < |s| ==> p(s[i])) ==> t == s
  {
    if s == [] then []
    else (if p(s[0]) then [s[0]] else []) + Keep(s[1..], p)
  }

  /** The length of the longest prefix of s whose characters all satisfy p
      (how far a greedy character-class repetition reaches). */
  function LeadingRun(s: string, p: char -> bool): (k: nat)
    ensures k <= |s|
    ensures forall i :: 0 <= i < k ==> p(s[i])
    ensures k < |s| ==> !p(s[k])
  {
    if s == [] || !p(s[0]) then 0 else 1 + LeadingRun(s[1..], p)
  }

  lemma {:induction false} LeadingRunOf(a: string, b: string, p: char -> bool)
    requires forall i :: 0 <= i < |a| ==> p(a[i])
    requires b == [] || !p(b[0])
    ensures LeadingRun(a + b, p) == |a|
  {
    if a != [] {
      assert (a + b)[1..] == a[1..] + b;
      LeadingRunOf(a[1..], b, p);
    } else {
      assert a + b == b;
    }
  }

  lemma TrimStartKeeps(s: string)
    requires s != [] && !IsSpace(s[0])
    ensures TrimStart(s) == s
  {
  }

  lemma TrimEndDropsSpace(s: string)
    ensures TrimEnd(s + " ") == TrimEnd(s)
  {
    assert (s + " ")[..|s|] == s;
  }

  lemma TrimEndKeeps(s: string)
    requires s != [] && !IsSpace(s[|s| - 1])
    ensures TrimEnd(s) == s
  {
  }

  /** Digits with single underscores between them: the body int() accepts. */
  predicate DigitGroups(s: string)
  {
    && |s| >= 1 && IsDigit(s[0]) && IsDigit(s[|s| - 1])
    && (forall i :: 0 <= i < |s| ==> IsDigit(s[i]) || s[i] == '_')
    && (forall i :: 0 <= i < |s| - 1 ==> s[i] == '_' ==> s[i + 1] != '_')
  }

  /** int(s) on an already stripped string; None where int() raises ValueError. */
  function ParseInt(s: string): (r: Option<int>)
    ensures s != [] && AllDigits(s) ==> r == Some(DigitsValue(s))
    ensures r.Some? ==> HasDigit(s)
  {
    if |s| >= 1 && (s[0] == '+' || s[0] == '-') && DigitGroups(s[1..]) then
      assert IsDigit(s[1..][0]);
      var n: int := DigitsValue(Keep(s[1..], IsDigit));
      Some(if s[0] == '-' then -n else n)
    else if DigitGroups(s) then
      Some(DigitsValue(Keep(s, IsDigit)))
    else None
  }

  /** Characters of the `[\d.]+` class. */
  predicate DecimalChars(s: string) { forall i :: 0 <= i < |s| ==> IsDigit(s[i]) || s[i] == '.' }

  /** The value of the digits after a decimal point. */
  function Fraction(f: string): (r: real)
    requires AllDigits(f)
    ensures 0.0 <= r < 1.0
  {
    if f == [] then 0.0 else ((f[0] as int - '0' as int) as real + Fraction(f[1..])) / 10.0
  }

  /** float(s) on a string of digits and dots; None where float() raises
      ValueError (no digit, or more than one dot). */
  function ParseDecimal(s: string): (r: Option<real>)
    requires DecimalChars(s)
    ensures r.Some? <==> HasDigit(s) && (('.' in s) ==> '.' !in s[IndexOf(s, '.') + 1..])
    ensures r.Some? ==> r.value >= 0.0
  {
    if !HasDigit(s) then None
    else if '.' !in s then
      Some(DigitsValue(s) as real)
    else
      var k := IndexOf(s, '.');
      if '.' in s[k + 1..] then None
      else
        Some(DigitsValue(s[..k]) as real + Fraction(s[k + 1..]))
  }

  predicate IsInteger(x: real) { x.Floor as real == x }

  lemma DigitsExclude(s: string, c: char)
    requires AllDigits(s) && !IsDigit(c)
    ensures c !in s
  {
  }

  lemma RenderedMagnitude(n: nat)
    ensures ParseDecimal(Render(n)) == Some(n as real)
  {
    var s := Render(n);
    assert s[0] in s && IsDigit(s[0]);
    DigitsExclude(s, '.');
    RenderRoundTrip(n);
  }

  lemma SplitPoint(a: string, f: string)
    requires '.' !in a
    ensures var s := a + "." + f; '.' in s && IndexOf(s, '.') == |a| && s[..|a|] == a && s[|a| + 1..] == f
  {
    var s := a + "." + f;
    assert s[|a|] == '.';
    assert s[..|a|] == a;
    var k := IndexOf(s, '.');
    assert k == |a|;
    assert s[|a| + 1..] == f;
  }

  lemma RenderedDecimal(a: nat, f: string)
    requires AllDigits(f)
    ensures var num := Render(a) + "." + f;
      |num| >= 1 && DecimalChars(num) && ParseDecimal(num) == Some(a as real + Fraction(f))
  {
    var ra := Render(a);
    var num := ra + "." + f;
    assert DecimalChars(num) by {
      forall i | 0 <= i < |num| ensures IsDigit(num[i]) || num[i] == '.' {
        if i < |ra| { assert num[i] == ra[i]; }
        else if i > |ra| { assert num[i] == f[i - |ra| - 1]; }
      }
    }
    DigitsExclude(ra, '.');
    DigitsExclude(f, '.');
    SplitPoint(ra, f);
    assert num[0] == ra[0];
    RenderRoundTrip(a);
  }

  /** float() rejects a magnitude with two decimal points. */
  lemma TwoPointsDoNotParse(a: nat, b: nat, c: nat)
    ensures var num := Render(a) + "." + Render(b) + "." + Render(c);
      DecimalChars(num) && ParseDecimal(num).None?
  {
    var ra, rb, rc := Render(a), Render(b), Render(c);
    var f := rb + "." + rc;
    var num := ra + "." + f;
    assert Render(a) + "." + Render(b) + "." + Render(c) == num;
    assert DecimalChars(num) by {
      forall i | 0 <= i < |num| ensures IsDigit(num[i]) || num[i] == '.' {
        if i < |ra| { assert num[i] == ra[i]; }
        else if |ra| < i < |ra| + 1 + |rb| { assert num[i] == rb[i - |ra| - 1]; }
        else if i > |ra| + 1 + |rb| { assert num[i] == rc[i - |ra| - |rb| - 2]; }
      }
    }
    DigitsExclude(ra, '.');
    SplitPoint(ra, f);
    assert f[|rb|] == '.';
  }
}
