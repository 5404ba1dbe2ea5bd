/** parse_phone_number: the string pre-clean ahead of the phone number
    library, and the choice of region handed to it. */
module Phone {
  import opened Values
  import opened Text

  predicate IsDialable(c: char) { IsDigit(c) || c == '+' }

  predicate Dialable(s: string) { forall i :: 0 <= i < |s| ==> IsDialable(s[i]) }

  predicate StartsWithIntlZeros(s: string) { |s| >= 2 && s[0] == '0' && s[1] == '0' }

  /** A leading "00" is the international prefix, written "+" instead. */
  function RewriteIntlPrefix(s: string): (t: string)
    ensures StartsWithIntlZeros(s) ==> t == "+" + s[2..]
    ensures !StartsWithIntlZeros(s) ==> t == s
  {
    if StartsWithIntlZeros(s) then "+" + s[2..] else s
  }

  predicate ZeroMarkerAt(s: string) { |s| >= 3 && s[0] == '(' && s[1] == '0' && s[2] == ')' }

  /** re.sub(r'\(0\)', '', s): every "(0)" deleted, scanning left to right
      without overlaps. */
  function RemoveZeroMarker(s: string): (t: string)
    ensures |t| <= |s|
    ensures forall c :: c in t ==> c in s
    decreases |s|
  {
    if s == [] then []
    else if ZeroMarkerAt(s) then RemoveZeroMarker(s[3..])
    else
      var rest := RemoveZeroMarker(s[1..]);
      assert forall c :: c in rest ==> c in s by {
        forall c | c in rest ensures c in s {
          var i :| 0 <= i < |s[1..]| && s[1..][i] == c;
          assert s[i + 1] == c;
        }
      }
      [s[0]] + rest
  }

  /** The two replace calls: every '(' and ')' deleted. */
  function RemoveParens(s: string): (t: string)
    ensures '(' !in t && ')' !in t
    ensures forall c :: c in t ==> c in s
  {
    var t := Keep(s, c => c != '(' && c != ')');
    KeepSubset(s, c => c != '(' && c != ')');
    t
  }

  /** An extension can start at `i`: an 'x' with no line break after it,
      except one that ends the string (`.` stops at a line break and `$`
      matches only at the end or before a final line break). */
  predicate ExtensionAt(s: string, i: nat)
    requires i < |s|
  {
    s[i] == 'x' && forall j :: i < j < |s| - 1 ==> s[j] != '\n'
  }

  /** re.sub(r'x.*$', '', s) from position `i` on: the leftmost extension is
      cut, a final line break survives the cut. */
  function CutFrom(s: string, i: nat): (t: string)
    requires i <= |s|
    ensures forall c :: c in t ==> c in s
    decreases |s| - i
  {
    if i == |s| then s
    else if ExtensionAt(s, i) then
      if s[|s| - 1] == '\n' then s[..i] + "\n" else s[..i]
    else CutFrom(s, i + 1)
  }

  function CutExtension(s: string): (t: string)
    ensures forall c :: c in t ==> c in s
  {
    CutFrom(s, 0)
  }

  /** re.sub(r'[^\d+]', '', s): only digits and '+' remain. */
  function KeepDialable(s: string): (t: string)
    ensures Dialable(t)
    ensures Dialable(s) ==> t == s
  {
    Keep(s, IsDialable)
  }

  /** The pre-clean of parse_phone_number, step by step. */
  function PreClean(s: string): (t: string)
    ensures Dialable(t)
  {
    KeepDialable(CutExtension(RemoveParens(RemoveZeroMarker(RewriteIntlPrefix(s)))))
  }

  /** parse_phone_number: missing for a non-string; otherwise the library
      parses the pre-cleaned number, with the owner's region unless the
      number carries its own '+' prefix, and formats it internationally. */
  function ParsePhoneNumber(lib: Library, phone: Value, region: string): (r: Value)
    ensures !phone.Text? ==> r == Missing
    ensures r == Missing || r.Text?
    ensures r.Text? ==> exists reg :: lib.formatPhone(PreClean(phone.text), reg) == Some(r.text)
  {
    if !phone.Text? then Missing
    else
      var p := PreClean(phone.text);
      var formatted := if p != [] && p[0] == '+' then lib.formatPhone(p, None) else lib.formatPhone(p, Some(region));
      match formatted
      case None => Missing
      case Some(f) => Text(f)
  }

  lemma KeepSubset(s: string, p: char -> bool)
    ensures forall c :: c in Keep(s, p) ==> c in s
  {
    forall c | c in Keep(s, p) ensures c in s {
      KeepMember(s, p, c);
    }
  }

  lemma {:induction false} KeepMember(s: string, p: char -> bool, c: char)
    requires c in Keep(s, p)
    ensures c in s
    decreases |s|
  {
    if s != [] {
      if c != s[0] {
        assert Keep(s, p) == if p(s[0]) then [s[0]] + Keep(s[1..], p) else Keep(s[1..], p);
        KeepMember(s[1..], p, c);
        assert c in s[1..];
      }
    }
  }

  lemma {:induction false} KeepAppend(a: string, b: string, p: char -> bool)
    ensures Keep(a + b, p) == Keep(a, p) + Keep(b, p)
    decreases |a|
  {
    if a == [] {
      assert a + b == b;
    } else {
      assert (a + b)[0] == a[0];
      assert (a + b)[1..] == a[1..] + b;
      KeepAppend(a[1..], b, p);
    }
  }

  /** No "(0)" can straddle the end of `a` when the text after it starts
      with neither '0' nor ')', so the deletion runs on both sides apart. */
  lemma {:induction false} MarkerSplit(a: string, t: string)
    requires t == [] || (t[0] != '0' && t[0] != ')')
    ensures RemoveZeroMarker(a + t) == RemoveZeroMarker(a) + RemoveZeroMarker(t)
    decreases |a|
  {
    if a == [] {
      assert a + t == t;
    } else if ZeroMarkerAt(a) {
      MarkerFirst(a, t);
      MarkerSplit(a[3..], t);
    } else {
      KeptFirst(a, t);
      MarkerSplit(a[1..], t);
      ConsJoin(a[0], RemoveZeroMarker(a[1..] + t), RemoveZeroMarker(a[1..]), RemoveZeroMarker(t));
    }
  }

  lemma ConsJoin(x: char, whole: string, p: string, q: string)
    requires whole == p + q
    ensures [x] + whole == ([x] + p) + q
  {
  }

  /** A marker at the head of `a` is deleted with or without `t` after it. */
  lemma MarkerFirst(a: string, t: string)
    requires ZeroMarkerAt(a)
    ensures RemoveZeroMarker(a + t) == RemoveZeroMarker(a[3..] + t)
    ensures RemoveZeroMarker(a) == RemoveZeroMarker(a[3..])
  {
    var s := a + t;
    assert s[0] == a[0] && s[1] == a[1] && s[2] == a[2];
    assert s[3..] == a[3..] + t;
  }

  /** A head of `a` that starts no marker stays no marker with `t` after it. */
  lemma KeptFirst(a: string, t: string)
    requires a != [] && !ZeroMarkerAt(a)
    requires t == [] || (t[0] != '0' && t[0] != ')')
    ensures RemoveZeroMarker(a + t) == [a[0]] + RemoveZeroMarker(a[1..] + t)
    ensures RemoveZeroMarker(a) == [a[0]] + RemoveZeroMarker(a[1..])
  {
    var s := a + t;
    NoMarkerAtJoin(a, t, s);
  }

  lemma NoMarkerAtJoin(a: string, t: string, s: string)
    requires a != [] && !ZeroMarkerAt(a) && s == a + t
    requires t == [] || (t[0] != '0' && t[0] != ')')
    ensures s != [] && s[0] == a[0] && !ZeroMarkerAt(s) && s[1..] == a[1..] + t
  {
    if |a| >= 3 {
      assert s[1] == a[1] && s[2] == a[2];
    } else if |a| == 2 && t != [] {
      assert s[1] == a[1] && s[2] == t[0];
    } else if |a| == 1 && t != [] {
      assert s[1] == t[0];
    }
  }

  /** Every "(0)" is deleted wherever it occurs, whatever comes before it. */
  lemma ZeroMarkerDeleted(a: string, b: string)
    ensures RemoveZeroMarker(a + "(0)" + b) == RemoveZeroMarker(a) + RemoveZeroMarker(b)
  {
    var m := "(0)" + b;
    assert a + "(0)" + b == a + m;
    MarkerSplit(a, m);
    assert ZeroMarkerAt(m) && m[3..] == b;
  }

  /** Text without a parenthesis passes the "(0)" deletion unchanged. */
  lemma {:induction false} NoMarkerKept(a: string, b: string)
    requires '(' !in a
    ensures RemoveZeroMarker(a + b) == a + RemoveZeroMarker(b)
    decreases |a|
  {
    if a == [] {
      assert a + b == b;
    } else {
      var s := a + b;
      assert s[0] == a[0] && !ZeroMarkerAt(s);
      assert s[1..] == a[1..] + b;
      NoMarkerKept(a[1..], b);
      assert a == [a[0]] + a[1..];
    }
  }

  /** The extension cut, from a position before the first 'x'. */
  lemma {:induction false} CutAtFirstX(a: string, b: string, i: nat)
    requires i <= |a| && 'x' !in a[i..] && '\n' !in b
    ensures CutFrom(a + "x" + b, i) == a
    decreases |a| - i
  {
    var s := a + "x" + b;
    if i == |a| {
      assert s[|a|] == 'x';
      assert forall j :: |a| < j < |s| ==> s[j] == b[j - |a| - 1];
      assert s[..|a|] == a;
      assert s[|s| - 1] == if b == [] then 'x' else b[|b| - 1];
    } else {
      assert s[i] == a[i] && a[i] in a[i..];
      CutAtFirstX(a, b, i + 1);
    }
  }

  /** Text without an 'x' is not cut. */
  lemma {:induction false} NoExtensionKept(s: string, i: nat)
    requires i <= |s| && 'x' !in s[i..]
    ensures CutFrom(s, i) == s
    decreases |s| - i
  {
    if i < |s| {
      assert s[i] in s[i..];
      NoExtensionKept(s, i + 1);
    }
  }

  /** Everything from the extension marker on is ignored: an extension
      written after a number with no 'x' leaves the cleaned number as it is
      without it. */
  lemma ExtensionIgnored(s: string, ext: string)
    requires 'x' !in s && '\n' !in ext
    ensures PreClean(s + "x" + ext) == PreClean(s)
  {
    var r := RewriteIntlPrefix(s);
    PrefixBeforeX(s, ext);
    assert 'x' !in r;
    var z := RemoveZeroMarker(r);
    MarkerBeforeX(r, ext);
    var e := RemoveZeroMarker(ext);
    ParensBeforeX(z, e);
    CutAtX(RemoveParens(z), RemoveParens(e));
  }

  /** The international prefix is decided before any 'x'. */
  lemma PrefixBeforeX(s: string, ext: string)
    ensures RewriteIntlPrefix(s + "x" + ext) == RewriteIntlPrefix(s) + "x" + ext
  {
    var m := "x" + ext;
    var t := s + m;
    assert s + "x" + ext == t;
    PrefixBeforeTail(s, m, t);
    assert RewriteIntlPrefix(s) + m == RewriteIntlPrefix(s) + "x" + ext;
  }

  lemma PrefixBeforeTail(s: string, m: string, t: string)
    requires m != [] && m[0] != '0' && t == s + m
    ensures RewriteIntlPrefix(t) == RewriteIntlPrefix(s) + m
  {
    if |s| >= 2 {
      assert t[0] == s[0] && t[1] == s[1];
      if StartsWithIntlZeros(s) {
        assert t[2..] == s[2..] + m;
        ConsJoin('+', t[2..], s[2..], m);
      }
    } else if |s| == 1 {
      assert t[1] == m[0];
    } else {
      assert t[0] == m[0];
    }
  }

  /** A "(0)" never spans the 'x', so each side loses its own markers. */
  lemma MarkerBeforeX(r: string, ext: string)
    ensures RemoveZeroMarker(r + "x" + ext) == RemoveZeroMarker(r) + "x" + RemoveZeroMarker(ext)
  {
    var t := "x" + ext;
    assert r + "x" + ext == r + t;
    MarkerSplit(r, t);
    assert !ZeroMarkerAt(t) && t[1..] == ext;
  }

  /** The parentheses are deleted on each side of the 'x'. */
  lemma ParensBeforeX(z: string, e: string)
    ensures RemoveParens(z + "x" + e) == RemoveParens(z) + "x" + RemoveParens(e)
  {
    var keep := c => c != '(' && c != ')';
    KeepAppend(z + "x", e, keep);
    KeepAppend(z, "x", keep);
    assert Keep("x", keep) == "x";
  }

  /** The extension is cut at the first 'x', and a number without one is
      not cut. */
  lemma CutAtX(r: string, k: string)
    requires 'x' !in r && '\n' !in k
    ensures CutExtension(r + "x" + k) == r
    ensures CutExtension(r) == r
  {
    CutAtFirstX(r, k, 0);
    assert r[0..] == r;
    NoExtensionKept(r, 0);
  }

  /** The pre-clean changes nothing in a number it already cleaned, unless
      that number starts with "00". */
  lemma PreCleanStable(s: string)
    requires Dialable(s) && !StartsWithIntlZeros(s)
    ensures PreClean(s) == s
  {
    assert '(' !in s && ')' !in s && 'x' !in s;
    NoMarkerKept(s, []);
    assert s + [] == s;
    assert s[0..] == s;
    NoExtensionKept(s, 0);
  }

  /** The pre-clean is idempotent on every number whose cleaned form does
      not start with "00". */
  lemma PreCleanIdempotent(s: string)
    requires !StartsWithIntlZeros(PreClean(s))
    ensures PreClean(PreClean(s)) == PreClean(s)
  {
    PreCleanStable(PreClean(s));
  }

  /** "00" and "+" are the same international prefix to the pre-clean. */
  lemma IntlPrefixIsPlus(rest: string)
    ensures PreClean("00" + rest) == PreClean("+" + rest)
  {
    assert ("00" + rest)[2..] == rest;
  }

  /** A number that starts with '+' keeps it through the pre-clean. */
  lemma PlusKept(rest: string)
    ensures var p := PreClean("+" + rest); p != [] && p[0] == '+'
  {
    var t := "+" + rest;
    assert !StartsWithIntlZeros(t) && !ZeroMarkerAt(t) && t[1..] == rest;
    var z := RemoveZeroMarker(t);
    assert z == "+" + RemoveZeroMarker(rest);
    KeepAppend("+", RemoveZeroMarker(rest), c => c != '(' && c != ')');
    var q := RemoveParens(z);
    assert q != [] && q[0] == '+';
    CutFromKeepsHead(q, 1);
    var w := CutExtension(q);
    assert w == [w[0]] + w[1..];
    KeepAppend([w[0]], w[1..], IsDialable);
  }

  /** A cut after the first character keeps that character. */
  lemma {:induction false} CutFromKeepsHead(s: string, i: nat)
    requires 1 <= i <= |s|
    ensures var t := CutFrom(s, i); t != [] && t[0] == s[0]
    decreases |s| - i
  {
    if i < |s| && !ExtensionAt(s, i) {
      CutFromKeepsHead(s, i + 1);
    }
  }

  /** A number given with its own '+' prefix is parsed without the owner's
      region: the region cannot change the result. */
  lemma PlusIgnoresRegion(lib: Library, rest: string, region: string, other: string)
    ensures ParsePhoneNumber(lib, Text("+" + rest), region) == ParsePhoneNumber(lib, Text("+" + rest), other)
  {
    PlusKept(rest);
  }

  /** A number without a '+' after the pre-clean is parsed as a local
      number of the owner's region. */
  lemma LocalUsesRegion(lib: Library, s: string, region: string)
    requires var p := PreClean(s); p == [] || p[0] != '+'
    ensures var r := ParsePhoneNumber(lib, Text(s), region);
      (r.Text? <==> lib.formatPhone(PreClean(s), Some(region)).Some?) &&
      (r.Text? ==> lib.formatPhone(PreClean(s), Some(region)) == Some(r.text))
  {
  }

  /** "00" and "+" are the same international prefix to the parser, which
      then ignores the owner's region. */
  lemma ParseIntlPrefix(lib: Library, rest: string, region: string, other: string)
    ensures ParsePhoneNumber(lib, Text("00" + rest), region) == ParsePhoneNumber(lib, Text("+" + rest), other)
  {
    IntlPrefixIsPlus(rest);
    SamePreCleanSameParse(lib, "00" + rest, "+" + rest, region);
    PlusIgnoresRegion(lib, rest, region, other);
  }

  /** The parse sees a number only through its pre-clean. */
  lemma SamePreCleanSameParse(lib: Library, a: string, b: string, region: string)
    requires PreClean(a) == PreClean(b)
    ensures ParsePhoneNumber(lib, Text(a), region) == ParsePhoneNumber(lib, Text(b), region)
  {
  }

  /** An extension does not change the parsed number. */
  lemma ParseIgnoresExtension(lib: Library, s: string, ext: string, region: string)
    requires 'x' !in s && '\n' !in ext
    ensures ParsePhoneNumber(lib, Text(s + "x" + ext), region) == ParsePhoneNumber(lib, Text(s), region)
  {
    ExtensionIgnored(s, ext);
    SamePreCleanSameParse(lib, s + "x" + ext, s, region);
  }

  /** The library sees only the pre-cleaned, dialable number: re-parsing
      that number gives the same result, unless it starts with "00". */
  lemma ParseSeesPreClean(lib: Library, s: string, region: string)
    requires !StartsWithIntlZeros(PreClean(s))
    ensures Dialable(PreClean(s))
    ensures ParsePhoneNumber(lib, Text(PreClean(s)), region) == ParsePhoneNumber(lib, Text(s), region)
  {
    PreCleanIdempotent(s);
  }
}
