/** The uuid check of the cleaner: the `uuid_regex` pattern and the masked
    write that nulls every cell it does not match. */
module UuidCheck {
  import opened Values
  import opened Text

  /** `[0-9A-Za-z]*`: every character is an ASCII letter or digit. */
  predicate AlnumOnly(g: string)
  {
    g == [] || (IsAlnum(g[0]) && AlnumOnly(g[1..]))
  }

  lemma {:induction false} AlnumHasNoHyphen(g: string)
    requires AlnumOnly(g)
    ensures '-' !in g
  {
    if g != [] {
      AlnumHasNoHyphen(g[1..]);
      assert g == [g[0]] + g[1..];
    }
  }

  /** The 36 characters the pattern lays out, read left to right:
      `[0-9A-Za-z]{8}-[0-9A-Za-z]{4}-4[0-9A-Za-z]{3}-[89ABab][0-9A-Za-z]{3}-[0-9A-Za-z]{12}`. */
  predicate UuidBody(t: string)
  {
    && |t| == 36
    && AlnumOnly(t[..8]) && t[8] == '-'
    && AlnumOnly(t[9..13]) && t[13] == '-'
    && t[14] == '4' && AlnumOnly(t[15..18]) && t[18] == '-'
    && t[19] in "89ABab" && AlnumOnly(t[20..23]) && t[23] == '-'
    && AlnumOnly(t[24..])
  }

  /** Series.str.match(uuid_regex): re.match of the anchored pattern, whose
      `$` also matches just before one final newline. */
  predicate MatchesUuid(s: string)
    ensures MatchesUuid(s) ==> |s| == 36 || (|s| == 37 && s[36] == '\n')
  {
    UuidBody(s) || (|s| == 37 && s[36] == '\n' && UuidBody(s[..36]))
  }

  /** df.loc[~df[col].str.match(uuid_regex, na=False), col] = pd.NA on one
      cell: a string the pattern matches survives unchanged, every other
      value (missing, non-string, non-matching) becomes missing. */
  function ValidateUuid(v: Value): (r: Value)
    ensures r != Missing <==> v.Text? && MatchesUuid(v.text)
    ensures r != Missing ==> r == v
  {
    if v.Text? && MatchesUuid(v.text) then v else Missing
  }

  /** The same shape described group by group: five hyphen-separated
      alphanumeric groups of lengths 8-4-4-4-12, the third starting with '4'
      and the fourth with one of 8 9 A B a b. */
  predicate UuidGroups(t: string)
  {
    var g := Split(t, '-');
    && |g| == 5
    && |g[0]| == 8 && |g[1]| == 4 && |g[2]| == 4 && |g[3]| == 4 && |g[4]| == 12
    && AlnumOnly(g[0]) && AlnumOnly(g[1]) && AlnumOnly(g[2]) && AlnumOnly(g[3]) && AlnumOnly(g[4])
    && g[2][0] == '4' && g[3][0] in "89ABab"
  }

  lemma AlnumCons(c: char, g: string)
    requires IsAlnum(c) && AlnumOnly(g)
    ensures AlnumOnly([c] + g)
  {
    assert ([c] + g)[1..] == g;
  }

  lemma BodyToGroups(t: string)
    requires UuidBody(t)
    ensures UuidGroups(t)
  {
    var g0, g1, g2, g3, g4 := t[..8], t[9..13], t[14..18], t[19..23], t[24..];
    assert g2 == [t[14]] + t[15..18];
    assert g3 == [t[19]] + t[20..23];
    AlnumCons(t[14], t[15..18]);
    AlnumCons(t[19], t[20..23]);
    AlnumHasNoHyphen(g0);
    AlnumHasNoHyphen(g1);
    AlnumHasNoHyphen(g2);
    AlnumHasNoHyphen(g3);
    AlnumHasNoHyphen(g4);
    HyphenAt(t, 19, 23);
    HyphenAt(t, 14, 18);
    HyphenAt(t, 9, 13);
    HyphenAt(t, 0, 8);
    assert t[0..] == t && t[0..8] == g0;
    SplitFive(t, g0, g1, g2, g3, g4);
  }

  /** A suffix that starts before a hyphen is the text up to it, the
      hyphen, and the rest. */
  lemma HyphenAt(t: string, i: nat, j: nat)
    requires i < j < |t| && t[j] == '-'
    ensures t[i..] == t[i..j] + "-" + t[j + 1..]
  {
  }

  /** Five groups joined by hyphens split back into the five groups. */
  lemma SplitFive(t: string, g0: string, g1: string, g2: string, g3: string, g4: string)
    requires '-' !in g0 && '-' !in g1 && '-' !in g2 && '-' !in g3 && '-' !in g4
    requires t == g0 + "-" + (g1 + "-" + (g2 + "-" + (g3 + "-" + g4)))
    ensures Split(t, '-') == [g0, g1, g2, g3, g4]
  {
    var r3 := g3 + "-" + g4;
    var r2 := g2 + "-" + r3;
    var r1 := g1 + "-" + r2;
    var p3, p2, p1, p0 := [g3, g4], [g2, g3, g4], [g1, g2, g3, g4], [g0, g1, g2, g3, g4];
    assert p3 == [g3] + [g4] && p2 == [g2] + p3 && p1 == [g1] + p2 && p0 == [g0] + p1;
    SplitAfter(g3, g4, [g4]);
    SplitAfter(g2, r3, p3);
    SplitAfter(g1, r2, p2);
    SplitAfter(g0, r1, p1);
  }

  lemma SplitAfter(g: string, rest: string, parts: seq<string>)
    requires '-' !in g && Split(rest, '-') == parts
    ensures Split(g + "-" + rest, '-') == [g] + parts
  {
    SplitAtFirst(g, '-', rest);
  }

  lemma GroupsToBody(t: string)
    requires UuidGroups(t)
    ensures UuidBody(t)
  {
    var g := Split(t, '-');
    assert Join(g[4..], '-') == g[4];
    assert g[3..][1..] == g[4..];
    assert g[2..][1..] == g[3..];
    assert g[1..][1..] == g[2..];
    var r3 := g[3] + "-" + g[4];
    var r2 := g[2] + "-" + r3;
    var r1 := g[1] + "-" + r2;
    assert Join(g[3..], '-') == r3;
    assert Join(g[2..], '-') == r2;
    assert Join(g[1..], '-') == r1;
    assert t == g[0] + "-" + r1;
    assert t[..8] == g[0] && t[9..13] == g[1] && t[14..18] == g[2] && t[19..23] == g[3] && t[24..] == g[4];
    assert t[15..18] == g[2][1..] && t[20..23] == g[3][1..];
  }

  /** The left-to-right pattern and the group-by-group description accept
      exactly the same strings. */
  lemma BodyIffGroups(t: string)
    ensures UuidBody(t) <==> UuidGroups(t)
  {
    if UuidBody(t) { BodyToGroups(t); }
    if UuidGroups(t) { GroupsToBody(t); }
  }
}
