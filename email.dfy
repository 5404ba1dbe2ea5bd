/** The email step of the user pipeline: runs of '@' are collapsed, then the
    address must match `email_regex` or the cell is nulled. */
module Email {
  import opened Values
  import opened Text

  /** re.sub('@+', '@', s): each run of '@' becomes a single '@'. */
  function CollapseAt(s: string): (r: string)
    ensures |r| <= |s|
    ensures s != [] ==> r != [] && r[0] == s[0]
  {
    if |s| <= 1 then s
    else if s[0] == '@' && s[1] == '@' then CollapseAt(s[1..])
    else [s[0]] + CollapseAt(s[1..])
  }

  predicate NoDoubleAt(s: string)
  {
    forall i :: 0 <= i < |s| - 1 ==> s[i] == '@' ==> s[i + 1] != '@'
  }

  /** The characters other than '@', in order. */
  function WithoutAt(s: string): string
  {
    Keep(s, c => c != '@')
  }

  lemma {:induction false} CollapseLeavesNoRun(s: string)
    ensures NoDoubleAt(CollapseAt(s))
  {
    if |s| > 1 {
      CollapseLeavesNoRun(s[1..]);
      if !(s[0] == '@' && s[1] == '@') {
        var rest := CollapseAt(s[1..]);
        assert rest[0] == s[1];
        var r := [s[0]] + rest;
        forall i | 0 <= i < |r| - 1 && r[i] == '@' ensures r[i + 1] != '@' {
          if i > 0 { assert r[i] == rest[i - 1] && r[i + 1] == rest[i]; }
        }
      }
    }
  }

  lemma {:induction false} CollapseFixesNoRun(s: string)
    requires NoDoubleAt(s)
    ensures CollapseAt(s) == s
  {
    if |s| > 1 {
      assert NoDoubleAt(s[1..]) by {
        forall i | 0 <= i < |s[1..]| - 1 && s[1..][i] == '@' ensures s[1..][i + 1] != '@' {
          assert s[1..][i] == s[i + 1] && s[1..][i + 1] == s[i + 2];
        }
      }
      CollapseFixesNoRun(s[1..]);
      assert [s[0]] + s[1..] == s;
    }
  }

  /** Collapsing twice is collapsing once. */
  lemma CollapseIdempotent(s: string)
    ensures CollapseAt(CollapseAt(s)) == CollapseAt(s)
  {
    CollapseLeavesNoRun(s);
    CollapseFixesNoRun(CollapseAt(s));
  }

  /** Collapsing touches nothing but the '@' runs: the other characters stay,
      in order, and an '@' remains wherever there was one. */
  lemma {:induction false} CollapseKeepsRest(s: string)
    ensures WithoutAt(CollapseAt(s)) == WithoutAt(s)
    ensures '@' in CollapseAt(s) <==> '@' in s
  {
    if |s| > 1 {
      CollapseKeepsRest(s[1..]);
      var rest := CollapseAt(s[1..]);
      if !(s[0] == '@' && s[1] == '@') {
        var r := [s[0]] + rest;
        assert r[1..] == rest;
        assert s == [s[0]] + s[1..];
      } else {
        assert s == [s[0]] + s[1..];
        assert s[1] in s[1..];
      }
    }
  }

  /** What the pattern must cover: its `$` also matches before one final newline. */
  function Subject(s: string): string
  {
    if s != [] && s[|s| - 1] == '\n' then s[..|s| - 1] else s
  }

  /** `^.+@.+\..+$` read as a shape: something, '@', something, '.',
      something, where `.` never matches a newline. */
  ghost predicate EmailShape(s: string)
  {
    var t := Subject(s);
    && '\n' !in t
    && exists i, j :: 1 <= i && i + 2 <= j <= |t| - 2 && t[i] == '@' && t[j] == '.'
  }

  /** Series.str.match(email_regex) on one string, decided by the first '@'
      after the first character and the '.' positions after it. */
  predicate MatchesEmail(s: string)
    ensures MatchesEmail(s) ==> '@' in s && '.' in s && |s| >= 5
  {
    var t := Subject(s);
    && '\n' !in t
    && |t| >= 2 && '@' in t[1..]
    && var i := 1 + IndexOf(t[1..], '@');
       i + 2 <= |t| - 1 && '.' in t[i + 2..|t| - 1]
  }

  lemma MatchesEmailIffShape(s: string)
    ensures MatchesEmail(s) <==> EmailShape(s)
  {
    var t := Subject(s);
    if MatchesEmail(s) {
      var i := 1 + IndexOf(t[1..], '@');
      var j := i + 2 + IndexOf(t[i + 2..|t| - 1], '.');
      assert t[i] == '@' && t[j] == '.';
    }
    if EmailShape(s) {
      var i, j :| 1 <= i && i + 2 <= j <= |t| - 2 && t[i] == '@' && t[j] == '.';
      assert t[1..][i - 1] == '@';
      var i0 := 1 + IndexOf(t[1..], '@');
      assert i0 <= i;
      assert t[i0 + 2..|t| - 1][j - i0 - 2] == '.';
    }
  }

  /** The `str.replace` of '@' runs in clean_user_data: a string has its
      '@' runs collapsed; a missing or non-string cell comes out missing. */
  function CollapseEmail(v: Value): (r: Value)
    ensures r != Missing <==> v.Text?
    ensures r.Text? ==> NoDoubleAt(r.text) && WithoutAt(r.text) == WithoutAt(v.text)
  {
    if v.Text? then
      CollapseLeavesNoRun(v.text);
      CollapseKeepsRest(v.text);
      Text(CollapseAt(v.text))
    else Missing
  }

  /** The masked write of NA in clean_user_data: a string the pattern
      matches survives unchanged, anything else becomes missing. */
  function ValidateEmail(v: Value): (r: Value)
    ensures r != Missing <==> v.Text? && EmailShape(v.text)
    ensures r != Missing ==> r == v
  {
    if v.Text? then MatchesEmailIffShape(v.text); (if MatchesEmail(v.text) then v else Missing)
    else Missing
  }

  /** Both email steps together are idempotent: a cleaned address passes
      through them again unchanged. */
  lemma CleanEmailIdempotent(v: Value)
    ensures var w := ValidateEmail(CollapseEmail(v)); ValidateEmail(CollapseEmail(w)) == w
  {
    var w := ValidateEmail(CollapseEmail(v));
    if w.Text? {
      CollapseLeavesNoRun(v.text);
      CollapseFixesNoRun(w.text);
    }
  }
}
