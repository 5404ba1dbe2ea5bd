/** extract_from_combined_card_data and the card number clean-up. */
module Cards {
  import opened Values
  import opened Text

  /** str.split(' ', 1) on text holding a space: the parts before and after
      the first space. */
  function SplitAtFirstSpace(s: string): (parts: (string, string))
    requires ' ' in s
    ensures parts.0 + " " + parts.1 == s
    ensures ' ' !in parts.0
  {
    var i := IndexOf(s, ' ');
    assert s[..i] + " " + s[i + 1..] == s by {
      assert s == s[..i] + [s[i]] + s[i + 1..];
    }
    (s[..i], s[i + 1..])
  }

  /** One row of the card table: where both card_number and expiry_date are
      missing they come from the combined column, split at its first space;
      otherwise the pair is kept. Text without a space leaves split_parts[1]
      out of range (IndexError); a missing combined cell has no split
      (AttributeError). */
  function ExtractFromCombined(card: Value, expiry: Value, combined: Value): (r: Result<(Value, Value)>)
    ensures !(card == Missing && expiry == Missing) ==> r == Ok((card, expiry))
    ensures card == Missing && expiry == Missing ==> (r.Ok? <==> combined.Text? && ' ' in combined.text)
    ensures r.Raised? ==> r.error == (if combined.Text? then IndexError else AttributeError)
    ensures card == Missing && expiry == Missing && r.Ok? ==>
      r.value.0.Text? && r.value.1.Text? &&
      r.value.0.text + " " + r.value.1.text == combined.text && ' ' !in r.value.0.text
  {
    if card == Missing && expiry == Missing then
      if !combined.Text? then Raised(AttributeError)
      else if ' ' !in combined.text then Raised(IndexError)
      else
        var parts := SplitAtFirstSpace(combined.text);
        Ok((Text(parts.0), Text(parts.1)))
    else Ok((card, expiry))
  }

  /** Joining a number and an expiry date with a space and extracting them
      gives both back. */
  lemma CombinedRoundTrip(number: string, expiry: string)
    requires ' ' !in number
    ensures ExtractFromCombined(Missing, Missing, Text(number + " " + expiry)) == Ok((Text(number), Text(expiry)))
  {
    var s := number + " " + expiry;
    assert s[|number|] == ' ';
    assert s[..|number|] == number;
    assert s[|number| + 1..] == expiry;
  }

  /** replace(r'[^0-9]+', '', regex=True) and then an empty string made
      missing: a card number keeps only its digits, and one with no digit is
      missing. */
  function DigitsOnly(v: Value): (r: Value)
    ensures v.Text? ==> (r == Missing <==> !HasDigit(v.text))
    ensures r.Text? ==> r.text != [] && AllDigits(r.text)
    ensures !v.Text? ==> r == v
  {
    if !v.Text? then v
    else
      var d := Keep(v.text, IsDigit);
      KeepDigits(v.text);
      if d == [] then Missing else Text(d)
  }

  lemma {:induction false} KeepDigits(s: string)
    ensures Keep(s, IsDigit) == [] <==> !HasDigit(s)
    decreases |s|
  {
    if s != [] {
      KeepDigits(s[1..]);
      assert HasDigit(s) <==> IsDigit(s[0]) || HasDigit(s[1..]) by {
        if HasDigit(s) && !IsDigit(s[0]) {
          var i :| 0 <= i < |s| && IsDigit(s[i]);
          assert s[1..][i - 1] == s[i];
        }
        if HasDigit(s[1..]) {
          var i :| 0 <= i < |s[1..]| && IsDigit(s[1..][i]);
          assert s[i + 1] == s[1..][i];
        }
      }
    }
  }

  /** A card number that is already all digits is kept as it is, so the
      clean-up is idempotent. */
  lemma DigitsOnlyIdempotent(v: Value)
    ensures DigitsOnly(DigitsOnly(v)) == DigitsOnly(v)
  {
  }

  lemma DigitsOnlyKeepsNumber(s: string)
    requires s != [] && AllDigits(s)
    ensures DigitsOnly(Text(s)) == Text(s)
  {
  }
}
