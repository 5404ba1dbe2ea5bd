/** try_parse_date and the three date passes of parse_multiple_date_formats,
    one cell at a time. The parsers themselves (dateutil's parse and
    pd.to_datetime with a format) are the given functions of a Library. */
module Dates {
  import opened Values

  const DateFormat := "%Y-%m-%d"
  const DateFormatAlt := "%Y %B %d"
  const ExpiryDateFormat := "%m/%y"
  const PaymentDateFormat := "%Y-%m-%d"
  const DateTimeFormat := "%d-%m-%Y %H:%M:%S"

  /** try_parse_date: the free-form parse of a string, missing where it
      fails or the cell is not a string (a datetime included). */
  function TryParseDate(lib: Library, v: Value): (r: Value)
    ensures r == Missing || r.Stamp?
    ensures r != Missing <==> v.Text? && lib.parseDate(v.text).Some?
    ensures r.Stamp? ==> r.stamp == lib.parseDate(v.text).value
  {
    if !v.Text? then Missing
    else
      match lib.parseDate(v.text)
      case None => Missing
      case Some(d) => Stamp(d)
  }

  /** A datetime that datetime64[ns] can hold: from 1677-09-21 00:12:43.145224193
      to 2262-04-11 23:47:16.854775807. Seconds are whole here, so the first
      and last representable seconds are 00:12:44 and 23:47:16. */
  predicate InNsRange(d: DateTime)
    ensures InNsRange(d) ==> 1677 <= d.year <= 2262
  {
    var t := [d.year, d.month, d.day, d.hour, d.minute, d.second];
    !LexLess(t, [1677, 9, 21, 0, 12, 44]) && !LexLess([2262, 4, 11, 23, 47, 16], t)
  }

  predicate LexLess(a: seq<int>, b: seq<int>)
    requires |a| == |b|
    decreases |a|
  {
    a != [] && (a[0] < b[0] || (a[0] == b[0] && LexLess(a[1..], b[1..])))
  }

  /** Storing a cell in a datetime64[ns] column under errors="coerce": a
      datetime outside the range becomes NaT, anything else is kept. */
  function AsNs(v: Value): (r: Value)
    ensures v.Stamp? && InNsRange(v.stamp) ==> r == v
    ensures v.Stamp? && !InNsRange(v.stamp) ==> r == Missing
    ensures !v.Stamp? ==> r == v
  {
    if v.Stamp? && !InNsRange(v.stamp) then Missing else v
  }

  /** pd.to_datetime(cell, format=fmt, errors="coerce"): a datetime passes
      through and a string is parsed with the format, each only when the
      result fits datetime64[ns]; anything else is NaT. */
  function ToDatetime(lib: Library, fmt: string, v: Value): (r: Value)
    ensures r == Missing || (r.Stamp? && InNsRange(r.stamp))
    ensures v.Stamp? ==> r == AsNs(v)
    ensures !v.Stamp? && !v.Text? ==> r == Missing
    ensures v.Text? ==> (r != Missing <==>
      lib.strptime(fmt, v.text).Some? && InNsRange(lib.strptime(fmt, v.text).value))
    ensures v.Text? && r.Stamp? ==> r.stamp == lib.strptime(fmt, v.text).value
  {
    match v
    case Stamp(_) => AsNs(v)
    case Text(s) =>
      (match lib.strptime(fmt, s)
       case None => Missing
       case Some(d) => AsNs(Stamp(d)))
    case _ => Missing
  }

  /** Series.combine_first on one cell: the cell's own value unless missing. */
  function CombineFirst(own: Value, other: Value): (r: Value)
    ensures own != Missing ==> r == own
    ensures own == Missing ==> r == other
  {
    if own != Missing then own else other
  }

  /** The cell after parse_multiple_date_formats, pass by pass as written:
      pass 1 overwrites the cell, pass 2 reads the overwritten cell into
      parsed_dates, pass 3 rewrites the cells pass 2 left missing, and
      combine_first merges the cell with parsed_dates. */
  function DatePasses(lib: Library, v: Value): (r: Value)
    ensures r == Missing || (r.Stamp? && InNsRange(r.stamp))
  {
    var first := TryParseDate(lib, v);
    var parsed := ToDatetime(lib, DateFormat, first);
    var third := if parsed == Missing then ToDatetime(lib, DateFormatAlt, first) else first;
    CombineFirst(third, parsed)
  }

  /** As written, passes 2 and 3 only ever see datetimes and missing cells,
      so every cell ends as the pass-1 parse of its original value, made NaT
      when it does not fit datetime64[ns]. */
  lemma {:induction false} DatePassesArePassOne(lib: Library, v: Value)
    ensures DatePasses(lib, v) == AsNs(TryParseDate(lib, v))
    ensures DatePasses(lib, v) != Missing <==>
      v.Text? && lib.parseDate(v.text).Some? && InNsRange(lib.parseDate(v.text).value)
  {
    var first := TryParseDate(lib, v);
    if first == Missing {
      assert ToDatetime(lib, DateFormat, first) == Missing;
      assert ToDatetime(lib, DateFormatAlt, first) == Missing;
    } else if InNsRange(first.stamp) {
      assert ToDatetime(lib, DateFormat, first) == first;
    } else {
      assert ToDatetime(lib, DateFormat, first) == Missing;
      assert ToDatetime(lib, DateFormatAlt, first) == Missing;
    }
  }

  /** The cascade the passes describe: the free-form parse, then the strict
      format, then the alternative format, each tried on the original cell,
      and each kept only when it fits datetime64[ns]. */
  function Cascade(lib: Library, v: Value): (r: Value)
    ensures r == Missing || (r.Stamp? && InNsRange(r.stamp))
  {
    var first := AsNs(TryParseDate(lib, v));
    if first != Missing then first
    else
      var second := ToDatetime(lib, DateFormat, v);
      if second != Missing then second else ToDatetime(lib, DateFormatAlt, v)
  }

  /** The passes as written agree with the cascade exactly on cells that are
      not datetimes datetime64[ns] can hold, and that the strict formats
      cannot rescue from a free-form failure. */
  lemma {:induction false} PassesMatchCascadeIff(lib: Library, v: Value)
    ensures DatePasses(lib, v) == Cascade(lib, v) <==>
      (v.Stamp? ==> !InNsRange(v.stamp)) &&
      (v.Text? ==>
        ((lib.parseDate(v.text).Some? && InNsRange(lib.parseDate(v.text).value)) ||
         (ToDatetime(lib, DateFormat, v) == Missing && ToDatetime(lib, DateFormatAlt, v) == Missing)))
  {
    DatePassesArePassOne(lib, v);
  }

  /** A second run of the passes over their own output leaves nothing: every
      datetime the first run produced is not a string any more. */
  lemma DatePassesNotIdempotent(lib: Library, v: Value)
    ensures DatePasses(lib, DatePasses(lib, v)) == Missing
  {
    DatePassesArePassOne(lib, v);
    DatePassesArePassOne(lib, DatePasses(lib, v));
  }

  /** Birth dates in 1500 and expiry dates in 9999 do not fit; 2000 does. */
  lemma NsRangeYears()
    ensures !InNsRange(DateTime(1500, 1, 1, 0, 0, 0))
    ensures !InNsRange(DateTime(9999, 12, 31, 0, 0, 0))
    ensures InNsRange(DateTime(2000, 1, 1, 0, 0, 0))
  {
  }

  /** A string dateutil reads as a date before 1677 or after 2262 ends as
      NaT, however the strict formats would read it. */
  lemma OutOfRangeParseIsMissing(lib: Library, s: string)
    requires lib.parseDate(s).Some? && !InNsRange(lib.parseDate(s).value)
    ensures DatePasses(lib, Text(s)) == Missing
  {
    DatePassesArePassOne(lib, Text(s));
  }
}
