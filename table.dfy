/** A DataFrame's rows as values: each row maps a column name to its cell.
    The row-level operations here are the pandas operations the cleaner
    applies, taken one row at a time. */
module Table {
  import opened Values

  type Row = map<string, Value>

  /** notna().all(axis=1): no cell of the row is missing. */
  predicate Complete(r: Row)
  {
    forall c :: c in r ==> r[c] != Missing
  }

  /** Boolean-mask indexing df[mask]: the elements for which keep holds, in
      their original order. */
  function Filter(s: seq<Row>, keep: Row -> bool): (out: seq<Row>)
    ensures |out| <= |s|
    ensures forall x :: x in out <==> x in s && keep(x)
  {
    if s == [] then []
    else (if keep(s[0]) then [s[0]] else []) + Filter(s[1..], keep)
  }

  lemma {:induction false} FilterAppend(a: seq<Row>, b: seq<Row>, keep: Row -> bool)
    ensures Filter(a + b, keep) == Filter(a, keep) + Filter(b, keep)
  {
    if a == [] {
      assert a + b == b;
    } else {
      assert (a + b)[0] == a[0];
      assert (a + b)[1..] == a[1..] + b;
      FilterAppend(a[1..], b, keep);
    }
  }

  lemma {:induction false} FilterKeepsAll(s: seq<Row>, keep: Row -> bool)
    requires forall i :: 0 <= i < |s| ==> keep(s[i])
    ensures Filter(s, keep) == s
  {
    if s != [] {
      FilterKeepsAll(s[1..], keep);
      assert [s[0]] + s[1..] == s;
    }
  }

  /** dropna(how='any', axis='index'): the rows with no missing cell, in order. */
  function DropNA(rows: seq<Row>): (out: seq<Row>)
    ensures |out| <= |rows|
    ensures forall i :: 0 <= i < |out| ==> Complete(out[i])
    ensures forall r :: r in out <==> r in rows && Complete(r)
  {
    Filter(rows, Complete)
  }

  /** dropna removes exactly the rows with a missing cell and keeps the others
      in their order: it distributes over concatenation and acts on a single
      row by keeping it iff it is complete. */
  lemma DropNAKeepsOrder(a: seq<Row>, b: seq<Row>, r: Row)
    ensures DropNA(a + b) == DropNA(a) + DropNA(b)
    ensures DropNA([r]) == if Complete(r) then [r] else []
  {
    FilterAppend(a, b, Complete);
    assert [r][1..] == [];
  }

  /** dropna over rows that all have a missing cell leaves nothing. */
  lemma {:induction false} DropNAOfIncomplete(rows: seq<Row>)
    requires forall i :: 0 <= i < |rows| ==> !Complete(rows[i])
    ensures DropNA(rows) == []
  {
    if rows != [] {
      DropNAOfIncomplete(rows[1..]);
    }
  }

  /** A second dropna removes nothing. */
  lemma DropNAIdempotent(rows: seq<Row>)
    ensures DropNA(DropNA(rows)) == DropNA(rows)
  {
    var out := DropNA(rows);
    assert forall i :: 0 <= i < |out| ==> Complete(out[i]);
    FilterKeepsAll(out, Complete);
  }

  /** df[column] = f(df[column]) on one row; rows without the column are left as they are. */
  function SetCell(r: Row, column: string, f: Value -> Value): (r': Row)
    ensures r'.Keys == r.Keys
    ensures forall c :: c in r' ==> r'[c] == if c == column then f(r[c]) else r[c]
  {
    if column in r then r[column := f(r[column])] else r
  }

  /** DataFrame.replace(from, to): every cell equal to from becomes to. */
  function ReplaceCells(r: Row, from: Value, to: Value): (r': Row)
    ensures r'.Keys == r.Keys
    ensures forall c :: c in r' ==> r'[c] == (if r[c] == from then to else r[c])
  {
    map c | c in r :: if r[c] == from then to else r[c]
  }

  /** df.loc[mask] = pd.NA on a masked row: every cell becomes missing. */
  function Blank(r: Row): (r': Row)
    ensures r'.Keys == r.Keys
    ensures forall c :: c in r' ==> r'[c] == Missing
    ensures !Complete(r') <==> r != map[]
  {
    map c | c in r :: Missing
  }

  /** astype("string") on one cell: missing stays missing, text stays, and any
      other value is rendered. */
  function AsString(lib: Library, v: Value): (r: Value)
    ensures r == Missing <==> v == Missing
    ensures r.Text? || r == Missing
    ensures v.Text? ==> r == v
  {
    match v
    case Missing => Missing
    case Text(_) => v
    case _ => Text(lib.show(v))
  }

  /** astype({column: "string", ...}) on one row. */
  function AsStrings(lib: Library, r: Row, columns: set<string>): (r': Row)
    ensures r'.Keys == r.Keys
    ensures forall c :: c in r' ==> r'[c] == if c in columns then AsString(lib, r[c]) else r[c]
  {
    map c | c in r :: if c in columns then AsString(lib, r[c]) else r[c]
  }

  /** A column-wise rewrite of a whole frame, row by row. */
  function MapRows(s: seq<Row>, f: Row -> Row): (out: seq<Row>)
    ensures |out| == |s|
    ensures forall i :: 0 <= i < |s| ==> out[i] == f(s[i])
  {
    seq(|s|, i requires 0 <= i < |s| => f(s[i]))
  }

  /** A row that dropna keeps from a row-wise rewrite is the complete
      rewrite of some input row. */
  lemma DropNAMapSource(rows: seq<Row>, f: Row -> Row, x: Row)
    requires x in DropNA(MapRows(rows, f))
    ensures exists i :: 0 <= i < |rows| && x == f(rows[i]) && Complete(x)
  {
    var mapped := MapRows(rows, f);
    var i :| 0 <= i < |mapped| && mapped[i] == x;
  }

  /** dropna after a row-wise rewrite keeps exactly the complete rewrites of
      the input rows. */
  lemma DropNAMapIff(rows: seq<Row>, f: Row -> Row)
    ensures forall x :: x in DropNA(MapRows(rows, f)) <==>
      exists i :: 0 <= i < |rows| && x == f(rows[i]) && Complete(x)
  {
    forall x | x in DropNA(MapRows(rows, f))
      ensures exists i :: 0 <= i < |rows| && x == f(rows[i]) && Complete(x)
    {
      DropNAMapSource(rows, f, x);
    }
    forall x | exists i :: 0 <= i < |rows| && x == f(rows[i]) && Complete(x)
      ensures x in DropNA(MapRows(rows, f))
    {
      var i :| 0 <= i < |rows| && x == f(rows[i]) && Complete(x);
      assert MapRows(rows, f)[i] == x;
    }
  }

  /** A row-wise apply that succeeded, a rewrite and a dropna keep exactly
      the complete rewrites of the applied input rows. */
  lemma ApplyDropNAIff(rows: seq<Row>, f: Row --> Result<Row>, g: Row -> Row)
    requires forall i :: 0 <= i < |rows| ==> f.requires(rows[i])
    requires ApplyRows(rows, f).Ok?
    ensures forall x :: x in DropNA(MapRows(ApplyRows(rows, f).value, g)) <==>
      exists i :: 0 <= i < |rows| && f(rows[i]).Ok? && x == g(f(rows[i]).value) && Complete(x)
  {
    var applied := ApplyRows(rows, f).value;
    ApplyRowsSound(rows, f);
    DropNAMapIff(applied, g);
    assert forall i :: 0 <= i < |rows| ==> applied[i] == f(rows[i]).value;
  }

  /** A row-by-row apply that has produced `done` and whose remaining rows
      give `rest`: the first error raised, or every row. */
  function Prepend(done: seq<Row>, rest: Result<seq<Row>>): (r: Result<seq<Row>>)
    ensures rest.Raised? ==> r == rest
    ensures rest.Ok? ==> r == Ok(done + rest.value)
  {
    if rest.Raised? then rest else Ok(done + rest.value)
  }

  /** DataFrame.apply(f, axis=1) for a row function that can raise: every
      row rewritten, or the error of the first row that raises. */
  function ApplyRows(rows: seq<Row>, f: Row --> Result<Row>): (r: Result<seq<Row>>)
    requires forall i :: 0 <= i < |rows| ==> f.requires(rows[i])
    ensures r.Ok? ==> |r.value| == |rows|
  {
    if rows == [] then Ok([])
    else
      match f(rows[0])
      case Raised(e) => Raised(e)
      case Ok(x) =>
        match ApplyRows(rows[1..], f)
        case Raised(e) => Raised(e)
        case Ok(rest) => Ok([x] + rest)
  }

  /** The apply from row `i` on, one row at a time. */
  lemma ApplyRowsAt(rows: seq<Row>, f: Row --> Result<Row>, i: nat)
    requires i < |rows| && forall k :: 0 <= k < |rows| ==> f.requires(rows[k])
    ensures ApplyRows(rows[i..], f) ==
      if f(rows[i]).Raised? then Raised(f(rows[i]).error)
      else Prepend([f(rows[i]).value], ApplyRows(rows[i + 1..], f))
  {
    assert rows[i..][0] == rows[i] && rows[i..][1..] == rows[i + 1..];
  }

  /** No row raises before `i`. */
  predicate NoneRaisedBefore(rows: seq<Row>, f: Row --> Result<Row>, i: nat)
    requires i <= |rows| && forall k :: 0 <= k < |rows| ==> f.requires(rows[k])
  {
    forall k :: 0 <= k < i ==> f(rows[k]).Ok?
  }

  /** The apply succeeds exactly when no row raises, and then rewrites every
      row by f; when it raises, the error is that of the first row that
      raises. */
  lemma {:induction false} ApplyRowsSound(rows: seq<Row>, f: Row --> Result<Row>)
    requires forall i :: 0 <= i < |rows| ==> f.requires(rows[i])
    ensures ApplyRows(rows, f).Ok? ==> forall i :: 0 <= i < |rows| ==> f(rows[i]).Ok? && ApplyRows(rows, f).value[i] == f(rows[i]).value
    ensures ApplyRows(rows, f).Raised? <==> exists i :: 0 <= i < |rows| && f(rows[i]).Raised?
    ensures ApplyRows(rows, f).Raised? ==>
      exists i :: 0 <= i < |rows| && NoneRaisedBefore(rows, f, i) && f(rows[i]) == Raised(ApplyRows(rows, f).error)
  {
    if rows != [] {
      var tail := rows[1..];
      ApplyRowsSound(tail, f);
      assert forall i :: 1 <= i < |rows| ==> tail[i - 1] == rows[i];
      if f(rows[0]).Raised? {
        assert NoneRaisedBefore(rows, f, 0);
      } else if ApplyRows(tail, f).Raised? {
        var j :| 0 <= j < |tail| && NoneRaisedBefore(tail, f, j) && f(tail[j]) == Raised(ApplyRows(tail, f).error);
        assert NoneRaisedBefore(rows, f, j + 1) by {
          forall k | 0 <= k < j + 1 ensures f(rows[k]).Ok? {
            if k > 0 {
              assert f(tail[k - 1]).Ok?;
            }
          }
        }
      } else {
        forall i | 0 <= i < |rows| ensures !f(rows[i]).Raised? {
          if i > 0 {
            assert !f(tail[i - 1]).Raised?;
          }
        }
      }
    }
  }

  /** pd.to_numeric(cell, errors="coerce"): a number, or missing where the
      cell does not convert (a missing cell included). */
  function ToNumeric(lib: Library, v: Value): (r: Value)
    ensures r == Missing || r.Number?
    ensures v == Missing ==> r == Missing
  {
    if v == Missing then Missing
    else
      match lib.toNumber(v)
      case None => Missing
      case Some(x) => Number(x)
  }
}
