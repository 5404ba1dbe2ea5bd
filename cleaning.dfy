/** The DataCleaning class as the program runs it: a DataFrame is a mutable
    object whose rows the cleaning steps rewrite in place or copy, and each
    clean_* method is the sequence of frame operations it performs. Every
    method is proved to compute the corresponding function of Pipelines. */
module Cleaning {
  import opened Values
  import opened Table
  import opened UuidCheck
  import opened Email
  import opened Cards
  import opened Currency
  import opened Dates
  import opened Pipelines

  /** pandas.DataFrame: its rows, each mapping a column name to a cell. */
  class Frame {
    var rows: seq<Row>

    constructor (rows: seq<Row>)
      ensures this.rows == rows
    {
      this.rows := rows;
    }

    /** A whole-frame rewrite, row by row, in place. */
    method Map(f: Row -> Row)
      modifies this
      ensures |rows| == |old(rows)|
      ensures forall k :: 0 <= k < |rows| ==> rows[k] == f(old(rows)[k])
    {
      var i := 0;
      while i < |rows|
        invariant 0 <= i <= |rows| == |old(rows)|
        invariant forall k :: 0 <= k < i ==> rows[k] == f(old(rows)[k])
        invariant forall k :: i <= k < |rows| ==> rows[k] == old(rows)[k]
      {
        rows := rows[i := f(rows[i])];
        i := i + 1;
      }
    }

    /** df[column] = df[column].apply(f), and the df.loc[~mask, column] = NA
        rewrites, which the model states as a function of the cell. */
    method Apply(column: string, f: Value -> Value)
      modifies this
      ensures |rows| == |old(rows)|
      ensures forall k :: 0 <= k < |rows| ==> rows[k] == SetCell(old(rows)[k], column, f)
    {
      Map(r => SetCell(r, column, f));
    }

    /** df[column]: the column's cells, top to bottom. */
    method Column(column: string) returns (cells: seq<Value>)
      requires forall k :: 0 <= k < |rows| ==> column in rows[k]
      ensures |cells| == |rows|
      ensures forall k :: 0 <= k < |rows| ==> cells[k] == rows[k][column]
    {
      cells := [];
      var i := 0;
      while i < |rows|
        invariant 0 <= i <= |rows| && |cells| == i
        invariant forall k :: 0 <= k < i ==> cells[k] == rows[k][column]
      {
        cells := cells + [rows[i][column]];
        i := i + 1;
      }
    }

    /** df[column] = cells: the column is overwritten, or added. */
    method SetColumn(column: string, cells: seq<Value>)
      requires |cells| == |rows|
      modifies this
      ensures |rows| == |old(rows)|
      ensures forall k :: 0 <= k < |rows| ==> rows[k] == old(rows)[k][column := cells[k]]
    {
      var i := 0;
      while i < |rows|
        invariant 0 <= i <= |rows| == |old(rows)|
        invariant forall k :: 0 <= k < i ==> rows[k] == old(rows)[k][column := cells[k]]
        invariant forall k :: i <= k < |rows| ==> rows[k] == old(rows)[k]
      {
        rows := rows[i := rows[i][column := cells[i]]];
        i := i + 1;
      }
    }

    /** df.loc[~mask] = pd.NA: every cell of a row outside the mask becomes
        missing. */
    method MaskRows(keep: Row -> bool)
      modifies this
      ensures |rows| == |old(rows)|
      ensures forall k :: 0 <= k < |rows| ==>
        rows[k] == if keep(old(rows)[k]) then old(rows)[k] else Blank(old(rows)[k])
    {
      Map(r => if keep(r) then r else Blank(r));
    }

    /** A new frame whose rows are this frame's rows rewritten by f. */
    method Copied(f: Row -> Row) returns (out: Frame)
      ensures fresh(out)
      ensures |out.rows| == |rows|
      ensures forall k :: 0 <= k < |rows| ==> out.rows[k] == f(rows[k])
    {
      out := new Frame(rows);
      out.Map(f);
    }

    /** df.drop(columns=...), a copy. */
    method Drop(columns: set<string>) returns (out: Frame)
      ensures fresh(out)
      ensures |out.rows| == |rows|
      ensures forall k :: 0 <= k < |rows| ==> out.rows[k] == rows[k] - columns
    {
      out := Copied((r: Row) => r - columns);
    }

    /** df.astype({column: "string", ...}), a copy. */
    method AsType(lib: Library, columns: set<string>) returns (out: Frame)
      ensures fresh(out)
      ensures |out.rows| == |rows|
      ensures forall k :: 0 <= k < |rows| ==> out.rows[k] == AsStrings(lib, rows[k], columns)
    {
      out := Copied(r => AsStrings(lib, r, columns));
    }

    /** df.replace(from, to), a copy. */
    method Replace(from: Value, to: Value) returns (out: Frame)
      ensures fresh(out)
      ensures |out.rows| == |rows|
      ensures forall k :: 0 <= k < |rows| ==> out.rows[k] == ReplaceCells(rows[k], from, to)
    {
      out := Copied(r => ReplaceCells(r, from, to));
    }

    /** df[mask], a copy holding the rows the mask keeps, in order. */
    method Where(keep: Row -> bool) returns (out: Frame)
      ensures fresh(out)
      ensures out.rows == Filter(rows, keep)
    {
      var kept: seq<Row> := [];
      var i := 0;
      while i < |rows|
        invariant 0 <= i <= |rows|
        invariant kept == Filter(rows[..i], keep)
      {
        assert rows[..i + 1] == rows[..i] + [rows[i]];
        FilterAppend(rows[..i], [rows[i]], keep);
        assert [rows[i]][1..] == [];
        if keep(rows[i]) {
          kept := kept + [rows[i]];
        }
        i := i + 1;
      }
      assert rows[..i] == rows;
      out := new Frame(kept);
    }

    /** df.dropna(how="any", axis="index"), a copy. */
    method DropNA() returns (out: Frame)
      ensures fresh(out)
      ensures out.rows == Table.DropNA(rows)
    {
      var kept: seq<Row> := [];
      var i := 0;
      while i < |rows|
        invariant 0 <= i <= |rows|
        invariant kept == Table.DropNA(rows[..i])
      {
        assert rows[..i + 1] == rows[..i] + [rows[i]];
        DropNAKeepsOrder(rows[..i], [rows[i]], rows[i]);
        if Complete(rows[i]) {
          kept := kept + [rows[i]];
        }
        i := i + 1;
      }
      assert rows[..i] == rows;
      out := new Frame(kept);
    }
  }

  /** Series.apply(f) on a column's cells. */
  method MapCells(cells: seq<Value>, f: Value -> Value) returns (out: seq<Value>)
    ensures |out| == |cells|
    ensures forall k :: 0 <= k < |cells| ==> out[k] == f(cells[k])
  {
    out := [];
    var i := 0;
    while i < |cells|
      invariant 0 <= i <= |cells| && |out| == i
      invariant forall k :: 0 <= k < i ==> out[k] == f(cells[k])
    {
      out := out + [f(cells[i])];
      i := i + 1;
    }
  }

  /** df.loc[mask, col] = f(df.loc[mask, col]) with mask = other.isna(): f
      rewrites exactly the cells whose partner in `other` is missing. */
  method FillMissing(cells: seq<Value>, other: seq<Value>, f: Value -> Value) returns (out: seq<Value>)
    requires |other| == |cells|
    ensures |out| == |cells|
    ensures forall k :: 0 <= k < |cells| ==> out[k] == if other[k] == Missing then f(cells[k]) else cells[k]
  {
    out := cells;
    var i := 0;
    while i < |out|
      invariant 0 <= i <= |out| == |cells|
      invariant forall k :: 0 <= k < i ==> out[k] == if other[k] == Missing then f(cells[k]) else cells[k]
      invariant forall k :: i <= k < |out| ==> out[k] == cells[k]
    {
      if other[i] == Missing {
        out := out[i := f(out[i])];
      }
      i := i + 1;
    }
  }

  /** Series.combine_first(other): each cell keeps its own value unless
      missing, where it takes the partner's. */
  method CombineCells(own: seq<Value>, other: seq<Value>) returns (out: seq<Value>)
    requires |other| == |own|
    ensures |out| == |own|
    ensures forall k :: 0 <= k < |own| ==> out[k] == CombineFirst(own[k], other[k])
  {
    out := own;
    var i := 0;
    while i < |out|
      invariant 0 <= i <= |out| == |own|
      invariant forall k :: 0 <= k < i ==> out[k] == CombineFirst(own[k], other[k])
      invariant forall k :: i <= k < |out| ==> out[k] == own[k]
    {
      out := out[i := CombineFirst(own[i], other[i])];
      i := i + 1;
    }
  }

  /** DataFrame.apply(f, axis=1), row by row: the first row that raises
      stops the apply. */
  method ApplyAll(rows: seq<Row>, f: Row --> Result<Row>) returns (r: Result<seq<Row>>)
    requires forall k :: 0 <= k < |rows| ==> f.requires(rows[k])
    ensures r == ApplyRows(rows, f)
  {
    var done: seq<Row> := [];
    var i := 0;
    assert rows[0..] == rows;
    assert forall t: seq<Row> :: [] + t == t;
    while i < |rows|
      invariant 0 <= i <= |rows|
      invariant ApplyRows(rows, f) == Prepend(done, ApplyRows(rows[i..], f))
    {
      ApplyRowsAt(rows, f, i);
      var x := f(rows[i]);
      if x.Raised? {
        return Raised(x.error);
      }
      ghost var rest := ApplyRows(rows[i + 1..], f);
      assert rest.Ok? ==> (done + [x.value]) + rest.value == done + ([x.value] + rest.value);
      done := done + [x.value];
      i := i + 1;
    }
    assert rows[i..] == [];
    assert done + [] == done;
    return Ok(done);
  }

  class DataCleaning {
    /** The parsers the cleaner calls, which are not part of the model. */
    const lib: Library
    const dateFormat: string := DateFormat
    const dateFormatAlt: string := DateFormatAlt
    const expiryDateFormat: string := ExpiryDateFormat

    constructor (lib: Library)
      ensures this.lib == lib
    {
      this.lib := lib;
    }

    /** parse_multiple_date_formats, pass by pass, on the caller's frame. */
    method ParseMultipleDateFormats(df: Frame, column: string)
      requires forall k :: 0 <= k < |df.rows| ==> column in df.rows[k]
      modifies df
      ensures |df.rows| == |old(df.rows)|
      ensures forall k :: 0 <= k < |df.rows| ==> df.rows[k] == ParseDateColumn(lib, old(df.rows)[k], column)
    {
      // First pass
      df.Apply(column, v => TryParseDate(lib, v));
      // Second pass
      var cells := df.Column(column);
      var parsed := MapCells(cells, v => ToDatetime(lib, dateFormat, v));
      // Third pass: the cells the second pass could not parse
      var third := FillMissing(cells, parsed, v => ToDatetime(lib, dateFormatAlt, v));
      df.SetColumn(column, third);
      // Combine results
      var own := df.Column(column);
      var combined := CombineCells(own, parsed);
      df.SetColumn(column, combined);
    }

    /** clean_user_data: the caller's frame is left as it was. */
    method CleanUserData(df: Frame) returns (cleaned: Frame)
      requires forall k :: 0 <= k < |df.rows| ==> "date_of_birth" in df.rows[k] && "join_date" in df.rows[k]
      ensures fresh(cleaned)
      ensures cleaned.rows == CleanUsers(lib, df.rows)
    {
      cleaned := df.AsType(lib, UserStringColumns);
      ParseMultipleDateFormats(cleaned, "date_of_birth");
      ParseMultipleDateFormats(cleaned, "join_date");
      cleaned.Apply("user_uuid", ValidateUuid);
      cleaned := cleaned.Replace(Text("NULL"), Missing);
      cleaned.Apply("country_code", FixCountryCode);
      cleaned.Apply("email_address", CollapseEmail);
      cleaned.Apply("email_address", ValidateEmail);
      cleaned := cleaned.Replace(Text("NULL"), Missing);
      assert cleaned.rows == MapRows(df.rows, r => UserRow(lib, r));
      cleaned := cleaned.DropNA();
    }

    /** clean_orders_data: the caller's frame is left as it was. */
    method CleanOrdersData(df: Frame) returns (cleaned: Frame)
      ensures fresh(cleaned)
      ensures cleaned.rows == CleanOrders(lib, df.rows)
    {
      cleaned := df.Drop(OrderDroppedColumns);
      cleaned := cleaned.AsType(lib, OrderStringColumns);
    }

    /** clean_card_data. The extraction writes card_number and expiry_date
        back into the caller's frame; when a row raises, or the frame has no
        rows, nothing is written. */
    method CleanCardData(df: Frame) returns (result: Result<Frame>)
      requires forall k :: 0 <= k < |df.rows| ==>
        CardInputColumns <= df.rows[k].Keys && "date_payment_confirmed" in df.rows[k]
      modifies df
      ensures result.Raised? ==> CleanCards(lib, old(df.rows)) == Raised(result.error) && df.rows == old(df.rows)
      ensures result.Ok? ==> fresh(result.value) && CleanCards(lib, old(df.rows)) == Ok(result.value.rows)
      ensures result.Ok? ==> df.rows == ExtractRows(old(df.rows)).value
    {
      var extracted := ApplyAll(df.rows, ExtractRow);
      if |df.rows| == 0 {
        return Raised(ValueError);
      }
      if extracted.Raised? {
        return Raised(extracted.error);
      }
      ApplyRowsSound(df.rows, ExtractRow);
      df.rows := extracted.value;
      var cleaned := CleanCardColumns(df);
      result := Ok(cleaned);
    }

    /** clean_card_data after the extraction: the drop, the type conversions
        and the dropna, on a copy. */
    method CleanCardColumns(df: Frame) returns (cleaned: Frame)
      requires forall k :: 0 <= k < |df.rows| ==> "date_payment_confirmed" in df.rows[k]
      ensures fresh(cleaned)
      ensures cleaned.rows == DropNA(MapRows(df.rows, r => CardRow(lib, r)))
    {
      cleaned := df.Drop({"card_number expiry_date", "Unnamed: 0"});
      cleaned.Map(r => AsStrings(lib, r, {"card_number"}));
      cleaned := cleaned.Replace(Text("NULL"), Missing);
      cleaned.Apply("card_number", DigitsOnly);
      cleaned.Map(r => AsStrings(lib, r, {"card_provider"}));
      cleaned.Map(r => DatetimeColumn(lib, r, "expiry_date", expiryDateFormat));
      ParseMultipleDateFormats(cleaned, "date_payment_confirmed");
      assert cleaned.rows == MapRows(df.rows, r => CardRow(lib, r));
      cleaned := cleaned.DropNA();
    }

    /** clean_store_data: the caller's frame is left as it was. */
    method CleanStoreData(df: Frame) returns (cleaned: Frame)
      requires forall k :: 0 <= k < |df.rows| ==> "opening_date" in df.rows[k]
      ensures fresh(cleaned)
      ensures cleaned.rows == CleanStores(lib, df.rows)
    {
      cleaned := CleanStoreColumns(df);
      cleaned := cleaned.Where(KnownCountry);
      ghost var known := cleaned.rows;
      cleaned.Apply("continent", FixContinent);
      assert cleaned.rows == MapRows(known, r => SetCell(r, "continent", FixContinent));
      cleaned := cleaned.Where(KeepStore);
    }

    /** clean_store_data up to its first row filter: the conversions. */
    method CleanStoreColumns(df: Frame) returns (cleaned: Frame)
      requires forall k :: 0 <= k < |df.rows| ==> "opening_date" in df.rows[k]
      ensures fresh(cleaned)
      ensures cleaned.rows == MapRows(df.rows, r => StoreRow(lib, r))
    {
      cleaned := df.Replace(Text("N/A"), Missing);
      cleaned := cleaned.Drop({"lat"});
      cleaned := cleaned.AsType(lib, StoreStringColumns);
      cleaned.Apply("staff_numbers", DigitsOnly);
      cleaned.Map(r => NumericColumn(lib, r, "staff_numbers"));
      cleaned.Map(r => NumericColumn(lib, r, "longitude"));
      cleaned.Map(r => NumericColumn(lib, r, "latitude"));
      ParseMultipleDateFormats(cleaned, "opening_date");
    }

    /** clean_products_data: the caller's frame is left as it was. */
    method CleanProductsData(df: Frame) returns (result: Result<Frame>)
      requires forall k :: 0 <= k < |df.rows| ==> "weight" in df.rows[k] && "date_added" in df.rows[k]
      ensures result.Raised? ==> CleanProducts(lib, df.rows) == Raised(result.error)
      ensures result.Ok? ==> fresh(result.value) && CleanProducts(lib, df.rows) == Ok(result.value.rows)
    {
      var cleaned := df.Drop({"Unnamed: 0"});
      ghost var dropped := cleaned.rows;
      assert dropped == MapRows(df.rows, (r: Row) => r - {"Unnamed: 0"});
      // weight.apply(convert_product_weights), then to_numeric
      var weighed := ApplyAll(cleaned.rows, WeighRow);
      if weighed.Raised? {
        return Raised(weighed.error);
      }
      ApplyRowsSound(cleaned.rows, WeighRow);
      cleaned.rows := weighed.value;
      cleaned := CleanProductColumns(cleaned);
      result := Ok(cleaned);
    }

    /** clean_products_data after the weights: the removed check, the
        conversions and the dropna. */
    method CleanProductColumns(df: Frame) returns (cleaned: Frame)
      requires forall k :: 0 <= k < |df.rows| ==> "date_added" in df.rows[k]
      modifies df
      ensures fresh(cleaned)
      ensures df.rows == MapRows(old(df.rows), ProductCells)
      ensures cleaned.rows == DropNA(MapRows(old(df.rows), r => ProductRow(lib, r)))
    {
      ghost var given := df.rows;
      df.MaskRows(ValidRemoved);
      ghost var masked := df.rows;
      df.Apply("removed", RemovedFlag);
      ghost var flagged := df.rows;
      df.Apply("uuid", ValidateUuid);
      ghost var checked := df.rows;
      df.Apply("product_price", ExtractPrice);
      assert df.rows == MapRows(given, ProductCells) by {
        forall k | 0 <= k < |given|
          ensures df.rows[k] == ProductCells(given[k])
        {
          assert masked[k] == if ValidRemoved(given[k]) then given[k] else Blank(given[k]);
          assert flagged[k] == SetCell(masked[k], "removed", RemovedFlag);
          assert checked[k] == SetCell(flagged[k], "uuid", ValidateUuid);
        }
      }
      cleaned := df.AsType(lib, ProductStringColumns);
      cleaned.Map(r => NumericColumn(lib, r, "EAN"));
      ParseMultipleDateFormats(cleaned, "date_added");
      assert cleaned.rows == MapRows(old(df.rows), r => ProductRow(lib, r));
      cleaned := cleaned.DropNA();
    }

    /** clean_date_details_data. The time-period mask, and when no row
        raises the datetime_str and datetime columns, are written into the
        caller's frame. */
    method CleanDateDetailsData(df: Frame) returns (result: Result<Frame>)
      requires forall k :: 0 <= k < |df.rows| ==> DateDetailColumns <= df.rows[k].Keys
      modifies df
      ensures result.Raised? ==> CleanDateDetails(lib, old(df.rows)) == Raised(result.error)
      ensures result.Raised? ==> df.rows == CheckTimePeriods(old(df.rows))
      ensures result.Ok? ==> fresh(result.value) && CleanDateDetails(lib, old(df.rows)) == Ok(result.value.rows)
      ensures result.Ok? ==> df.rows == AddDatetimes(lib, CheckTimePeriods(old(df.rows))).value
    {
      df.MaskRows(ValidTimePeriod);
      ghost var checked := df.rows;
      assert checked == CheckTimePeriods(old(df.rows));
      // day + "-" + month + "-" + year + " " + timestamp, and its parse
      var added := ApplyAll(df.rows, AddDatetimeWith(lib));
      if added.Raised? {
        return Raised(added.error);
      }
      df.rows := added.value;
      var cleaned := df.Drop(DateDetailDroppedColumns);
      cleaned.Apply("date_uuid", ValidateUuid);
      cleaned := cleaned.AsType(lib, {"time_period", "date_uuid"});
      assert cleaned.rows == MapRows(added.value, r => DateDetailRow(lib, r));
      cleaned := cleaned.DropNA();
      result := Ok(cleaned);
    }
  }
}
