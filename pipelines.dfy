/** The six clean_* pipelines as functions on a frame's rows: what each
    pipeline's output is, row by row, and what every surviving row is
    guaranteed to hold. The step-by-step methods in Cleaning are proved to
    compute these. */
module Pipelines {
  import opened Values
  import opened Text
  import opened Table
  import opened UuidCheck
  import opened Email
  import opened Weights
  import opened Currency
  import opened Cards
  import opened Dates

  /** DataFrame.replace("NULL", pd.NA) on one row. */
  function NullToNA(r: Row): (r': Row)
    ensures r'.Keys == r.Keys
    ensures forall c :: c in r' ==> r'[c] != Text("NULL")
  {
    ReplaceCells(r, Text("NULL"), Missing)
  }

  /** parse_multiple_date_formats on one row of the frame. */
  function ParseDateColumn(lib: Library, r: Row, column: string): (r': Row)
    ensures r'.Keys == r.Keys
    ensures forall c :: c in r' ==> r'[c] == if c == column then DatePasses(lib, r[c]) else r[c]
  {
    SetCell(r, column, v => DatePasses(lib, v))
  }

  /** df[column] = pd.to_numeric(df[column], errors="coerce") on one row. */
  function NumericColumn(lib: Library, r: Row, column: string): (r': Row)
    ensures r'.Keys == r.Keys
    ensures forall c :: c in r' ==> r'[c] == if c == column then ToNumeric(lib, r[c]) else r[c]
  {
    SetCell(r, column, v => ToNumeric(lib, v))
  }

  /** df[column] = pd.to_datetime(df[column], format=fmt, errors="coerce") on one row. */
  function DatetimeColumn(lib: Library, r: Row, column: string, fmt: string): (r': Row)
    ensures r'.Keys == r.Keys
    ensures forall c :: c in r' ==> r'[c] == if c == column then ToDatetime(lib, fmt, r[c]) else r[c]
  {
    SetCell(r, column, v => ToDatetime(lib, fmt, v))
  }

  // ---------------------------------------------------------------- users

  const UserStringColumns: set<string> :=
    {"first_name", "last_name", "company", "email_address", "address", "country_code", "country", "user_uuid"}
  const UserColumns: set<string> := UserStringColumns + {"date_of_birth", "join_date"}

  /** country_code.replace("GGB", "GB"). */
  function FixCountryCode(v: Value): (r: Value)
    ensures r != Text("GGB")
    ensures v == Text("GGB") ==> r == Text("GB")
    ensures v != Text("GGB") ==> r == v
  {
    if v == Text("GGB") then Text("GB") else v
  }

  /** clean_user_data up to its dropna, on one row, step by step. */
  function UserRow(lib: Library, r: Row): (r': Row)
    ensures r'.Keys == r.Keys
    ensures forall c :: c in r' ==> r'[c] != Text("NULL")
  {
    var typed := AsStrings(lib, r, UserStringColumns);
    var born := ParseDateColumn(lib, typed, "date_of_birth");
    var joined := ParseDateColumn(lib, born, "join_date");
    var uuids := SetCell(joined, "user_uuid", ValidateUuid);
    var nulls := NullToNA(uuids);
    var codes := SetCell(nulls, "country_code", FixCountryCode);
    var collapsed := SetCell(codes, "email_address", CollapseEmail);
    var emails := SetCell(collapsed, "email_address", ValidateEmail);
    NullToNA(emails)
  }

  function CleanUsers(lib: Library, rows: seq<Row>): (out: seq<Row>)
    ensures |out| <= |rows|
    ensures forall i :: 0 <= i < |out| ==> Complete(out[i])
    ensures forall i, c :: 0 <= i < |out| && c in out[i] ==> out[i][c] != Text("NULL")
  {
    DropNA(MapRows(rows, r => UserRow(lib, r)))
  }

  /** What a cleaned user row holds. */
  ghost predicate CleanUser(r: Row)
  {
    && Complete(r)
    && (forall c :: c in r ==> r[c] != Text("NULL"))
    && (UserColumns <= r.Keys ==>
        && r["user_uuid"].Text? && MatchesUuid(r["user_uuid"].text)
        && r["email_address"].Text? && EmailShape(r["email_address"].text)
        && NoDoubleAt(r["email_address"].text)
        && r["date_of_birth"].Stamp? && r["join_date"].Stamp?
        && r["country_code"].Text? && r["country_code"] != Text("GGB"))
  }

  lemma UserRowClean(lib: Library, r: Row)
    requires Complete(UserRow(lib, r))
    ensures CleanUser(UserRow(lib, r))
  {
    if UserColumns <= r.Keys {
      UserRowUuidEmail(lib, r);
      UserRowDates(lib, r);
      UserRowCountry(lib, r);
    }
  }

  lemma UserRowUuidEmail(lib: Library, r: Row)
    requires UserColumns <= r.Keys && Complete(UserRow(lib, r))
    ensures var out := UserRow(lib, r);
      && out["user_uuid"].Text? && MatchesUuid(out["user_uuid"].text)
      && out["email_address"].Text? && EmailShape(out["email_address"].text)
      && NoDoubleAt(out["email_address"].text)
  {
  }

  lemma UserRowDates(lib: Library, r: Row)
    requires UserColumns <= r.Keys && Complete(UserRow(lib, r))
    ensures UserRow(lib, r)["date_of_birth"].Stamp? && UserRow(lib, r)["join_date"].Stamp?
  {
    var typed := AsStrings(lib, r, UserStringColumns);
    var born := ParseDateColumn(lib, typed, "date_of_birth");
    var joined := ParseDateColumn(lib, born, "join_date");
    assert joined["date_of_birth"] == DatePasses(lib, typed["date_of_birth"]);
    assert joined["join_date"] == DatePasses(lib, typed["join_date"]);
    DatePassesArePassOne(lib, typed["date_of_birth"]);
    DatePassesArePassOne(lib, typed["join_date"]);
    UserRowKeepsParsed(lib, r, "date_of_birth");
    UserRowKeepsParsed(lib, r, "join_date");
  }

  lemma UserRowCountry(lib: Library, r: Row)
    requires UserColumns <= r.Keys && Complete(UserRow(lib, r))
    ensures UserRow(lib, r)["country_code"].Text? && UserRow(lib, r)["country_code"] != Text("GGB")
  {
    var typed := AsStrings(lib, r, UserStringColumns);
    var born := ParseDateColumn(lib, typed, "date_of_birth");
    var joined := ParseDateColumn(lib, born, "join_date");
    var uuids := SetCell(joined, "user_uuid", ValidateUuid);
    var nulls := NullToNA(uuids);
    var codes := SetCell(nulls, "country_code", FixCountryCode);
    var v := typed["country_code"];
    assert v.Text? || v == Missing;
    assert uuids["country_code"] == v;
    assert codes["country_code"] == FixCountryCode(nulls["country_code"]);
  }

  /** The users pipeline keeps exactly the rows whose
      cleaned form is complete, and every row it keeps is clean. */
  lemma {:induction false} CleanUsersSound(lib: Library, rows: seq<Row>)
    ensures forall r: Row :: r in CleanUsers(lib, rows) <==>
      exists i :: 0 <= i < |rows| && r == UserRow(lib, rows[i]) && Complete(r)
    ensures forall r: Row :: r in CleanUsers(lib, rows) ==> CleanUser(r)
  {
    forall r: Row | r in CleanUsers(lib, rows) ensures CleanUser(r) {
      DropNAMapSource(rows, x => UserRow(lib, x), r);
      var i :| 0 <= i < |rows| && r == UserRow(lib, rows[i]) && Complete(r);
      UserRowClean(lib, rows[i]);
    }
  }

  /** A complete cleaned user row holds a datetime of birth. */
  lemma UserRowBirthIsStamp(lib: Library, x: Row)
    requires "date_of_birth" in x && Complete(UserRow(lib, x))
    ensures "date_of_birth" in UserRow(lib, x) && UserRow(lib, x)["date_of_birth"].Stamp?
  {
    var typed := AsStrings(lib, x, UserStringColumns);
    var born := ParseDateColumn(lib, typed, "date_of_birth");
    assert ParseDateColumn(lib, born, "join_date")["date_of_birth"] == DatePasses(lib, typed["date_of_birth"]);
    DatePassesArePassOne(lib, typed["date_of_birth"]);
    UserRowKeepsParsed(lib, x, "date_of_birth");
  }

  /** A row whose birth date is already a datetime loses it on a second run. */
  lemma SecondRunDropsRow(lib: Library, r: Row)
    requires "date_of_birth" in r && r["date_of_birth"].Stamp?
    ensures !Complete(UserRow(lib, r))
  {
    var typed := AsStrings(lib, r, UserStringColumns);
    assert typed["date_of_birth"] == r["date_of_birth"];
    var born := ParseDateColumn(lib, typed, "date_of_birth");
    assert born["date_of_birth"] == Missing by {
      DatePassesArePassOne(lib, r["date_of_birth"]);
    }
    assert ParseDateColumn(lib, born, "join_date")["date_of_birth"] == Missing;
    UserRowKeepsParsed(lib, r, "date_of_birth");
  }

  /** A cell that is missing or a datetime once both date columns are
      parsed keeps that value, unless a later step rewrites its column. */
  lemma UserRowKeepsParsed(lib: Library, r: Row, c: string)
    requires c in r && c != "user_uuid" && c != "country_code" && c != "email_address"
    requires var v := ParseDateColumn(lib, ParseDateColumn(lib, AsStrings(lib, r, UserStringColumns), "date_of_birth"), "join_date")[c];
      v == Missing || v.Stamp?
    ensures UserRow(lib, r)[c] ==
      ParseDateColumn(lib, ParseDateColumn(lib, AsStrings(lib, r, UserStringColumns), "date_of_birth"), "join_date")[c]
  {
  }

  /** clean_user_data is not idempotent: its date columns hold datetimes,
      which try_parse_date turns into missing values on a second run, so a
      second run keeps no row. */
  lemma CleanUsersTwiceIsEmpty(lib: Library, rows: seq<Row>)
    requires forall i :: 0 <= i < |rows| ==> "date_of_birth" in rows[i]
    ensures CleanUsers(lib, CleanUsers(lib, rows)) == []
  {
    var once: seq<Row> := CleanUsers(lib, rows);
    CleanedBirthsAreStamps(lib, rows);
    SecondRunIncomplete(lib, once);
    var again: seq<Row> := MapRows(once, r => UserRow(lib, r));
    assert forall j :: 0 <= j < |again| ==> !Complete(again[j]);
    DropNAOfIncomplete(again);
  }

  /** Every row the users pipeline keeps holds a datetime of birth. */
  lemma CleanedBirthsAreStamps(lib: Library, rows: seq<Row>)
    requires forall i :: 0 <= i < |rows| ==> "date_of_birth" in rows[i]
    ensures var once := CleanUsers(lib, rows);
      forall j :: 0 <= j < |once| ==> "date_of_birth" in once[j] && once[j]["date_of_birth"].Stamp?
  {
    var once: seq<Row> := CleanUsers(lib, rows);
    forall j | 0 <= j < |once|
      ensures "date_of_birth" in once[j] && once[j]["date_of_birth"].Stamp?
    {
      DropNAMapSource(rows, r => UserRow(lib, r), once[j]);
      var i :| 0 <= i < |rows| && once[j] == UserRow(lib, rows[i]) && Complete(once[j]);
      UserRowBirthIsStamp(lib, rows[i]);
    }
  }

  /** Rows holding a datetime of birth all lose it in the users pipeline. */
  lemma SecondRunIncomplete(lib: Library, once: seq<Row>)
    requires forall j :: 0 <= j < |once| ==> "date_of_birth" in once[j] && once[j]["date_of_birth"].Stamp?
    ensures forall j :: 0 <= j < |once| ==> !Complete(UserRow(lib, once[j]))
  {
    forall j | 0 <= j < |once| ensures !Complete(UserRow(lib, once[j])) {
      SecondRunDropsRow(lib, once[j]);
    }
  }

  // ---------------------------------------------------------------- cards

  const CardInputColumns: set<string> := {"card_number", "expiry_date", "card_number expiry_date"}

  /** extract_from_combined_card_data on one row, with the pair written back
      into card_number and expiry_date. */
  function ExtractRow(r: Row): (e: Result<Row>)
    requires CardInputColumns <= r.Keys
    ensures e.Raised? <==> CardSplitFails(r)
    ensures e.Ok? ==> e.value.Keys == r.Keys
    ensures e.Ok? ==> forall c :: c in r && c != "card_number" && c != "expiry_date" ==> e.value[c] == r[c]
  {
    match ExtractFromCombined(r["card_number"], r["expiry_date"], r["card_number expiry_date"])
    case Raised(err) => Raised(err)
    case Ok(pair) => Ok(r["card_number" := pair.0]["expiry_date" := pair.1])
  }

  /** dataframe[["card_number", "expiry_date"]] = dataframe.apply(extract...):
      the first row that raises makes the whole apply raise. A frame with no
      rows makes pandas try the function on one all-NaN row, which raises
      AttributeError inside pandas; apply then returns the frame itself, and
      its three or more columns cannot be assigned to the two keys. */
  function ExtractRows(rows: seq<Row>): (e: Result<seq<Row>>)
    requires forall i :: 0 <= i < |rows| ==> CardInputColumns <= rows[i].Keys
    ensures rows == [] ==> e == Raised(ValueError)
    ensures e.Ok? ==> |e.value| == |rows| && forall i :: 0 <= i < |rows| ==> e.value[i].Keys == rows[i].Keys
  {
    if rows == [] then Raised(ValueError)
    else
      ApplyRowsSound(rows, ExtractRow);
      ApplyRows(rows, ExtractRow)
  }

  /** clean_card_data after the extraction and up to its dropna, on one row. */
  function CardRow(lib: Library, r: Row): (r': Row)
    ensures r'.Keys == r.Keys - {"card_number expiry_date", "Unnamed: 0"}
  {
    var dropped := r - {"card_number expiry_date", "Unnamed: 0"};
    var numbers := AsStrings(lib, dropped, {"card_number"});
    var nulls := NullToNA(numbers);
    var digits := SetCell(nulls, "card_number", DigitsOnly);
    var providers := AsStrings(lib, digits, {"card_provider"});
    var expiry := DatetimeColumn(lib, providers, "expiry_date", ExpiryDateFormat);
    ParseDateColumn(lib, expiry, "date_payment_confirmed")
  }

  function CleanCards(lib: Library, rows: seq<Row>): (e: Result<seq<Row>>)
    requires forall i :: 0 <= i < |rows| ==> CardInputColumns <= rows[i].Keys
    ensures rows == [] ==> e == Raised(ValueError)
    ensures e.Ok? ==> |e.value| <= |rows| && forall i :: 0 <= i < |e.value| ==> Complete(e.value[i])
  {
    match ExtractRows(rows)
    case Raised(e) => Raised(e)
    case Ok(extracted) => Ok(DropNA(MapRows(extracted, r => CardRow(lib, r))))
  }

  /** What a cleaned card row holds. */
  ghost predicate CleanCard(r: Row)
  {
    && Complete(r)
    && "card_number expiry_date" !in r && "Unnamed: 0" !in r
    && ("card_number" in r ==> r["card_number"].Text? && AllDigits(r["card_number"].text))
    && ("expiry_date" in r ==> r["expiry_date"].Stamp?)
    && ("date_payment_confirmed" in r ==> r["date_payment_confirmed"].Stamp?)
  }

  lemma CardRowClean(lib: Library, r: Row)
    requires Complete(CardRow(lib, r))
    ensures CleanCard(CardRow(lib, r))
  {
    var out := CardRow(lib, r);
    if "card_number" in out {
      var nulls := NullToNA(AsStrings(lib, r - {"card_number expiry_date", "Unnamed: 0"}, {"card_number"}));
      assert out["card_number"] == DigitsOnly(nulls["card_number"]);
    }
    if "date_payment_confirmed" in out {
      var before := NullToNA(AsStrings(lib, r - {"card_number expiry_date", "Unnamed: 0"}, {"card_number"}));
      DatePassesArePassOne(lib, before["date_payment_confirmed"]);
    }
  }

  /** A row with neither a card number nor an expiry date whose combined
      cell cannot be split at a space. */
  predicate CardSplitFails(r: Row)
    requires CardInputColumns <= r.Keys
  {
    r["card_number"] == Missing && r["expiry_date"] == Missing &&
    !(r["card_number expiry_date"].Text? && ' ' in r["card_number expiry_date"].text)
  }

  /** clean_card_data raises exactly when the frame has no rows or some row
      has neither a card number nor an expiry date and a combined cell
      without a space; otherwise it keeps exactly the complete cleaned rows,
      which are all clean. */
  lemma {:induction false} CleanCardsSound(lib: Library, rows: seq<Row>)
    requires forall i :: 0 <= i < |rows| ==> CardInputColumns <= rows[i].Keys
    ensures CleanCards(lib, rows).Raised? <==>
      |rows| == 0 || exists i :: 0 <= i < |rows| && CardSplitFails(rows[i])
    ensures |rows| == 0 ==> CleanCards(lib, rows) == Raised(ValueError)
    ensures CleanCards(lib, rows).Ok? ==> forall r: Row :: r in CleanCards(lib, rows).value <==>
      exists i :: 0 <= i < |rows| && ExtractRow(rows[i]).Ok? &&
        r == CardRow(lib, ExtractRow(rows[i]).value) && Complete(r)
    ensures CleanCards(lib, rows).Ok? ==> forall r: Row :: r in CleanCards(lib, rows).value ==> CleanCard(r)
  {
    if rows != [] {
      ApplyRowsSound(rows, ExtractRow);
      CardsKeptExactly(lib, rows);
      CardsKeptClean(lib, rows);
    }
  }

  lemma CardsKeptExactly(lib: Library, rows: seq<Row>)
    requires rows != [] && forall i :: 0 <= i < |rows| ==> CardInputColumns <= rows[i].Keys
    ensures CleanCards(lib, rows).Ok? ==> forall r: Row :: r in CleanCards(lib, rows).value <==>
      exists i :: 0 <= i < |rows| && ExtractRow(rows[i]).Ok? &&
        r == CardRow(lib, ExtractRow(rows[i]).value) && Complete(r)
  {
    if ExtractRows(rows).Ok? {
      ApplyDropNAIff(rows, ExtractRow, x => CardRow(lib, x));
    }
  }

  lemma CardsKeptClean(lib: Library, rows: seq<Row>)
    requires rows != [] && forall i :: 0 <= i < |rows| ==> CardInputColumns <= rows[i].Keys
    ensures CleanCards(lib, rows).Ok? ==> forall r: Row :: r in CleanCards(lib, rows).value ==> CleanCard(r)
  {
    match ExtractRows(rows)
    case Raised(_) =>
    case Ok(extracted) =>
      forall r: Row | r in DropNA(MapRows(extracted, x => CardRow(lib, x))) ensures CleanCard(r) {
        DropNAMapSource(extracted, x => CardRow(lib, x), r);
        var i :| 0 <= i < |extracted| && r == CardRow(lib, extracted[i]) && Complete(r);
        CardRowClean(lib, extracted[i]);
      }
  }

  // --------------------------------------------------------------- stores

  const StoreStringColumns: set<string> :=
    {"address", "locality", "store_code", "store_type", "country_code", "continent"}
  const StoreCountryCodes: set<string> := {"GB", "DE", "US"}

  /** str.replace("ee", ""): every "ee" deleted, scanning left to right
      without overlaps. */
  function RemoveEe(s: string): (t: string)
    ensures |t| <= |s|
    decreases |s|
  {
    if |s| >= 2 && s[0] == 'e' && s[1] == 'e' then RemoveEe(s[2..])
    else if s == [] then []
    else [s[0]] + RemoveEe(s[1..])
  }

  predicate NoDoubleE(s: string)
  {
    forall i :: 0 <= i < |s| - 1 ==> !(s[i] == 'e' && s[i + 1] == 'e')
  }

  /** After the deletion no "ee" is left. */
  lemma {:induction false} RemoveEeLeavesNone(s: string)
    ensures NoDoubleE(RemoveEe(s))
    decreases |s|
  {
    if |s| >= 2 && s[0] == 'e' && s[1] == 'e' {
      RemoveEeLeavesNone(s[2..]);
    } else if s != [] {
      RemoveEeLeavesNone(s[1..]);
      var t := RemoveEe(s[1..]);
      var out := [s[0]] + t;
      forall i | 0 <= i < |out| - 1 ensures !(out[i] == 'e' && out[i + 1] == 'e') {
        if i > 0 {
          assert out[i] == t[i - 1] && out[i + 1] == t[i];
        } else if s[0] == 'e' {
          assert s[1..][0] == s[1] && s[1] != 'e';
          assert t[0] == s[1];
        }
      }
    }
  }

  /** Text with no "ee" passes unchanged, so the deletion is idempotent. */
  lemma {:induction false} RemoveEeKeeps(s: string)
    requires NoDoubleE(s)
    ensures RemoveEe(s) == s
    decreases |s|
  {
    if s != [] {
      RemoveEeKeeps(s[1..]);
      assert [s[0]] + s[1..] == s;
    }
  }

  lemma RemoveEeIdempotent(s: string)
    ensures RemoveEe(RemoveEe(s)) == RemoveEe(s)
  {
    RemoveEeLeavesNone(s);
    RemoveEeKeeps(RemoveEe(s));
  }

  /** Only 'e's are deleted: every other character stays, in order. */
  lemma {:induction false} RemoveEeOnlyEs(s: string)
    ensures Keep(RemoveEe(s), c => c != 'e') == Keep(s, c => c != 'e')
    decreases |s|
  {
    if |s| >= 2 && s[0] == 'e' && s[1] == 'e' {
      RemoveEeOnlyEs(s[2..]);
      assert s[1..][1..] == s[2..];
    } else if s != [] {
      RemoveEeOnlyEs(s[1..]);
      assert ([s[0]] + RemoveEe(s[1..]))[1..] == RemoveEe(s[1..]);
    }
  }

  function FixContinent(v: Value): (r: Value)
    ensures v.Text? ==> r.Text? && NoDoubleE(r.text)
    ensures !v.Text? ==> r == v
  {
    if v.Text? then
      RemoveEeLeavesNone(v.text);
      Text(RemoveEe(v.text))
    else v
  }

  /** clean_store_data up to its country filter, on one row. */
  function StoreRow(lib: Library, r: Row): (r': Row)
    ensures r'.Keys == r.Keys - {"lat"}
  {
    var na := ReplaceCells(r, Text("N/A"), Missing);
    var dropped := na - {"lat"};
    var typed := AsStrings(lib, dropped, StoreStringColumns);
    var digits := SetCell(typed, "staff_numbers", DigitsOnly);
    var staff := NumericColumn(lib, digits, "staff_numbers");
    var longitude := NumericColumn(lib, staff, "longitude");
    var latitude := NumericColumn(lib, longitude, "latitude");
    ParseDateColumn(lib, latitude, "opening_date")
  }

  /** country_code.isin(["GB", "DE", "US"]); a missing code is not in it. */
  predicate KnownCountry(r: Row)
    ensures KnownCountry(r) <==>
      "country_code" in r && (r["country_code"] == Text("GB") || r["country_code"] == Text("DE") || r["country_code"] == Text("US"))
  {
    "country_code" in r && r["country_code"].Text? && r["country_code"].text in StoreCountryCodes
  }

  /** The Web Portal exception: the web store is kept however many of its
      cells are missing; any other store needs every cell but store_type. */
  predicate KeepStore(r: Row)
    ensures Complete(r) ==> KeepStore(r)
    ensures "store_type" in r && r["store_type"] == Text("Web Portal") ==> KeepStore(r)
  {
    ("store_type" in r && r["store_type"] == Text("Web Portal")) ||
    (forall c :: c in r && c != "store_type" ==> r[c] != Missing)
  }

  function CleanStores(lib: Library, rows: seq<Row>): (out: seq<Row>)
    ensures |out| <= |rows|
    ensures forall i :: 0 <= i < |out| ==> KeepStore(out[i])
  {
    var typed := MapRows(rows, r => StoreRow(lib, r));
    var known := Filter(typed, KnownCountry);
    var fixed := MapRows(known, r => SetCell(r, "continent", FixContinent));
    Filter(fixed, KeepStore)
  }

  /** `out` is what the input row becomes and it passes both filters. */
  predicate StoreSurvivor(lib: Library, row: Row, out: Row)
  {
    var s := StoreRow(lib, row);
    KnownCountry(s) && out == SetCell(s, "continent", FixContinent) && KeepStore(out)
  }

  /** Every kept store row comes from an input row it survives from. */
  lemma StoreFromSurvivor(lib: Library, rows: seq<Row>, r: Row)
    requires r in CleanStores(lib, rows)
    ensures exists i :: 0 <= i < |rows| && StoreSurvivor(lib, rows[i], r)
  {
    var typed := MapRows(rows, r => StoreRow(lib, r));
    var known := Filter(typed, KnownCountry);
    var fixed := MapRows(known, r => SetCell(r, "continent", FixContinent));
    var j :| 0 <= j < |fixed| && fixed[j] == r;
    assert known[j] in known;
    var i :| 0 <= i < |typed| && typed[i] == known[j];
    assert StoreSurvivor(lib, rows[i], r);
  }

  /** Every input row that survives is kept. */
  lemma SurvivorIsKept(lib: Library, rows: seq<Row>, i: nat, r: Row)
    requires i < |rows| && StoreSurvivor(lib, rows[i], r)
    ensures r in CleanStores(lib, rows)
  {
    var typed := MapRows(rows, r => StoreRow(lib, r));
    var known := Filter(typed, KnownCountry);
    var fixed := MapRows(known, r => SetCell(r, "continent", FixContinent));
    assert typed[i] in typed;
    var j :| 0 <= j < |known| && known[j] == typed[i];
    assert fixed[j] == r;
  }

  /** A survivor has an allowed code, passes the Web Portal rule and has no
      "ee" in its continent. */
  lemma SurvivorHolds(lib: Library, row: Row, r: Row)
    requires StoreSurvivor(lib, row, r)
    ensures KnownCountry(r) && KeepStore(r)
    ensures "continent" in r && r["continent"].Text? ==> NoDoubleE(r["continent"].text)
  {
    var s := StoreRow(lib, row);
    assert r["country_code"] == s["country_code"];
  }

  /** A store row survives exactly when its country code is allowed and it
      is the Web Portal or has every cell but store_type; each survivor has
      an allowed code and no "ee" in its continent. */
  lemma {:induction false} CleanStoresSound(lib: Library, rows: seq<Row>)
    ensures forall r: Row :: r in CleanStores(lib, rows) <==>
      exists i :: 0 <= i < |rows| && StoreSurvivor(lib, rows[i], r)
    ensures forall r: Row :: r in CleanStores(lib, rows) ==>
      KnownCountry(r) && KeepStore(r) &&
      ("continent" in r && r["continent"].Text? ==> NoDoubleE(r["continent"].text))
  {
    forall r: Row | r in CleanStores(lib, rows)
      ensures exists i :: 0 <= i < |rows| && StoreSurvivor(lib, rows[i], r)
      ensures KnownCountry(r) && KeepStore(r)
      ensures "continent" in r && r["continent"].Text? ==> NoDoubleE(r["continent"].text)
    {
      StoreFromSurvivor(lib, rows, r);
      var i :| 0 <= i < |rows| && StoreSurvivor(lib, rows[i], r);
      SurvivorHolds(lib, rows[i], r);
    }
    forall r: Row | exists i :: 0 <= i < |rows| && StoreSurvivor(lib, rows[i], r)
      ensures r in CleanStores(lib, rows)
    {
      var i :| 0 <= i < |rows| && StoreSurvivor(lib, rows[i], r);
      SurvivorIsKept(lib, rows, i, r);
    }
  }

  // ------------------------------------------------------------- products

  const ProductStringColumns: set<string> := {"product_name", "category", "product_code", "uuid"}
  const RemovedValues: set<string> := {"Removed", "Still_avaliable"}

  /** weight.apply(convert_product_weights) and to_numeric on one cell. */
  function ProductWeight(v: Value): (r: Result<Value>)
    ensures r.Ok? ==> r.value == Missing || r.value.Number?
    ensures r.Raised? <==> ConvertProductWeights(v).Raised?
  {
    match ConvertProductWeights(v)
    case Raised(e) => Raised(e)
    case Ok(None) => Ok(Missing)
    case Ok(Some(kg)) => Ok(Number(kg))
  }

  /** The weight cell of one row converted. */
  function WeighRow(r: Row): (e: Result<Row>)
    requires "weight" in r
    ensures e.Raised? <==> ConvertProductWeights(r["weight"]).Raised?
    ensures e.Ok? ==> e.value.Keys == r.Keys && (e.value["weight"] == Missing || e.value["weight"].Number?)
    ensures e.Ok? ==> forall c :: c in r && c != "weight" ==> e.value[c] == r[c]
  {
    match ProductWeight(r["weight"])
    case Raised(err) => Raised(err)
    case Ok(w) => Ok(r["weight" := w])
  }

  /** The weight column over the whole frame: the first cell that raises
      makes the apply raise. */
  function ConvertWeights(rows: seq<Row>): (e: Result<seq<Row>>)
    requires forall i :: 0 <= i < |rows| ==> "weight" in rows[i]
    ensures e.Ok? ==> |e.value| == |rows|
  {
    ApplyRows(rows, WeighRow)
  }

  predicate ValidRemoved(r: Row)
    ensures ValidRemoved(r) <==>
      "removed" in r && (r["removed"] == Text("Removed") || r["removed"] == Text("Still_avaliable"))
  {
    "removed" in r && r["removed"].Text? && r["removed"].text in RemovedValues
  }

  /** removed.map({"Removed": True, "Still_avaliable": False}). */
  function RemovedFlag(v: Value): (r: Value)
    ensures v == Text("Removed") ==> r == Flag(true)
    ensures v == Text("Still_avaliable") ==> r == Flag(false)
    ensures !(v.Text? && v.text in RemovedValues) ==> r == Missing
  {
    if v == Text("Removed") then Flag(true)
    else if v == Text("Still_avaliable") then Flag(false)
    else Missing
  }

  /** The in-place steps of clean_products_data after the weights, on one
      row: the removed check, the removed map, the UUID check and the price. */
  function ProductCells(r: Row): (r': Row)
    ensures r'.Keys == r.Keys
    ensures !ValidRemoved(r) ==> forall c :: c in r' ==> r'[c] == Missing
    ensures ValidRemoved(r) ==> r'["removed"].Flag?
  {
    var checked := if ValidRemoved(r) then r else Blank(r);
    var flags := SetCell(checked, "removed", RemovedFlag);
    var uuids := SetCell(flags, "uuid", ValidateUuid);
    SetCell(uuids, "product_price", ExtractPrice)
  }

  /** clean_products_data after the weights and up to its dropna, on one row. */
  function ProductRow(lib: Library, r: Row): (r': Row)
    ensures r'.Keys == r.Keys
  {
    var prices := ProductCells(r);
    var typed := AsStrings(lib, prices, ProductStringColumns);
    var ean := NumericColumn(lib, typed, "EAN");
    ParseDateColumn(lib, ean, "date_added")
  }

  function CleanProducts(lib: Library, rows: seq<Row>): (e: Result<seq<Row>>)
    requires forall i :: 0 <= i < |rows| ==> "weight" in rows[i]
    ensures e.Ok? ==> |e.value| <= |rows| && forall i :: 0 <= i < |e.value| ==> Complete(e.value[i])
  {
    var dropped := MapRows(rows, (r: Row) => r - {"Unnamed: 0"});
    match ConvertWeights(dropped)
    case Raised(e) => Raised(e)
    case Ok(weighed) => Ok(DropNA(MapRows(weighed, r => ProductRow(lib, r))))
  }

  /** A product row whose removed value is not one of the two allowed ones
      loses every cell, so dropna removes it. */
  lemma ProductRowInvalidated(lib: Library, r: Row)
    requires r != map[] && !ValidRemoved(r)
    ensures !Complete(ProductRow(lib, r))
  {
    var k :| k in r;
    var flags := SetCell(Blank(r), "removed", RemovedFlag);
    assert flags[k] == Missing;
    var uuids := SetCell(flags, "uuid", ValidateUuid);
    assert uuids[k] == Missing;
    var prices := SetCell(uuids, "product_price", ExtractPrice);
    assert prices[k] == Missing;
    var ean := NumericColumn(lib, AsStrings(lib, prices, ProductStringColumns), "EAN");
    assert ean[k] == Missing;
    DatePassesArePassOne(lib, Missing);
    assert ParseDateColumn(lib, ean, "date_added")[k] == Missing;
  }

  /** What a cleaned product row holds. */
  ghost predicate CleanProduct(r: Row)
  {
    && Complete(r)
    && "Unnamed: 0" !in r
    && ("removed" in r ==> r["removed"].Flag?)
    && ("uuid" in r ==> r["uuid"].Text? && MatchesUuid(r["uuid"].text))
    && ("product_price" in r ==> r["product_price"].Number? && r["product_price"].number >= 0.0)
    && ("weight" in r ==> r["weight"].Number?)
    && ("date_added" in r ==> r["date_added"].Stamp?)
  }

  lemma ProductRowClean(lib: Library, r: Row)
    requires "Unnamed: 0" !in r
    requires "weight" in r && (r["weight"] == Missing || r["weight"].Number?)
    requires Complete(ProductRow(lib, r))
    ensures CleanProduct(ProductRow(lib, r))
    ensures "removed" in r ==> ProductRow(lib, r)["removed"] == Flag(r["removed"] == Text("Removed"))
  {
    var out := ProductRow(lib, r);
    if !ValidRemoved(r) {
      if r != map[] {
        ProductRowInvalidated(lib, r);
      }
    } else {
      var typed := AsStrings(lib, SetCell(SetCell(SetCell(r, "removed", RemovedFlag), "uuid", ValidateUuid), "product_price", ExtractPrice), ProductStringColumns);
      assert out["weight"] == r["weight"];
      if "date_added" in r {
        DatePassesArePassOne(lib, typed["date_added"]);
      }
    }
  }

  /** clean_products_data raises exactly when some weight raises; otherwise
      it keeps exactly the complete cleaned rows, every one clean, each from
      an input row whose removed value was one of the two allowed ones, with
      removed mapped to true for "Removed" and false for "Still_avaliable". */
  lemma {:induction false} CleanProductsSound(lib: Library, rows: seq<Row>)
    requires forall i :: 0 <= i < |rows| ==> "weight" in rows[i]
    ensures CleanProducts(lib, rows).Raised? <==>
      exists i :: 0 <= i < |rows| && ConvertProductWeights(rows[i]["weight"]).Raised?
    ensures CleanProducts(lib, rows).Ok? ==> forall r: Row :: r in CleanProducts(lib, rows).value <==>
      exists i :: 0 <= i < |rows| && WeighRow(rows[i] - {"Unnamed: 0"}).Ok? &&
        r == ProductRow(lib, WeighRow(rows[i] - {"Unnamed: 0"}).value) && Complete(r)
    ensures CleanProducts(lib, rows).Ok? ==> forall r: Row :: r in CleanProducts(lib, rows).value ==> CleanProduct(r)
    ensures CleanProducts(lib, rows).Ok? ==> forall r: Row :: r in CleanProducts(lib, rows).value ==>
      exists i :: 0 <= i < |rows| && ValidRemoved(rows[i]) && "removed" in r &&
        r["removed"] == Flag(rows[i]["removed"] == Text("Removed"))
  {
    ProductsRaiseIff(lib, rows);
    ProductsKeptClean(lib, rows);
    ProductsKeptExactly(lib, rows);
  }

  /** The rows clean_products_data keeps: exactly the complete cleaned rows,
      each with its removed flag read from its input row. */
  lemma ProductsKeptExactly(lib: Library, rows: seq<Row>)
    requires forall i :: 0 <= i < |rows| ==> "weight" in rows[i]
    ensures CleanProducts(lib, rows).Ok? ==> forall r: Row :: r in CleanProducts(lib, rows).value <==>
      exists i :: 0 <= i < |rows| && WeighRow(rows[i] - {"Unnamed: 0"}).Ok? &&
        r == ProductRow(lib, WeighRow(rows[i] - {"Unnamed: 0"}).value) && Complete(r)
    ensures CleanProducts(lib, rows).Ok? ==> forall r: Row :: r in CleanProducts(lib, rows).value ==>
      exists i :: 0 <= i < |rows| && ValidRemoved(rows[i]) && "removed" in r &&
        r["removed"] == Flag(rows[i]["removed"] == Text("Removed"))
  {
    var dropped := MapRows(rows, (r: Row) => r - {"Unnamed: 0"});
    assert forall i :: 0 <= i < |rows| ==> "weight" in dropped[i] && dropped[i] == rows[i] - {"Unnamed: 0"};
    ApplyRowsSound(dropped, WeighRow);
    match ConvertWeights(dropped)
    case Raised(_) =>
    case Ok(weighed) =>
      var f := x => ProductRow(lib, x);
      DropNAMapIff(weighed, f);
      forall r: Row | r in DropNA(MapRows(weighed, f))
        ensures exists i :: 0 <= i < |rows| && ValidRemoved(rows[i]) && "removed" in r &&
                             r["removed"] == Flag(rows[i]["removed"] == Text("Removed"))
      {
        var i :| 0 <= i < |weighed| && r == f(weighed[i]) && Complete(r);
        WeighedRowRemoved(lib, rows[i], weighed[i]);
      }
  }

  /** A kept product row had an allowed removed value, which becomes its flag. */
  lemma WeighedRowRemoved(lib: Library, row: Row, w: Row)
    requires "weight" in row && WeighRow(row - {"Unnamed: 0"}) == Ok(w)
    requires Complete(ProductRow(lib, w))
    ensures ValidRemoved(row) && "removed" in ProductRow(lib, w)
    ensures ProductRow(lib, w)["removed"] == Flag(row["removed"] == Text("Removed"))
  {
    var d := row - {"Unnamed: 0"};
    assert w.Keys == d.Keys && "weight" in w;
    if !ValidRemoved(w) {
      ProductRowInvalidated(lib, w);
    }
    assert w["removed"] == row["removed"];
    ProductRowClean(lib, w);
  }

  lemma ProductsRaiseIff(lib: Library, rows: seq<Row>)
    requires forall i :: 0 <= i < |rows| ==> "weight" in rows[i]
    ensures CleanProducts(lib, rows).Raised? <==>
      exists i :: 0 <= i < |rows| && ConvertProductWeights(rows[i]["weight"]).Raised?
  {
    var dropped := MapRows(rows, (r: Row) => r - {"Unnamed: 0"});
    assert forall i :: 0 <= i < |rows| ==>
      (WeighRow(dropped[i]).Raised? <==> ConvertProductWeights(rows[i]["weight"]).Raised?);
    ApplyRowsSound(dropped, WeighRow);
    assert CleanProducts(lib, rows).Raised? <==> ConvertWeights(dropped).Raised?;
  }

  lemma ProductsKeptClean(lib: Library, rows: seq<Row>)
    requires forall i :: 0 <= i < |rows| ==> "weight" in rows[i]
    ensures CleanProducts(lib, rows).Ok? ==> forall r: Row :: r in CleanProducts(lib, rows).value ==> CleanProduct(r)
  {
    var dropped := MapRows(rows, (r: Row) => r - {"Unnamed: 0"});
    assert forall i :: 0 <= i < |rows| ==> "weight" in dropped[i] && "Unnamed: 0" !in dropped[i];
    ApplyRowsSound(dropped, WeighRow);
    match ConvertWeights(dropped)
    case Raised(_) =>
    case Ok(weighed) =>
      WeighedProductsClean(lib, dropped, weighed);
  }

  /** Every kept row of the weighed products is clean. */
  lemma WeighedProductsClean(lib: Library, dropped: seq<Row>, weighed: seq<Row>)
    requires forall i :: 0 <= i < |dropped| ==> "weight" in dropped[i] && "Unnamed: 0" !in dropped[i]
    requires |weighed| == |dropped|
    requires forall i :: 0 <= i < |dropped| ==> WeighRow(dropped[i]) == Ok(weighed[i])
    ensures forall r: Row :: r in DropNA(MapRows(weighed, r => ProductRow(lib, r))) ==> CleanProduct(r)
  {
    var mapped := MapRows(weighed, r => ProductRow(lib, r));
    forall r: Row | r in DropNA(mapped) ensures CleanProduct(r) {
      var i :| 0 <= i < |mapped| && mapped[i] == r;
      assert r == ProductRow(lib, weighed[i]) && Complete(r);
      WeighedRowClean(lib, dropped[i], weighed[i]);
    }
  }

  /** A complete cleaned row whose weight converted is clean. */
  lemma WeighedRowClean(lib: Library, d: Row, w: Row)
    requires "weight" in d && "Unnamed: 0" !in d && WeighRow(d) == Ok(w)
    requires Complete(ProductRow(lib, w))
    ensures CleanProduct(ProductRow(lib, w))
  {
    assert w.Keys == d.Keys;
    ProductRowClean(lib, w);
  }

  // --------------------------------------------------------------- orders

  const OrderDroppedColumns: set<string> := {"level_0", "index", "first_name", "last_name", "1"}
  const OrderStringColumns: set<string> := {"date_uuid", "user_uuid", "store_code", "product_code"}

  function OrderRow(lib: Library, r: Row): (r': Row)
    ensures r'.Keys == r.Keys - OrderDroppedColumns
  {
    AsStrings(lib, r - OrderDroppedColumns, OrderStringColumns)
  }

  function CleanOrders(lib: Library, rows: seq<Row>): (out: seq<Row>)
    ensures |out| == |rows|
    ensures forall i :: 0 <= i < |rows| ==> out[i].Keys == rows[i].Keys - OrderDroppedColumns
  {
    MapRows(rows, r => OrderRow(lib, r))
  }

  /** clean_orders_data keeps every row in its place, removes the five
      columns, renders the four key columns as strings and leaves every
      other cell as it was. */
  lemma CleanOrdersKeepsRows(lib: Library, rows: seq<Row>)
    ensures |CleanOrders(lib, rows)| == |rows|
    ensures forall i :: 0 <= i < |rows| ==>
      var out := CleanOrders(lib, rows)[i];
      && out.Keys == rows[i].Keys - OrderDroppedColumns
      && (forall c :: c in out && c !in OrderStringColumns ==> out[c] == rows[i][c])
      && (forall c :: c in out && c in OrderStringColumns ==>
            out[c] == AsString(lib, rows[i][c]) && (out[c].Text? || out[c] == Missing))
  {
  }

  // --------------------------------------------------------- date details

  const TimePeriods: set<string> := {"Morning", "Midday", "Evening", "Late_Hours"}
  const DateDetailDroppedColumns: set<string> := {"datetime_str", "day", "month", "year", "timestamp"}
  const DateDetailColumns: set<string> := {"time_period", "day", "month", "year", "timestamp", "date_uuid"}

  predicate ValidTimePeriod(r: Row)
    ensures ValidTimePeriod(r) <==>
      "time_period" in r && r["time_period"] in {Text("Morning"), Text("Midday"), Text("Evening"), Text("Late_Hours")}
  {
    "time_period" in r && r["time_period"].Text? && r["time_period"].text in TimePeriods
  }

  /** dataframe.loc[~time_period.isin(valid)] = pd.NA on one row. */
  function CheckTimePeriod(r: Row): (r': Row)
    ensures r'.Keys == r.Keys
    ensures ValidTimePeriod(r) ==> r' == r
    ensures !ValidTimePeriod(r) ==> forall c :: c in r' ==> r'[c] == Missing
  {
    if ValidTimePeriod(r) then r else Blank(r)
  }

  /** astype("str") on one cell. */
  function Str(lib: Library, v: Value): (s: string)
    ensures v.Text? ==> s == v.text
    ensures !v.Text? ==> s == lib.show(v)
  {
    if v.Text? then v.text else lib.show(v)
  }

  /** day + "-" + month + "-" + year + " " + timestamp on one row: missing
      when the timestamp is, TypeError when it is neither text nor missing. */
  function DatetimeStr(lib: Library, r: Row): (s: Result<Value>)
    requires DateDetailColumns <= r.Keys
    ensures s.Raised? <==> r["timestamp"] != Missing && !r["timestamp"].Text?
    ensures s.Raised? ==> s.error == TypeError
    ensures s == Ok(Missing) <==> r["timestamp"] == Missing
    ensures s.Ok? && r["timestamp"].Text? ==>
      s.value == Text(Str(lib, r["day"]) + "-" + Str(lib, r["month"]) + "-" + Str(lib, r["year"]) + " " + r["timestamp"].text)
  {
    var t := r["timestamp"];
    if t == Missing then Ok(Missing)
    else if !t.Text? then Raised(TypeError)
    else Ok(Text(Str(lib, r["day"]) + "-" + Str(lib, r["month"]) + "-" + Str(lib, r["year"]) + " " + t.text))
  }

  /** The time-period check over the caller's frame. */
  function CheckTimePeriods(rows: seq<Row>): (out: seq<Row>)
    ensures |out| == |rows|
    ensures forall i :: 0 <= i < |rows| ==> out[i].Keys == rows[i].Keys
    ensures forall i :: 0 <= i < |rows| && ValidTimePeriod(rows[i]) ==> out[i] == rows[i]
    ensures forall i :: 0 <= i < |rows| && !ValidTimePeriod(rows[i]) ==> !ValidTimePeriod(out[i])
  {
    MapRows(rows, CheckTimePeriod)
  }

  /** The datetime_str and datetime cells of one row. */
  function AddDatetime(lib: Library, r: Row): (e: Result<Row>)
    requires DateDetailColumns <= r.Keys
    ensures e.Raised? <==> DatetimeStr(lib, r).Raised?
    ensures e.Ok? ==> e.value.Keys == r.Keys + {"datetime_str", "datetime"}
    ensures e.Ok? ==> e.value["datetime"] == ToDatetime(lib, DateTimeFormat, e.value["datetime_str"])
    ensures e.Ok? ==> forall c :: c in r && c != "datetime_str" && c != "datetime" ==> e.value[c] == r[c]
  {
    match DatetimeStr(lib, r)
    case Raised(err) => Raised(err)
    case Ok(s) => Ok(r["datetime_str" := s]["datetime" := ToDatetime(lib, DateTimeFormat, s)])
  }

  /** AddDatetime as a row function for the apply. */
  function AddDatetimeWith(lib: Library): Row --> Result<Row>
  {
    (r: Row) requires DateDetailColumns <= r.Keys => AddDatetime(lib, r)
  }

  /** The datetime_str and datetime columns added to the caller's frame; the
      first row whose timestamp cannot be concatenated makes it raise. */
  function AddDatetimes(lib: Library, rows: seq<Row>): Result<seq<Row>>
    requires forall i :: 0 <= i < |rows| ==> DateDetailColumns <= rows[i].Keys
  {
    ApplyRows(rows, AddDatetimeWith(lib))
  }

  /** The rest of clean_date_details_data on one row, after the drop. */
  function DateDetailRow(lib: Library, r: Row): (r': Row)
    ensures r'.Keys == r.Keys - DateDetailDroppedColumns
  {
    var dropped := r - DateDetailDroppedColumns;
    var uuids := SetCell(dropped, "date_uuid", ValidateUuid);
    AsStrings(lib, uuids, {"time_period", "date_uuid"})
  }

  function CleanDateDetails(lib: Library, rows: seq<Row>): (e: Result<seq<Row>>)
    requires forall i :: 0 <= i < |rows| ==> DateDetailColumns <= rows[i].Keys
    ensures e.Ok? ==> |e.value| <= |rows| && forall i :: 0 <= i < |e.value| ==> Complete(e.value[i])
  {
    var checked := CheckTimePeriods(rows);
    match AddDatetimes(lib, checked)
    case Raised(e) => Raised(e)
    case Ok(added) => Ok(DropNA(MapRows(added, r => DateDetailRow(lib, r))))
  }

  /** What a cleaned date-details row holds. */
  ghost predicate CleanDateDetail(r: Row)
  {
    && Complete(r)
    && (forall c :: c in DateDetailDroppedColumns ==> c !in r)
    && "time_period" in r && r["time_period"].Text? && r["time_period"].text in TimePeriods
    && "date_uuid" in r && r["date_uuid"].Text? && MatchesUuid(r["date_uuid"].text)
    && "datetime" in r && r["datetime"].Stamp?
  }

  lemma DateDetailRowClean(lib: Library, r: Row)
    requires DateDetailColumns <= r.Keys
    requires AddDatetime(lib, CheckTimePeriod(r)).Ok?
    requires Complete(DateDetailRow(lib, AddDatetime(lib, CheckTimePeriod(r)).value))
    ensures CleanDateDetail(DateDetailRow(lib, AddDatetime(lib, CheckTimePeriod(r)).value))
  {
    var c := CheckTimePeriod(r);
    var added := AddDatetime(lib, c).value;
    var out := DateDetailRow(lib, added);
    assert out["time_period"] == AsString(lib, c["time_period"]);
    assert out["datetime"] == added["datetime"];
  }

  /** A row that passes the time-period check with a timestamp that is
      neither text nor missing. */
  predicate TimestampFails(r: Row)
    requires DateDetailColumns <= r.Keys
  {
    ValidTimePeriod(r) && r["timestamp"] != Missing && !r["timestamp"].Text?
  }

  /** clean_date_details_data raises exactly when a row that passed the
      time-period check has a timestamp that is neither text nor missing;
      otherwise it keeps exactly the complete cleaned rows, and every one is
      clean, so a row with an invalid time period never survives. */
  lemma {:induction false} CleanDateDetailsSound(lib: Library, rows: seq<Row>)
    requires forall i :: 0 <= i < |rows| ==> DateDetailColumns <= rows[i].Keys
    ensures CleanDateDetails(lib, rows).Raised? <==>
      exists i :: 0 <= i < |rows| && TimestampFails(rows[i])
    ensures CleanDateDetails(lib, rows).Ok? ==> forall r: Row :: r in CleanDateDetails(lib, rows).value <==>
      exists i :: 0 <= i < |rows| && AddDatetime(lib, CheckTimePeriod(rows[i])).Ok? &&
        r == DateDetailRow(lib, AddDatetime(lib, CheckTimePeriod(rows[i])).value) && Complete(r)
    ensures CleanDateDetails(lib, rows).Ok? ==>
      forall r: Row :: r in CleanDateDetails(lib, rows).value ==> CleanDateDetail(r)
  {
    DateDetailsRaiseIff(lib, rows);
    DateDetailsKeptExactly(lib, rows);
    DateDetailsKeptClean(lib, rows);
  }

  lemma DateDetailsRaiseIff(lib: Library, rows: seq<Row>)
    requires forall i :: 0 <= i < |rows| ==> DateDetailColumns <= rows[i].Keys
    ensures CleanDateDetails(lib, rows).Raised? <==>
      exists i :: 0 <= i < |rows| && TimestampFails(rows[i])
  {
    var checked := CheckTimePeriods(rows);
    var f := AddDatetimeWith(lib);
    assert forall i :: 0 <= i < |rows| ==> (f(checked[i]).Raised? <==> TimestampFails(rows[i]));
    ApplyRowsSound(checked, f);
    if AddDatetimes(lib, checked).Raised? {
      var i :| 0 <= i < |checked| && f(checked[i]).Raised?;
    }
  }

  lemma DateDetailsKeptClean(lib: Library, rows: seq<Row>)
    requires forall i :: 0 <= i < |rows| ==> DateDetailColumns <= rows[i].Keys
    ensures CleanDateDetails(lib, rows).Ok? ==>
      forall r: Row :: r in CleanDateDetails(lib, rows).value ==> CleanDateDetail(r)
  {
    var checked := CheckTimePeriods(rows);
    var f := AddDatetimeWith(lib);
    ApplyRowsSound(checked, f);
    match AddDatetimes(lib, checked)
    case Raised(_) =>
    case Ok(added) =>
      forall r: Row | r in DropNA(MapRows(added, x => DateDetailRow(lib, x))) ensures CleanDateDetail(r) {
        DropNAMapSource(added, x => DateDetailRow(lib, x), r);
        var i :| 0 <= i < |added| && r == DateDetailRow(lib, added[i]) && Complete(r);
        assert f(checked[i]).Ok?;
        DateDetailRowClean(lib, rows[i]);
      }
  }

  /** The rows clean_date_details_data keeps: exactly the complete cleaned rows. */
  lemma DateDetailsKeptExactly(lib: Library, rows: seq<Row>)
    requires forall i :: 0 <= i < |rows| ==> DateDetailColumns <= rows[i].Keys
    ensures CleanDateDetails(lib, rows).Ok? ==> forall r: Row :: r in CleanDateDetails(lib, rows).value <==>
      exists i :: 0 <= i < |rows| && AddDatetime(lib, CheckTimePeriod(rows[i])).Ok? &&
        r == DateDetailRow(lib, AddDatetime(lib, CheckTimePeriod(rows[i])).value) && Complete(r)
  {
    var checked := CheckTimePeriods(rows);
    if AddDatetimes(lib, checked).Ok? {
      ApplyDropNAIff(checked, AddDatetimeWith(lib), x => DateDetailRow(lib, x));
      assert forall i :: 0 <= i < |rows| ==> checked[i] == CheckTimePeriod(rows[i]);
    }
  }
}
