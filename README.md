# DataCleaning, modelled in Dafny

This project models `DataCleaning`, the cleaning stage of a retail
data-centralisation pipeline. The cleaner takes pandas DataFrames pulled
from a database, an API, S3 and PDFs, and returns cleaned frames for six
entities: users, cards, stores, products, orders and date details.

The model has two layers.

- **Value and row layer (pure).** This layer holds:
  - a value model of the frame's cells (`Values`);
  - row-wise pandas operations (`Table`);
  - the per-value converters: UUID and email validation, card-number
    splitting and digit stripping, the product-weight converter, the price
    extractor, the phone pre-clean and the three date passes;
  - each pipeline as a function over a sequence of rows (`Pipelines`).

  Each pipeline comes with lemmas that state which rows survive and what a
  surviving row holds.
- **Imperative layer.** `Cleaning.Frame` is a mutable frame whose `rows`
  the methods reassign. `Cleaning.DataCleaning` holds the cleaner's
  configuration. Its methods do what the Python methods do, step by step,
  including the in-place updates of the caller's frame:
  - `parse_multiple_date_formats` updates the frame it is given;
  - `clean_card_data` writes the extracted columns back into its argument;
  - `clean_date_details_data` blanks rows and adds columns in its argument.

  Each method is proved to compute the matching function of `Pipelines`.

Cells are `Missing` (None, NaN, NaT and pd.NA alike), text, numbers,
booleans or datetimes. A frame is a sequence of rows. A row maps column
names to cells. Library calls whose code is not part of this model are
fields of a `Library` value that the caller supplies:
- dateutil's `parse`;
- `pd.to_datetime` with a format;
- the `str()` rendering used by `astype("string")`;
- `pd.to_numeric`;
- `phonenumbers`.

Exceptions that escape a cleaning call are `Raised(...)` results:
- `ValueError` from a weight multiplier;
- `IndexError` or `AttributeError` from the card split;
- `TypeError` from the date-details concatenation.

Exceptions raised inside a library call are not among them. The `Library`
functions return a value or `None`; see "Left out".

The `convert_product_weights` docstring and the code disagree, and the model
follows the code: the docstring computes `12 x 125g` as 1.25 kg, and the
code gives 1.5 kg (`Times(12, 0.125)`).

Other behaviour of the code that the model keeps as written:
- The price extractor is `str.extract` of the first number anywhere in the string. Text before or after that number does not matter.
- The email check is the pattern `^.+@.+\..+$`: something, an `@`, something, a dot, something.
- `parse_multiple_date_formats` runs its passes in a fixed order. `Dates.DatePassesArePassOne` proves that the result is always the free-form parse alone, made missing when it falls outside the range `datetime64[ns]` can hold (1677-09-21 to 2262-04-11). `Dates.PassesMatchCascadeIff` states exactly when it agrees with trying the parsers one after another and keeping the first success.
- Re-running a pipeline on its own output is not a no-op. After the first run the date columns hold datetimes, and `try_parse_date` turns every non-string into missing. `Dates.DatePassesNotIdempotent` and `Pipelines.CleanUsersTwiceIsEmpty` state this.

## Model

| member | source | states |
|---|---|---|
| UuidCheck.ValidateUuid | data_cleaning.py:136 | a cell stays exactly when it is text matching the UUID pattern (8-4-4-4-12 alphanumeric groups, third group starting with 4, fourth with 8, 9, A, B, a or b); otherwise it becomes missing, `na=False` included |
| UuidCheck.MatchesUuid | data_cleaning.py:16 | `re.match` of the anchored UUID pattern, whose `$` also accepts one final newline: a match has 36 characters, or 37 ending in a newline |
| UuidCheck.BodyIffGroups | data_cleaning.py:16 | the character-by-character reading of the UUID regex is equivalent to its reading as five hyphen-separated groups of the stated lengths |
| UuidCheck.AlnumHasNoHyphen | data_cleaning.py:16 | an alphanumeric group contains no hyphen, so the groups are delimited by the hyphens alone |
| Email.CollapseAt | data_cleaning.py:157 | collapsing runs of `@` never lengthens the address and keeps its first character |
| Email.CollapseLeavesNoRun | data_cleaning.py:157 | after `replace(r'@+', '@')` no two `@` are adjacent |
| Email.CollapseFixesNoRun | data_cleaning.py:157 | an address without a run of `@` is left unchanged |
| Email.CollapseIdempotent | data_cleaning.py:157 | collapsing twice is collapsing once |
| Email.CollapseKeepsRest | data_cleaning.py:157 | collapsing removes only `@` characters, and keeps the address's other characters in order and whether it has an `@` at all |
| Email.MatchesEmailIffShape | data_cleaning.py:17 | the executable matcher accepts exactly the strings of the shape `.+@.+\..+`: a non-empty part, an `@`, a non-empty part, a dot and a non-empty tail |
| Email.MatchesEmail | data_cleaning.py:17 | `str.match` of `^.+@.+\..+$`, decided by the first `@` after the first character and the dots after it; `Email.MatchesEmailIffShape` proves it equal to the shape |
| Email.CollapseEmail | data_cleaning.py:157 | text stays text with no `@` run and the same non-`@` characters; a non-string cell becomes missing |
| Email.ValidateEmail | data_cleaning.py:159 | a cell stays exactly when it is text of the email shape; otherwise it becomes missing |
| Email.CleanEmailIdempotent | data_cleaning.py:157-159 | cleaning a cleaned email address changes nothing |
| Weights.MatchWeight | data_cleaning.py:311 | `re.match(r'([\d.]+)([a-zA-Z]+)')`: a match gives a non-empty run of digits and dots followed by a non-empty run of letters |
| Weights.MatchWeightOf | data_cleaning.py:311 | the match of a number, a unit and a tail not starting with a letter is exactly that number and unit |
| Weights.UnitToKg | data_cleaning.py:327-343 | a factor is found exactly for the units g, ml, kg and oz; any other unit gives None |
| Weights.ConvertProductWeights | data_cleaning.py:280-343 | a non-string weight gives None; the only error is a `ValueError`, raised only for text containing `x` |
| Weights.MagnitudeThenUnit | data_cleaning.py:311-343 | a parsed magnitude followed by a unit converts to the multiplier times the unit's conversion, or None for an unknown unit |
| Weights.ConvertsAs | data_cleaning.py:311-341 | a magnitude that `float()` reads as v, followed by a known unit, converts to v for kg, v/35.274 for oz, v itself for a non-integral gram value and v/1000 for other g and for ml |
| Weights.MagnitudeLinear | data_cleaning.py:325 | a multiplier scales the converted weight and never changes whether it converts |
| Weights.ConvertMultiplied | data_cleaning.py:302-304 | the `x` split succeeds exactly when it gives two parts and the first, stripped, is an integer; every failure is a `ValueError` |
| Weights.MultipliedBody | data_cleaning.py:302-304 | `"<k> x <body>"` splits at the `x`, strips both parts and converts the body with multiplier k |
| Weights.ConvertsMultipliedWeight | data_cleaning.py:302-325 | `"<k> x <body>"` converts to k times what `body` alone converts to, and to None where that gives None |
| Weights.UnreadMagnitudeIsNotAWeight | data_cleaning.py:318-323 | a matched magnitude that `float()` rejects gives None instead of raising |
| Text.TwoPointsDoNotParse | data_cleaning.py:319 | a run of digits with two decimal points, such as `1.2.3`, is matched by `[\d.]+` but rejected by `float()` |
| Text.Split | data_cleaning.py:303 | `str.split("x")` gives at least one part, no part holds the separator, and joining the parts with it gives the string back |
| Text.Strip | data_cleaning.py:304 | `str.strip()` never lengthens the string, and the result neither starts nor ends with whitespace |
| Text.ParseInt | data_cleaning.py:304 | `int()` on a stripped string reads a non-empty digit string as its value, and accepts nothing without a digit |
| Text.ParseDecimal | data_cleaning.py:319 | `float()` on a run of digits and dots succeeds exactly when there is a digit and at most one dot, and then gives a non-negative value |
| Text.Lower | data_cleaning.py:320 | `str.lower()` keeps the length and lowers each ASCII capital in place |
| Weights.UnknownUnitIsNotAWeight | data_cleaning.py:342-343 | a magnitude `float()` reads, followed by a unit other than g, ml, kg or oz, gives None |
| Weights.NoLeadingMagnitudeIsNotAWeight | data_cleaning.py:311-315 | text that does not start with a digit or a dot gives None |
| Weights.TwoMultipliersRaise | data_cleaning.py:302-303 | text with two `x` characters cannot be unpacked into two parts and raises `ValueError` |
| Currency.NumberAt | data_cleaning.py:18 | the regex `(\d*\.\d+\|\d+)` at a number start matches a non-empty prefix of digits and at most one dot, with at least one digit |
| Currency.CurrencyMatch | data_cleaning.py:18 | a match exists exactly when the string has a digit; it is a run of digits with at most one dot |
| Currency.ExtractPrice | data_cleaning.py:374-375 | the price is a non-negative number exactly when the cell is text containing a digit; otherwise it is missing |
| Currency.SkipPrefix | data_cleaning.py:374 | a currency prefix without digits or dots is skipped by the search |
| Currency.PrefixIgnored | data_cleaning.py:374-375 | such a prefix leaves the extracted price unchanged |
| Currency.DecimalAt | data_cleaning.py:18 | at `"<digits>.<digits>"` the match is the whole decimal, not only its whole part |
| Currency.ExtractsDecimalPrice | data_cleaning.py:374-375 | `"<a>.<f><rest>"`, the rest not starting with a digit, extracts a + 0.f, so `"12.99"` gives 12.99 |
| Currency.ExtractsWholePrice | data_cleaning.py:374-375 | `"<n><rest>"`, the rest starting with neither a digit nor a dot, extracts n |
| Phone.RewriteIntlPrefix | data_cleaning.py:38-39 | a leading `00` becomes `+`; anything else is unchanged |
| Phone.RemoveZeroMarker | data_cleaning.py:42 | deleting `(0)` never lengthens the number or adds a character |
| Phone.RemoveParens | data_cleaning.py:43 | no parenthesis is left, and no character is added |
| Phone.CutFrom | data_cleaning.py:44 | cutting a suffix adds no character |
| Phone.CutExtension | data_cleaning.py:44 | `re.sub(r'x.*$', '')` adds no character |
| Phone.KeepDialable | data_cleaning.py:45 | only digits and `+` remain, and an already dialable number is unchanged |
| Phone.PreClean | data_cleaning.py:38-45 | the pre-cleaned number holds only digits and `+` |
| Phone.ParsePhoneNumber | data_cleaning.py:24-60 | a non-string gives None; otherwise the result is missing or a string that the library's formatter returns for the pre-cleaned number |
| Phone.ZeroMarkerDeleted | data_cleaning.py:42 | every `(0)` is deleted wherever it occurs: removing markers from `a + "(0)" + b` is removing them from `a` and from `b` |
| Phone.MarkerSplit | data_cleaning.py:42 | no `(0)` spans a join whose right side starts with neither `0` nor `)`, so each side loses its own markers |
| Phone.NoMarkerKept | data_cleaning.py:42 | text without `(` is kept |
| Phone.CutAtFirstX | data_cleaning.py:44 | the extension is cut at the first `x` of the number |
| Phone.NoExtensionKept | data_cleaning.py:44 | a number without `x` is not cut |
| Phone.ExtensionIgnored | data_cleaning.py:38-45 | for any number `s` without `x` and any one-line extension, `s + "x" + ext` pre-cleans to the same number as `s` |
| Phone.PreCleanStable | data_cleaning.py:38-45 | a dialable number without a leading `00` is its own pre-clean |
| Phone.PreCleanIdempotent | data_cleaning.py:38-45 | pre-cleaning a pre-cleaned number changes nothing, unless the first pass left a new leading `00` |
| Phone.IntlPrefixIsPlus | data_cleaning.py:38-39 | `00...` and `+...` pre-clean alike |
| Phone.PlusKept | data_cleaning.py:38-45 | a number written with `+` still starts with `+` after the pre-clean |
| Phone.PlusIgnoresRegion | data_cleaning.py:50-53 | a number written with `+` parses the same whatever the owner's region |
| Phone.LocalUsesRegion | data_cleaning.py:50-58 | a number whose pre-clean does not start with `+` is formatted with the owner's region, and is a string exactly when that formatting succeeds |
| Phone.ParseIntlPrefix | data_cleaning.py:38-53 | `00...` under any region parses like `+...` under any other region |
| Phone.SamePreCleanSameParse | data_cleaning.py:24-60 | two numbers with the same pre-clean parse to the same result |
| Phone.ParseIgnoresExtension | data_cleaning.py:44 | an `x` extension does not change the parsed number |
| Phone.ParseSeesPreClean | data_cleaning.py:38-53 | the library only ever receives a dialable string, and parsing that string again gives the same result |
| Cards.SplitAtFirstSpace | data_cleaning.py:180 | `split(' ', 1)` gives a first part without a space and a second part that rejoin to the original |
| Cards.ExtractFromCombined | data_cleaning.py:170-183 | the card number and expiry date are kept unless both are missing; then they come from the combined cell split at its first space; a combined cell without a space raises `IndexError`, and a missing one raises `AttributeError` |
| Cards.CombinedRoundTrip | data_cleaning.py:179-181 | joining a number and an expiry date with a space and extracting them returns both |
| Cards.DigitsOnly | data_cleaning.py:206-207 | a text card number keeps only its digits, and becomes missing exactly when it has none; other cells are unchanged |
| Cards.DigitsOnlyIdempotent | data_cleaning.py:206-207 | stripping non-digits twice is stripping once |
| Cards.DigitsOnlyKeepsNumber | data_cleaning.py:206-207 | a non-empty all-digit number is kept as it is |
| Dates.TryParseDate | data_cleaning.py:62-78 | a datetime exactly when the cell is a string that dateutil parses; a non-string, a datetime included, gives missing |
| Dates.AsNs | data_cleaning.py:94-101 | storing under `errors="coerce"`: a datetime outside the `datetime64[ns]` range (1677-09-21 00:12:44 to 2262-04-11 23:47:16, whole seconds) becomes NaT, every other cell is kept |
| Dates.InNsRange | data_cleaning.py:94-101 | the whole-second `datetime64[ns]` range, compared field by field; an in-range date has a year from 1677 to 2262 |
| Dates.NsRangeYears | data_cleaning.py:94-101 | a date in 1500 or in 9999 is outside the range, one in 2000 is inside |
| Dates.ToDatetime | data_cleaning.py:94-101 | `pd.to_datetime(..., format, errors="coerce")`: the result is NaT or an in-range datetime; a datetime is kept only when in range; a string gives a datetime exactly when it parses with the format to an in-range value; a number or boolean is missing (see "Left out") |
| Dates.CombineFirst | data_cleaning.py:103 | a cell's own value wins unless it is missing |
| Dates.DatePasses | data_cleaning.py:80-104 | the four steps of `parse_multiple_date_formats` on one cell, as written: the result is NaT or an in-range datetime |
| Dates.DatePassesArePassOne | data_cleaning.py:80-104 | the four steps always end with the pass-1 parse of the original cell, made NaT when out of range; the result is present iff dateutil parses the string to an in-range datetime |
| Dates.OutOfRangeParseIsMissing | data_cleaning.py:80-104 | a string dateutil reads as an out-of-range date ends missing, whatever the strict formats would give |
| Dates.Cascade | data_cleaning.py:80-104 | the first-success cascade over the three parsers, each result kept only when in range, yields an in-range datetime or missing |
| Dates.PassesMatchCascadeIff | data_cleaning.py:80-104 | the passes agree with the cascade exactly on cells that are not already in-range datetimes and that the strict formats cannot rescue from a free-form failure or an out-of-range parse |
| Dates.DatePassesNotIdempotent | data_cleaning.py:91 | running the passes over their own output leaves the cell missing |
| Table.Filter | data_cleaning.py:268 | boolean-mask indexing keeps exactly the rows that satisfy the mask |
| Table.FilterAppend | data_cleaning.py:268 | the mask acts row by row: filtering distributes over concatenation |
| Table.FilterKeepsAll | data_cleaning.py:276 | a mask that holds on every row keeps the frame as it is |
| Table.DropNA | data_cleaning.py:165 | `dropna(how='any')` keeps exactly the rows without a missing cell |
| Table.DropNAKeepsOrder | data_cleaning.py:165 | dropna keeps the surviving rows in order, and keeps a single row iff it is complete |
| Table.DropNAOfIncomplete | data_cleaning.py:165 | dropna over rows that each have a missing cell gives no rows |
| Table.DropNAIdempotent | data_cleaning.py:165 | a second dropna removes nothing |
| Table.MapRows | data_cleaning.py:91 | a row-wise rewrite gives one row per input row, row i being f of input row i |
| Table.DropNAMapSource | data_cleaning.py:165 | a row dropna keeps after a row-wise rewrite is the complete rewrite of some input row |
| Table.DropNAMapIff | data_cleaning.py:165 | dropna after a row-wise rewrite keeps exactly the complete rewrites of the input rows |
| Table.ApplyDropNAIff | data_cleaning.py:196-220 | after a successful row-wise apply, a rewrite and dropna keep exactly the complete rewrites of the applied rows |
| Table.SetCell | data_cleaning.py:142 | a column assignment rewrites one column's cell and nothing else |
| Table.ReplaceCells | data_cleaning.py:139 | `DataFrame.replace(a, b)` rewrites exactly the cells equal to `a` |
| Table.Blank | data_cleaning.py:366 | `df.loc[mask] = pd.NA` makes every cell of the row missing, so a non-empty row becomes incomplete |
| Table.AsString | data_cleaning.py:116-127 | `astype("string")` keeps missing as missing and text as it is, and renders any other value |
| Table.AsStrings | data_cleaning.py:116-127 | `astype({...})` converts exactly the listed columns |
| Table.Prepend | data_cleaning.py:196 | an error from the remaining rows propagates, and otherwise the finished rows come first |
| Table.ApplyRows | data_cleaning.py:196 | a row-wise apply that succeeds returns one row per input row |
| Table.ApplyRowsAt | data_cleaning.py:196 | the apply from row i is row i's result followed by the apply from row i+1, or row i's error |
| Table.ApplyRowsSound | data_cleaning.py:196 | the apply succeeds iff no row raises, and then row i is f of input row i; otherwise its error is that of the first row that raises |
| Table.ToNumeric | data_cleaning.py:256-260 | `pd.to_numeric(errors="coerce")` gives a number or missing, and missing stays missing |
| Pipelines.NullToNA | data_cleaning.py:139 | no cell is the text `"NULL"` afterwards, and the columns are unchanged |
| Pipelines.ParseDateColumn | data_cleaning.py:80-104 | the date passes rewrite the named column and nothing else |
| Pipelines.NumericColumn | data_cleaning.py:256-260 | `to_numeric` rewrites the named column and nothing else |
| Pipelines.DatetimeColumn | data_cleaning.py:212-214 | `to_datetime` with a format rewrites the named column and nothing else |
| Pipelines.FixCountryCode | data_cleaning.py:142 | `GGB` becomes `GB`, no result is `GGB`, and every other code is unchanged |
| Pipelines.UserRow | data_cleaning.py:116-162 | the `clean_user_data` steps before the dropna, on one row: the columns are kept and no cell is the text `"NULL"` |
| Pipelines.CleanUsers | data_cleaning.py:106-167 | `clean_user_data` on a frame: never more rows than given, each complete and without a `"NULL"` cell |
| Pipelines.UserRowClean | data_cleaning.py:116-165 | a complete cleaned user row has no `"NULL"`, a valid UUID, an email of the checked shape without `@` runs, datetimes for birth and join dates, and no `GGB` code |
| Pipelines.UserRowUuidEmail | data_cleaning.py:136-159 | a complete cleaned user row has a UUID matching the pattern and an email of the checked shape without `@` runs |
| Pipelines.UserRowDates | data_cleaning.py:131-132 | a complete cleaned user row holds datetimes for both its birth and join dates |
| Pipelines.UserRowCountry | data_cleaning.py:142 | a complete cleaned user row has a text country code other than `GGB` |
| Pipelines.UserRowKeepsParsed | data_cleaning.py:139-162 | a date or missing cell after the date passes survives the later user steps unchanged |
| Pipelines.CleanUsersSound | data_cleaning.py:106-167 | `clean_user_data` keeps exactly the cleaned rows that are complete, and every kept row is clean |
| Pipelines.UserRowBirthIsStamp | data_cleaning.py:131 | a complete cleaned user row holds a datetime of birth |
| Pipelines.SecondRunDropsRow | data_cleaning.py:91 | a row whose birth date is already a datetime loses it and is dropped |
| Pipelines.CleanedBirthsAreStamps | data_cleaning.py:106-167 | every row `clean_user_data` keeps holds a datetime of birth |
| Pipelines.SecondRunIncomplete | data_cleaning.py:91 | rows whose birth dates are datetimes all become incomplete when cleaned again |
| Pipelines.CleanUsersTwiceIsEmpty | data_cleaning.py:106-167 | cleaning the cleaned users gives an empty frame |
| Pipelines.ExtractRow | data_cleaning.py:179-183 | the row raises exactly when its card split fails; otherwise only the card number and expiry date may change |
| Pipelines.ExtractRows | data_cleaning.py:196 | the row-wise extraction assigned back into the two columns: a frame with no rows raises `ValueError`; a success has one row per input row, with the same columns |
| Pipelines.CardRow | data_cleaning.py:199-217 | the card steps after the extraction, on one row: the combined and index columns are removed and no other column is |
| Pipelines.CleanCards | data_cleaning.py:186-221 | `clean_card_data` on a frame: no rows raise `ValueError`; a success has at most as many rows as given, each complete |
| Pipelines.CardRowClean | data_cleaning.py:199-220 | a complete cleaned card row lacks the combined and index columns, has an all-digit card number and has datetimes for its expiry and payment dates |
| Pipelines.CleanCardsSound | data_cleaning.py:186-221 | `clean_card_data` raises iff the frame has no rows (`ValueError`) or some row has neither number nor expiry date and an unsplittable combined cell; otherwise it keeps exactly the complete cleaned extracted rows, and every kept row is clean |
| Pipelines.CardsKeptExactly | data_cleaning.py:196-220 | on a non-empty frame, a successful `clean_card_data` keeps exactly the complete cleaned extracted rows |
| Pipelines.CardsKeptClean | data_cleaning.py:196-220 | on a non-empty frame, every row a successful `clean_card_data` keeps is a clean card row |
| Pipelines.RemoveEe | data_cleaning.py:271 | removing `ee` never lengthens the text |
| Pipelines.RemoveEeLeavesNone | data_cleaning.py:271 | `str.replace("ee", "")` leaves no `ee` |
| Pipelines.RemoveEeKeeps | data_cleaning.py:271 | text without `ee` is unchanged |
| Pipelines.RemoveEeIdempotent | data_cleaning.py:271 | correcting the continent twice is correcting it once |
| Pipelines.RemoveEeOnlyEs | data_cleaning.py:271 | only `e` characters are removed, and the other characters keep their order |
| Pipelines.FixContinent | data_cleaning.py:271 | a text continent ends without `ee`, and a missing one stays missing |
| Pipelines.StoreRow | data_cleaning.py:233-263 | the store steps before the filters, on one row: `lat` is removed and no other column is |
| Pipelines.KnownCountry | data_cleaning.py:266-268 | the country mask: the code is the text GB, DE or US; a missing code is not in the list |
| Pipelines.KeepStore | data_cleaning.py:275-276 | the Web Portal mask: the store type is the text `Web Portal`, or every cell outside `store_type` is present; so a complete row and a Web Portal row always pass |
| Pipelines.CleanStores | data_cleaning.py:223-278 | `clean_store_data` on a frame: never more rows than given, and every kept row passes the Web Portal mask |
| Pipelines.StoreFromSurvivor | data_cleaning.py:265-276 | every kept store comes from an input row with an allowed country code that passes the Web Portal rule |
| Pipelines.SurvivorIsKept | data_cleaning.py:265-276 | every such input row is kept |
| Pipelines.SurvivorHolds | data_cleaning.py:266-276 | a kept store has code GB, DE or US, is the Web Portal or has no missing cell outside `store_type`, and its continent has no `ee` |
| Pipelines.CleanStoresSound | data_cleaning.py:223-278 | `clean_store_data` keeps exactly the rows that survive the country filter and the Web Portal rule, and each kept row satisfies both |
| Pipelines.ProductWeight | data_cleaning.py:361-362 | the weight becomes a number or missing, and raises exactly when the converter raises |
| Pipelines.WeighRow | data_cleaning.py:361-362 | the row raises exactly when its weight raises; otherwise only the weight cell changes, to a number or missing |
| Pipelines.ConvertWeights | data_cleaning.py:361-362 | the weight apply over the frame: a success has one row per input row |
| Pipelines.ValidRemoved | data_cleaning.py:365-366 | the removed mask: the cell is the text `Removed` or `Still_avaliable` |
| Pipelines.ProductCells | data_cleaning.py:364-375 | the in-place product steps on one row: the columns are kept, a row with an invalid `removed` becomes all missing, and a valid one gets a boolean `removed` |
| Pipelines.ProductRow | data_cleaning.py:364-389 | the product steps after the weights and before the dropna, on one row: the columns are kept |
| Pipelines.CleanProducts | data_cleaning.py:345-397 | `clean_products_data` on a frame: a success has at most as many rows as given, each complete |
| Pipelines.RemovedFlag | data_cleaning.py:368 | `Removed` maps to true, `Still_avaliable` to false, anything else to missing |
| Pipelines.ProductRowInvalidated | data_cleaning.py:365-366 | a product row whose `removed` is not one of the two allowed values loses every cell and is dropped |
| Pipelines.ProductRowClean | data_cleaning.py:364-395 | a complete cleaned product row has a boolean `removed` (true iff `Removed`), a valid UUID, a non-negative price, a numeric weight and a datetime `date_added` |
| Pipelines.CleanProductsSound | data_cleaning.py:345-397 | `clean_products_data` raises iff some weight raises; otherwise it keeps exactly the complete cleaned weighed rows, every kept row is clean, and each comes from an input row whose `removed` is `Removed` (now true) or `Still_avaliable` (now false) |
| Pipelines.ProductsRaiseIff | data_cleaning.py:355-362 | `clean_products_data` raises exactly when the converter raises on some weight |
| Pipelines.ProductsKeptExactly | data_cleaning.py:355-395 | a success keeps exactly the complete cleaned weighed rows, each from an input row with a valid `removed` whose flag it carries |
| Pipelines.WeighedRowRemoved | data_cleaning.py:365-368 | a complete cleaned product row comes from a row with a valid `removed`, and its flag is true iff that value was `Removed` |
| Pipelines.ProductsKeptClean | data_cleaning.py:355-395 | every row a successful `clean_products_data` keeps is a clean product row |
| Pipelines.WeighedProductsClean | data_cleaning.py:364-395 | dropna over the cleaned weighed rows keeps only clean product rows |
| Pipelines.WeighedRowClean | data_cleaning.py:364-395 | a complete cleaned row from a successful weighing is a clean product row |
| Pipelines.CleanOrdersKeepsRows | data_cleaning.py:399-419 | `clean_orders_data` keeps every row in place, removes the five columns, renders the four key columns as strings and leaves every other cell |
| Pipelines.OrderRow | data_cleaning.py:409-418 | the orders steps on one row: exactly the five dropped columns are removed |
| Pipelines.CleanOrders | data_cleaning.py:399-419 | `clean_orders_data` on a frame: one row per input row, each without the five dropped columns |
| Pipelines.CheckTimePeriod | data_cleaning.py:430-437 | a row with a valid time period is kept as it is, and any other row is blanked |
| Pipelines.ValidTimePeriod | data_cleaning.py:430-437 | the time-period mask: the cell is the text Morning, Midday, Evening or Late_Hours |
| Pipelines.CheckTimePeriods | data_cleaning.py:430-437 | the mask over the frame: one row per input row with the same columns; valid rows are unchanged and no invalid row becomes valid |
| Pipelines.Str | data_cleaning.py:441-445 | `astype("str")` on one cell: text as it is, any other value rendered by the library |
| Pipelines.DatetimeStr | data_cleaning.py:440-448 | the concatenation raises `TypeError` exactly for a timestamp that is neither text nor missing, and is missing exactly when the timestamp is |
| Pipelines.AddDatetime | data_cleaning.py:440-450 | the row gains `datetime_str` and `datetime`, the latter being the former parsed as `%d-%m-%Y %H:%M:%S`; every other cell is unchanged |
| Pipelines.DateDetailRowClean | data_cleaning.py:437-465 | a complete cleaned date-details row has none of the dropped columns, one of the four time periods, a valid UUID and a datetime |
| Pipelines.DateDetailRow | data_cleaning.py:440-462 | the date-details steps after the mask and before the dropna, on one row: exactly the five dropped columns are removed |
| Pipelines.CleanDateDetails | data_cleaning.py:421-466 | `clean_date_details_data` on a frame: a success has at most as many rows as given, each complete |
| Pipelines.CleanDateDetailsSound | data_cleaning.py:421-466 | `clean_date_details_data` raises iff a row with a valid time period has a timestamp that is neither text nor missing; otherwise it keeps exactly the complete cleaned rows, and every kept row is clean |
| Pipelines.DateDetailsRaiseIff | data_cleaning.py:437-448 | `clean_date_details_data` raises exactly when some row with a valid time period has a timestamp that is neither text nor missing (a masked row has a missing timestamp) |
| Pipelines.DateDetailsKeptExactly | data_cleaning.py:437-465 | a success keeps exactly the complete cleaned rows built from the masked rows with their datetime columns |
| Pipelines.DateDetailsKeptClean | data_cleaning.py:437-465 | every row a successful `clean_date_details_data` keeps is a clean date-details row |
| Cleaning.Frame.constructor | data_cleaning.py:80 | a frame holds the given rows: the DataFrame a cleaning method receives |
| Cleaning.Frame.Map | data_cleaning.py:91 | an in-place row-wise rewrite: row k becomes f of the old row k |
| Cleaning.Frame.Apply | data_cleaning.py:142 | `df[column] = df[column].apply(f)` in place |
| Cleaning.Frame.Column | data_cleaning.py:94-95 | reading a column gives row k's cell at position k |
| Cleaning.Frame.SetColumn | data_cleaning.py:103 | assigning a column sets row k's cell to the k-th value and changes nothing else |
| Cleaning.Frame.MaskRows | data_cleaning.py:437 | `df.loc[~mask] = pd.NA` in place blanks exactly the unmasked rows |
| Cleaning.Frame.Copied | data_cleaning.py:116 | a fresh frame with every row rewritten, the receiver unchanged |
| Cleaning.Frame.Drop | data_cleaning.py:199 | `drop(columns=...)` gives a fresh frame without those columns |
| Cleaning.Frame.AsType | data_cleaning.py:116-127 | `astype` gives a fresh frame with the listed columns rendered as strings |
| Cleaning.Frame.Replace | data_cleaning.py:139 | `replace(a, b)` gives a fresh frame with every `a` cell replaced |
| Cleaning.Frame.Where | data_cleaning.py:268 | the loop builds exactly the filtered rows, in order |
| Cleaning.Frame.DropNA | data_cleaning.py:165 | the loop builds exactly `dropna(how='any')` of the rows |
| Cleaning.MapCells | data_cleaning.py:91 | `Series.apply` gives f of every cell, in order |
| Cleaning.FillMissing | data_cleaning.py:98-101 | the masked assignment rewrites exactly the cells whose parsed partner is missing and keeps the others |
| Cleaning.CombineCells | data_cleaning.py:103 | `combine_first` keeps each cell unless it is missing, where it takes the partner's value |
| Cleaning.ApplyAll | data_cleaning.py:196 | the loop computes the row-wise apply, stopping at the first error |
| Cleaning.DataCleaning.constructor | data_cleaning.py:11-22 | the cleaner keeps the given library; the formats are the constants of `__init__` |
| Cleaning.DataCleaning.ParseMultipleDateFormats | data_cleaning.py:80-104 | the caller's frame has the named column rewritten by the four passes, and nothing else changes |
| Cleaning.DataCleaning.CleanUserData | data_cleaning.py:106-167 | a fresh frame holding the users pipeline's rows |
| Cleaning.DataCleaning.CleanCardData | data_cleaning.py:186-221 | the cards pipeline's error or rows, `ValueError` for a frame with no rows; on success the caller's frame holds the extracted number and expiry columns, and on error it is unchanged |
| Cleaning.DataCleaning.CleanCardColumns | data_cleaning.py:199-220 | the card steps after the extraction, then dropna |
| Cleaning.DataCleaning.CleanStoreColumns | data_cleaning.py:233-261 | a fresh frame holding every store row converted, before any row is filtered |
| Cleaning.DataCleaning.CleanStoreData | data_cleaning.py:223-278 | a fresh frame holding the stores pipeline's rows |
| Cleaning.DataCleaning.CleanProductsData | data_cleaning.py:345-397 | the products pipeline's error or rows; the caller's frame is not touched |
| Cleaning.DataCleaning.CleanProductColumns | data_cleaning.py:364-395 | the product steps after the weights, then dropna |
| Cleaning.DataCleaning.CleanOrdersData | data_cleaning.py:399-419 | a fresh frame holding the orders pipeline's rows |
| Cleaning.DataCleaning.CleanDateDetailsData | data_cleaning.py:421-466 | the date-details pipeline's error or rows; the caller's frame keeps the blanked rows, and on success also the two added columns |

## Left out

- I/O and diagnostics are not modelled: the `print` calls at data_cleaning.py:357-358 and 391-392, the `__main__` block, and the extractor and database connector modules.
- dateutil, `strptime`-style formats, `str()` rendering, `pd.to_numeric` and `phonenumbers` are given functions of `Library`. Their internals are not modelled.
- Floating point is modelled as exact `real` arithmetic. `is_integer()` is exact integrality, and `Times` is exact multiplication.
- Regex classes are ASCII. Unicode `\d`, letters and whitespace are not modelled.
- pandas dtypes (`Int64`, `float`, `Float64`, `boolean`, `int64`) are not modelled beyond the cell's kind.
- `replace([None], pd.NA)` at line 236 is the identity, because `None` and NA are the same `Missing`.
- `replace('', pd.NA, regex=True)` is a literal replacement of the empty string. pandas does not use a regex for an empty pattern.
- Index labels and index alignment (in `combine_first`, `loc` and boolean masks) are not modelled. Rows are identified by position.
- Phone.ParsePhoneNumber: modelled on its own. Its call in `clean_user_data` is commented out in the source (lines 149-152), so no pipeline uses it.
- Pipelines.KeepStore: a missing `store_type` makes `== "Web Portal"` NA, and NA in a boolean mask counts as false. The Web Portal exception therefore applies only to the literal text.
- Missing columns: pandas raises `KeyError` or `AttributeError` when a frame lacks a column the cleaner names. The model raises neither. Some members require columns of every row: the card input columns (`Pipelines.CleanCards`, `Pipelines.CleanCardsSound`, `Cleaning.DataCleaning.CleanCardData`); `weight` (`Pipelines.ProductWeight`'s row form `Pipelines.WeighRow`, `Pipelines.ConvertWeights`, `Pipelines.CleanProducts`, `Pipelines.CleanProductsSound`, `Cleaning.DataCleaning.CleanProductsData`); the date-details columns (`Pipelines.CleanDateDetails`, `Pipelines.CleanDateDetailsSound`, `Cleaning.DataCleaning.CleanDateDetailsData`); and the column `Cleaning.DataCleaning.ParseMultipleDateFormats` parses, hence the date columns of `CleanUserData`, `CleanCardData`, `CleanStoreData` and `CleanProductsData`. Every other step on an absent column leaves the row as it is (`Table.SetCell`), so `Pipelines.CleanUsers`, `Pipelines.CleanStores` and `Pipelines.CleanOrders` accept frames without their columns. `Pipelines.CleanUser` states column facts only for rows that carry the user schema, and promises nothing about the columns of other rows.
- Dates.TryParseDate: the source catches only `ParserError` (data_cleaning.py:75-78), so an `OverflowError` or other exception from dateutil escapes `try_parse_date` and the pipeline. The model's `Library.parseDate` returns a date or `None` and never raises, so that escape is not modelled.
- Dates.AsNs: seconds are whole, so the range's ends are rounded inward to the second; time zones are not modelled.
- Dates.ToDatetime: a number or boolean cell gives missing. pandas would read a number as an epoch offset or render it as text and may parse it. After `try_parse_date` a date column holds only datetimes and missing cells, so this matters only for the card `expiry_date` column (data_cleaning.py:212-214).
