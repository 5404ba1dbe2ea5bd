/** The vocabulary shared by the cleaner: cell values, the exceptions it lets
    escape, and the library calls whose code is not part of this model. */
module Values {

  datatype Option<T> = None | Some(value: T)

  /** A point in time as the date parsers return it. */
  datatype DateTime = DateTime(year: int, month: int, day: int, hour: int, minute: int, second: int)

  /** One cell of a frame. `Missing` is pandas' missing marker (None, NaN, NaT
      and pd.NA alike); every other case is a present value. Python ints and
      floats are both `Number`. */
  datatype Value =
    | Missing
    | Text(text: string)
    | Number(number: real)
    | Stamp(stamp: DateTime)
    | Flag(flag: bool)

  /** The Python exceptions that escape a cleaning call uncaught. */
  datatype Error = ValueError | TypeError | IndexError | AttributeError

  datatype Result<T> = Ok(value: T) | Raised(error: Error)

  /** The calls into other libraries, taken as given functions. */
  datatype Library = Library(
    // dateutil.parser.parse on one string; None where it raises ParserError
    // (no other exception of dateutil is modelled)
    parseDate: string -> Option<DateTime>,
    // pd.to_datetime(text, format=fmt, errors="coerce") on one string, as strptime(fmt, text)
    strptime: (string, string) -> Option<DateTime>,
    // str() of a value that is not a string, as astype("string") and astype("str") render it
    show: Value -> string,
    // pd.to_numeric(value, errors="coerce"); None where it coerces to NaN
    toNumber: Value -> Option<real>,
    // phonenumbers.parse(number, region) followed by format_number(..., INTERNATIONAL);
    // None where parse raises NumberParseException
    formatPhone: (string, Option<string>) -> Option<string>
  )
}
