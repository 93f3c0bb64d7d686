/** A value converter, abstracted from the `IConverter<T>` interface: how
    to parse a raw field string (failure is `None`, where the .NET
    `TryParse` wrappers return false), the type's fallback value, and how to
    format a value back into a raw string. */
module Converters {
  import opened Wrappers

  datatype Converter<!T> = Converter(
    defaultName: string,
    parse: string -> Option<T>,
    defaultValue: T,
    format: T -> string)
  {
    /** What parsing `raw` yields for a caller: the parsed value, or the
        converter's default value when parsing fails. */
    function ParseOrDefault(raw: string): T {
      parse(raw).GetOr(defaultValue)
    }
  }
}
