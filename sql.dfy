/** Bound parameters of a prepared statement and the `?` placeholders that receive them. */
module Sql {
  import opened JsString

  /** A value handed to `pool.execute` in the parameter list. */
  datatype Param = Text(s: string) | Int(i: int) | Bool(b: bool)

  /** Number of `?` placeholders in a statement text. */
  function Placeholders(query: string): nat {
    Count(query, '?')
  }
}
