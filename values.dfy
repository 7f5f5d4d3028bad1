/**
 * The values the packet and its decoders pass around: PHP arrays with
 * string keys, the entries they hold, and the packet's parsed head.
 */
module Values {
  import opened Bytes

  datatype Option<T> = None | Some(value: T)

  /** A value stored in a head or attribute map. */
  datatype Value = Num(n: int) | Raw(bytes: seq<byte>) | Text(s: string)

  /** A PHP array with string keys, as threaded between decoders. */
  type Context = map<string, Value>

  /** The packet's parsed head: an array, or `false` for an empty record. */
  datatype Head = NoHead | Fields(fields: Context)
}
