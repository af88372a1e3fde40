/** Byte strings and optional values shared by the other modules. */
module Types {

  /** One octet. PHP strings are byte strings; so are keys, IVs, ciphertexts and MACs. */
  type Byte = b: int | 0 <= b < 256

  type Bytes = seq<Byte>

  /** A value that may be missing; PHP functions that return `false` on failure map to None. */
  datatype Option<+T> = None | Some(value: T)
}
