/** The values that flow through the cell-classification pipeline. */
module Fields {

  /** A raw octet of the input file. */
  newtype byte = b: int | 0 <= b < 0x100

  /** The coarse type inferred for a non-null cell. */
  datatype Field = Unknown | String | Integer | Float

  /** The optional value used for a classification result: `None` is an explicit null cell. */
  datatype Option<+T> = None | Some(value: T)

  /** The literal marker text that denotes an explicit null cell (case-sensitive, never trimmed). */
  const NullMarker: string := "NULL"
}
