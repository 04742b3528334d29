/** Row records: the plain objects the grid is given as rows, modelled as
    maps from column id to the cell's text. */
module Records {
  import opened Optional

  type Record = map<string, string>

  /** `record[col]`: the field's text, or `None` for `undefined`. */
  function Field(r: Record, col: string): (f: Option<string>)
    ensures f.Some? <==> col in r
    ensures f.Some? ==> f.value == r[col]
  {
    if col in r then Some(r[col]) else None
  }

  /** `record[col] || ''`, the text a new cell is created with: the field's
      text, and the empty string when the field is missing. */
  function CellValue(r: Record, col: string): (v: string)
    ensures col in r ==> v == r[col]
    ensures col !in r ==> v == ""
  {
    match Field(r, col)
    case Some(s) => s
    case None => ""
  }
}
