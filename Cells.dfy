/** The value held by one spreadsheet cell. */
module Cells {

  datatype Option<+T> = None | Some(value: T)

  /** A cell is missing (`pd.NA`, `np.nan`, `None`), a number, or text. A number stands for an
      `int` or a `float` alike: the two kinds are not told apart, so equal values print alike. */
  datatype Cell = Missing | Num(r: real) | Str(s: string)

  /** Python's `str()` of a present cell. The text of a number is whatever `render` gives for it,
      since the float-to-text conversion is not part of this model. */
  function TextOf(c: Cell, render: real -> string): string
    requires !c.Missing?
  {
    match c
    case Num(x) => render(x)
    case Str(s) => s
  }
}
