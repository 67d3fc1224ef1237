/** The records the wishing-tree board stores and passes around. */
module Records {

  datatype Option<+T> = None | Some(value: T)

  /** A wish hung on one slot of the tree. `id` is assigned by the
      persistence service and is absent on the copy created locally at
      submit time. The open-ended extra fields of the stored row are not
      part of the model. */
  datatype Wish = Wish(
    id: Option<int>,
    message: string,
    author: string,
    color: string,
    grid_row: int,
    grid_col: int)

  /** A position on the board: a row and a column offset within the row. */
  datatype Slot = Slot(row: int, col: int)
}
