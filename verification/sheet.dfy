/**
 The shared seminar table: one row per seminar slot, with the name of the
 speaker who claimed it. The table is read and written as a whole.
 */
module Sheet {
  import opened Wrappers

  /** One line of the CSV. A cell that pandas parses as missing (NaN,
      which includes an empty cell) is `None`. */
  datatype Row = Row(date: Option<string>, name: Option<string>)

  /** The whole CSV, in file order. */
  type Table = seq<Row>

  /** The row mask of `load_data`: nobody has claimed the row, and it has a date. */
  predicate Available(row: Row) {
    row.name.None? && row.date.Some?
  }

  /** The row mask of `update_sheet`: the row's date equals the selected
      radio value. A missing date never compares equal, and neither does
      anything when no date is selected. */
  predicate Matches(row: Row, selected: Option<string>) {
    row.date.Some? && selected.Some? && row.date.value == selected.value
  }
}
