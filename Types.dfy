/** The optional value used for JavaScript's `undefined`. */
module Wrappers {
  datatype Option<+T> = None | Some(value: T)
}

/**
 * The shapes the two widgets work on: table rows and columns, the table's
 * property set and the selection mode enumeration.
 */
module Types {
  import opened Wrappers

  /**
   * A table row: an opaque record of named attributes. Attribute values are
   * integers, a totally ordered type; an attribute the row does not hold
   * reads as `undefined`.
   */
  type Row = map<string, int>

  /** `row[attr]`: the attribute's value, or None for `undefined`. */
  function Cell(row: Row, attr: string): (v: Option<int>)
    ensures v.Some? <==> attr in row
    ensures v.Some? ==> v.value == row[attr]
  {
    if attr in row then Some(row[attr]) else None
  }

  /** A column descriptor; the custom cell renderer is not modelled. */
  datatype Column = Column(key: string, title: string, dataIndex: string, sortable: bool)

  /** `selectable`: `false`, `'single'` or `'multiple'`. */
  datatype SelectMode = NotSelectable | Single | Multiple

  /**
   * The table's property set. `hasOnRowSelect` says whether the caller
   * supplied the selection-change callback.
   */
  datatype TableProps = TableProps(
    data: seq<Row>,
    columns: seq<Column>,
    loading: bool,
    selectable: SelectMode,
    hasOnRowSelect: bool,
    rowKey: string)

  /** The row-key attribute used when the caller names none. */
  const DefaultRowKey: string := "id"

  /** The property set with every optional property left at its default. */
  function DefaultTableProps(data: seq<Row>, columns: seq<Column>): (p: TableProps)
    ensures p.data == data && p.columns == columns
    ensures !p.loading && p.selectable == NotSelectable && !p.hasOnRowSelect
    ensures p.rowKey == "id"
  {
    TableProps(data, columns, false, NotSelectable, false, DefaultRowKey)
  }
}
