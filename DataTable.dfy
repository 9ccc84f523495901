/**
 * The table widget: its property set, its two pieces of local state (the
 * selection and the sort configuration), the three click handlers that
 * replace them, and the views derived from them.
 */
module DataTable {
  import opened Wrappers
  import opened Types
  import opened TableSort
  import opened TableSelection

  /** Which of the three rendering branches is taken. */
  datatype TableView = LoadingView | EmptyView | RowsView(rows: seq<Row>)

  /**
   * Loading wins over empty, and both win over the table body, whose rows
   * are the displayed (possibly sorted) copy of the data.
   */
  function ViewOf(props: TableProps, cfg: Option<SortConfig>): (v: TableView)
    ensures v == LoadingView <==> props.loading
    ensures v == EmptyView <==> !props.loading && props.data == []
    ensures v.RowsView? ==> v.rows == SortedData(props.data, cfg) &&
                            multiset(v.rows) == multiset(props.data) && v.rows != []
  {
    if props.loading then LoadingView
    else if props.data == [] then EmptyView
    else RowsView(SortedData(props.data, cfg))
  }

  class DataTable {
    /** The properties of the latest render. */
    var props: TableProps
    /** `selectedRows`, initially empty. */
    var selectedRows: seq<Row>
    /** `sortConfig`, initially absent. */
    var sortConfig: Option<SortConfig>

    /** The first render: no selection and no sort. */
    constructor (p: TableProps)
      ensures props == p && selectedRows == [] && sortConfig == None
      ensures KeysDistinct(p.data, p.rowKey) ==> Consistent()
    {
      props := p;
      selectedRows := [];
      sortConfig := None;
    }

    /** A later render with new properties keeps the local state. */
    method Rerender(p: TableProps)
      modifies this`props
      ensures props == p
    {
      props := p;
    }

    /**
     * The selection invariant over data whose row keys are distinct. The
     * data may change between renders, which can break it.
     */
    ghost predicate Consistent()
      reads this
    {
      KeysDistinct(props.data, props.rowKey) &&
      SelectionConsistent(selectedRows, props.data, props.rowKey)
    }

    /** A click on the header of a column. */
    method HandleSort(key: string, sortable: bool)
      modifies this`sortConfig
      ensures sortConfig == NextSort(old(sortConfig), key, sortable)
      ensures !sortable ==> sortConfig == old(sortConfig)
      ensures sortable ==> sortConfig.Some? && sortConfig.value.key == key
    {
      if !sortable {
        return;
      }
      var direction := Ascending;
      if sortConfig.Some? && sortConfig.value.key == key && sortConfig.value.direction == Ascending {
        direction := Descending;
      }
      sortConfig := Some(SortConfig(key, direction));
    }

    /**
     * A click on a row's checkbox or radio button. `reported` is what the
     * selection-change callback receives, None when it is not invoked.
     */
    method HandleRowSelect(row: Row) returns (reported: Option<seq<Row>>)
      modifies this`selectedRows
      ensures var next := NextRowSelection(props.selectable, old(selectedRows), props.rowKey, row);
        selectedRows == (if next.Some? then next.value else old(selectedRows)) &&
        reported == (if props.hasOnRowSelect then next else None)
      ensures props.selectable == NotSelectable ==> selectedRows == old(selectedRows) && reported.None?
      ensures reported.Some? ==> reported.value == selectedRows
      ensures old(Consistent()) && row in props.data ==> Consistent()
    {
      if props.selectable == NotSelectable {
        return None;
      }
      var newSelectedRows;
      if props.selectable == Single {
        newSelectedRows := [row];
      } else {
        var isSelected := HasKey(selectedRows, props.rowKey, Cell(row, props.rowKey));
        if isSelected {
          newSelectedRows := WithoutKey(selectedRows, props.rowKey, Cell(row, props.rowKey));
        } else {
          newSelectedRows := selectedRows + [row];
        }
      }
      if old(Consistent()) && row in props.data {
        RowSelectionConsistent(props.selectable, selectedRows, props.data, props.rowKey, row);
      }
      selectedRows := newSelectedRows;
      reported := if props.hasOnRowSelect then Some(newSelectedRows) else None;
    }

    /** A click on the header checkbox. */
    method HandleSelectAll() returns (reported: Option<seq<Row>>)
      modifies this`selectedRows
      ensures var next := NextSelectAll(props.selectable, old(selectedRows), props.data);
        selectedRows == (if next.Some? then next.value else old(selectedRows)) &&
        reported == (if props.hasOnRowSelect then next else None)
      ensures props.selectable != Multiple ==> selectedRows == old(selectedRows) && reported.None?
      ensures reported.Some? ==> reported.value == selectedRows
      ensures old(Consistent()) ==> Consistent()
    {
      if props.selectable != Multiple {
        return None;
      }
      var allSelected := |selectedRows| == |props.data|;
      var newSelectedRows := if allSelected then [] else props.data;
      if old(Consistent()) {
        SelectAllConsistent(selectedRows, props.data, props.rowKey);
      }
      selectedRows := newSelectedRows;
      reported := if props.hasOnRowSelect then Some(newSelectedRows) else None;
    }

    /** The rows of the table body, in display order. */
    function Displayed(): (rows: seq<Row>)
      reads this
      ensures multiset(rows) == multiset(props.data)
      ensures sortConfig.None? ==> rows == props.data
      ensures sortConfig.Some? ==> NoInversion(sortConfig.value, rows)
    {
      SortedData(props.data, sortConfig)
    }

    /** Whether `row` is shown as selected. */
    function IsRowSelected(row: Row): (r: bool)
      reads this
      ensures r <==> exists i :: 0 <= i < |selectedRows| &&
                                 Cell(selectedRows[i], props.rowKey) == Cell(row, props.rowKey)
    {
      TableSelection.IsRowSelected(selectedRows, props.rowKey, row)
    }

    /** Whether the header checkbox is checked. */
    function IsAllSelected(): (r: bool)
      reads this
      ensures r <==> props.selectable == Multiple && props.data != [] &&
                     |selectedRows| == |props.data|
    {
      AllSelected(props.selectable, selectedRows, props.data)
    }

    /**
     * While the selection invariant holds, the header checkbox is checked
     * exactly when every data row is selected.
     */
    lemma AllSelectedExact()
      requires Consistent()
      ensures IsAllSelected() <==>
        props.selectable == Multiple && props.data != [] &&
        forall j :: 0 <= j < |props.data| ==> IsRowSelected(props.data[j])
    {
      LengthTestExact(selectedRows, props.data, props.rowKey);
    }
  }
}
