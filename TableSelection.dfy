/**
 * The table's selection rules: membership by row-key equality, the new
 * selection after a row click or a select-all click, and the "all
 * selected" test of the header checkbox.
 */
module TableSelection {
  import opened Wrappers
  import opened Types

  /** Some row of `rows` has the row-key value `kv` (`rows.some(...)`). */
  function HasKey(rows: seq<Row>, rowKey: string, kv: Option<int>): (r: bool)
    ensures r <==> exists i :: 0 <= i < |rows| && Cell(rows[i], rowKey) == kv
  {
    if rows == [] then false
    else if Cell(rows[0], rowKey) == kv then true
    else
      var r := HasKey(rows[1..], rowKey, kv);
      assert r ==> var i :| 0 <= i < |rows| - 1 && Cell(rows[1..][i], rowKey) == kv;
                   Cell(rows[i + 1], rowKey) == kv;
      assert (exists i :: 0 <= i < |rows| && Cell(rows[i], rowKey) == kv) ==>
             var i :| 0 <= i < |rows| && Cell(rows[i], rowKey) == kv;
             i > 0 && Cell(rows[1..][i - 1], rowKey) == kv;
      r
  }

  /** The rows whose row-key value is not `kv`, in order (`rows.filter(...)`). */
  function WithoutKey(rows: seq<Row>, rowKey: string, kv: Option<int>): (r: seq<Row>)
    ensures !HasKey(r, rowKey, kv)
    ensures |rows| == 1 ==> r == if Cell(rows[0], rowKey) == kv then [] else rows
  {
    if rows == [] then []
    else
      assert rows == [rows[0]] + rows[1..];
      if Cell(rows[0], rowKey) == kv then WithoutKey(rows[1..], rowKey, kv)
      else [rows[0]] + WithoutKey(rows[1..], rowKey, kv)
  }

  /**
   * The filter drops every copy of each row holding `kv` and keeps every
   * copy of each other row.
   */
  lemma {:induction false} WithoutKeyCounts(rows: seq<Row>, rowKey: string, kv: Option<int>)
    ensures forall x :: multiset(WithoutKey(rows, rowKey, kv))[x] ==
                        if Cell(x, rowKey) == kv then 0 else multiset(rows)[x]
  {
    if rows != [] {
      WithoutKeyCounts(rows[1..], rowKey, kv);
      assert rows == [rows[0]] + rows[1..];
    }
  }

  /** One step of the filter: the first row, kept or dropped, then the rest. */
  lemma WithoutKeyStep(rows: seq<Row>, rowKey: string, kv: Option<int>)
    requires rows != []
    ensures WithoutKey(rows, rowKey, kv) ==
      (if Cell(rows[0], rowKey) == kv then [] else [rows[0]]) + WithoutKey(rows[1..], rowKey, kv)
  {
  }

  /**
   * The filter works row by row: filtering a concatenation concatenates the
   * filtered parts, so the rows kept stay in their original order.
   */
  lemma {:induction false} WithoutKeyConcat(a: seq<Row>, b: seq<Row>, rowKey: string, kv: Option<int>)
    ensures WithoutKey(a + b, rowKey, kv) == WithoutKey(a, rowKey, kv) + WithoutKey(b, rowKey, kv)
  {
    if a == [] {
      assert a + b == b;
    } else {
      var ab := a + b;
      assert ab[0] == a[0] && ab[1..] == a[1..] + b;
      WithoutKeyConcat(a[1..], b, rowKey, kv);
      WithoutKeyStep(ab, rowKey, kv);
      WithoutKeyStep(a, rowKey, kv);
      var head := if Cell(a[0], rowKey) == kv then [] else [a[0]];
      assert head + (WithoutKey(a[1..], rowKey, kv) + WithoutKey(b, rowKey, kv)) ==
             (head + WithoutKey(a[1..], rowKey, kv)) + WithoutKey(b, rowKey, kv);
    }
  }

  /** A row is selected when some selected row shares its row key. */
  predicate IsRowSelected(selected: seq<Row>, rowKey: string, row: Row): (r: bool)
    ensures r <==> exists i :: 0 <= i < |selected| && Cell(selected[i], rowKey) == Cell(row, rowKey)
  {
    HasKey(selected, rowKey, Cell(row, rowKey))
  }

  /**
   * The new selection after a click on `row`, or None when the table is
   * not selectable and nothing changes.
   */
  function NextRowSelection(mode: SelectMode, selected: seq<Row>, rowKey: string, row: Row)
    : (r: Option<seq<Row>>)
    ensures r.None? <==> mode == NotSelectable
    ensures mode == Single ==> r == Some([row])
    ensures mode == Multiple && IsRowSelected(selected, rowKey, row) ==>
      r == Some(WithoutKey(selected, rowKey, Cell(row, rowKey))) &&
      forall x :: multiset(r.value)[x] ==
        if Cell(x, rowKey) == Cell(row, rowKey) then 0 else multiset(selected)[x]
    ensures mode == Multiple && !IsRowSelected(selected, rowKey, row) ==>
      r == Some(selected + [row])
  {
    match mode
    case NotSelectable => None
    case Single => Some([row])
    case Multiple =>
      if IsRowSelected(selected, rowKey, row) then
        WithoutKeyCounts(selected, rowKey, Cell(row, rowKey));
        Some(WithoutKey(selected, rowKey, Cell(row, rowKey)))
      else Some(selected + [row])
  }

  /** In single mode a click always leaves exactly one row selected. */
  lemma SingleSelectsOne(selected: seq<Row>, rowKey: string, row: Row)
    ensures var r := NextRowSelection(Single, selected, rowKey, row);
      r.Some? && |r.value| == 1 && IsRowSelected(r.value, rowKey, row)
  {
  }

  /** In multiple mode a click flips whether the clicked row is selected. */
  lemma MultipleToggles(selected: seq<Row>, rowKey: string, row: Row)
    ensures var r := NextRowSelection(Multiple, selected, rowKey, row);
      r.Some? && (IsRowSelected(r.value, rowKey, row) <==> !IsRowSelected(selected, rowKey, row))
  {
    var r := NextRowSelection(Multiple, selected, rowKey, row).value;
    if !IsRowSelected(selected, rowKey, row) {
      assert Cell(r[|r| - 1], rowKey) == Cell(row, rowKey);
    }
  }

  /** Removing a key that only the appended row holds gives back the prefix. */
  lemma {:induction false} WithoutAppended(selected: seq<Row>, rowKey: string, row: Row)
    requires !HasKey(selected, rowKey, Cell(row, rowKey))
    ensures WithoutKey(selected + [row], rowKey, Cell(row, rowKey)) == selected
  {
    var kv := Cell(row, rowKey);
    if selected == [] {
      assert [row][1..] == [];
    } else {
      var s := selected + [row];
      assert s[0] == selected[0] && s[1..] == selected[1..] + [row];
      assert Cell(selected[0], rowKey) != kv;
      assert !HasKey(selected[1..], rowKey, kv) by {
        forall i | 0 <= i < |selected| - 1 ensures Cell(selected[1..][i], rowKey) != kv {
          assert selected[1..][i] == selected[i + 1];
        }
      }
      WithoutAppended(selected[1..], rowKey, row);
      assert selected == [selected[0]] + selected[1..];
    }
  }

  /**
   * In multiple mode, clicking an unselected row twice restores the
   * selection exactly.
   */
  lemma SelectTwiceRestores(selected: seq<Row>, rowKey: string, row: Row)
    requires !IsRowSelected(selected, rowKey, row)
    ensures var once := NextRowSelection(Multiple, selected, rowKey, row).value;
      NextRowSelection(Multiple, once, rowKey, row) == Some(selected)
  {
    var once := selected + [row];
    assert Cell(once[|once| - 1], rowKey) == Cell(row, rowKey);
    WithoutAppended(selected, rowKey, row);
  }

  /**
   * The new selection after a click on the header checkbox, or None outside
   * multiple mode: empty when the lengths match, else a copy of the data.
   */
  function NextSelectAll(mode: SelectMode, selected: seq<Row>, data: seq<Row>): (r: Option<seq<Row>>)
    ensures r.None? <==> mode != Multiple
    ensures r.Some? ==> (r.value == [] <==> |selected| == |data| || data == [])
    ensures r.Some? && r.value != [] ==> r.value == data
  {
    if mode != Multiple then None
    else if |selected| == |data| then Some([])
    else Some(data)
  }

  /**
   * The header checkbox is checked (`isAllSelected`): only in multiple mode
   * over non-empty data, with as many rows selected as there are rows; a
   * click on a checked box clears the selection.
   */
  predicate AllSelected(mode: SelectMode, selected: seq<Row>, data: seq<Row>): (checked: bool)
    ensures checked ==> mode == Multiple && data != [] && |selected| == |data|
    ensures mode == Multiple && data != [] && |selected| == |data| ==> checked
    ensures checked ==> NextSelectAll(mode, selected, data) == Some([])
  {
    mode == Multiple && |selected| == |data| && |data| > 0
  }

  /** Over non-empty data, a select-all click flips the header checkbox. */
  lemma SelectAllFlips(selected: seq<Row>, data: seq<Row>)
    ensures var r := NextSelectAll(Multiple, selected, data);
      r.Some? &&
      (AllSelected(Multiple, r.value, data) <==> data != [] && !AllSelected(Multiple, selected, data))
  {
  }

  /** No two rows share a row-key value. */
  predicate KeysDistinct(s: seq<Row>, rowKey: string) {
    s == [] || (!HasKey(s[1..], rowKey, Cell(s[0], rowKey)) && KeysDistinct(s[1..], rowKey))
  }

  /**
   * The selection invariant of a table over fixed data: the selected rows
   * have distinct keys, each the key of some data row.
   */
  predicate SelectionConsistent(selected: seq<Row>, data: seq<Row>, rowKey: string) {
    KeysDistinct(selected, rowKey) &&
    forall i :: 0 <= i < |selected| ==> HasKey(data, rowKey, Cell(selected[i], rowKey))
  }

  /** The set of row-key values of `s`. */
  function KeySet(s: seq<Row>, rowKey: string): (r: set<Option<int>>)
    ensures forall kv :: kv in r <==> HasKey(s, rowKey, kv)
  {
    if s == [] then {}
    else {Cell(s[0], rowKey)} + KeySet(s[1..], rowKey)
  }

  /** With distinct keys there are as many key values as rows. */
  lemma {:induction false} DistinctKeyCount(s: seq<Row>, rowKey: string)
    requires KeysDistinct(s, rowKey)
    ensures |KeySet(s, rowKey)| == |s|
  {
    if s != [] {
      DistinctKeyCount(s[1..], rowKey);
      assert Cell(s[0], rowKey) !in KeySet(s[1..], rowKey);
    }
  }

  /** A subset as large as its superset is the whole of it. */
  lemma SubsetOfSameSize(a: set<Option<int>>, b: set<Option<int>>)
    requires a <= b && |a| == |b|
    ensures a == b
  {
    assert b == a + (b - a);
    assert |b| == |a| + |b - a|;
  }

  /**
   * Under the selection invariant over data with distinct keys, the length
   * test of `isAllSelected` is exact: the lengths match if and only if
   * every data row is selected.
   */
  lemma LengthTestExact(selected: seq<Row>, data: seq<Row>, rowKey: string)
    requires KeysDistinct(data, rowKey)
    requires SelectionConsistent(selected, data, rowKey)
    ensures |selected| == |data| <==>
      forall j :: 0 <= j < |data| ==> IsRowSelected(selected, rowKey, data[j])
  {
    var a, b := KeySet(selected, rowKey), KeySet(data, rowKey);
    DistinctKeyCount(selected, rowKey);
    DistinctKeyCount(data, rowKey);
    SelectedKeysWithin(selected, data, rowKey);
    if |selected| == |data| {
      SubsetOfSameSize(a, b);
      SelectedByKeySet(selected, data, rowKey);
    }
    if forall j :: 0 <= j < |data| ==> IsRowSelected(selected, rowKey, data[j]) {
      KeySetOfSelected(selected, data, rowKey);
      assert a == b;
    }
  }

  /** Every data row whose key is a selected key is selected. */
  lemma SelectedByKeySet(selected: seq<Row>, data: seq<Row>, rowKey: string)
    requires KeySet(data, rowKey) <= KeySet(selected, rowKey)
    ensures forall j :: 0 <= j < |data| ==> IsRowSelected(selected, rowKey, data[j])
  {
  }

  /** When every data row is selected, every data key is a selected key. */
  lemma KeySetOfSelected(selected: seq<Row>, data: seq<Row>, rowKey: string)
    requires forall j :: 0 <= j < |data| ==> IsRowSelected(selected, rowKey, data[j])
    ensures KeySet(data, rowKey) <= KeySet(selected, rowKey)
  {
  }

  /** Under the selection invariant, every selected key is a data key. */
  lemma SelectedKeysWithin(selected: seq<Row>, data: seq<Row>, rowKey: string)
    requires SelectionConsistent(selected, data, rowKey)
    ensures KeySet(selected, rowKey) <= KeySet(data, rowKey)
  {
  }

  /** Appending a row with a fresh key keeps the keys distinct. */
  lemma {:induction false} AppendKeepsDistinct(s: seq<Row>, rowKey: string, row: Row)
    requires KeysDistinct(s, rowKey)
    requires !HasKey(s, rowKey, Cell(row, rowKey))
    ensures KeysDistinct(s + [row], rowKey)
  {
    if s != [] {
      var t := s + [row];
      assert t[0] == s[0] && t[1..] == s[1..] + [row];
      assert !HasKey(s[1..], rowKey, Cell(row, rowKey)) by {
        forall i | 0 <= i < |s| - 1 ensures Cell(s[1..][i], rowKey) != Cell(row, rowKey) {
          assert s[1..][i] == s[i + 1];
        }
      }
      AppendKeepsDistinct(s[1..], rowKey, row);
      assert Cell(s[0], rowKey) != Cell(row, rowKey);
      assert !HasKey(t[1..], rowKey, Cell(s[0], rowKey)) by {
        forall i | 0 <= i < |t| - 1 ensures Cell(t[1..][i], rowKey) != Cell(s[0], rowKey) {
          if i < |s| - 1 {
            assert t[1..][i] == s[1..][i];
          }
        }
      }
    }
  }

  /** Filtering out one key keeps the remaining keys distinct. */
  lemma {:induction false} WithoutKeyKeepsDistinct(s: seq<Row>, rowKey: string, kv: Option<int>)
    requires KeysDistinct(s, rowKey)
    ensures KeysDistinct(WithoutKey(s, rowKey, kv), rowKey)
  {
    if s != [] {
      WithoutKeyKeepsDistinct(s[1..], rowKey, kv);
      WithoutKeyCounts(s[1..], rowKey, kv);
      var rest := WithoutKey(s[1..], rowKey, kv);
      if Cell(s[0], rowKey) != kv {
        var r := WithoutKey(s, rowKey, kv);
        assert r == [s[0]] + rest;
        assert r[1..] == rest;
        assert !HasKey(rest, rowKey, Cell(s[0], rowKey)) by {
          forall i | 0 <= i < |rest| ensures Cell(rest[i], rowKey) != Cell(s[0], rowKey) {
            assert rest[i] in multiset(rest);
            assert rest[i] in s[1..];
          }
        }
      }
    }
  }

  /** With distinct keys, no other row shares the key of row `k`. */
  lemma {:induction false} DistinctKeyUnique(s: seq<Row>, rowKey: string, k: int)
    requires KeysDistinct(s, rowKey)
    requires 0 <= k < |s|
    ensures forall j :: 0 <= j < |s| && j != k ==> Cell(s[j], rowKey) != Cell(s[k], rowKey)
  {
    if k == 0 {
      forall j | 0 < j < |s| ensures Cell(s[j], rowKey) != Cell(s[0], rowKey) {
        assert s[1..][j - 1] == s[j];
      }
    } else {
      DistinctKeyUnique(s[1..], rowKey, k - 1);
      assert s[1..][k - 1] == s[k];
      forall j | 0 <= j < |s| && j != k ensures Cell(s[j], rowKey) != Cell(s[k], rowKey) {
        if j > 0 {
          assert s[1..][j - 1] == s[j];
        }
      }
    }
  }

  /** The filter leaves rows that never hold `kv` untouched. */
  lemma {:induction false} WithoutAbsentKey(rows: seq<Row>, rowKey: string, kv: Option<int>)
    requires !HasKey(rows, rowKey, kv)
    ensures WithoutKey(rows, rowKey, kv) == rows
  {
    if rows != [] {
      assert !HasKey(rows[1..], rowKey, kv) by {
        forall i | 0 <= i < |rows| - 1 ensures Cell(rows[1..][i], rowKey) != kv {
          assert rows[1..][i] == rows[i + 1];
        }
      }
      WithoutAbsentKey(rows[1..], rowKey, kv);
      WithoutKeyStep(rows, rowKey, kv);
      assert rows == [rows[0]] + rows[1..];
    }
  }

  /**
   * Over distinct keys, clicking the selected row at position `k` in
   * multiple mode removes exactly that row and keeps the others in order.
   */
  lemma RemoveKeepsOrder(selected: seq<Row>, rowKey: string, row: Row, k: int)
    requires KeysDistinct(selected, rowKey)
    requires 0 <= k < |selected| && Cell(selected[k], rowKey) == Cell(row, rowKey)
    ensures NextRowSelection(Multiple, selected, rowKey, row) == Some(selected[..k] + selected[k + 1..])
  {
    var kv := Cell(row, rowKey);
    var pre, post := selected[..k], selected[k + 1..];
    assert selected == pre + ([selected[k]] + post);
    DistinctKeyUnique(selected, rowKey, k);
    assert !HasKey(pre, rowKey, kv) by {
      forall i | 0 <= i < |pre| ensures Cell(pre[i], rowKey) != kv {
        assert pre[i] == selected[i];
      }
    }
    assert !HasKey(post, rowKey, kv) by {
      forall i | 0 <= i < |post| ensures Cell(post[i], rowKey) != kv {
        assert post[i] == selected[k + 1 + i];
      }
    }
    WithoutKeyConcat(pre, [selected[k]] + post, rowKey, kv);
    WithoutKeyConcat([selected[k]], post, rowKey, kv);
    WithoutAbsentKey(pre, rowKey, kv);
    WithoutAbsentKey(post, rowKey, kv);
    assert WithoutKey([selected[k]], rowKey, kv) == [];
    assert pre + ([] + post) == pre + post;
  }

  /**
   * A row click on a row of the data keeps the selection invariant, in
   * every mode.
   */
  lemma RowSelectionConsistent(mode: SelectMode, selected: seq<Row>, data: seq<Row>, rowKey: string, row: Row)
    requires SelectionConsistent(selected, data, rowKey)
    requires row in data
    ensures var r := NextRowSelection(mode, selected, rowKey, row);
      r.Some? ==> SelectionConsistent(r.value, data, rowKey)
  {
    var j :| 0 <= j < |data| && data[j] == row;
    assert HasKey(data, rowKey, Cell(row, rowKey));
    var r := NextRowSelection(mode, selected, rowKey, row);
    if mode == Single {
      assert [row][1..] == [];
    } else if mode == Multiple {
      if IsRowSelected(selected, rowKey, row) {
        var w := r.value;
        WithoutKeyKeepsDistinct(selected, rowKey, Cell(row, rowKey));
        forall i | 0 <= i < |w| ensures HasKey(data, rowKey, Cell(w[i], rowKey)) {
          assert w[i] in multiset(w);
          var k :| 0 <= k < |selected| && selected[k] == w[i];
        }
      } else {
        AppendKeepsDistinct(selected, rowKey, row);
      }
    }
  }

  /** A select-all click keeps the selection invariant over distinct data. */
  lemma SelectAllConsistent(selected: seq<Row>, data: seq<Row>, rowKey: string)
    requires KeysDistinct(data, rowKey)
    ensures var r := NextSelectAll(Multiple, selected, data);
      SelectionConsistent(r.value, data, rowKey)
  {
  }
}
