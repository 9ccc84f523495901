/**
 * The table's sort state and the sorted copy of the rows it derives: the
 * three-way comparator on one column's values, a stable sort, and the
 * header-click transition of the sort configuration.
 */
module TableSort {
  import opened Wrappers
  import opened Types

  datatype Direction = Ascending | Descending

  /** The active sort: the key of the clicked column and the direction. */
  datatype SortConfig = SortConfig(key: string, direction: Direction)

  /**
   * JavaScript's `<` on two cell values: `undefined` compares false against
   * anything, so two values are ordered only when both are present.
   */
  predicate Less(x: Option<int>, y: Option<int>): (lt: bool)
    ensures lt ==> x.Some? && y.Some? && x != y
    ensures x.Some? && y.Some? ==> (lt <==> x.value < y.value)
    ensures x.None? || y.None? ==> !lt
  {
    x.Some? && y.Some? && x.value < y.value
  }

  /**
   * `<` on cell values is a strict order: irreflexive, asymmetric and
   * transitive, and two present values are equal or ordered one way.
   */
  lemma LessIsStrict(x: Option<int>, y: Option<int>, z: Option<int>)
    ensures !Less(x, x)
    ensures Less(x, y) ==> !Less(y, x)
    ensures Less(x, y) && Less(y, z) ==> Less(x, z)
    ensures x.Some? && y.Some? ==> Less(x, y) || Less(y, x) || x == y
  {
  }

  /** The comparator handed to the sort: negative puts `a` first. */
  function Compare(cfg: SortConfig, a: Row, b: Row): (r: int)
    ensures r == -1 || r == 0 || r == 1
    ensures r == 0 <==> !(cfg.key in a && cfg.key in b) || a[cfg.key] == b[cfg.key]
    ensures r < 0 <==> cfg.key in a && cfg.key in b &&
                       (if cfg.direction == Ascending then a[cfg.key] < b[cfg.key]
                        else a[cfg.key] > b[cfg.key])
  {
    var av := Cell(a, cfg.key);
    var bv := Cell(b, cfg.key);
    if Less(av, bv) then (if cfg.direction == Ascending then -1 else 1)
    else if Less(bv, av) then (if cfg.direction == Ascending then 1 else -1)
    else 0
  }

  /** `a` must be placed strictly before `b`. */
  predicate Before(cfg: SortConfig, a: Row, b: Row) {
    Compare(cfg, a, b) < 0
  }

  /** No two neighbours are in the wrong order for the comparator. */
  predicate NoInversion(cfg: SortConfig, s: seq<Row>) {
    forall i :: 0 <= i < |s| - 1 ==> !Before(cfg, s[i + 1], s[i])
  }

  /**
   * Inserts `x` in front of the first row it need not follow; the rows it
   * passes are exactly those the comparator puts strictly before it.
   */
  function Insert(cfg: SortConfig, x: Row, t: seq<Row>): (r: seq<Row>)
    ensures |r| == |t| + 1
    ensures multiset(r) == multiset(t) + multiset{x}
    ensures r[0] == x || (t != [] && r[0] == t[0])
    ensures NoInversion(cfg, t) ==> NoInversion(cfg, r)
  {
    if t == [] || !Before(cfg, t[0], x) then [x] + t
    else
      assert t == [t[0]] + t[1..];
      [t[0]] + Insert(cfg, x, t[1..])
  }

  /**
   * The sort run on the copy of the rows: a stable insertion sort by the
   * comparator. Any correct sort would do; this one fixes the order of
   * rows the comparator calls equal.
   */
  function SortRows(cfg: SortConfig, s: seq<Row>): (r: seq<Row>)
    ensures |r| == |s|
    ensures multiset(r) == multiset(s)
    ensures NoInversion(cfg, r)
  {
    if s == [] then []
    else
      assert s == [s[0]] + s[1..];
      Insert(cfg, s[0], SortRows(cfg, s[1..]))
  }

  /** The rows displayed: `data` itself without a sort, else its sorted copy. */
  function SortedData(data: seq<Row>, cfg: Option<SortConfig>): (r: seq<Row>)
    ensures cfg.None? ==> r == data
    ensures multiset(r) == multiset(data)
    ensures cfg.Some? ==> NoInversion(cfg.value, r)
  {
    match cfg
    case None => data
    case Some(c) => SortRows(c, data)
  }

  /**
   * Neighbouring displayed rows that both hold the sort attribute are
   * non-decreasing in it when ascending and non-increasing when descending.
   */
  lemma SortedDataAdjacent(data: seq<Row>, cfg: SortConfig, i: int)
    requires 0 <= i < |data| - 1
    requires var r := SortedData(data, Some(cfg));
      cfg.key in r[i] && cfg.key in r[i + 1]
    ensures var r := SortedData(data, Some(cfg));
      if cfg.direction == Ascending then r[i][cfg.key] <= r[i + 1][cfg.key]
      else r[i][cfg.key] >= r[i + 1][cfg.key]
  {
  }

  /** Every row holds the attribute `attr`. */
  predicate AllHold(s: seq<Row>, attr: string) {
    forall x :: x in s ==> attr in x
  }

  /** `a` may come before `b`: both hold the sort attribute, in order. */
  predicate InOrder(cfg: SortConfig, a: Row, b: Row) {
    cfg.key in a && cfg.key in b &&
    (if cfg.direction == Ascending then a[cfg.key] <= b[cfg.key] else a[cfg.key] >= b[cfg.key])
  }

  /** Every pair of rows, not only neighbours, is in order. */
  predicate Ordered(cfg: SortConfig, s: seq<Row>) {
    forall i, j :: 0 <= i < j < |s| ==> InOrder(cfg, s[i], s[j])
  }

  /** With the attribute present everywhere, no inversion means sorted. */
  lemma {:induction false} NoInversionOrdered(cfg: SortConfig, s: seq<Row>)
    requires AllHold(s, cfg.key)
    requires NoInversion(cfg, s)
    ensures Ordered(cfg, s)
  {
    if |s| > 1 {
      var t := s[1..];
      assert AllHold(t, cfg.key) by {
        forall x | x in t ensures cfg.key in x { assert x in s; }
      }
      assert NoInversion(cfg, t) by {
        forall i | 0 <= i < |t| - 1 ensures !Before(cfg, t[i + 1], t[i]) {
          assert t[i] == s[i + 1] && t[i + 1] == s[i + 2];
        }
      }
      NoInversionOrdered(cfg, t);
      assert s[0] in s && s[1] in s;
      assert InOrder(cfg, s[0], s[1]);
      forall i, j | 0 <= i < j < |s| ensures InOrder(cfg, s[i], s[j]) {
        if i == 0 && j > 1 {
          assert InOrder(cfg, t[0], t[j - 1]);
        } else if i > 0 {
          assert InOrder(cfg, t[i - 1], t[j - 1]);
        }
      }
    }
  }

  /**
   * When every row holds the sort attribute, the displayed rows are sorted
   * ascending or descending as configured.
   */
  lemma SortedDataOrdered(data: seq<Row>, cfg: SortConfig)
    requires AllHold(data, cfg.key)
    ensures Ordered(cfg, SortedData(data, Some(cfg)))
  {
    var r := SortedData(data, Some(cfg));
    forall x | x in r ensures cfg.key in x {
      assert x in multiset(r);
    }
    NoInversionOrdered(cfg, r);
  }

  /** The rows, in order, whose attribute `attr` reads as `v`. */
  function RowsWithValue(s: seq<Row>, attr: string, v: Option<int>): (r: seq<Row>)
    ensures |r| <= |s|
    ensures forall x :: x in r ==> x in s && Cell(x, attr) == v
  {
    if s == [] then []
    else if Cell(s[0], attr) == v then [s[0]] + RowsWithValue(s[1..], attr, v)
    else RowsWithValue(s[1..], attr, v)
  }

  /** Inserting `x` puts it ahead of every row with the same sort value. */
  lemma {:induction false} InsertStable(cfg: SortConfig, x: Row, t: seq<Row>, v: Option<int>)
    ensures RowsWithValue(Insert(cfg, x, t), cfg.key, v) ==
      (if Cell(x, cfg.key) == v then [x] + RowsWithValue(t, cfg.key, v)
       else RowsWithValue(t, cfg.key, v))
  {
    var r := Insert(cfg, x, t);
    if t == [] || !Before(cfg, t[0], x) {
      assert r[0] == x && r[1..] == t;
    } else {
      InsertStable(cfg, x, t[1..], v);
      assert r[0] == t[0] && r[1..] == Insert(cfg, x, t[1..]);
      assert Cell(t[0], cfg.key) != Cell(x, cfg.key);
    }
  }

  /**
   * The sort is stable: the rows sharing any one sort value appear in the
   * same relative order before and after sorting.
   */
  lemma {:induction false} SortStable(cfg: SortConfig, s: seq<Row>, v: Option<int>)
    ensures RowsWithValue(SortRows(cfg, s), cfg.key, v) == RowsWithValue(s, cfg.key, v)
  {
    if s != [] {
      SortStable(cfg, s[1..], v);
      InsertStable(cfg, s[0], SortRows(cfg, s[1..]), v);
    }
  }

  /**
   * A header click: nothing changes on a non-sortable column; otherwise the
   * clicked column becomes the sort key, descending only when it was
   * already the key and ascending.
   */
  function NextSort(cfg: Option<SortConfig>, key: string, sortable: bool): (r: Option<SortConfig>)
    ensures !sortable ==> r == cfg
    ensures sortable ==> r.Some? && r.value.key == key
    ensures sortable ==>
      (r.value.direction == Descending <==> cfg == Some(SortConfig(key, Ascending)))
  {
    if !sortable then cfg
    else if cfg.Some? && cfg.value.key == key && cfg.value.direction == Ascending then
      Some(SortConfig(key, Descending))
    else Some(SortConfig(key, Ascending))
  }

  /**
   * Clicks on one sortable column cycle ascending, descending, ascending,
   * whatever the configuration before the first click.
   */
  lemma ClickCycle(cfg: Option<SortConfig>, key: string)
    ensures NextSort(cfg, key, true) == Some(SortConfig(key, Ascending)) ||
            cfg == Some(SortConfig(key, Ascending))
    ensures var once := NextSort(Some(SortConfig(key, Ascending)), key, true);
      once == Some(SortConfig(key, Descending)) &&
      NextSort(once, key, true) == Some(SortConfig(key, Ascending))
  {
  }

  /** Clicking a column other than the sort key sorts ascending on it. */
  lemma OtherColumnResets(cfg: Option<SortConfig>, key: string)
    requires cfg.None? || cfg.value.key != key
    ensures NextSort(cfg, key, true) == Some(SortConfig(key, Ascending))
  {
  }

  /** The header arrow of one column. */
  datatype Indicator = NoArrow | IdleArrow | UpArrow | DownArrow

  /**
   * Sortable columns carry an arrow: up or down on the active sort key,
   * a faded one elsewhere.
   */
  function HeaderIndicator(cfg: Option<SortConfig>, column: Column): (r: Indicator)
    ensures r == NoArrow <==> !column.sortable
    ensures r == UpArrow <==> column.sortable && cfg == Some(SortConfig(column.key, Ascending))
    ensures r == DownArrow <==> column.sortable && cfg == Some(SortConfig(column.key, Descending))
  {
    if !column.sortable then NoArrow
    else match cfg
      case Some(SortConfig(key, direction)) =>
        if key != column.key then IdleArrow
        else (match direction
          case Ascending => UpArrow
          case Descending => DownArrow)
      case None => IdleArrow
  }

  /**
   * After a click on a sortable column, that column's arrow is active and
   * every sortable column with another key shows the faded arrow.
   */
  lemma ClickMovesArrow(cfg: Option<SortConfig>, clicked: Column, other: Column)
    requires clicked.sortable && other.sortable && other.key != clicked.key
    ensures var next := NextSort(cfg, clicked.key, true);
      HeaderIndicator(next, clicked) in {UpArrow, DownArrow} &&
      HeaderIndicator(next, other) == IdleArrow
  {
  }
}
