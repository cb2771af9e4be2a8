/** The sorting behaviour of the demo front-end's generic data table: a per-column sort state that
    each header click advances, and the comparator-driven ordering of the rows under that state. */
module DataTable {
  import opened Wrappers
  import ArraySort

  // ---------------------------------------------------------------- sort state

  datatype Direction = Asc | Desc

  /** `SortState`: no sort (`null`), or a column key with a direction. */
  datatype SortState = Unsorted | SortBy(key: string, direction: Direction)

  /** The `handleSort(key)` transition: a click on the active column goes ascending -> descending -> no sort;
      a click on any other column (or with no sort) starts ascending on that column. */
  function NextSort(prev: SortState, key: string): (next: SortState)
    ensures next == SortBy(key, Asc) <==> !(prev.SortBy? && prev.key == key)
    ensures next == SortBy(key, Desc) <==> prev == SortBy(key, Asc)
    ensures next == Unsorted <==> prev == SortBy(key, Desc)
    ensures next.SortBy? ==> next.key == key
  {
    if prev.SortBy? && prev.key == key then
      match prev.direction
      case Asc => SortBy(key, Desc)
      case Desc => Unsorted
    else
      SortBy(key, Asc)
  }

  /** The state reached from `start` after the header clicks `clicks`, oldest first. */
  function Replay(start: SortState, clicks: seq<string>): SortState {
    if clicks == [] then start else NextSort(Replay(start, clicks[..|clicks| - 1]), clicks[|clicks| - 1])
  }

  /** `n` clicks on the column `key`. */
  function Repeat(key: string, n: nat): (r: seq<string>)
    ensures |r| == n && forall i :: 0 <= i < n ==> r[i] == key
  {
    if n == 0 then [] else Repeat(key, n - 1) + [key]
  }

  /** The state after `n > 0` clicks on `key` when the run started without a sort on `key`. */
  function Phase(key: string, n: nat): SortState {
    if n % 3 == 1 then SortBy(key, Asc) else if n % 3 == 2 then SortBy(key, Desc) else Unsorted
  }

  /** One more click on `key` advances the phase of a run by one. */
  lemma PhaseStep(key: string, n: nat)
    ensures NextSort(Phase(key, n), key) == Phase(key, n + 1)
  {
  }

  /** Replaying two click sequences one after the other is replaying their concatenation. */
  lemma {:induction false} ReplayAppend(start: SortState, c1: seq<string>, c2: seq<string>)
    ensures Replay(start, c1 + c2) == Replay(Replay(start, c1), c2)
  {
    if c2 != [] {
      var c := c1 + c2;
      assert c[..|c| - 1] == c1 + c2[..|c2| - 1];
      assert c[|c| - 1] == c2[|c2| - 1];
      ReplayAppend(start, c1, c2[..|c2| - 1]);
    } else {
      assert c1 + c2 == c1;
    }
  }

  /** A run of clicks on one column cycles with period three: starting from a state that does not sort on
      that column, the run ends ascending, descending or unsorted according to its length modulo 3. */
  lemma {:induction false} ClickCycle(start: SortState, key: string, n: nat)
    requires !(start.SortBy? && start.key == key)
    requires n > 0 || start == Unsorted
    ensures Replay(start, Repeat(key, n)) == Phase(key, n)
  {
    if n > 0 {
      var r := Repeat(key, n);
      assert r[..n - 1] == Repeat(key, n - 1);
      assert Replay(start, r) == NextSort(Replay(start, Repeat(key, n - 1)), key);
      if n > 1 {
        ClickCycle(start, key, n - 1);
        PhaseStep(key, n - 1);
      }
    }
  }

  /** Three clicks on the same column from no sort return to no sort, and no fewer clicks do. */
  lemma ThreeClicksReset(key: string)
    ensures Replay(Unsorted, [key, key, key]) == Unsorted
    ensures Replay(Unsorted, [key]) != Unsorted && Replay(Unsorted, [key, key]) != Unsorted
  {
    assert [key, key, key] == Repeat(key, 3);
    assert [key, key] == Repeat(key, 2);
    assert [key] == Repeat(key, 1);
    ClickCycle(Unsorted, key, 3);
    ClickCycle(Unsorted, key, 2);
    ClickCycle(Unsorted, key, 1);
  }

  /** Only the trailing run of clicks on one column matters: after a click on another column and then
      `n` clicks on `key`, the state is ascending, descending or unsorted by `n` modulo 3, whatever came before. */
  lemma ClicksAfterSwitch(start: SortState, clicks: seq<string>, other: string, key: string, n: nat)
    requires other != key && n > 0
    ensures Replay(start, clicks + [other] + Repeat(key, n)) == Phase(key, n)
  {
    ReplayAppend(start, clicks + [other], Repeat(key, n));
    var mid := Replay(start, clicks + [other]);
    assert (clicks + [other])[..|clicks + [other]| - 1] == clicks;
    ClickCycle(mid, key, n);
  }

  /** The component's sort state cell (`useState<SortState>(null)`) with its click handler. */
  class SortCell {
    var sort: SortState
    /** The header clicks received so far, oldest first. */
    ghost var clicks: seq<string>

    ghost predicate Valid()
      reads this
    {
      sort == Replay(Unsorted, clicks)
    }

    constructor ()
      ensures Valid() && sort == Unsorted && clicks == []
    {
      sort := Unsorted;
      clicks := [];
    }

    /** `handleSort(key)`: `setSort(prev => ...)` applied to the current state. */
    method HandleSort(key: string)
      requires Valid()
      modifies this
      ensures Valid() && clicks == old(clicks) + [key]
      ensures sort == NextSort(old(sort), key)
    {
      sort := NextSort(sort, key);
      clicks := clicks + [key];
      assert clicks[..|clicks| - 1] == old(clicks);
    }
  }

  // ---------------------------------------------------------------- comparator

  /** A row: the cell values that `row[key]` reads, by column key; a key without a value reads as `undefined`. */
  type Row = map<string, Option<string>>

  /** `row[key]`, with `null` and `undefined` both as `None`. */
  function CellOf(row: Row, key: string): Option<string> {
    if key in row then row[key] else None
  }

  /** The collation of two cell texts (`localeCompare`): negative, zero or positive. */
  type Collation = (string, string) -> int

  /** The comparator given to `sort`: absent cells are equal to each other and after every present one;
      present cells compare by the collation, negated when descending. */
  function Compare(direction: Direction, collate: Collation, a: Option<string>, b: Option<string>): int {
    if a.None? && b.None? then 0
    else if a.None? then 1
    else if b.None? then -1
    else
      var cmp := collate(a.value, b.value);
      if direction == Asc then cmp else -cmp
  }

  /** The comparator on rows for the sort on column `key`. */
  function RowComparator(key: string, direction: Direction, collate: Collation): (Row, Row) -> int {
    (a: Row, b: Row) => Compare(direction, collate, CellOf(a, key), CellOf(b, key))
  }

  /** Every row is at most each later row under the table's comparator. */
  ghost predicate SortedBy(rows: seq<Row>, key: string, direction: Direction, collate: Collation) {
    ArraySort.Sorted(rows, RowComparator(key, direction, collate))
  }

  /** For two present cells the descending comparison is the negated ascending one; a comparison
      involving an absent cell does not depend on the direction. */
  lemma DescendingNegatesAscending(collate: Collation, a: Option<string>, b: Option<string>)
    ensures a.Some? && b.Some? ==> Compare(Desc, collate, a, b) == -Compare(Asc, collate, a, b)
    ensures a.None? || b.None? ==> Compare(Desc, collate, a, b) == Compare(Asc, collate, a, b)
    ensures a.None? && b.Some? ==> Compare(Asc, collate, a, b) > 0 && Compare(Asc, collate, b, a) < 0
  {
  }

  /** The row comparator is consistent whenever the collation is, in either direction. */
  lemma RowComparatorConsistent(key: string, direction: Direction, collate: Collation)
    requires ArraySort.Consistent(collate)
    ensures ArraySort.Consistent(RowComparator(key, direction, collate))
  {
    var cmp := RowComparator(key, direction, collate);
    forall a: Row, b: Row
      ensures ArraySort.Sign(cmp(a, b)) == -ArraySort.Sign(cmp(b, a))
    {
      var x, y := CellOf(a, key), CellOf(b, key);
      if x.Some? && y.Some? {
        assert ArraySort.Sign(collate(x.value, y.value)) == -ArraySort.Sign(collate(y.value, x.value));
      }
    }
    forall a: Row, b: Row, c: Row | cmp(a, b) <= 0 && cmp(b, c) <= 0
      ensures cmp(a, c) <= 0
    {
      var x, y, z := CellOf(a, key), CellOf(b, key), CellOf(c, key);
      if x.Some? && y.Some? && z.Some? {
        var u, v, w := x.value, y.value, z.value;
        if direction == Desc {
          assert ArraySort.Sign(collate(v, u)) == -ArraySort.Sign(collate(u, v));
          assert ArraySort.Sign(collate(w, v)) == -ArraySort.Sign(collate(v, w));
          assert ArraySort.Sign(collate(w, u)) == -ArraySort.Sign(collate(u, w));
          assert collate(w, v) <= 0 && collate(v, u) <= 0;
        }
      }
    }
  }

  // ---------------------------------------------------------------- sorted rows

  /** Null-or-undefined cells come last: no row with a present cell follows a row with an absent one. */
  ghost predicate AbsentLast(rows: seq<Row>, key: string) {
    forall i, j :: 0 <= i < j < |rows| && CellOf(rows[i], key).None? ==> CellOf(rows[j], key).None?
  }

  /** The present cells are in collation order when ascending, in reverse collation order when descending. */
  ghost predicate PresentInOrder(rows: seq<Row>, key: string, direction: Direction, collate: Collation) {
    forall i, j :: 0 <= i < j < |rows| && CellOf(rows[i], key).Some? && CellOf(rows[j], key).Some? ==>
      if direction == Asc then collate(CellOf(rows[i], key).value, CellOf(rows[j], key).value) <= 0
      else collate(CellOf(rows[i], key).value, CellOf(rows[j], key).value) >= 0
  }

  /** Being sorted by the table's comparator means exactly: absent cells last, present cells in
      collation order for the direction. */
  lemma SortedByMeans(rows: seq<Row>, key: string, direction: Direction, collate: Collation)
    ensures SortedBy(rows, key, direction, collate) <==>
      AbsentLast(rows, key) && PresentInOrder(rows, key, direction, collate)
  {
    if SortedBy(rows, key, direction, collate) {
      forall i, j | 0 <= i < j < |rows| && CellOf(rows[i], key).None?
        ensures CellOf(rows[j], key).None?
      {
        assert RowComparator(key, direction, collate)(rows[i], rows[j]) <= 0;
      }
      forall i, j | 0 <= i < j < |rows| && CellOf(rows[i], key).Some? && CellOf(rows[j], key).Some?
        ensures if direction == Asc then collate(CellOf(rows[i], key).value, CellOf(rows[j], key).value) <= 0
                else collate(CellOf(rows[i], key).value, CellOf(rows[j], key).value) >= 0
      {
        assert RowComparator(key, direction, collate)(rows[i], rows[j]) <= 0;
      }
    }
  }

  /** `sortedRows`: the rows themselves when there is no sort, otherwise a sorted copy. */
  method SortedRows(rows: seq<Row>, sort: SortState, collate: Collation) returns (r: seq<Row>)
    requires ArraySort.Consistent(collate)
    ensures sort == Unsorted ==> r == rows
    ensures |r| == |rows| && multiset(r) == multiset(rows)
    ensures sort.SortBy? ==> SortedBy(r, sort.key, sort.direction, collate)
  {
    if sort == Unsorted {
      return rows;
    }
    var copy := new Row[|rows|](i requires 0 <= i < |rows| => rows[i]);
    assert copy[..] == rows;
    RowComparatorConsistent(sort.key, sort.direction, collate);
    ArraySort.SortInPlace(copy, RowComparator(sort.key, sort.direction, collate));
    r := copy[..];
  }
}
