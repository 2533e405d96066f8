/**
 * The table's selection and sorting logic: `isSelected` and
 * `isAllSelected` (selection by row `id`), the `MixinSelect` methods that
 * build a new selection and emit it as `update:selection`, the
 * `click-row` handler, and `getSortOrder` for a sort column.
 *
 * A row is an object: it has an identity, which `indexOf` compares, and
 * an `id` property, which `isSelected` compares.
 */
module Table {
  import Values

  datatype Row = Row(ref: nat, id: int)

  /** `isSelected(selection, row)`: some selected row has the same `id`. */
  predicate IsSelected(selection: seq<Row>, row: Row)
  {
    exists i :: 0 <= i < |selection| && selection[i].id == row.id
  }

  /** `rows.filter(row => isSelected(selection, row))`. */
  function SelectedRows(selection: seq<Row>, rows: seq<Row>): (r: seq<Row>)
    ensures |r| <= |rows|
    ensures forall x :: x in r ==> x in rows && IsSelected(selection, x)
    ensures |r| == |rows| <==> forall i :: 0 <= i < |rows| ==> IsSelected(selection, rows[i])
  {
    if |rows| == 0 then []
    else
      var rest := SelectedRows(selection, rows[1..]);
      assert forall i :: 1 <= i < |rows| ==> rows[i] == rows[1..][i - 1];
      if IsSelected(selection, rows[0]) then [rows[0]] + rest else rest
  }

  /** `isAllSelected(selection, rows)`: there are rows, and every one of
      them is selected. */
  function IsAllSelected(selection: seq<Row>, rows: seq<Row>): (r: bool)
    ensures r <==> |rows| > 0 && forall i :: 0 <= i < |rows| ==> IsSelected(selection, rows[i])
  {
    var selected := SelectedRows(selection, rows);
    if |selected| == 0 then false
    else |selected| == |rows|
  }

  /** `arr.findIndex(r => r.id === row.id)`: the first position of a row
      with the same `id`, or -1. */
  function IndexOfId(arr: seq<Row>, row: Row): (r: int)
    ensures -1 <= r < |arr|
    ensures r == -1 <==> !IsSelected(arr, row)
    ensures r >= 0 ==> arr[r].id == row.id && forall j :: 0 <= j < r ==> arr[j].id != row.id
  {
    if |arr| == 0 then -1
    else if arr[0].id == row.id then 0
    else
      var r := IndexOfId(arr[1..], row);
      assert forall j :: 1 <= j < |arr| ==> arr[j] == arr[1..][j - 1];
      if r == -1 then -1 else r + 1
  }

  /** `arr.splice(start, 1)` on a copy: a negative start counts from the
      end (and stops at 0), a start past the end removes nothing. */
  function SpliceOne(arr: seq<Row>, start: int): (r: seq<Row>)
    ensures 0 <= start < |arr| ==> r == arr[..start] + arr[start + 1..]
    ensures start < 0 && |arr| > 0 && |arr| + start >= 0 ==>
      r == arr[..|arr| + start] + arr[|arr| + start + 1..]
    ensures start >= |arr| ==> r == arr
    ensures start < 0 && |arr| + start <= 0 ==> r == if |arr| > 0 then arr[1..] else arr
  {
    var actual := if start < 0 then (if |arr| + start > 0 then |arr| + start else 0)
                  else (if start < |arr| then start else |arr|);
    var deleted := if actual < |arr| then 1 else 0;
    arr[..actual] + arr[actual + deleted..]
  }

  /** The selection `unselectRow(row)` emits as written:
      `selection.indexOf(row)` looks for the same object, and when there is
      none, `splice(-1, 1)` drops the last selected row. */
  function UnselectedAsWritten(selection: seq<Row>, row: Row): seq<Row>
  {
    SpliceOne(selection, Values.IndexOf(selection, row))
  }

  /** The selection `unselectRow(row)` is meant to emit: the row that
      `isSelected` found, by `id`, is taken out. `toggleSelection` calls it
      only for a selected row; for any other, `splice(-1, 1)` still drops
      the last one. */
  function Unselected(selection: seq<Row>, row: Row): (r: seq<Row>)
    ensures IsSelected(selection, row) ==>
      var i := IndexOfId(selection, row);
      r == selection[..i] + selection[i + 1..]
    ensures !IsSelected(selection, row) && |selection| > 0 ==> r == selection[..|selection| - 1]
  {
    SpliceOne(selection, IndexOfId(selection, row))
  }

  /** The selection `toggleSelection(row)` emits as written: a row found
      by `id` is unselected with `indexOf`, any other is pushed. */
  function ToggledAsWritten(selection: seq<Row>, row: Row): seq<Row>
  {
    if IsSelected(selection, row) then UnselectedAsWritten(selection, row) else selection + [row]
  }

  /** The selection `toggleSelection(row)` is meant to emit, the row found
      by `id` being the one taken out. */
  function Toggled(selection: seq<Row>, row: Row): seq<Row>
  {
    if IsSelected(selection, row) then Unselected(selection, row) else selection + [row]
  }

  /** A row object not in the selection but with the `id` of a selected
      one is reported selected, and toggling it as written drops a
      different row, the last, and leaves it selected. */
  lemma UnselectAsWrittenDropsLast()
    ensures var a, b, c := Row(1, 10), Row(2, 20), Row(3, 10);
      && IsSelected([a, b], c)
      && UnselectedAsWritten([a, b], c) == [a]
      && IsSelected(UnselectedAsWritten([a, b], c), c)
      && Unselected([a, b], c) == [b]
      && !IsSelected(Unselected([a, b], c), c)
  {
    var a, b, c := Row(1, 10), Row(2, 20), Row(3, 10);
    assert [a, b][0].id == c.id;
    assert Values.IndexOf([a, b], c) == -1;
    assert [a][0].id == c.id;
    assert IndexOfId([a, b], c) == 0;
    assert [a, b][1..] == [b];
  }

  /** Ids are unique in the selection. */
  predicate UniqueIds(selection: seq<Row>)
  {
    forall i, j :: 0 <= i < j < |selection| ==> selection[i].id != selection[j].id
  }

  /** When the selected row is itself in the selection and ids are
      unique, `indexOf` finds the row `isSelected` found. */
  lemma UnselectAgrees(selection: seq<Row>, row: Row)
    requires row in selection && UniqueIds(selection)
    ensures UnselectedAsWritten(selection, row) == Unselected(selection, row)
  {
    var i := Values.IndexOf(selection, row);
    assert selection[i].id == row.id;
    var j := IndexOfId(selection, row);
    assert j == i;
  }

  /** So toggling as written is the intended toggle for a selection of
      unique ids whose selected rows are the objects the table passes. */
  lemma ToggledAgrees(selection: seq<Row>, row: Row)
    requires UniqueIds(selection)
    requires IsSelected(selection, row) ==> row in selection
    ensures ToggledAsWritten(selection, row) == Toggled(selection, row)
  {
    if IsSelected(selection, row) {
      UnselectAgrees(selection, row);
    }
  }

  /** Toggling an unselected row as written and toggling it again gives
      back the selection it started from: the pushed row is the object
      `indexOf` finds. */
  lemma ToggleTwiceAsWritten(selection: seq<Row>, row: Row)
    requires !IsSelected(selection, row)
    ensures ToggledAsWritten(ToggledAsWritten(selection, row), row) == selection
  {
    var s := selection + [row];
    assert s[|selection|].id == row.id;
    assert row !in selection;
    var i := Values.IndexOf(s, row);
    assert forall j :: 0 <= j < |selection| ==> s[j] == selection[j];
    assert i == |selection|;
    assert s[..i] == selection;
  }

  /** Toggling as written flips whether the row is selected, keeps ids
      unique, and touches no row with another `id`, when the row found by
      `id` is the object passed. */
  lemma ToggleFlipsAsWritten(selection: seq<Row>, row: Row)
    requires UniqueIds(selection)
    requires IsSelected(selection, row) ==> row in selection
    ensures IsSelected(ToggledAsWritten(selection, row), row) <==> !IsSelected(selection, row)
    ensures UniqueIds(ToggledAsWritten(selection, row))
    ensures forall x: Row :: x.id != row.id ==> (x in ToggledAsWritten(selection, row) <==> x in selection)
  {
    ToggledAgrees(selection, row);
    ToggleFlips(selection, row);
  }

  /** Toggling an unselected row and toggling it again gives back the
      selection it started from. */
  lemma ToggleTwice(selection: seq<Row>, row: Row)
    requires !IsSelected(selection, row)
    ensures Toggled(Toggled(selection, row), row) == selection
  {
    var s := selection + [row];
    assert s[|selection|].id == row.id;
    var i := IndexOfId(s, row);
    assert forall j :: 0 <= j < |selection| ==> s[j] == selection[j];
    assert i == |selection|;
    assert s[..i] == selection;
  }

  /** Toggling flips whether the row is selected, keeps ids unique, and
      touches no row with another `id`. */
  lemma ToggleFlips(selection: seq<Row>, row: Row)
    requires UniqueIds(selection)
    ensures IsSelected(Toggled(selection, row), row) <==> !IsSelected(selection, row)
    ensures UniqueIds(Toggled(selection, row))
    ensures forall x: Row :: x.id != row.id ==> (x in Toggled(selection, row) <==> x in selection)
  {
    var t := Toggled(selection, row);
    if IsSelected(selection, row) {
      var i := IndexOfId(selection, row);
      assert t == selection[..i] + selection[i + 1..];
      assert forall k :: 0 <= k < i ==> t[k] == selection[k];
      assert forall k :: i <= k < |t| ==> t[k] == selection[k + 1];
      forall k | 0 <= k < |t| ensures t[k].id != row.id {
        if k >= i {
          assert selection[k + 1].id != selection[i].id;
        }
      }
      forall x: Row | x.id != row.id && x in selection ensures x in t {
        var k :| 0 <= k < |selection| && selection[k] == x;
        if k < i {
          assert t[k] == x;
        } else {
          assert k != i;
          assert t[k - 1] == x;
        }
      }
    } else {
      assert t == selection + [row];
      assert t[|selection|] == row;
    }
  }

  /** `getSortOrder(currentSort, by, multi)`: the column's order flips
      from `asc` to `desc`, and anything else becomes `asc`. Without
      `multi` only that column is left; with it every other column keeps
      its order. */
  function GetSortOrder(currentSort: map<string, string>, column: string, multi: bool): (r: map<string, string>)
    ensures column in r
    ensures r[column] == "desc" <==> column in currentSort && currentSort[column] == "asc"
    ensures r[column] == "asc" || r[column] == "desc"
    ensures !multi ==> r.Keys == {column}
    ensures multi ==> r.Keys == currentSort.Keys + {column}
    ensures multi ==> forall k :: k in currentSort && k != column ==> r[k] == currentSort[k]
  {
    var order := if column in currentSort && currentSort[column] == "asc" then "desc" else "asc";
    var sort := map[column := order];
    if multi then currentSort[column := order] else sort
  }

  /** After the first click every click on the same column flips its
      order, and two clicks bring back the same sort. */
  lemma SortOrderAlternates(currentSort: map<string, string>, column: string, multi: bool)
    ensures var r1 := GetSortOrder(currentSort, column, multi);
      var r2 := GetSortOrder(r1, column, multi);
      && r2[column] != r1[column]
      && GetSortOrder(r2, column, multi) == r1
  {
    var r1 := GetSortOrder(currentSort, column, multi);
    var r2 := GetSortOrder(r1, column, multi);
    var r3 := GetSortOrder(r2, column, multi);
    assert r3.Keys == r1.Keys;
    assert forall k :: k in r1 ==> r3[k] == r1[k];
  }

  /** The part of a table component that `MixinSelect` adds: the
      `selection`, `select` and `selectSingle` props and the selections
      emitted as `update:selection` so far. */
  class Selectable {
    var selection: seq<Row>
    var select: bool
    var selectSingle: bool
    var emitted: seq<seq<Row>>

    constructor (selection: seq<Row>, select: bool, selectSingle: bool)
      ensures this.selection == selection && this.select == select
      ensures this.selectSingle == selectSingle && emitted == []
    {
      this.selection := selection;
      this.select := select;
      this.selectSingle := selectSingle;
      emitted := [];
    }

    /** `updateSelection(selection)`: `$emit('update:selection', …)`. */
    method UpdateSelection(newSelection: seq<Row>)
      modifies this
      ensures emitted == old(emitted) + [newSelection]
      ensures selection == old(selection) && select == old(select)
      ensures selectSingle == old(selectSingle)
    {
      emitted := emitted + [newSelection];
    }

    /** `selectRow(row)`: a copy of the selection with the row pushed. */
    method SelectRow(row: Row)
      modifies this
      ensures emitted == old(emitted) + [old(selection) + [row]]
      ensures selection == old(selection) && select == old(select)
      ensures selectSingle == old(selectSingle)
    {
      var newSelection := selection;
      newSelection := newSelection + [row];
      UpdateSelection(newSelection);
    }

    /** `unselectRow(row)` as written, with `indexOf`. */
    method UnselectRowAsWritten(row: Row)
      modifies this
      ensures emitted == old(emitted) + [UnselectedAsWritten(old(selection), row)]
      ensures selection == old(selection) && select == old(select)
      ensures selectSingle == old(selectSingle)
    {
      var index := Values.IndexOf(selection, row);
      var newSelection := selection;
      newSelection := SpliceOne(newSelection, index);
      UpdateSelection(newSelection);
    }

    /** `unselectRow(row)` looking the row up by `id`, as `isSelected`
        does. */
    method UnselectRow(row: Row)
      modifies this
      ensures emitted == old(emitted) + [Unselected(old(selection), row)]
      ensures selection == old(selection) && select == old(select)
      ensures selectSingle == old(selectSingle)
    {
      var index := IndexOfId(selection, row);
      var newSelection := selection;
      newSelection := SpliceOne(newSelection, index);
      UpdateSelection(newSelection);
    }

    /** `toggleSelection(row)` as written. */
    method ToggleSelection(row: Row)
      modifies this
      ensures emitted == old(emitted) + [ToggledAsWritten(old(selection), row)]
      ensures selection == old(selection) && select == old(select)
      ensures selectSingle == old(selectSingle)
    {
      if IsSelected(selection, row) {
        UnselectRowAsWritten(row);
      } else {
        SelectRow(row);
      }
    }

    /** `toggleSelection(row)` unselecting by `id`. */
    method ToggleSelectionFixed(row: Row)
      modifies this
      ensures emitted == old(emitted) + [Toggled(old(selection), row)]
      ensures selection == old(selection) && select == old(select)
      ensures selectSingle == old(selectSingle)
    {
      if IsSelected(selection, row) {
        UnselectRow(row);
      } else {
        SelectRow(row);
      }
    }

    /** The `click-row` handler: a single-select table emits just the
        row, a multi-select one toggles it, any other does nothing. */
    method ClickRow(row: Row)
      modifies this
      ensures selectSingle ==> emitted == old(emitted) + [[row]]
      ensures !selectSingle && select ==> emitted == old(emitted) + [ToggledAsWritten(old(selection), row)]
      ensures !selectSingle && !select ==> emitted == old(emitted)
      ensures selection == old(selection) && select == old(select)
      ensures selectSingle == old(selectSingle)
    {
      if selectSingle {
        UpdateSelection([row]);
      } else if select {
        ToggleSelection(row);
      }
    }
  }
}
