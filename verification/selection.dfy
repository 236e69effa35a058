/**
 The row-selection state of the artwork table, lifted out of the React
 component as pure state transitions.

 The state is a pair of id sets: `selected` (ticked checkboxes) and
 `deselected` (ids the user explicitly unticked). The current page is the
 ordered sequence of the row ids on screen. Each React handler that calls
 `setSelectedRowIds` and `setDeselectedRowIds` is modelled as ONE atomic
 transition on the pair.
 */
module Selection {
  import opened Arith

  /** A row is identified by its numeric catalog id. */
  type Id = int

  /** The outcome of parsing the overlay's text field: `None` is `NaN`. */
  datatype Option<+T> = None | Some(value: T)

  datatype State = State(selected: set<Id>, deselected: set<Id>)

  /** Both sets start empty when the table mounts. */
  const Initial := State({}, {})

  /** No id is both ticked and explicitly unticked. */
  predicate Disjoint(s: State) {
    s.selected !! s.deselected
  }

  /** The ids occurring in a sequence of rows. */
  function PageIds(rows: seq<Id>): set<Id> {
    set x | x in rows
  }

  /** No id occurs twice on the page (ids are the catalog's unique keys). */
  predicate Distinct(rows: seq<Id>) {
    forall i, j :: 0 <= i < j < |rows| ==> rows[i] != rows[j]
  }

  /** The per-row checkbox: is this id ticked? A ticked row is counted and,
      in a consistent state, is not also marked deselected. */
  function IsSelected(s: State, id: Id): (b: bool)
    ensures b ==> SelectedCount(s) >= 1
    ensures b && Disjoint(s) ==> id !in s.deselected
  {
    id in s.selected
  }

  /** The "N rows selected" counter: zero exactly when nothing is ticked. */
  function SelectedCount(s: State): (n: nat)
    ensures n == 0 <==> s.selected == {}
  {
    |s.selected|
  }

  /** The header checkbox: the page is non-empty and every row on it is ticked,
      that is, the page's ids form a non-empty subset of the selection. */
  function AllSelectedOnPage(selected: set<Id>, rows: seq<Id>): (b: bool)
    ensures b <==> PageIds(rows) != {} && PageIds(rows) <= selected
  {
    PageIdsNonEmptySubset(selected, rows);
    |rows| > 0 && forall i :: 0 <= i < |rows| ==> rows[i] in selected
  }

  /** The index-wise and set-wise readings of "every row is ticked" agree. */
  lemma PageIdsNonEmptySubset(selected: set<Id>, rows: seq<Id>)
    ensures PageIds(rows) != {} <==> |rows| > 0
    ensures PageIds(rows) <= selected <==> forall i :: 0 <= i < |rows| ==> rows[i] in selected
  {
    if |rows| > 0 {
      assert rows[0] in PageIds(rows);
    }
  }

  // ---------------------------------------------------------------------------
  // toggleRow
  // ---------------------------------------------------------------------------

  /** Clicking one row's checkbox. */
  function ToggleRow(s: State, id: Id): (r: State)
    ensures id in r.selected <==> id !in s.selected
    ensures id in r.deselected <==> id !in r.selected
    ensures forall x :: x != id ==> (x in r.selected <==> x in s.selected)
    ensures forall x :: x != id ==> (x in r.deselected <==> x in s.deselected)
    ensures Disjoint(s) ==> Disjoint(r)
  {
    if id in s.selected then
      State(s.selected - {id}, s.deselected + {id})
    else
      State(s.selected + {id}, s.deselected - {id})
  }

  /** Each row click moves the "N rows selected" counter by exactly one. */
  lemma ToggleRowCount(s: State, id: Id)
    ensures SelectedCount(ToggleRow(s, id))
         == if id in s.selected then SelectedCount(s) - 1 else SelectedCount(s) + 1
  {
  }

  /** Clicking row checkboxes one after another. */
  function ToggleRows(s: State, ids: seq<Id>): State
    decreases |ids|
  {
    if |ids| == 0 then s else ToggleRows(ToggleRow(s, ids[0]), ids[1..])
  }

  /** After any sequence of clicks, an id is ticked iff it was ticked before
      XOR it was clicked an odd number of times. */
  lemma {:induction false} ToggleRowsParity(s: State, ids: seq<Id>, id: Id)
    ensures id in ToggleRows(s, ids).selected
        <==> ((id in s.selected) != (multiset(ids)[id] % 2 == 1))
    decreases |ids|
  {
    if |ids| > 0 {
      assert ids == [ids[0]] + ids[1..];
      assert multiset(ids) == multiset{ids[0]} + multiset(ids[1..]);
      ToggleRowsParity(ToggleRow(s, ids[0]), ids[1..], id);
    }
  }

  /** Clicks on other ids never touch an id's membership in either set, and
      disjointness survives every click. */
  lemma {:induction false} ToggleRowsFrame(s: State, ids: seq<Id>, id: Id)
    requires id !in ids
    ensures id in ToggleRows(s, ids).selected <==> id in s.selected
    ensures id in ToggleRows(s, ids).deselected <==> id in s.deselected
    decreases |ids|
  {
    if |ids| > 0 {
      assert id != ids[0];
      assert id !in ids[1..] by {
        assert forall k :: 0 <= k < |ids[1..]| ==> ids[1..][k] == ids[k + 1];
      }
      ToggleRowsFrame(ToggleRow(s, ids[0]), ids[1..], id);
    }
  }

  /** A consistent state stays consistent through any sequence of row clicks. */
  lemma {:induction false} ToggleRowsDisjoint(s: State, ids: seq<Id>)
    requires Disjoint(s)
    ensures Disjoint(ToggleRows(s, ids))
    decreases |ids|
  {
    if |ids| > 0 {
      ToggleRowsDisjoint(ToggleRow(s, ids[0]), ids[1..]);
    }
  }

  /** Clicking a row's checkbox flips what that checkbox shows and no other. */
  lemma ToggleRowFlipsCheckbox(s: State, id: Id, other: Id)
    ensures IsSelected(ToggleRow(s, id), id) == !IsSelected(s, id)
    ensures other != id ==> IsSelected(ToggleRow(s, id), other) == IsSelected(s, other)
  {
  }

  /** The header checkbox is checked exactly when the page is non-empty and
      every row checkbox on it is checked. */
  lemma HeaderCheckboxMatchesRows(s: State, rows: seq<Id>)
    ensures AllSelectedOnPage(s.selected, rows)
        <==> |rows| > 0 && forall i :: 0 <= i < |rows| ==> IsSelected(s, rows[i])
  {
  }

  /** Clicking the same checkbox twice restores a consistent state exactly. */
  lemma ToggleRowTwice(s: State, id: Id)
    requires Disjoint(s)
    requires id in s.selected || id in s.deselected
    ensures ToggleRow(ToggleRow(s, id), id) == s
  {
  }

  // ---------------------------------------------------------------------------
  // toggleSelectAllPage
  // ---------------------------------------------------------------------------

  /** Clicking the header checkbox: deselect the page when it is all ticked,
      otherwise select all of it; ids off the page are untouched. */
  function ToggleSelectAllPage(s: State, rows: seq<Id>): (r: State)
    ensures AllSelectedOnPage(s.selected, rows) ==>
      forall i :: 0 <= i < |rows| ==> rows[i] !in r.selected && rows[i] in r.deselected
    ensures !AllSelectedOnPage(s.selected, rows) ==>
      forall i :: 0 <= i < |rows| ==> rows[i] in r.selected && rows[i] !in r.deselected
    ensures forall x :: x !in rows ==>
      (x in r.selected <==> x in s.selected) && (x in r.deselected <==> x in s.deselected)
    ensures |rows| == 0 ==> r == s
    ensures Disjoint(s) ==> Disjoint(r)
  {
    var page := PageIds(rows);
    if AllSelectedOnPage(s.selected, rows) then
      State(s.selected - page, s.deselected + page)
    else
      State(s.selected + page, s.deselected - page)
  }

  /** The handler as the component runs it: compute `allSelected` from the
      previous selection, then walk the rows once for the deselected set and
      once for the selected set. It agrees with the set-level transition. */
  method ToggleSelectAllPageLoop(s: State, rows: seq<Id>) returns (r: State)
    ensures r == ToggleSelectAllPage(s, rows)
  {
    var allSelected := |rows| > 0;
    var k := 0;
    while k < |rows| && allSelected
      invariant 0 <= k <= |rows|
      invariant allSelected <==> |rows| > 0 && forall i :: 0 <= i < k ==> rows[i] in s.selected
    {
      allSelected := rows[k] in s.selected;
      k := k + 1;
    }
    assert allSelected <==> AllSelectedOnPage(s.selected, rows);

    var d := s.deselected;
    k := 0;
    while k < |rows|
      invariant 0 <= k <= |rows|
      invariant d == if allSelected then s.deselected + PageIds(rows[..k])
                     else s.deselected - PageIds(rows[..k])
    {
      PageIdsSnoc(rows, k);
      if allSelected {
        d := d + {rows[k]};
      } else {
        d := d - {rows[k]};
      }
      k := k + 1;
    }

    var next := s.selected;
    k := 0;
    while k < |rows|
      invariant 0 <= k <= |rows|
      invariant next == if allSelected then s.selected - PageIds(rows[..k])
                        else s.selected + PageIds(rows[..k])
    {
      PageIdsSnoc(rows, k);
      if allSelected {
        next := next - {rows[k]};
      } else {
        next := next + {rows[k]};
      }
      k := k + 1;
    }
    assert rows[..|rows|] == rows;
    r := State(next, d);
  }

  /** Extending a prefix by one row adds that row's id. */
  lemma PageIdsSnoc(rows: seq<Id>, k: nat)
    requires k < |rows|
    ensures PageIds(rows[..k + 1]) == PageIds(rows[..k]) + {rows[k]}
  {
  }

  /** From a consistent, fully ticked page, two header clicks restore the state. */
  lemma ToggleSelectAllPageTwiceFromAll(s: State, rows: seq<Id>)
    requires Disjoint(s)
    requires AllSelectedOnPage(s.selected, rows)
    ensures ToggleSelectAllPage(ToggleSelectAllPage(s, rows), rows) == s
  {
  }

  /** From a partly ticked page, two header clicks leave the whole page
      deselected (select all, then deselect all), not the state it started in. */
  lemma ToggleSelectAllPageTwiceFromPartial(s: State, rows: seq<Id>)
    requires |rows| > 0
    requires !AllSelectedOnPage(s.selected, rows)
    ensures ToggleSelectAllPage(ToggleSelectAllPage(s, rows), rows)
         == State(s.selected - PageIds(rows), s.deselected + PageIds(rows))
  {
  }

  /** Two header clicks give the state back exactly when the page is empty,
      or it is fully ticked with no row deselected, or no row is ticked and
      every row is deselected. */
  lemma ToggleSelectAllPageTwiceRestores(s: State, rows: seq<Id>)
    ensures ToggleSelectAllPage(ToggleSelectAllPage(s, rows), rows) == s
        <==> || |rows| == 0
             || (AllSelectedOnPage(s.selected, rows) && PageIds(rows) !! s.deselected)
             || (PageIds(rows) !! s.selected && PageIds(rows) <= s.deselected)
  {
  }

  /** From a fully ticked page, two header clicks keep the selection and drop
      the page's ids from the deselected set. */
  lemma ToggleSelectAllPageTwiceFromAllState(s: State, rows: seq<Id>)
    requires AllSelectedOnPage(s.selected, rows)
    ensures ToggleSelectAllPage(ToggleSelectAllPage(s, rows), rows)
         == State(s.selected, s.deselected - PageIds(rows))
  {
  }

  /** A concrete page where two header clicks do not give the state back:
      row 1 ticked, row 2 not; two clicks untick both. */
  lemma ToggleSelectAllPageTwiceNotIdentity()
    ensures ToggleSelectAllPage(ToggleSelectAllPage(State({1}, {}), [1, 2]), [1, 2])
         != State({1}, {})
  {
    var rows := [1, 2];
    assert !AllSelectedOnPage({1}, rows) by { assert rows[1] !in {1}; }
    ToggleSelectAllPageTwiceFromPartial(State({1}, {}), rows);
    assert 1 in PageIds(rows);
  }

  /** The header checkbox has period two after the first click: a third click
      gives the same state as the first. */
  lemma ToggleSelectAllPageThrice(s: State, rows: seq<Id>)
    ensures var t := ToggleSelectAllPage(s, rows);
            ToggleSelectAllPage(ToggleSelectAllPage(t, rows), rows) == t
  {
  }

  // ---------------------------------------------------------------------------
  // handleOverlaySelect
  // ---------------------------------------------------------------------------

  /** The "select first N rows on this page" overlay. Invalid input (NaN or
      non-positive) changes nothing; otherwise the selection is REPLACED by
      the first `min(n, |rows|)` ids and the rest of the page is deselected. */
  function OverlaySelect(s: State, rows: seq<Id>, input: Option<int>): (r: State)
    ensures input.None? || input.value <= 0 ==> r == s
    ensures input.Some? && input.value > 0 ==>
      forall x :: x in r.selected <==>
        exists i :: 0 <= i < Min(input.value, |rows|) && rows[i] == x
    ensures input.Some? && input.value > 0 ==>
      forall x :: x in r.deselected <==> x in rows && x !in r.selected
    ensures Disjoint(s) ==> Disjoint(r)
  {
    match input
    case None => s
    case Some(n) =>
      if n <= 0 then s
      else
        var chosen := rows[..Min(n, |rows|)];
        State(PageIds(chosen), set x | x in rows && x !in chosen)
  }

  /** The handler as the component runs it: `rows.slice(0, num)` for the ids,
      then `rows.filter(row => !ids.includes(row.id))` for the deselected set.
      It agrees with the set-level transition. */
  method OverlaySelectLoop(s: State, rows: seq<Id>, input: Option<int>) returns (r: State)
    ensures r == OverlaySelect(s, rows, input)
  {
    if input.None? || input.value <= 0 {
      return s;
    }
    var n := input.value;
    var ids: seq<Id> := [];
    var k := 0;
    while k < |rows| && k < n
      invariant 0 <= k <= Min(n, |rows|)
      invariant ids == rows[..k]
    {
      ids := ids + [rows[k]];
      k := k + 1;
    }
    assert ids == rows[..Min(n, |rows|)];

    var d: set<Id> := {};
    k := 0;
    while k < |rows|
      invariant 0 <= k <= |rows|
      invariant d == set x | x in rows[..k] && x !in ids
    {
      assert rows[..k + 1] == rows[..k] + [rows[k]];
      if rows[k] !in ids {
        d := d + {rows[k]};
      }
      k := k + 1;
    }
    assert rows[..|rows|] == rows;
    r := State(PageIds(ids), d);
  }

  /** Asking for at least as many rows as the page holds ticks the whole page
      and leaves nothing deselected. */
  lemma OverlaySelectWholePage(s: State, rows: seq<Id>, n: int)
    requires n > 0 && n >= |rows|
    ensures OverlaySelect(s, rows, Some(n)) == State(PageIds(rows), {})
  {
    assert rows[..|rows|] == rows;
  }

  /** A valid bulk select forgets everything that was selected or deselected
      before, on this page and on every other page. */
  lemma OverlaySelectReplaces(s1: State, s2: State, rows: seq<Id>, n: int)
    requires n > 0
    ensures OverlaySelect(s1, rows, Some(n)) == OverlaySelect(s2, rows, Some(n))
    ensures forall x :: x !in rows ==>
      x !in OverlaySelect(s1, rows, Some(n)).selected
      && x !in OverlaySelect(s1, rows, Some(n)).deselected
  {
  }

  /** Repeating the same bulk select changes nothing. */
  lemma OverlaySelectIdempotent(s: State, rows: seq<Id>, input: Option<int>)
    ensures OverlaySelect(OverlaySelect(s, rows, input), rows, input)
         == OverlaySelect(s, rows, input)
  {
  }

  /** The ids of a duplicate-free page are as many as its rows. */
  lemma {:induction false} DistinctCard(rows: seq<Id>)
    requires Distinct(rows)
    ensures |PageIds(rows)| == |rows|
    decreases |rows|
  {
    if |rows| > 0 {
      var tail := rows[1..];
      assert Distinct(tail) by {
        forall i, j | 0 <= i < j < |tail| ensures tail[i] != tail[j] {
          assert tail[i] == rows[i + 1] && tail[j] == rows[j + 1];
        }
      }
      DistinctCard(tail);
      assert rows == [rows[0]] + tail;
      assert PageIds(rows) == {rows[0]} + PageIds(tail);
      assert rows[0] !in PageIds(tail) by {
        forall j | 0 <= j < |tail| ensures tail[j] != rows[0] {
          assert tail[j] == rows[j + 1];
        }
      }
    }
  }

  /** On a page of distinct ids, selecting the first `n` ticks exactly
      `min(n, |rows|)` rows (the live counter) and deselects the others. */
  lemma OverlaySelectCounts(s: State, rows: seq<Id>, n: int)
    requires Distinct(rows)
    requires n > 0
    ensures SelectedCount(OverlaySelect(s, rows, Some(n))) == Min(n, |rows|)
    ensures |OverlaySelect(s, rows, Some(n)).deselected| == |rows| - Min(n, |rows|)
  {
    var k := Min(n, |rows|);
    var r := OverlaySelect(s, rows, Some(n));
    var chosen := rows[..k];
    var rest := rows[k..];
    assert Distinct(chosen) by {
      forall i, j | 0 <= i < j < |chosen| ensures chosen[i] != chosen[j] {
        assert chosen[i] == rows[i] && chosen[j] == rows[j];
      }
    }
    assert Distinct(rest) by {
      forall i, j | 0 <= i < j < |rest| ensures rest[i] != rest[j] {
        assert rest[i] == rows[k + i] && rest[j] == rows[k + j];
      }
    }
    DistinctCard(chosen);
    DistinctCard(rest);
    assert r.selected == PageIds(chosen);
    assert r.deselected == PageIds(rest) by {
      assert rows == chosen + rest;
      forall x | x in r.deselected ensures x in PageIds(rest) {
        assert x in rows && x !in chosen;
      }
      forall x | x in PageIds(rest) ensures x in r.deselected {
        var j :| 0 <= j < |rest| && rest[j] == x;
        assert rows[k + j] == x;
        forall i | 0 <= i < |chosen| ensures chosen[i] != x {
          assert chosen[i] == rows[i];
        }
      }
    }
  }
}
