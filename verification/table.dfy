/**
 The whole table component as one state machine: the loaded page of rows,
 the pagination fields and the selection, driven by user events and by the
 arrival of a fetched page. The fetch itself is not modelled; its result
 arrives as a `Loaded` event.
 */
module Table {
  import opened Arith
  import opened Selection
  import opened Pagination

  datatype Component = Component(
    rows: seq<Id>,
    page: int,
    total: nat,
    limit: PosInt,
    sel: State)

  /** What the component holds when it mounts: no rows, page 1, 12 per page. */
  const Mounted := Component([], 1, 0, 12, Selection.Initial)

  datatype Event =
    | ClickRow(id: Id)
    | ClickHeader
    | BulkSelect(input: Option<int>)
    | ClickPrev
    | ClickNext
    | ClickPage(target: int)
    | Loaded(newRows: seq<Id>, newTotal: nat, newLimit: PosInt)

  /** Events that only move between pages or replace the loaded rows. */
  predicate IsNavigation(e: Event) {
    e.ClickPrev? || e.ClickNext? || e.ClickPage? || e.Loaded?
  }

  function PageCount(t: Component): nat {
    TotalPages(t.total, t.limit)
  }

  /** The component's invariant: a page number of at least 1 and a consistent selection. */
  predicate Valid(t: Component) {
    t.page >= 1 && Disjoint(t.sel)
  }

  /** One event. Selection events leave the pagination fields and rows alone;
      navigation events leave the selection alone. */
  function Step(t: Component, e: Event): (r: Component)
    ensures IsNavigation(e) ==> r.sel == t.sel
    ensures !e.Loaded? ==> r.rows == t.rows && r.total == t.total && r.limit == t.limit
    ensures !IsNavigation(e) ==> r.page == t.page
    ensures Valid(t) ==> Valid(r)
  {
    match e
    case ClickRow(id) => t.(sel := ToggleRow(t.sel, id))
    case ClickHeader => t.(sel := ToggleSelectAllPage(t.sel, t.rows))
    case BulkSelect(input) => t.(sel := OverlaySelect(t.sel, t.rows, input))
    case ClickPrev => t.(page := PressPrev(t.page))
    case ClickNext => t.(page := PressNext(t.page, PageCount(t)))
    case ClickPage(target) => t.(page := PressPageButton(t.page, PageCount(t), target))
    case Loaded(rows, total, limit) => t.(rows := rows, total := total, limit := limit)
  }

  function Run(t: Component, es: seq<Event>): Component
    decreases |es|
  {
    if |es| == 0 then t else Run(Step(t, es[0]), es[1..])
  }

  /** Every reachable table keeps the invariant. */
  lemma {:induction false} RunValid(t: Component, es: seq<Event>)
    requires Valid(t)
    ensures Valid(Run(t, es))
    decreases |es|
  {
    if |es| > 0 {
      RunValid(Step(t, es[0]), es[1..]);
    }
  }

  /** Moving between pages and refetching never changes the selection: a row
      ticked on page 1 is still ticked after visiting page 2 and coming back. */
  lemma {:induction false} NavigationKeepsSelection(t: Component, es: seq<Event>)
    requires forall i :: 0 <= i < |es| ==> IsNavigation(es[i])
    ensures Run(t, es).sel == t.sel
    decreases |es|
  {
    if |es| > 0 {
      NavigationKeepsSelection(Step(t, es[0]), es[1..]);
    }
  }

  /** Clicking through pages with Prev, Next and the numbered buttons keeps
      the page inside `[1, max(1, page count)]` while no new page arrives. */
  lemma {:induction false} ClicksStayInRange(t: Component, es: seq<Event>)
    requires 1 <= t.page <= Max(1, PageCount(t))
    requires forall i :: 0 <= i < |es| ==> !es[i].Loaded?
    ensures 1 <= Run(t, es).page <= Max(1, PageCount(Run(t, es)))
    decreases |es|
  {
    if |es| > 0 {
      ClicksStayInRange(Step(t, es[0]), es[1..]);
    }
  }

  /** One event with Next guarded as the component writes it
      (`page === totalPages`). It differs from `Step` only on a Next click
      from a page outside `[1, page count]`. */
  function StepAsWritten(t: Component, e: Event): (r: Component)
    ensures !e.ClickNext? ==> r == Step(t, e)
    ensures 1 <= t.page <= PageCount(t) ==> r == Step(t, e)
    ensures IsNavigation(e) ==> r.sel == t.sel
    ensures Valid(t) ==> Valid(r)
  {
    if e.ClickNext? then
      t.(page := PressNextAsWritten(t.page, PageCount(t)))
    else
      Step(t, e)
  }

  function RunAsWritten(t: Component, es: seq<Event>): Component
    decreases |es|
  {
    if |es| == 0 then t else RunAsWritten(StepAsWritten(t, es[0]), es[1..])
  }

  /** With Next guarded as written, every reachable state still keeps the
      invariant: the page never drops below 1 and the sets stay disjoint. */
  lemma {:induction false} RunAsWrittenValid(t: Component, es: seq<Event>)
    requires Valid(t)
    ensures Valid(RunAsWritten(t, es))
    decreases |es|
  {
    if |es| > 0 {
      RunAsWrittenValid(StepAsWritten(t, es[0]), es[1..]);
    }
  }

  /** The mount state keeps the invariant, so every state the component can
      reach from it does, with either Next guard. */
  lemma ReachableValid(es: seq<Event>)
    ensures Valid(Mounted)
    ensures Valid(Run(Mounted, es))
    ensures Valid(RunAsWritten(Mounted, es))
  {
    RunValid(Mounted, es);
    RunAsWrittenValid(Mounted, es);
  }

  /** With Next guarded as written, moving between pages and refetching still
      never changes the selection. */
  lemma {:induction false} NavigationAsWrittenKeepsSelection(t: Component, es: seq<Event>)
    requires forall i :: 0 <= i < |es| ==> IsNavigation(es[i])
    ensures RunAsWritten(t, es).sel == t.sel
    decreases |es|
  {
    if |es| > 0 {
      NavigationAsWrittenKeepsSelection(StepAsWritten(t, es[0]), es[1..]);
    }
  }

  /** As written, the very first click on Next after mounting (no records
      yet, so zero pages) leaves the range `[1, max(1, page count)]`. */
  lemma NextAsWrittenLeavesRangeAtMount()
    ensures PageCount(Mounted) == 0
    ensures StepAsWritten(Mounted, ClickNext).page == 2
    ensures StepAsWritten(Mounted, ClickNext).page > Max(1, PageCount(StepAsWritten(Mounted, ClickNext)))
  {
  }

  /** Page 1 of a 100-record catalog at 12 per page: nine pages; ticking rows
      1, 3 and 5, then visiting page 2 and coming back, leaves all three ticked. */
  lemma SelectionSurvivesPageRoundTrip(page1: seq<Id>, page2: seq<Id>)
    requires |page1| == 12 && |page2| == 12
    requires 1 in page1 && 3 in page1 && 5 in page1
    ensures var t := Run(Mounted, [Loaded(page1, 100, 12), ClickRow(1), ClickRow(3), ClickRow(5)]);
            && PageCount(t) == 9
            && t.sel.selected == {1, 3, 5}
            && SelectedCount(t.sel) == 3
    ensures var t := Run(Mounted, [Loaded(page1, 100, 12), ClickRow(1), ClickRow(3), ClickRow(5),
                                   ClickNext, Loaded(page2, 100, 12),
                                   ClickPrev, Loaded(page1, 100, 12)]);
            && t.page == 1
            && t.sel.selected == {1, 3, 5}
            && IsSelected(t.sel, 1) && IsSelected(t.sel, 3) && IsSelected(t.sel, 5)
  {
    var es := [Loaded(page1, 100, 12), ClickRow(1), ClickRow(3), ClickRow(5)];
    var t1 := Step(Mounted, es[0]);
    var t2 := Step(t1, es[1]);
    var t3 := Step(t2, es[2]);
    var t4 := Step(t3, es[3]);
    assert es[1..][1..][1..][1..] == [];
    assert Run(t4, es[1..][1..][1..][1..]) == t4;
    assert Run(t3, es[1..][1..][1..]) == t4;
    assert Run(t2, es[1..][1..]) == t4;
    assert Run(t1, es[1..]) == t4;
    assert Run(Mounted, es) == t4;
    assert PageCount(t4) == 9 by {
      assert TotalPages(100, 12) == (100 + 12 - 1) / 12;
    }
    assert t4.sel.selected == {1, 3, 5};
    var nav := [ClickNext, Loaded(page2, 100, 12), ClickPrev, Loaded(page1, 100, 12)];
    RunAppend(Mounted, es, nav);
    assert es + nav == [Loaded(page1, 100, 12), ClickRow(1), ClickRow(3), ClickRow(5),
                        ClickNext, Loaded(page2, 100, 12), ClickPrev, Loaded(page1, 100, 12)];
    NavigationKeepsSelection(t4, nav);
    var u1 := Step(t4, nav[0]);
    var u2 := Step(u1, nav[1]);
    var u3 := Step(u2, nav[2]);
    var u4 := Step(u3, nav[3]);
    assert u1.page == 2;
    assert u3.page == 1;
    assert nav[1..][1..][1..][1..] == [];
    assert Run(u4, nav[1..][1..][1..][1..]) == u4;
    assert Run(u3, nav[1..][1..][1..]) == u4;
    assert Run(u2, nav[1..][1..]) == u4;
    assert Run(u1, nav[1..]) == u4;
    assert Run(t4, nav) == u4;
  }

  /** Running two batches of events is running their concatenation. */
  lemma {:induction false} RunAppend(t: Component, es1: seq<Event>, es2: seq<Event>)
    ensures Run(t, es1 + es2) == Run(Run(t, es1), es2)
    decreases |es1|
  {
    if |es1| > 0 {
      assert (es1 + es2)[1..] == es1[1..] + es2;
      RunAppend(Step(t, es1[0]), es1[1..], es2);
    } else {
      assert es1 + es2 == es2;
    }
  }

  /** On a page of twelve distinct rows, bulk-selecting 5 ticks the first five
      rows, puts the other seven in the deselected set, and the counter reads 5. */
  lemma BulkSelectFiveOfTwelve(t: Component)
    requires |t.rows| == 12 && Distinct(t.rows)
    ensures var r := Step(t, BulkSelect(Some(5)));
            && r.sel.selected == PageIds(t.rows[..5])
            && r.sel.deselected == PageIds(t.rows[5..])
            && SelectedCount(r.sel) == 5
            && |r.sel.deselected| == 7
  {
    OverlaySelectCounts(t.sel, t.rows, 5);
    var r := Step(t, BulkSelect(Some(5)));
    assert t.rows == t.rows[..5] + t.rows[5..];
    forall x | x in PageIds(t.rows[5..]) ensures x in r.sel.deselected {
      var j :| 0 <= j < |t.rows[5..]| && t.rows[5..][j] == x;
      assert t.rows[5 + j] == x;
      forall i | 0 <= i < 5 ensures t.rows[..5][i] != x {
        assert t.rows[..5][i] == t.rows[i];
      }
    }
  }
}
