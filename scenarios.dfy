/** Concrete sessions on the two adapters. Each one fixes a short sequence of calls
    and states the selection it ends with, on the points where the two variants
    behave differently: the range of the bulk operations, whether a toggle needs the
    listener's consent, whether a mode change clears the selection, and the cap that
    `select` checks. */
module Scenarios {
  import opened LinkedSets
  import KtViews
  import Views

  /** A fresh multi-select adapter in package `kt.views` with cap 3 and a listener,
      after clicks on rows 0 and 1. */
  method KtTwoTaken() returns (a: KtViews.EasyAdapter)
    ensures fresh(a) && a.Valid()
    ensures a.mode == KtViews.MultiSelect && a.maxSelectionCount == 3 && a.hasMultiSelectListener
    ensures a.selected == [0, 1]
    ensures a.events == [KtViews.Selected(0, true), KtViews.Selected(1, true)]
  {
    a := new KtViews.EasyAdapter(KtViews.MultiSelect, 3);
    a.hasMultiSelectListener := true;
    a.OnClick(0);
    assert a.selected == [0] && a.events == [KtViews.Selected(0, true)];
    a.OnClick(1);
  }

  /** The same adapter after a third click, on row 2: the cap is reached. */
  method KtFilledToCap() returns (a: KtViews.EasyAdapter)
    ensures fresh(a) && a.Valid()
    ensures a.mode == KtViews.MultiSelect && a.maxSelectionCount == 3 && a.hasMultiSelectListener
    ensures a.selected == [0, 1, 2]
    ensures a.events == [KtViews.Selected(0, true), KtViews.Selected(1, true), KtViews.Selected(2, true)]
  {
    a := KtTwoTaken();
    a.OnClick(2);
  }

  /** Seven rows, cap 3, multi-select on the adapter in package `kt.views`: rows 0, 1
      and 2 are taken, row 3 is refused with one out-of-max report, row 1 is released,
      and then row 3 fits. */
  method KtCappedClicks() returns (selection: seq<int>, ghost trace: seq<KtViews.Event>)
    ensures selection == [0, 2, 3]
    ensures trace == [KtViews.Selected(0, true), KtViews.Selected(1, true), KtViews.Selected(2, true),
                      KtViews.OutOfMax(3), KtViews.Selected(1, false), KtViews.Selected(3, true)]
  {
    var a := KtFilledToCap();
    assert a.BlocksClick(3);
    a.OnClick(3);
    assert a.selected == [0, 1, 2];
    assert Without([1, 2], {1}) == [2];
    assert !a.BlocksClick(1);
    a.OnClick(1);
    assert a.selected == [0, 2];
    assert !a.BlocksClick(3);
    a.OnClick(3);
    selection := a.SelectedSet();
    trace := a.events;
  }

  /** The same start in package `views`, with a listener that accepts every toggle:
      clicks on rows 0 and 1. */
  method ViewsTwoTaken() returns (a: Views.EasyAdapter)
    ensures fresh(a) && a.Valid()
    ensures a.mode == Views.MultiSelect && a.maxSelection == 3 && a.hasItemSelectedListener
    ensures a.selected == [0, 1]
    ensures a.events == [Views.Selected(0, true), Views.Selected(1, true)]
  {
    a := new Views.EasyAdapter(Views.MultiSelect, 3);
    a.hasItemSelectedListener := true;
    a.OnClick(0, true);
    assert a.selected == [0] && a.events == [Views.Selected(0, true)];
    a.OnClick(1, true);
  }

  /** Then a click on row 2: the cap is reached. */
  method ViewsFilledToCap() returns (a: Views.EasyAdapter)
    ensures fresh(a) && a.Valid()
    ensures a.mode == Views.MultiSelect && a.maxSelection == 3 && a.hasItemSelectedListener
    ensures a.selected == [0, 1, 2]
    ensures a.events == [Views.Selected(0, true), Views.Selected(1, true), Views.Selected(2, true)]
  {
    a := ViewsTwoTaken();
    a.OnClick(2, true);
  }

  /** The same session on the adapter in package `views`, with a listener that
      accepts every toggle, ends the same way. */
  method ViewsCappedClicks() returns (selection: seq<int>, ghost trace: seq<Views.Event>)
    ensures selection == [0, 2, 3]
    ensures trace == [Views.Selected(0, true), Views.Selected(1, true), Views.Selected(2, true),
                      Views.OutOfMax(3), Views.Selected(1, false), Views.Selected(3, true)]
  {
    var a := ViewsFilledToCap();
    assert a.BlocksClick(3);
    a.OnClick(3, true);
    assert a.selected == [0, 1, 2];
    assert Without([1, 2], {1}) == [2];
    assert !a.BlocksClick(1);
    a.OnClick(1, true);
    assert a.selected == [0, 2];
    assert !a.BlocksClick(3);
    a.OnClick(3, true);
    selection := a.SelectedSet();
    trace := a.events;
  }

  /** In package `views` a multi-select toggle happens only when a registered
      listener agrees: a refusal, and a click with no listener, change nothing. */
  method ViewsToggleNeedsConsent() returns (selection: seq<int>)
    ensures selection == [0]
  {
    var a := new Views.EasyAdapter(Views.MultiSelect, 0);
    a.hasItemSelectedListener := true;
    a.OnClick(0, false);
    assert a.selected == [];
    a.OnClick(0, true);
    assert a.selected == [0];
    a.hasItemSelectedListener := false;
    a.OnClick(1, true);
    selection := a.SelectedSet();
  }

  /** `selectAll` over five rows in package `kt.views` selects rows 0 through 4. */
  method KtSelectAllFive() returns (selection: seq<int>)
    ensures selection == [0, 1, 2, 3, 4]
  {
    var a := new KtViews.EasyAdapter(KtViews.MultiSelect, 0);
    a.SelectAll(5);
    assert Range(0, 5) == [0, 1, 2, 3, 4];
    WithoutAbsent(Range(0, 5), Elems([]));
    assert [] + Range(0, 5) == Range(0, 5);
    selection := a.SelectedSet();
  }

  /** `selectAll` over five rows in package `views` also selects row 5, which does
      not exist. */
  method ViewsSelectAllFive() returns (selection: seq<int>)
    ensures selection == [0, 1, 2, 3, 4, 5]
  {
    var a := new Views.EasyAdapter(Views.MultiSelect, 0);
    a.SelectAll(5);
    assert Range(0, 6) == [0, 1, 2, 3, 4, 5];
    Views.SelectAllOvershoots([], 5);
    selection := a.SelectedSet();
  }

  /** Click, single-select, multi-select and back to click in package `kt.views`:
      the selection survives every mode change. */
  method KtModeRoundTrip() returns (selection: seq<int>)
    ensures selection == [2]
  {
    var a := new KtViews.EasyAdapter(KtViews.Click, 0);
    var thrown := a.Select([2], 7);
    assert KtViews.SelectCandidates([2], [], 7) == [2];
    assert a.selected == [2];
    a.SetMode(KtViews.SingleSelect);
    a.SetMode(KtViews.MultiSelect);
    a.SetMode(KtViews.Click);
    selection := a.SelectedSet();
  }

  /** The same mode changes in package `views` clear the selection on entering
      single-select, and leaving it again does not restore anything. */
  method ViewsModeRoundTrip() returns (selection: seq<int>)
    ensures selection == []
  {
    var a := new Views.EasyAdapter(Views.Click, 0);
    a.Select(2);
    assert a.selected == [2];
    a.SetMode(Views.SingleSelect);
    a.SetMode(Views.MultiSelect);
    a.SetMode(Views.Click);
    selection := a.SelectedSet();
  }

  /** With a cap of 1, `select(0, 1)` in package `kt.views` keeps to the cap. */
  method KtSelectCapOfOne() returns (selection: seq<int>)
    ensures selection == [0]
  {
    var a := new KtViews.EasyAdapter(KtViews.MultiSelect, 1);
    assert KtViews.SelectCandidates([0, 1], [], 7) == [0, 1];
    assert [0, 1][1..] == [1] && [1][1..] == [];
    assert KtViews.SelectAfter([0], [1], 1) == [0];
    assert KtViews.SelectAfter([], [0, 1], 1) == [0];
    var thrown := a.Select([0, 1], 7);
    selection := a.SelectedSet();
  }

  /** With a cap of 1, `select` in package `views` admits a second row: its guard is
      `maxSelection > 1`, so a cap of 1 is never checked there. */
  method ViewsSelectPastCapOfOne() returns (selection: seq<int>)
    ensures selection == [0, 1]
  {
    var a := new Views.EasyAdapter(Views.MultiSelect, 1);
    a.Select(0);
    assert a.selected == [0];
    assert !(a.maxSelection > 1) && a.mode != Views.SingleSelect;
    a.Select(1);
    assert a.selected == Add([0], 1) == [0, 1];
    selection := a.SelectedSet();
  }
}
