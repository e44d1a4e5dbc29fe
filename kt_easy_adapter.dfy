/** The selection state machine of the adapter in package
    `cn.forward.androids.kt.views`: a mode, a selection cap, an insertion-ordered set of
    selected rows for multi-select and a separate scalar position for single-select.
    Listener calls are recorded in a trace; `notifyDataSetChanged()` is a counter. */
module KtViews {
  import opened LinkedSets

  /** `EasyAdapter.Mode`. */
  datatype Mode = Click | SingleSelect | MultiSelect

  /** `EasyAdapter.SelectionMode`: the tag of a bulk multi-select notification. */
  datatype SelectionMode = SelectAll | UnselectAll | ReverseSelected

  /** One call into a registered listener. */
  datatype Event =
    | Clicked(position: int)                                   // OnItemClickedListener.onClicked
    | SingleSelected(position: int)                            // OnSingleSelectListener.onSelected
    | Selected(position: int, isSelected: bool)                // OnMultiSelectListener.onSelected(position, isSelected)
    | Bulk(selectionMode: SelectionMode, selection: seq<int>)  // OnMultiSelectListener.onSelected(selectionMode, selectedSet)
    | OutOfMax(position: int)                                  // OnMultiSelectListener.onOutOfMax
    | ModeChanged(oldMode: Mode, newMode: Mode)                // OnModeChangedListener.onModeChanged

  /** `listener?.call(...)`: the calls happen only when a listener is registered. */
  function Fire(registered: bool, calls: seq<Event>): (r: seq<Event>)
    ensures r != [] ==> registered
    ensures registered ==> r == calls
  {
    if registered then calls else []
  }

  /** The multi-select cap stops a new entry: `maxSelectionCount > 0` and it is reached. */
  predicate CapReached(s: seq<int>, cap: int): (r: bool)
    ensures cap <= 0 ==> !r
    ensures r ==> s != [] && |s| >= cap
  {
    cap > 0 && |s| >= cap
  }

  /** `position.filter { it !in selectedSet && it < itemCount }`, evaluated once, before
      any candidate is added. */
  function SelectCandidates(positions: seq<int>, s: seq<int>, itemCount: int): (r: seq<int>)
    ensures forall y :: y in r <==> y in positions && y !in s && y < itemCount
  {
    if positions == [] then []
    else
      var rest := SelectCandidates(positions[1..], s, itemCount);
      assert forall y :: y in positions <==> y == positions[0] || y in positions[1..];
      if positions[0] !in s && positions[0] < itemCount then [positions[0]] + rest else rest
  }

  /** `position.filter { it in selectedSet && it < itemCount }`. */
  function UnselectCandidates(positions: seq<int>, s: seq<int>, itemCount: int): (r: seq<int>)
    ensures forall y :: y in r <==> y in positions && y in s && y < itemCount
  {
    if positions == [] then []
    else
      var rest := UnselectCandidates(positions[1..], s, itemCount);
      assert forall y :: y in positions <==> y == positions[0] || y in positions[1..];
      if positions[0] in s && positions[0] < itemCount then [positions[0]] + rest else rest
  }

  /** One pass of the `forEach` in `select`: add the candidate unless the cap is reached. */
  function SelectStep(s: seq<int>, c: int, cap: int): (r: seq<int>)
    ensures CapReached(s, cap) ==> r == s
    ensures !CapReached(s, cap) ==> c in r
    ensures |s| <= |r| <= |s| + 1 && r[..|s|] == s
    ensures forall y :: y in r ==> y in s || y == c
  {
    if CapReached(s, cap) then s else Add(s, c)
  }

  /** The selected set once the `forEach` in `select` has handled every candidate. */
  function SelectAfter(s: seq<int>, cands: seq<int>, cap: int): (r: seq<int>)
    ensures |r| <= |s| + |cands|
    decreases |cands|
  {
    if cands == [] then s else SelectAfter(SelectStep(s, cands[0], cap), cands[1..], cap)
  }

  /** The multi-select listener calls of that `forEach`: one per candidate. */
  function SelectEvents(s: seq<int>, cands: seq<int>, cap: int): (r: seq<Event>)
    ensures |r| == |cands|
    decreases |cands|
  {
    if cands == [] then []
    else
      [if CapReached(s, cap) then OutOfMax(cands[0]) else Selected(cands[0], true)]
      + SelectEvents(SelectStep(s, cands[0], cap), cands[1..], cap)
  }

  /** One more candidate handled: the step the loop of `select` takes. */
  lemma SelectUnfold(s: seq<int>, cands: seq<int>, i: nat, cap: int)
    requires i < |cands|
    ensures SelectAfter(s, cands[i..], cap) == SelectAfter(SelectStep(s, cands[i], cap), cands[i + 1..], cap)
    ensures SelectEvents(s, cands[i..], cap) ==
              [if CapReached(s, cap) then OutOfMax(cands[i]) else Selected(cands[i], true)] +
              SelectEvents(SelectStep(s, cands[i], cap), cands[i + 1..], cap)
  {
    assert cands[i..][0] == cands[i];
    assert cands[i..][1..] == cands[i + 1..];
  }

  lemma FireAppend(trace: seq<Event>, registered: bool, first: seq<Event>, rest: seq<Event>)
    ensures trace + Fire(registered, first + rest) == (trace + Fire(registered, first)) + Fire(registered, rest)
  {
  }

  /** The multi-select listener calls of the `forEach` in `unselect`. */
  function UnselectEvents(cands: seq<int>): (r: seq<Event>)
    ensures |r| == |cands|
    ensures forall i :: 0 <= i < |cands| ==> r[i] == Selected(cands[i], false)
  {
    seq(|cands|, i requires 0 <= i < |cands| => Selected(cands[i], false))
  }

  /** One more candidate removed: the step the loop of `unselect` takes. */
  lemma RemoveOneMore(s: seq<int>, cands: seq<int>, i: nat)
    requires i < |cands|
    ensures Without(Without(s, Elems(cands[..i])), {cands[i]}) == Without(s, Elems(cands[..i + 1]))
  {
    WithoutTwice(s, Elems(cands[..i]), {cands[i]});
    assert cands[..i + 1] == cands[..i] + [cands[i]];
    assert Elems(cands[..i + 1]) == Elems(cands[..i]) + {cands[i]};
  }

  lemma UnselectEventsSnoc(cands: seq<int>, i: nat)
    requires i < |cands|
    ensures UnselectEvents(cands[..i + 1]) == UnselectEvents(cands[..i]) + [Selected(cands[i], false)]
  {
    var a := UnselectEvents(cands[..i + 1]);
    var b := UnselectEvents(cands[..i]) + [Selected(cands[i], false)];
    assert |a| == |b|;
    forall k | 0 <= k < |a|
      ensures a[k] == b[k]
    {
      if k < i {
        assert cands[..i + 1][k] == cands[..i][k];
      }
    }
  }

  /** `select` keeps the old entries in front, adds only candidates, keeps a set a set,
      and never grows a set past a positive cap. */
  lemma {:induction false} SelectAfterBounds(s: seq<int>, cands: seq<int>, cap: int)
    ensures |s| <= |SelectAfter(s, cands, cap)| && SelectAfter(s, cands, cap)[..|s|] == s
    ensures forall y :: y in SelectAfter(s, cands, cap) ==> y in s || y in cands
    ensures NoDups(s) ==> NoDups(SelectAfter(s, cands, cap))
    ensures cap > 0 && |s| <= cap ==> |SelectAfter(s, cands, cap)| <= cap
    decreases |cands|
  {
    if cands != [] {
      var next := SelectStep(s, cands[0], cap);
      SelectAfterBounds(next, cands[1..], cap);
      var r := SelectAfter(s, cands, cap);
      assert r == SelectAfter(next, cands[1..], cap);
      assert r[..|s|] == r[..|next|][..|s|];
      forall y | y in r
        ensures y in s || y in cands
      {
        if y in next && y !in s {
          assert y == cands[0];
        }
        if y in cands[1..] {
          var k :| 0 <= k < |cands[1..]| && cands[1..][k] == y;
          assert cands[k + 1] == y;
        }
      }
    }
  }

  /** With no positive cap, `select` adds every candidate, as `addAll` would. */
  lemma {:induction false} SelectUnlimited(s: seq<int>, cands: seq<int>, cap: int)
    requires cap <= 0
    ensures SelectAfter(s, cands, cap) == AddAll(s, cands)
    decreases |cands|
  {
    if cands != [] {
      SelectUnlimited(Add(s, cands[0]), cands[1..], cap);
    }
  }

  /** Every candidate is reported once, in order: as selected, or as out of max; the
      latter only once the cap is reached and a selected one is then in the set. */
  lemma {:induction false} SelectEventsReport(s: seq<int>, cands: seq<int>, cap: int)
    ensures |SelectEvents(s, cands, cap)| == |cands|
    ensures forall i :: 0 <= i < |cands| ==>
              SelectEvents(s, cands, cap)[i] == Selected(cands[i], true) ||
              SelectEvents(s, cands, cap)[i] == OutOfMax(cands[i])
    ensures forall i :: 0 <= i < |cands| && SelectEvents(s, cands, cap)[i].OutOfMax? ==>
              CapReached(SelectAfter(s, cands, cap), cap)
    ensures forall i :: 0 <= i < |cands| && SelectEvents(s, cands, cap)[i].Selected? ==>
              cands[i] in SelectAfter(s, cands, cap)
    decreases |cands|
  {
    if cands != [] {
      var next := SelectStep(s, cands[0], cap);
      var rest := cands[1..];
      SelectEventsReport(next, rest, cap);
      SelectAfterBounds(next, rest, cap);
      var evs := SelectEvents(s, cands, cap);
      var r := SelectAfter(s, cands, cap);
      assert r == SelectAfter(next, rest, cap);
      assert evs == [evs[0]] + SelectEvents(next, rest, cap);
      forall i | 0 <= i < |cands|
        ensures evs[i] == Selected(cands[i], true) || evs[i] == OutOfMax(cands[i])
        ensures evs[i].OutOfMax? ==> CapReached(r, cap)
        ensures evs[i].Selected? ==> cands[i] in r
      {
        if i == 0 {
          if !CapReached(s, cap) {
            assert cands[0] in next;
            assert next == r[..|next|];
            assert next[|next| - 1] == cands[0] || cands[0] in s;
            var x := cands[0];
            var k :| 0 <= k < |next| && next[k] == x;
            assert r[k] == x;
          }
        } else {
          assert evs[i] == SelectEvents(next, rest, cap)[i - 1];
          assert rest[i - 1] == cands[i];
        }
      }
    }
  }

  /** The selection a reverse produces: the rows below itemCount that were not selected,
      ascending. */
  function ReverseOf(s: seq<int>, itemCount: nat): (r: seq<int>)
    ensures forall y :: y in r <==> 0 <= y < itemCount && y !in s
    ensures StrictlyIncreasing(r) && NoDups(r)
  {
    RangeFacts(0, itemCount);
    WithoutIncreasing(Range(0, itemCount), Elems(s));
    WithoutNoDups(Range(0, itemCount), Elems(s));
    Complement(Range(0, itemCount), s)
  }

  /** What `selectAll` computes, `+= 0 until itemCount`: the old entries in their order,
      then the missing rows ascending; afterwards every row below itemCount is selected. */
  lemma SelectAllComputes(s: seq<int>, itemCount: nat)
    ensures AddAll(s, Range(0, itemCount)) == s + Complement(Range(0, itemCount), s)
    ensures forall y :: y in AddAll(s, Range(0, itemCount)) <==> y in s || 0 <= y < itemCount
  {
    RangeFacts(0, itemCount);
    AddAllAppendsMissing(s, Range(0, itemCount));
  }

  /** What `reverseSelected` computes, `+= 0 until itemCount` and then `removeAll` of a
      copy of the old set, is the reverse selection. */
  lemma ReverseComputes(s: seq<int>, itemCount: nat)
    ensures Without(AddAll(s, Range(0, itemCount)), Elems(s)) == ReverseOf(s, itemCount)
  {
    RangeFacts(0, itemCount);
    ReverseIsComplement(s, Range(0, itemCount));
  }

  /** Reversing twice keeps exactly the old rows below itemCount, ascending, and is the
      identity on an ascending selection of existing rows. */
  lemma ReverseTwice(s: seq<int>, itemCount: nat)
    ensures forall y :: y in ReverseOf(ReverseOf(s, itemCount), itemCount) <==> y in s && 0 <= y < itemCount
    ensures StrictlyIncreasing(s) && (forall y :: y in s ==> 0 <= y < itemCount) ==>
              ReverseOf(ReverseOf(s, itemCount), itemCount) == s
  {
    RangeFacts(0, itemCount);
    ComplementTwice(Range(0, itemCount), s);
  }

  /** Selecting all rows and then reversing leaves nothing selected. */
  lemma SelectAllThenReverse(s: seq<int>, itemCount: nat)
    ensures ReverseOf(s + Complement(Range(0, itemCount), s), itemCount) == []
  {
    RangeFacts(0, itemCount);
    var all := s + Complement(Range(0, itemCount), s);
    var r := ReverseOf(all, itemCount);
    forall y | y in Range(0, itemCount)
      ensures y in Elems(all)
    {
      if y !in s {
        assert y in Complement(Range(0, itemCount), s);
      }
    }
    WithoutCovered(Range(0, itemCount), Elems(all));
  }

  class EasyAdapter {
    var mode: Mode
    /** `maxSelectionCount`; a value <= 0 means no cap. */
    var maxSelectionCount: int
    var singleSelectedPosition: int
    /** The private `selectedSet`, oldest entry first. */
    var selected: seq<int>
    /** How many times `notifyDataSetChanged()` was called. */
    var renders: nat
    var hasItemClickedListener: bool
    var hasSingleSelectListener: bool
    var hasMultiSelectListener: bool
    var hasModeChangedListener: bool
    /** Every listener call so far, in order. */
    ghost var events: seq<Event>

    /** The selection is a set and the positive cap holds, in every mode. */
    ghost predicate Valid()
      reads this
    {
      NoDups(selected) && (maxSelectionCount > 0 ==> |selected| <= maxSelectionCount)
    }

    /** The primary constructor; property initialisers do not run the setters. */
    constructor (mode: Mode, maxSelection: int)
      ensures Valid()
      ensures this.mode == mode && maxSelectionCount == maxSelection
      ensures selected == [] && singleSelectedPosition == 0 && renders == 0 && events == []
      ensures !hasItemClickedListener && !hasSingleSelectListener
      ensures !hasMultiSelectListener && !hasModeChangedListener
    {
      this.mode := mode;
      maxSelectionCount := maxSelection;
      singleSelectedPosition := 0;
      selected := [];
      renders := 0;
      hasItemClickedListener, hasSingleSelectListener := false, false;
      hasMultiSelectListener, hasModeChangedListener := false, false;
      events := [];
    }

    /** The `maxSelectionCount` setter: a positive cap evicts the most recently added
        entries until it holds; the list is re-rendered in every case. */
    method SetMaxSelectionCount(value: int)
      requires Valid()
      modifies this`maxSelectionCount, this`selected, this`renders
      ensures Valid()
      ensures maxSelectionCount == value
      ensures selected == if value > 0 && |old(selected)| > value then old(selected)[..value] else old(selected)
      ensures renders == old(renders) + 1
    {
      maxSelectionCount := value;
      if maxSelectionCount > 0 {
        while |selected| > maxSelectionCount
          modifies this`selected
          invariant NoDups(selected)
          invariant |selected| <= |old(selected)| && selected == old(selected)[..|selected|]
          invariant |selected| >= value || selected == old(selected)
          decreases |selected|
        {
          WithoutLast(selected);
          selected := Without(selected, {selected[|selected| - 1]});
        }
      }
      renders := renders + 1;
    }

    /** The `mode` setter: assigning the current mode does nothing; otherwise the mode
        listener hears of the change and the list is re-rendered. The selection stays. */
    method SetMode(value: Mode)
      requires Valid()
      modifies this`mode, this`renders, this`events
      ensures Valid()
      ensures mode == value
      ensures old(mode) == value ==> renders == old(renders) && events == old(events)
      ensures old(mode) != value ==>
                renders == old(renders) + 1 &&
                events == old(events) + Fire(hasModeChangedListener, [ModeChanged(old(mode), value)])
    {
      if mode == value {
        return;
      }
      var previous := mode;
      mode := value;
      events := events + Fire(hasModeChangedListener, [ModeChanged(previous, mode)]);
      renders := renders + 1;
    }

    /** The `singleSelectedPosition` setter: a new value is announced and re-rendered. */
    method SetSingleSelectedPosition(value: int)
      requires Valid()
      modifies this`singleSelectedPosition, this`renders, this`events
      ensures Valid()
      ensures singleSelectedPosition == value
      ensures old(singleSelectedPosition) == value ==> renders == old(renders) && events == old(events)
      ensures old(singleSelectedPosition) != value ==>
                renders == old(renders) + 1 &&
                events == old(events) + Fire(hasSingleSelectListener, [SingleSelected(value)])
    {
      if singleSelectedPosition == value {
        return;
      }
      singleSelectedPosition := value;
      events := events + Fire(hasSingleSelectListener, [SingleSelected(value)]);
      renders := renders + 1;
    }

    /** A multi-select click on pos is refused: the cap is positive and reached and pos
        is not selected yet. */
    predicate BlocksClick(pos: int): (r: bool)
      reads this
      ensures r ==> pos !in selected && selected != []
      ensures maxSelectionCount <= 0 ==> !r
    {
      CapReached(selected, maxSelectionCount) && pos !in selected
    }

    /** The click listener installed on every row: pos is the row's adapter position. */
    method OnClick(pos: int)
      requires Valid()
      modifies this`selected, this`singleSelectedPosition, this`renders, this`events
      ensures Valid()
      ensures mode == Click ==>
                selected == old(selected) && singleSelectedPosition == old(singleSelectedPosition) &&
                renders == old(renders) &&
                events == old(events) + Fire(hasItemClickedListener, [Clicked(pos)])
      ensures mode == SingleSelect ==>
                selected == old(selected) && singleSelectedPosition == pos &&
                renders == old(renders) + (if old(singleSelectedPosition) == pos then 1 else 2) &&
                events == old(events) +
                  (if old(singleSelectedPosition) == pos then [] else Fire(hasSingleSelectListener, [SingleSelected(pos)]))
      ensures mode == MultiSelect && old(BlocksClick(pos)) ==>
                selected == old(selected) && singleSelectedPosition == old(singleSelectedPosition) &&
                renders == old(renders) &&
                events == old(events) + Fire(hasMultiSelectListener, [OutOfMax(pos)])
      ensures mode == MultiSelect && !old(BlocksClick(pos)) ==>
                selected == (if pos in old(selected) then Without(old(selected), {pos}) else old(selected) + [pos]) &&
                singleSelectedPosition == old(singleSelectedPosition) &&
                renders == old(renders) + 1 &&
                events == old(events) + Fire(hasMultiSelectListener, [Selected(pos, pos !in old(selected))])
    {
      if mode == Click {
        events := events + Fire(hasItemClickedListener, [Clicked(pos)]);
      } else if mode == SingleSelect {
        SetSingleSelectedPosition(pos);
        renders := renders + 1;
      } else if mode == MultiSelect {
        if maxSelectionCount > 0 && |selected| >= maxSelectionCount && pos !in selected {
          events := events + Fire(hasMultiSelectListener, [OutOfMax(pos)]);
          return;
        }
        var isSelected := pos in selected;
        if isSelected {
          WithoutNoDups(selected, {pos});
          selected := Without(selected, {pos});
        } else {
          selected := Add(selected, pos);
        }
        events := events + Fire(hasMultiSelectListener, [Selected(pos, !isSelected)]);
        renders := renders + 1;
      }
    }

    /** The display rule of `onBindViewHolder` for the row at position. */
    function ShowsSelected(position: int): (b: bool)
      reads this
      ensures b ==> mode != Click
      ensures mode == SingleSelect ==> (b <==> position == singleSelectedPosition)
      ensures mode == MultiSelect ==> (b <==> IsSelected(position))
    {
      match mode
      case Click => false
      case SingleSelect => singleSelectedPosition == position
      case MultiSelect => position in selected
    }

    /** `selectAll`: only without a positive cap, in any mode; adds the missing rows of
        `0 until itemCount` in ascending order and reports the resulting set. */
    method SelectAll(itemCount: nat)
      requires Valid()
      modifies this`selected, this`renders, this`events
      ensures Valid()
      ensures maxSelectionCount > 0 ==>
                selected == old(selected) && renders == old(renders) && events == old(events)
      ensures maxSelectionCount <= 0 ==>
                selected == old(selected) + Complement(Range(0, itemCount), old(selected)) &&
                renders == old(renders) + 1 &&
                events == old(events) + Fire(hasMultiSelectListener, [Bulk(SelectionMode.SelectAll, selected)])
    {
      if maxSelectionCount > 0 {
        return;
      }
      AddRows(itemCount);
      events := events + Fire(hasMultiSelectListener, [Bulk(SelectionMode.SelectAll, selected)]);
      renders := renders + 1;
    }

    /** The body of `selectAll` past its guard: `selectedSet += 0 until itemCount`. */
    method AddRows(itemCount: nat)
      requires NoDups(selected)
      modifies this`selected
      ensures selected == old(selected) + Complement(Range(0, itemCount), old(selected))
      ensures NoDups(selected)
    {
      SelectAllComputes(selected, itemCount);
      selected := AddAll(selected, Range(0, itemCount));
    }

    /** `unselectAll`: empties the selection in every mode and with any cap. */
    method UnselectAll()
      requires Valid()
      modifies this`selected, this`renders, this`events
      ensures Valid()
      ensures selected == []
      ensures renders == old(renders) + 1
      ensures events == old(events) + Fire(hasMultiSelectListener, [Bulk(SelectionMode.UnselectAll, [])])
    {
      selected := [];
      events := events + Fire(hasMultiSelectListener, [Bulk(SelectionMode.UnselectAll, selected)]);
      renders := renders + 1;
    }

    /** `reverseSelected`: only without a positive cap; the rows of `0 until itemCount`
        that were not selected become the selection, and stale rows drop out. */
    method ReverseSelected(itemCount: nat)
      requires Valid()
      modifies this`selected, this`renders, this`events
      ensures Valid()
      ensures maxSelectionCount > 0 ==>
                selected == old(selected) && renders == old(renders) && events == old(events)
      ensures maxSelectionCount <= 0 ==>
                selected == ReverseOf(old(selected), itemCount) &&
                renders == old(renders) + 1 &&
                events == old(events) + Fire(hasMultiSelectListener, [Bulk(SelectionMode.ReverseSelected, selected)])
    {
      if maxSelectionCount > 0 {
        return;
      }
      ReverseRows(itemCount);
      events := events + Fire(hasMultiSelectListener, [Bulk(SelectionMode.ReverseSelected, selected)]);
      renders := renders + 1;
    }

    /** The body of `reverseSelected` past its guard: `selectedSet += 0 until itemCount`,
        then `removeAll` of a copy of the old set. */
    method ReverseRows(itemCount: nat)
      modifies this`selected
      ensures selected == ReverseOf(old(selected), itemCount)
    {
      ReverseComputes(selected, itemCount);
      var copy := Elems(selected);
      selected := AddAll(selected, Range(0, itemCount));
      selected := Without(selected, copy);
    }

    /** `select(vararg position)`. In single-select only `position[0]` counts, which
        throws (`thrown`) on an empty argument list; otherwise each new row below
        itemCount is added while the cap allows and reported as out of max after. */
    method Select(positions: seq<int>, itemCount: nat) returns (thrown: bool)
      requires Valid()
      modifies this`selected, this`singleSelectedPosition, this`renders, this`events
      ensures Valid()
      ensures thrown <==> mode == SingleSelect && positions == []
      ensures thrown ==>
                selected == old(selected) && singleSelectedPosition == old(singleSelectedPosition) &&
                renders == old(renders) && events == old(events)
      ensures mode == SingleSelect && positions != [] ==>
                selected == old(selected) && singleSelectedPosition == positions[0] &&
                renders == old(renders) + (if old(singleSelectedPosition) == positions[0] then 0 else 1) &&
                events == old(events) +
                  (if old(singleSelectedPosition) == positions[0] then [] else Fire(hasSingleSelectListener, [SingleSelected(positions[0])])) +
                  Fire(hasSingleSelectListener, [SingleSelected(positions[0])])
      ensures mode != SingleSelect ==>
                var cands := SelectCandidates(positions, old(selected), itemCount);
                selected == SelectAfter(old(selected), cands, maxSelectionCount) &&
                singleSelectedPosition == old(singleSelectedPosition) &&
                renders == old(renders) + 1 &&
                events == old(events) + Fire(hasMultiSelectListener, SelectEvents(old(selected), cands, maxSelectionCount))
    {
      if mode == SingleSelect {
        if positions == [] {
          return true;
        }
        SetSingleSelectedPosition(positions[0]);
        events := events + Fire(hasSingleSelectListener, [SingleSelected(singleSelectedPosition)]);
        return false;
      }
      var cands := SelectCandidates(positions, selected, itemCount);
      SelectEach(cands);
      renders := renders + 1;
      thrown := false;
    }

    /** The `forEach` of `select` over the filtered candidates, in their order. */
    method SelectEach(cands: seq<int>)
      requires Valid()
      modifies this`selected, this`events
      ensures Valid()
      ensures selected == SelectAfter(old(selected), cands, maxSelectionCount)
      ensures events == old(events) + Fire(hasMultiSelectListener, SelectEvents(old(selected), cands, maxSelectionCount))
    {
      ghost var final := SelectAfter(selected, cands, maxSelectionCount);
      ghost var finalEvents := events + Fire(hasMultiSelectListener, SelectEvents(selected, cands, maxSelectionCount));
      for i := 0 to |cands|
        modifies this`selected, this`events
        invariant Valid()
        invariant SelectAfter(selected, cands[i..], maxSelectionCount) == final
        invariant events + Fire(hasMultiSelectListener, SelectEvents(selected, cands[i..], maxSelectionCount)) == finalEvents
      {
        var c := cands[i];
        SelectUnfold(selected, cands, i, maxSelectionCount);
        FireAppend(events, hasMultiSelectListener,
          [if CapReached(selected, maxSelectionCount) then OutOfMax(c) else Selected(c, true)],
          SelectEvents(SelectStep(selected, c, maxSelectionCount), cands[i + 1..], maxSelectionCount));
        SelectOne(c);
      }
      assert cands[|cands|..] == [];
    }

    /** One pass of that `forEach`: the cap check, then the addition or the report. */
    method SelectOne(c: int)
      requires Valid()
      modifies this`selected, this`events
      ensures Valid()
      ensures selected == SelectStep(old(selected), c, maxSelectionCount)
      ensures events == old(events) +
                Fire(hasMultiSelectListener,
                  [if CapReached(old(selected), maxSelectionCount) then OutOfMax(c) else Selected(c, true)])
    {
      if maxSelectionCount > 0 && |selected| >= maxSelectionCount {
        events := events + Fire(hasMultiSelectListener, [OutOfMax(c)]);
      } else {
        selected := Add(selected, c);
        events := events + Fire(hasMultiSelectListener, [Selected(c, true)]);
      }
    }

    /** `unselect(vararg position)`, in every mode: removes the given rows that are
        selected and below itemCount, reporting each, then re-renders once. */
    method Unselect(positions: seq<int>, itemCount: nat)
      requires Valid()
      modifies this`selected, this`renders, this`events
      ensures Valid()
      ensures var cands := UnselectCandidates(positions, old(selected), itemCount);
              selected == Without(old(selected), Elems(cands)) &&
              events == old(events) + Fire(hasMultiSelectListener, UnselectEvents(cands))
      ensures forall y :: y in selected <==> y in old(selected) && !(y in positions && y < itemCount)
      ensures renders == old(renders) + 1
    {
      var cands := UnselectCandidates(positions, selected, itemCount);
      UnselectEach(cands);
      renders := renders + 1;
    }

    /** The `forEach` of `unselect`: `-= it` and a report for each candidate in turn. */
    method UnselectEach(cands: seq<int>)
      requires Valid()
      modifies this`selected, this`events
      ensures Valid()
      ensures selected == Without(old(selected), Elems(cands))
      ensures events == old(events) + Fire(hasMultiSelectListener, UnselectEvents(cands))
    {
      ghost var was := selected;
      ghost var wasEvents := events;
      WithoutAbsent(was, {});
      assert cands[..0] == [];
      assert Elems(cands[..0]) == {};
      for i := 0 to |cands|
        modifies this`selected, this`events
        invariant Valid() && |selected| <= |was|
        invariant selected == Without(was, Elems(cands[..i]))
        invariant events == wasEvents + Fire(hasMultiSelectListener, UnselectEvents(cands[..i]))
      {
        var c := cands[i];
        RemoveOneMore(was, cands, i);
        UnselectEventsSnoc(cands, i);
        UnselectOne(c);
      }
      assert cands[..|cands|] == cands;
    }

    /** One pass of that `forEach`: `selectedSet -= it` and its report. */
    method UnselectOne(c: int)
      requires Valid()
      modifies this`selected, this`events
      ensures Valid()
      ensures selected == Without(old(selected), {c})
      ensures events == old(events) + Fire(hasMultiSelectListener, [Selected(c, false)])
    {
      WithoutNoDups(selected, {c});
      selected := Without(selected, {c});
      events := events + Fire(hasMultiSelectListener, [Selected(c, false)]);
    }

    /** `isSelected`: membership in the selection. */
    function IsSelected(position: int): (b: bool)
      reads this
      ensures b <==> position in selected
    {
      position in selected
    }

    /** `selectedSet()`: a copy of the selection, in insertion order. */
    function SelectedSet(): (r: seq<int>)
      reads this
      requires Valid()
      ensures NoDups(r)
      ensures maxSelectionCount > 0 ==> |r| <= maxSelectionCount
    {
      selected
    }
  }
}
