/** The selection state machine of the adapter in package `cn.forward.androids.views`:
    a mode, a selection cap and one insertion-ordered set of selected rows that serves
    both single-select (at most one entry) and multi-select. One listener is asked about
    every multi-select toggle and its answer decides whether the toggle happens.
    Listener calls are recorded in a trace; `notifyDataSetChanged()` is a counter. */
module Views {
  import opened LinkedSets

  /** `EasyAdapter.Mode`. */
  datatype Mode = Click | SingleSelect | MultiSelect

  /** One call into a registered listener. */
  datatype Event =
    | Clicked(position: int)                     // OnItemClickedListener.onClicked
    | Selected(position: int, isSelected: bool)  // OnItemSelectedListener.onSelected
    | OutOfMax(position: int)                    // OnItemSelectedListener.onOutOfMax

  /** `listener?.call(...)`: the calls happen only when a listener is registered. */
  function Fire(registered: bool, calls: seq<Event>): (r: seq<Event>)
    ensures r != [] ==> registered
    ensures registered ==> r == calls
  {
    if registered then calls else []
  }

  /** What `getSingleSelectedPosition()` gives: a position, or the
      `NoSuchElementException` that `last()` throws on an empty set. */
  datatype Lookup = Position(value: int) | NoSuchElement

  /** Kotlin's `0..itemCount`, which the bulk operations use: inclusive, so it runs one
      row past the last one. */
  function RowsThrough(itemCount: nat): (r: seq<int>)
    ensures |r| == itemCount + 1 && forall i :: 0 <= i < |r| ==> r[i] == i
    ensures StrictlyIncreasing(r) && NoDups(r)
  {
    RangeFacts(0, itemCount + 1);
    Range(0, itemCount + 1)
  }

  /** From an empty selection `selectAll` selects itemCount + 1 rows, the last of them
      the row numbered itemCount, which does not exist; `0 until itemCount` would
      select exactly the itemCount rows. */
  lemma SelectAllOvershoots(s: seq<int>, itemCount: nat)
    ensures itemCount in s + Complement(RowsThrough(itemCount), s)
    ensures [] + Complement(RowsThrough(itemCount), []) == RowsThrough(itemCount)
    ensures |Complement(RowsThrough(itemCount), [])| == itemCount + 1
  {
    var r := RowsThrough(itemCount);
    assert r[itemCount] in r;
    if itemCount !in s {
      assert itemCount in Complement(r, s);
    }
    WithoutAbsent(r, Elems([]));
    assert [] + r == r;
  }

  /** The selection a reverse produces: the rows from 0 through itemCount that were
      not selected, ascending. */
  function ReverseOf(s: seq<int>, itemCount: nat): (r: seq<int>)
    ensures forall y :: y in r <==> 0 <= y <= itemCount && y !in s
    ensures StrictlyIncreasing(r) && NoDups(r)
  {
    RangeFacts(0, itemCount + 1);
    WithoutIncreasing(RowsThrough(itemCount), Elems(s));
    WithoutNoDups(RowsThrough(itemCount), Elems(s));
    Complement(RowsThrough(itemCount), s)
  }

  /** Reversing twice keeps exactly the old rows from 0 through itemCount, ascending,
      and is the identity on an ascending selection of such rows. */
  lemma ReverseTwice(s: seq<int>, itemCount: nat)
    ensures forall y :: y in ReverseOf(ReverseOf(s, itemCount), itemCount) <==> y in s && 0 <= y <= itemCount
    ensures StrictlyIncreasing(s) && (forall y :: y in s ==> 0 <= y <= itemCount) ==>
              ReverseOf(ReverseOf(s, itemCount), itemCount) == s
  {
    RangeFacts(0, itemCount + 1);
    ComplementTwice(RowsThrough(itemCount), s);
  }

  /** What `selectAll` computes, `+= 0..itemCount`: the old entries, then the missing
      rows ascending. */
  lemma SelectAllComputes(s: seq<int>, itemCount: nat)
    ensures AddAll(s, RowsThrough(itemCount)) == s + Complement(RowsThrough(itemCount), s)
    ensures forall y :: y in AddAll(s, RowsThrough(itemCount)) <==> y in s || 0 <= y <= itemCount
  {
    AddAllAppendsMissing(s, RowsThrough(itemCount));
    RangeFacts(0, itemCount + 1);
  }

  /** What `reverseSelected` computes, `+= 0..itemCount` and then `removeAll` of a copy
      of the old set, is the reverse selection. */
  lemma ReverseComputes(s: seq<int>, itemCount: nat)
    ensures Without(AddAll(s, RowsThrough(itemCount)), Elems(s)) == ReverseOf(s, itemCount)
  {
    ReverseIsComplement(s, RowsThrough(itemCount));
  }

  /** Selecting every row and then reversing leaves nothing selected. */
  lemma SelectAllThenReverse(s: seq<int>, itemCount: nat)
    ensures ReverseOf(s + Complement(RowsThrough(itemCount), s), itemCount) == []
  {
    RangeFacts(0, itemCount + 1);
    var all := s + Complement(RowsThrough(itemCount), s);
    forall y | y in RowsThrough(itemCount)
      ensures y in Elems(all)
    {
      if y !in s {
        assert y in Complement(RowsThrough(itemCount), s);
      }
    }
    WithoutCovered(RowsThrough(itemCount), Elems(all));
  }

  class EasyAdapter {
    var mode: Mode
    /** `maxSelection`; a value <= 0 means no cap. */
    var maxSelection: int
    /** The private `selectedSet`, oldest entry first. */
    var selected: seq<int>
    /** How many times `notifyDataSetChanged()` was called. */
    var renders: nat
    var hasItemClickedListener: bool
    var hasItemSelectedListener: bool
    /** Every listener call so far, in order. */
    ghost var events: seq<Event>

    /** The selection is a set, and in single-select it holds at most one row. */
    ghost predicate Valid()
      reads this
    {
      NoDups(selected) && (mode == SingleSelect ==> |selected| <= 1)
    }

    /** A positive cap holds. Every operation but `select` keeps it. */
    ghost predicate WithinCap()
      reads this
    {
      maxSelection > 0 ==> |selected| <= maxSelection
    }

    /** The primary constructor; property initialisers do not run the setters. */
    constructor (mode: Mode, maxSelection: int)
      ensures Valid() && WithinCap()
      ensures this.mode == mode && this.maxSelection == maxSelection
      ensures selected == [] && renders == 0 && events == []
      ensures !hasItemClickedListener && !hasItemSelectedListener
    {
      this.mode := mode;
      this.maxSelection := maxSelection;
      selected := [];
      renders := 0;
      hasItemClickedListener, hasItemSelectedListener := false, false;
      events := [];
    }

    /** The `maxSelection` setter: a positive cap evicts the most recently added entries
        until it holds; the list is re-rendered in every case. */
    method SetMaxSelection(value: int)
      requires Valid()
      modifies this`maxSelection, this`selected, this`renders
      ensures Valid() && WithinCap()
      ensures maxSelection == value
      ensures selected == if value > 0 && |old(selected)| > value then old(selected)[..value] else old(selected)
      ensures renders == old(renders) + 1
    {
      maxSelection := value;
      if maxSelection > 0 {
        while |selected| > maxSelection
          modifies this`selected
          invariant NoDups(selected)
          invariant |selected| <= |old(selected)| && selected == old(selected)[..|selected|]
          invariant |selected| >= value || selected == old(selected)
          decreases |selected|
        {
          WithoutLast(selected);
          selected := Without(selected, {selected[|selected| - 1]});
        }
      }
      renders := renders + 1;
    }

    /** The `mode` setter: entering single-select from another mode clears the
        selection; every assignment re-renders, even of the current mode. */
    method SetMode(value: Mode)
      requires Valid()
      modifies this`mode, this`selected, this`renders
      ensures Valid()
      ensures old(WithinCap()) ==> WithinCap()
      ensures mode == value
      ensures selected == if old(mode) != SingleSelect && value == SingleSelect then [] else old(selected)
      ensures renders == old(renders) + 1
    {
      if mode != SingleSelect && value == SingleSelect {
        selected := [];
      }
      mode := value;
      renders := renders + 1;
    }

    /** A multi-select click on pos is refused: the cap is positive and reached and pos
        is not selected yet. */
    predicate BlocksClick(pos: int): (r: bool)
      reads this
      ensures r ==> pos !in selected && selected != []
      ensures maxSelection <= 0 ==> !r
    {
      maxSelection > 0 && |selected| >= maxSelection && pos !in selected
    }

    /** The click listener installed on every row: pos is the row's bound position and
        accept is what the selection listener answers when it is asked. */
    method OnClick(pos: int, accept: bool)
      requires Valid()
      modifies this`selected, this`renders, this`events
      ensures Valid()
      ensures old(WithinCap()) ==> WithinCap()
      ensures mode == Click ==>
                selected == old(selected) && renders == old(renders) &&
                events == old(events) + Fire(hasItemClickedListener, [Clicked(pos)])
      ensures mode == SingleSelect ==>
                selected == [pos] && renders == old(renders) + 1 &&
                events == old(events) + Fire(hasItemSelectedListener, [Selected(pos, true)])
      ensures mode == MultiSelect && old(BlocksClick(pos)) ==>
                selected == old(selected) && renders == old(renders) &&
                events == old(events) + Fire(hasItemSelectedListener, [OutOfMax(pos)])
      ensures mode == MultiSelect && !old(BlocksClick(pos)) ==>
                var committed := hasItemSelectedListener && accept;
                selected == (if !committed then old(selected)
                             else if pos in old(selected) then Without(old(selected), {pos})
                             else old(selected) + [pos]) &&
                renders == old(renders) + (if committed then 1 else 0) &&
                events == old(events) + Fire(hasItemSelectedListener, [Selected(pos, pos !in old(selected))])
    {
      if mode == Click {
        events := events + Fire(hasItemClickedListener, [Clicked(pos)]);
      } else if mode == SingleSelect {
        selected := [];
        selected := Add(selected, pos);
        events := events + Fire(hasItemSelectedListener, [Selected(pos, true)]);
        renders := renders + 1;
      } else if mode == MultiSelect {
        if maxSelection > 0 && |selected| >= maxSelection && pos !in selected {
          events := events + Fire(hasItemSelectedListener, [OutOfMax(pos)]);
          return;
        }
        var isSelected := pos in selected;
        if hasItemSelectedListener {
          events := events + [Selected(pos, !isSelected)];
          if accept {
            if isSelected {
              WithoutNoDups(selected, {pos});
              selected := Without(selected, {pos});
            } else {
              selected := Add(selected, pos);
            }
            renders := renders + 1;
          }
        }
      }
    }

    /** The selection part of `onBindViewHolder` for the row at position: in
        single-select an empty selection is seeded with row 0 first; the row then shows
        as selected when the mode is not click and it is in the selection. */
    method Bind(position: int) returns (shown: bool)
      requires Valid()
      modifies this`selected
      ensures Valid()
      ensures old(WithinCap()) ==> WithinCap()
      ensures selected == if mode == SingleSelect && old(selected) == [] then [0] else old(selected)
      ensures mode == SingleSelect ==> |selected| == 1
      ensures shown <==> mode != Click && position in selected
    {
      if mode == SingleSelect && |selected| == 0 {
        selected := Add(selected, 0);
      }
      shown := match mode
        case Click => false
        case SingleSelect => position in selected
        case MultiSelect => position in selected;
    }

    /** `selectAll`: not in single-select and only without a positive cap; adds the
        missing rows of `0..itemCount`, the row numbered itemCount included. */
    method SelectAll(itemCount: nat)
      requires Valid()
      modifies this`selected, this`renders
      ensures Valid()
      ensures old(WithinCap()) ==> WithinCap()
      ensures mode == SingleSelect || maxSelection > 0 ==>
                selected == old(selected) && renders == old(renders)
      ensures mode != SingleSelect && maxSelection <= 0 ==>
                selected == old(selected) + Complement(RowsThrough(itemCount), old(selected)) &&
                renders == old(renders) + 1
    {
      if mode == SingleSelect {
        return;
      }
      if maxSelection > 0 {
        return;
      }
      AddRows(itemCount);
      renders := renders + 1;
    }

    /** The body of `selectAll` past its guards: `selectedSet += 0..itemCount`. */
    method AddRows(itemCount: nat)
      requires NoDups(selected)
      modifies this`selected
      ensures selected == old(selected) + Complement(RowsThrough(itemCount), old(selected))
      ensures NoDups(selected)
    {
      SelectAllComputes(selected, itemCount);
      selected := AddAll(selected, RowsThrough(itemCount));
    }

    /** `unselectAll`: empties the selection, except in single-select. */
    method UnselectAll()
      requires Valid()
      modifies this`selected, this`renders
      ensures Valid()
      ensures old(WithinCap()) ==> WithinCap()
      ensures mode == SingleSelect ==> selected == old(selected) && renders == old(renders)
      ensures mode != SingleSelect ==> selected == [] && renders == old(renders) + 1
    {
      if mode == SingleSelect {
        return;
      }
      selected := [];
      renders := renders + 1;
    }

    /** `reverseSelected`: not in single-select and only without a positive cap; the
        rows of `0..itemCount` that were not selected become the selection. */
    method ReverseSelected(itemCount: nat)
      requires Valid()
      modifies this`selected, this`renders
      ensures Valid()
      ensures old(WithinCap()) ==> WithinCap()
      ensures mode == SingleSelect || maxSelection > 0 ==>
                selected == old(selected) && renders == old(renders)
      ensures mode != SingleSelect && maxSelection <= 0 ==>
                selected == ReverseOf(old(selected), itemCount) &&
                renders == old(renders) + 1
    {
      if mode == SingleSelect {
        return;
      }
      if maxSelection > 0 {
        return;
      }
      ReverseRows(itemCount);
      renders := renders + 1;
    }

    /** The body of `reverseSelected` past its guards: `selectedSet += 0..itemCount`,
        then `removeAll` of a copy of the old set. */
    method ReverseRows(itemCount: nat)
      modifies this`selected
      ensures selected == ReverseOf(old(selected), itemCount)
    {
      ReverseComputes(selected, itemCount);
      var copy := Elems(selected);
      selected := AddAll(selected, RowsThrough(itemCount));
      selected := Without(selected, copy);
    }

    /** `select(position)`: refused only when the cap exceeds 1 and is reached; in
        single-select the selection becomes position alone, otherwise position is added.
        No bounds check, no listener and no re-render. */
    method Select(position: int)
      requires Valid()
      modifies this`selected
      ensures Valid()
      ensures old(WithinCap()) && maxSelection != 1 ==> WithinCap()
      ensures maxSelection > 1 && |old(selected)| >= maxSelection ==> selected == old(selected)
      ensures !(maxSelection > 1 && |old(selected)| >= maxSelection) ==>
                selected == if mode == SingleSelect then [position] else Add(old(selected), position)
    {
      if maxSelection > 1 && |selected| >= maxSelection {
        return;
      }
      if mode == SingleSelect {
        selected := [];
      }
      selected := Add(selected, position);
    }

    /** `unselect(position)`: removes position, except in single-select. */
    method Unselect(position: int)
      requires Valid()
      modifies this`selected
      ensures Valid()
      ensures old(WithinCap()) ==> WithinCap()
      ensures mode == SingleSelect ==> selected == old(selected)
      ensures mode != SingleSelect ==> selected == Without(old(selected), {position})
      ensures forall y :: y in selected <==> y in old(selected) && (mode == SingleSelect || y != position)
    {
      if mode == SingleSelect {
        return;
      }
      WithoutNoDups(selected, {position});
      selected := Without(selected, {position});
    }

    /** `isSelected`: membership in the selection. */
    function IsSelected(position: int): (b: bool)
      reads this
      ensures b <==> position in selected
    {
      position in selected
    }

    /** `selectedSet()`: a copy of the selection, in insertion order. */
    function SelectedSet(): (r: seq<int>)
      reads this
      requires Valid()
      ensures NoDups(r)
      ensures mode == SingleSelect ==> |r| <= 1
    {
      selected
    }

    /** `getSingleSelectedPosition()`: -1 outside single-select; otherwise the one
        selected row, and an exception when there is none. */
    function GetSingleSelectedPosition(): (r: Lookup)
      reads this
      requires Valid()
      ensures mode != SingleSelect ==> r == Position(-1)
      ensures mode == SingleSelect ==> (r == NoSuchElement <==> selected == [])
      ensures mode == SingleSelect && r.Position? ==> selected == [r.value]
    {
      if mode != SingleSelect then Position(-1)
      else if |selected| == 0 then NoSuchElement
      else Position(selected[|selected| - 1])
    }
  }
}
