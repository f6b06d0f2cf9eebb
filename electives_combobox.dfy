/**
 * The electives multi-select of `ElectivesCombobox.tsx`: the list of chosen
 * electives, what choosing an item does to it, which items show a tick and
 * the text on the trigger button. The component only computes new lists; it
 * changes nothing in place.
 */
module ElectivesCombobox {
  import opened Sequences

  /** The trigger text while nothing is chosen. */
  const Placeholder := "Оберіть предмети..."

  /** `selected.some((f) => f === x)`, tried from the front. */
  function AnyEqual(selected: seq<string>, x: string): (r: bool)
    ensures r <==> x in selected
  {
    if selected == [] then false
    else if selected[0] == x then true
    else
      assert selected == [selected[0]] + selected[1..];
      AnyEqual(selected[1..], x)
  }

  /**
   * The list an item's `onSelect` hands to `setSelectedElectives`: the list
   * without `currentValue` when it holds it, otherwise the list with the
   * item's own `elective` appended.
   */
  function OnSelect(selected: seq<string>, currentValue: string, elective: string): seq<string> {
    if AnyEqual(selected, currentValue) then Without(selected, currentValue) else selected + [elective]
  }

  /** The command list calls `onSelect` with the item's own value. */
  function Select(selected: seq<string>, elective: string): seq<string> {
    OnSelect(selected, elective, elective)
  }

  /** The item's `data-selected` flag, which shows its tick. */
  function IsSelected(selected: seq<string>, elective: string): bool {
    AnyEqual(selected, elective)
  }

  /** Choosing an elective that is not in the list appends it and keeps the earlier entries. */
  lemma SelectAbsent(selected: seq<string>, e: string)
    requires e !in selected
    ensures var r := Select(selected, e);
      |r| == |selected| + 1 && r[..|selected|] == selected && r[|selected|] == e
  {
    assert (selected + [e])[..|selected|] == selected;
  }

  /**
   * Choosing an elective that is in the list removes every occurrence of it,
   * keeps every other entry and keeps their relative order.
   */
  lemma SelectPresent(selected: seq<string>, e: string)
    requires e in selected
    ensures var r := Select(selected, e);
      && e !in r
      && (forall x :: x != e ==> (x in r <==> x in selected))
      && |r| == |selected| - Count(selected, e)
      && IsSubsequence(r, selected)
  {
    WithoutMembers(selected, e);
    WithoutIsSubsequence(selected, e);
  }

  /** Removal works piece by piece: entries before and after keep their places. */
  lemma SelectPresentSplits(before: seq<string>, after: seq<string>, e: string)
    requires e in before + after
    ensures Select(before + after, e) == Without(before, e) + Without(after, e)
  {
    WithoutConcat(before, after, e);
  }

  /** Choosing an absent elective and then choosing it again restores the list. */
  lemma SelectTwiceRestores(selected: seq<string>, e: string)
    requires e !in selected
    ensures Select(Select(selected, e), e) == selected
  {
    WithoutConcat(selected, [e], e);
    WithoutAbsent(selected, e);
  }

  /** A list without duplicates stays without duplicates. */
  lemma SelectKeepsNoDuplicates(selected: seq<string>, e: string)
    requires NoDuplicates(selected)
    ensures NoDuplicates(Select(selected, e))
  {
    if e in selected {
      WithoutNoDuplicates(selected, e);
    } else {
      AppendNoDuplicates(selected, e);
    }
  }

  /** An item is ticked exactly when it is in the list. */
  lemma SelectedIffMember(selected: seq<string>, e: string)
    ensures IsSelected(selected, e) <==> e in selected
  {
  }

  /** Choosing an item flips its own tick and leaves every other tick as it was. */
  lemma SelectFlipsTick(selected: seq<string>, e: string)
    ensures IsSelected(Select(selected, e), e) == !IsSelected(selected, e)
    ensures forall x :: x != e ==> IsSelected(Select(selected, e), x) == IsSelected(selected, x)
  {
    WithoutMembers(selected, e);
  }

  /**
   * If `onSelect` were called with a value other than the item's own, the
   * membership test and the appended entry would disagree: an entry already
   * in the list would be appended a second time.
   */
  lemma MismatchedValueDuplicates(selected: seq<string>, currentValue: string, e: string)
    requires e in selected && currentValue !in selected
    ensures Count(OnSelect(selected, currentValue, e), e) == Count(selected, e) + 1
    ensures !NoDuplicates(OnSelect(selected, currentValue, e))
  {
    CountConcat(selected, [e], e);
    assert [e][1..] == [];
    var i :| 0 <= i < |selected| && selected[i] == e;
    var r := OnSelect(selected, currentValue, e);
    assert r[i] == r[|selected|];
  }

  /** The trigger text: the chosen electives joined with `", "`, or the placeholder. */
  function TriggerLabel(selected: seq<string>): string {
    if |selected| > 0 then Join(selected, ", ") else Placeholder
  }

  /**
   * With nothing chosen the trigger shows the placeholder; otherwise it
   * starts with the first elective, ends with the last, and holds every
   * elective and one `", "` between neighbours.
   */
  lemma TriggerLabelShape(selected: seq<string>)
    ensures selected == [] ==> TriggerLabel(selected) == Placeholder
    ensures |selected| == 1 ==> TriggerLabel(selected) == selected[0]
    ensures selected != [] ==>
      (var text := TriggerLabel(selected);
       && |text| == TotalLength(selected) + 2 * (|selected| - 1)
       && text[..|selected[0]|] == selected[0]
       && |text| >= |selected[|selected| - 1]|
       && text[|text| - |selected[|selected| - 1]|..] == selected[|selected| - 1])
  {
    if selected != [] {
      JoinLength(selected, ", ");
      JoinEnds(selected, ", ");
    }
  }
}
