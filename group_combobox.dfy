/**
 * The group single-select of `GroupCombobox.tsx`: the chosen group, whether
 * the popover is open, what choosing an item does to both, which item shows
 * the check mark and what the trigger button shows. The catalog of groups is
 * any sequence of strings.
 */
module GroupCombobox {
  import opened Sequences
  import opened Options

  /** The chosen group (`value`, empty for none) and the popover's `open` flag. */
  datatype State = State(value: string, open: bool)

  /** The trigger text while no group is chosen. */
  const Prompt := "Оберіть групу..."

  /**
   * An item's `onSelect`: choosing the chosen group clears it, choosing any
   * other group replaces it; the popover closes either way.
   */
  function OnSelect(st: State, currentValue: string): State {
    State(if currentValue == st.value then "" else currentValue, false)
  }

  /** Choosing the group that is already chosen clears the choice. */
  lemma SelectChosenClears(st: State, g: string)
    requires st.value == g
    ensures OnSelect(st, g).value == ""
  {
  }

  /** Choosing another group makes it the choice. */
  lemma SelectOtherReplaces(st: State, g: string)
    requires st.value != g
    ensures OnSelect(st, g).value == g
  {
  }

  /** Every choice closes the popover. */
  lemma SelectCloses(st: State, g: string)
    ensures !OnSelect(st, g).open
  {
  }

  /**
   * Choosing the same group twice: from nothing (or from any other group)
   * it ends with nothing chosen; from that group it ends with it chosen again.
   */
  lemma SelectTwice(st: State, g: string)
    ensures OnSelect(OnSelect(st, g), g).value == if st.value == g then g else ""
    ensures st.value == "" ==> OnSelect(OnSelect(st, g), g).value == ""
  {
  }

  /** The check mark of the item for `group` is opaque exactly when it is the chosen group. */
  function CheckMarkShown(value: string, group: string): bool {
    value == group
  }

  /** The check marks of the items, in catalog order. */
  function CheckMarks(groups: seq<string>, value: string): (marks: seq<bool>)
    ensures |marks| == |groups|
    ensures forall i :: 0 <= i < |groups| ==> marks[i] == CheckMarkShown(value, groups[i])
  {
    seq(|groups|, i requires 0 <= i < |groups| => CheckMarkShown(value, groups[i]))
  }

  /**
   * There are as many check marks as catalog entries equal to the choice, so
   * in a catalog without duplicates exactly one shows when the choice is in
   * the catalog and none shows otherwise.
   */
  lemma {:induction false} CheckMarkCount(groups: seq<string>, value: string)
    ensures Count(CheckMarks(groups, value), true) == Count(groups, value)
    ensures NoDuplicates(groups) ==>
      Count(CheckMarks(groups, value), true) == if value in groups then 1 else 0
  {
    if groups != [] {
      CheckMarkCount(groups[1..], value);
      assert CheckMarks(groups, value)[1..] == CheckMarks(groups[1..], value);
    }
    if NoDuplicates(groups) {
      CountNoDuplicates(groups, value);
    }
  }

  /** `groups.find(group => group === value)`: the first entry equal to `value`. */
  function Find(groups: seq<string>, value: string): Option<string> {
    if groups == [] then None
    else if groups[0] == value then Some(groups[0])
    else Find(groups[1..], value)
  }

  lemma {:induction false} FindIsMembership(groups: seq<string>, value: string)
    ensures Find(groups, value) == if value in groups then Some(value) else None
  {
    if groups != [] && groups[0] != value {
      FindIsMembership(groups[1..], value);
      assert groups == [groups[0]] + groups[1..];
    }
  }

  /**
   * What the trigger shows: the prompt, a group's name, or nothing at all
   * (the `undefined` that `find` gives for a choice missing from the catalog).
   */
  datatype Label = PromptText | GroupText(name: string) | Blank

  /** `value ? groups.find(group => group === value) : "Оберіть групу..."`. */
  function TriggerLabel(groups: seq<string>, value: string): Label {
    if value == "" then PromptText
    else match Find(groups, value)
      case Some(g) => GroupText(g)
      case None => Blank
  }

  /**
   * The trigger shows the prompt exactly when nothing is chosen, the chosen
   * group's name when it is in the catalog, and nothing otherwise.
   */
  lemma TriggerLabelCases(groups: seq<string>, value: string)
    ensures TriggerLabel(groups, value) == PromptText <==> value == ""
    ensures value != "" && value in groups ==> TriggerLabel(groups, value) == GroupText(value)
    ensures TriggerLabel(groups, value) == Blank <==> value != "" && value !in groups
  {
    FindIsMembership(groups, value);
  }

  /** After choosing an item of the catalog the trigger shows that group or the prompt, never nothing. */
  lemma SelectLabel(groups: seq<string>, st: State, g: string)
    requires g in groups
    ensures TriggerLabel(groups, OnSelect(st, g).value)
         == if st.value == g || g == "" then PromptText else GroupText(g)
  {
    FindIsMembership(groups, g);
  }
}
