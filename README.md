# ZTU schedule filter builder, modelled in Dafny

The repository is a small web page. A student uses it to build a link to a
filtered timetable. The page has three parts:

- **`DebloatBuilder`** is the form. It holds the group, the subgroup, a
  "filter electives by group" switch, two weeks of elective days, the chosen
  electives and the English teacher. From these values it builds two URLs:
  - the *raw URL*: the filter endpoint followed by the values as a
    `application/x-www-form-urlencoded` query;
  - the *subscription link*: an `adp:subscribe?` link whose `location` is the
    raw URL and whose `title` is `ZTU Schedule`.

  Both links are inert while no group is chosen. Ticking or clearing a
  day's checkbox changes that week's JavaScript `Set` in place.
- **`ElectivesCombobox`** is a multi-select. Choosing an elective removes it
  from the list when it is there and appends it otherwise. A tick marks each
  chosen item. The trigger shows the list joined with `", "`.
- **`GroupCombobox`** is a single-select. Choosing the chosen group clears it
  and choosing another group replaces it. The popover closes either way. A
  check mark shows on the chosen item, and the trigger shows the group or a
  prompt.

The model has one Dafny module per concern:

- `Options`: the `Option` type.
- `Sequences`, generic facts about sequences:
  - removing every occurrence (JavaScript `filter`);
  - counting, duplicate freedom and order-keeping subsequences;
  - `join`.
- `Utf8`: UTF-8 encoding of characters, with a strict decoder proved to
  invert it.
- `FormUrlEncoded`, the `application/x-www-form-urlencoded` serializer of
  section 5.2 of the WHATWG URL Standard:
  - it works over the byte-level percent-encode sets of section 1.3: C0
    control, query, path, userinfo, component and form;
  - the space becomes `+` and other bytes are escaped with upper-case hex;
  - a strict parser is proved to invert the serializer, so the serialised
    list of tuples is recovered exactly.
- `NumberText`: `Number.prototype.toString()` for integers, with its inverse.
- `SearchParams`, the `URLSearchParams` object of section 6.2 of the URL
  Standard:
  - a class whose `list` field holds the tuples;
  - `set`, which replaces the first tuple with the name and drops the rest,
    or appends when there is none;
  - `append` and `toString`;
  - `getAll`, as the module-level function `GetAll` over a list of tuples.
- `DebloatBuilder`, the form:
  - its values, defaults and the schema's constraints;
  - `BuildRawUrl` and `BuildSubscriptionUrl`, methods that build the
    parameter list step by step as the component does, proved equal to the
    functions `RawUrl` and `SubscriptionUrl`;
  - what those URLs contain and how they are written out;
  - the link rule;
  - the week sets, a `DaySet` class kept as an insertion-ordered,
    duplicate-free sequence, and the checkbox handler `ToggleDay`, which
    changes one set in place.
- `ElectivesCombobox` and `GroupCombobox`: the two selection rules, their
  marks and their trigger labels, as pure functions.

Two points of the code that the model keeps:

- **The subscription title.** `URLSearchParams` writes the space as `+`, so
  the link ends in `&title=ZTU+Schedule` (`DebloatBuilder.TitleText`).
- **The order of day parameters.** Day parameters follow each week's
  insertion order. The model does not sort them.

## Model

| member | source | states |
|---|---|---|
| DebloatBuilder.SchemaValid | src/components/DebloatBuilder.tsx:42-49 | the schema's constraints: a non-empty group, subgroup and English teacher, and exactly two weeks of days |
| DebloatBuilder.Defaults | src/components/DebloatBuilder.tsx:54-61 | the default values: empty group, subgroup and teacher, the flag on, weeks `[5, 6]` and `[2, 5, 6]`, no electives |
| DebloatBuilder.FilterTuples | src/components/DebloatBuilder.tsx:70-77 | the tuples `rawURL` puts in its list, in order: the four fields, then one per elective, then one per day of each week |
| DebloatBuilder.RawUrl | src/components/DebloatBuilder.tsx:69-80 | the raw URL: the filter endpoint followed by the serialised filter tuples |
| DebloatBuilder.SubscriptionUrl | src/components/DebloatBuilder.tsx:82-88 | the subscription link: `adp:subscribe?` followed by the serialised `location` and `title` tuples |
| DebloatBuilder.Toggled | src/components/DebloatBuilder.tsx:162 | a week after a checkbox change: `add` when ticked, `delete` when cleared |
| DebloatBuilder.Distinct | src/components/DebloatBuilder.tsx:58 | the contents of `new Set(init)`: the first occurrence of each value, in order |
| DebloatBuilder.LinkClass | src/components/DebloatBuilder.tsx:205-210 | the links' extra class: the inert class while the group is empty, none otherwise |
| FormUrlEncoded.Serialize | src/components/DebloatBuilder.tsx:79 | `toString()`: each tuple as encoded `name=value`, joined with `&` |
| FormUrlEncoded.EncodeByte | src/components/DebloatBuilder.tsx:79 | one byte of a name or value is written as `+` for a space, `%XX` for a byte in the form set, and as itself otherwise |
| ElectivesCombobox.OnSelect | src/components/ElectivesCombobox.tsx:56-63 | an item's `onSelect`: the list without `currentValue` when it holds it, else the list with the item's elective appended |
| ElectivesCombobox.Select | src/components/ElectivesCombobox.tsx:56-63 | `onSelect` called with the item's own value |
| ElectivesCombobox.IsSelected | src/components/ElectivesCombobox.tsx:68-70 | an item's `data-selected` flag: whether the list holds it |
| ElectivesCombobox.TriggerLabel | src/components/ElectivesCombobox.tsx:41 | the trigger text: the list joined with `", "`, or the placeholder when empty |
| GroupCombobox.OnSelect | src/components/GroupCombobox.tsx:56-59 | an item's `onSelect`: clear the value when it is the item's, else take the item's; close the popover |
| GroupCombobox.CheckMarks | src/components/GroupCombobox.tsx:64 | the check marks of the items in catalog order: shown exactly on the items equal to the value |
| GroupCombobox.TriggerLabel | src/components/GroupCombobox.tsx:42 | the trigger: the prompt when the value is empty, else the catalog entry `find` returns, or nothing when it returns `undefined` |
| DebloatBuilder.DaySet.Has | src/components/DebloatBuilder.tsx:160 | a checkbox's `checked` state: whether the week's set holds the day (`has(day.id)`) |
| DebloatBuilder.Inserted | src/components/DebloatBuilder.tsx:162 | `Set.prototype.add` on an insertion-ordered set: the day appended when absent, the set unchanged otherwise |
| DebloatBuilder.BoolText | src/components/DebloatBuilder.tsx:73 | the flag's `toString()`: `"true"` or `"false"` |
| SearchParams.URLSearchParams.ToString | src/components/DebloatBuilder.tsx:79 | `params.toString()`, the serialised list (also at line 87) |
| GroupCombobox.Find | src/components/GroupCombobox.tsx:42 | `groups.find(group => group === value)`: the first catalog entry equal to the value, or `undefined` |
| Sequences.Without | src/components/ElectivesCombobox.tsx:59-61 | `filter(f => f !== currentValue)`: the entries that differ from the value, in their original order; on a duplicate-free week it is also `Set.prototype.delete` |
| Sequences.Join | src/components/ElectivesCombobox.tsx:41 | `join(", ")`: the strings with the separator between neighbours |
| DebloatBuilder.BuildRawUrl | src/components/DebloatBuilder.tsx:69-80 | four `set` calls on a fresh parameter list, then one `append` per elective, per week-1 day and per week-2 day, give the endpoint followed by the serialised filter tuples (`RawUrl`) |
| DebloatBuilder.SetOnFreshList | src/components/DebloatBuilder.tsx:70-74 | on a fresh list the four `set` calls act as appends, so the list is exactly `group`, `subgroup`, `should_filter_electives_by_group`, `english`, in that order |
| DebloatBuilder.AppendAll | src/components/DebloatBuilder.tsx:75 | the `forEach` loop appends one `(name, value)` tuple per value, in sequence order, after what was there |
| DebloatBuilder.AppendDays | src/components/DebloatBuilder.tsx:76-77 | the day loops append one tuple per day, whose value is the day's decimal text, in the set's iteration order |
| DebloatBuilder.BuildSubscriptionUrl | src/components/DebloatBuilder.tsx:82-88 | the link is `adp:subscribe?` followed by the serialised `location` = raw URL and `title` = `ZTU Schedule` tuples |
| DebloatBuilder.FilterTuplesFields | src/components/DebloatBuilder.tsx:70-77 | reading the tuples back by name gives each single field exactly once, the flag as `"true"` or `"false"` matching the boolean, every elective in order, and every day of each week as decimal text in set order |
| DebloatBuilder.FilterTuplesLayout | src/components/DebloatBuilder.tsx:70-77 | there are `4 + #electives + #week1 + #week2` tuples: the four fields first, then the electives, then week 1's days, then week 2's days |
| DebloatBuilder.RawUrlDecodes | src/components/DebloatBuilder.tsx:79 | the raw URL starts with `https://debloater.anyduck.workers.dev/filters.txt?` and the rest decodes to exactly the filter tuples |
| DebloatBuilder.SubscriptionUrlDecodes | src/components/DebloatBuilder.tsx:82-87 | the subscription link starts with `adp:subscribe?` and the rest decodes to exactly `[("location", rawURL), ("title", "ZTU Schedule")]`, so it depends on nothing but the raw URL |
| DebloatBuilder.HeadText | src/components/DebloatBuilder.tsx:70-74 | the query starts `group=…&subgroup=…&should_filter_electives_by_group=true/false&english=…`, with the names unescaped and the values encoded |
| DebloatBuilder.RawUrlText | src/components/DebloatBuilder.tsx:69-80 | the raw URL is the endpoint, the four fields, then `&electives=…` per elective and `&<encoded week name>=<day>` per day of each week, with the days unescaped |
| DebloatBuilder.WeekKeysText | src/components/DebloatBuilder.tsx:76-77 | the week names are written `days_with_electives%5B1%5D` and `days_with_electives%5B2%5D` |
| DebloatBuilder.TitleText | src/components/DebloatBuilder.tsx:85 | the title `ZTU Schedule` is written `ZTU+Schedule` |
| DebloatBuilder.SubscriptionUrlText | src/components/DebloatBuilder.tsx:82-87 | the subscription link is `adp:subscribe?location=` + the encoded raw URL + `&title=` + the encoded title |
| DebloatBuilder.DefaultTuples | src/components/DebloatBuilder.tsx:54-61 | with the default values the tuples are empty `group`, `subgroup` and `english`, the flag `true`, no electives, week 1 days `5, 6` and week 2 days `2, 5, 6` |
| DebloatBuilder.DefaultWeeks | src/components/DebloatBuilder.tsx:58 | the default weeks are two distinct fresh sets holding `5, 6` and `2, 5, 6` |
| DebloatBuilder.LinkInertIffNoGroup | src/components/DebloatBuilder.tsx:205-210 | both links get the inert class exactly when the group is empty |
| DebloatBuilder.LinkRuleAndSchema | src/components/DebloatBuilder.tsx:42-49 | a form that meets the schema has active links; the default form fails the schema and its links are inert |
| DebloatBuilder.LinkRuleIsWeakerThanSchema | src/components/DebloatBuilder.tsx:205-210 | the links look only at the group: a form with a group but no teacher fails the schema yet has active links |
| DebloatBuilder.ToggledMembership | src/components/DebloatBuilder.tsx:162 | after a checkbox change the day is in its week exactly when the box is ticked; other days keep their membership; the week stays duplicate-free; a tick of an absent day appends it and a tick of a present day changes nothing; a clear keeps the order of the remaining days |
| DebloatBuilder.ToggleOnThenOff | src/components/DebloatBuilder.tsx:162 | ticking a clear box and then clearing it restores the week |
| DebloatBuilder.DistinctMembers | src/components/DebloatBuilder.tsx:58 | `new Set(init)` holds each value of `init` once and nothing else |
| DebloatBuilder.ToggleDayInUrl | src/components/DebloatBuilder.tsx:160-163 | after toggling day `d` of a week the raw URL carries one tuple for `d` under that week's name when ticked and none when cleared, and the other week's tuples are unchanged |
| DebloatBuilder.DaySet.constructor | src/components/DebloatBuilder.tsx:58 | `new Set(init)` adds the values one by one, keeping the first occurrence of each |
| DebloatBuilder.DaySet.Add | src/components/DebloatBuilder.tsx:162 | `add` appends the day when absent and changes nothing otherwise |
| DebloatBuilder.DaySet.Delete | src/components/DebloatBuilder.tsx:162 | `delete` removes the day, keeps the order of the rest, and reports whether the day was there |
| DebloatBuilder.ToggleDay | src/components/DebloatBuilder.tsx:160-163 | the handler changes only the chosen week's set, in place, to the toggled set; the day is then present exactly when `checked`; it re-emits both sets as a pair |
| SearchParams.SetTuple | src/components/DebloatBuilder.tsx:70-74 | after `set(name, value)` reading `name` gives exactly `[value]`, tuples with other names are unchanged and in order, and on a list without the name `set` appends |
| SearchParams.URLSearchParams.Set | src/components/DebloatBuilder.tsx:70-74 | `set` updates the list in place as `SetTuple` states |
| SearchParams.URLSearchParams.Append | src/components/DebloatBuilder.tsx:75-77 | `append` adds the tuple at the end of the list |
| SearchParams.URLSearchParams.constructor | src/components/DebloatBuilder.tsx:70 | `new URLSearchParams()` starts with an empty list |
| FormUrlEncoded.ParseSerialize | src/components/DebloatBuilder.tsx:79 | parsing the serialised list gives the list back, so different lists never serialise to the same query |
| FormUrlEncoded.DecodeEncodeComponent | src/components/DebloatBuilder.tsx:79 | percent-decoding and UTF-8 decoding an encoded name or value gives it back |
| FormUrlEncoded.EncodeComponent | src/components/DebloatBuilder.tsx:79 | an encoded name or value contains only unreserved characters, `+` and `%`, so never `&` or `=` |
| FormUrlEncoded.FormSetIsComplementOfUnreserved | src/components/DebloatBuilder.tsx:79 | the nested percent-encode sets leave exactly ASCII letters, digits, `*`, `-`, `.` and `_` unescaped |
| FormUrlEncoded.EncodeUnreservedText | src/components/DebloatBuilder.tsx:79 | text made only of unreserved characters is written unchanged |
| FormUrlEncoded.EncodeComponentConcat | src/components/DebloatBuilder.tsx:79 | encoding works character by character: the encoding of `a + b` is the encoding of `a` followed by that of `b` |
| FormUrlEncoded.SerializeAppend | src/components/DebloatBuilder.tsx:75-79 | the tuples appended after a non-empty list are written after it, each preceded by `&` |
| FormUrlEncoded.SerializeCons | src/components/DebloatBuilder.tsx:79 | the first tuple is written as `name=value`, followed by `&` and the rest when there is a rest |
| Utf8.DecodeEncode | src/components/DebloatBuilder.tsx:79 | the strict UTF-8 decoder inverts the encoder |
| Utf8.EncodeChar | src/components/DebloatBuilder.tsx:79 | a character is one to four bytes, one exactly when it is below U+0080, with a lead byte and continuation bytes otherwise |
| NumberText.IntToText | src/components/DebloatBuilder.tsx:76-77 | a day id is written as a `-` exactly when it is negative, followed by a non-empty run of decimal digits |
| NumberText.NatToText | src/components/DebloatBuilder.tsx:76-77 | the digits are non-empty and have no leading zero except for `0` itself |
| NumberText.ParseIntToText | src/components/DebloatBuilder.tsx:76-77 | the decimal text of an integer reads back as that integer |
| NumberText.IntToTextInjective | src/components/DebloatBuilder.tsx:76-77 | different day ids give different texts |
| ElectivesCombobox.AnyEqual | src/components/ElectivesCombobox.tsx:58 | `some(f => f === x)` holds exactly when `x` is in the list |
| ElectivesCombobox.SelectAbsent | src/components/ElectivesCombobox.tsx:58-62 | choosing an elective not in the list appends it at the end and leaves the earlier entries unchanged |
| ElectivesCombobox.SelectPresent | src/components/ElectivesCombobox.tsx:58-61 | choosing an elective in the list removes every occurrence, keeps every other entry, shortens the list by the number of occurrences, and keeps the order of the rest |
| ElectivesCombobox.SelectPresentSplits | src/components/ElectivesCombobox.tsx:59-61 | removal acts on each part of the list separately, so entries keep their relative places |
| ElectivesCombobox.SelectTwiceRestores | src/components/ElectivesCombobox.tsx:56-63 | choosing an absent elective and then choosing it again gives the original list |
| ElectivesCombobox.SelectKeepsNoDuplicates | src/components/ElectivesCombobox.tsx:58-62 | a list without duplicates has none after a choice |
| ElectivesCombobox.SelectedIffMember | src/components/ElectivesCombobox.tsx:68-70 | an item's `data-selected` flag is set exactly when it is in the list |
| ElectivesCombobox.SelectFlipsTick | src/components/ElectivesCombobox.tsx:56-70 | choosing an item flips its own tick and leaves every other item's tick unchanged |
| ElectivesCombobox.MismatchedValueDuplicates | src/components/ElectivesCombobox.tsx:56-63 | if `onSelect` got a value other than the item's own, an elective already in the list would be appended a second time |
| ElectivesCombobox.TriggerLabelShape | src/components/ElectivesCombobox.tsx:41 | an empty list shows the placeholder; one elective shows itself; otherwise the text starts with the first, ends with the last, and has the length of all of them plus one `", "` between neighbours |
| GroupCombobox.SelectChosenClears | src/components/GroupCombobox.tsx:57 | choosing the chosen group clears the value |
| GroupCombobox.SelectOtherReplaces | src/components/GroupCombobox.tsx:57 | choosing another group makes it the value |
| GroupCombobox.SelectCloses | src/components/GroupCombobox.tsx:58 | every choice closes the popover |
| GroupCombobox.SelectTwice | src/components/GroupCombobox.tsx:56-59 | choosing a group twice ends with nothing chosen, unless it was chosen at the start; from no choice it always ends with nothing chosen |
| GroupCombobox.CheckMarkCount | src/components/GroupCombobox.tsx:64 | as many check marks show as catalog entries equal the value, so in a duplicate-free catalog exactly one shows when the value is in it and none otherwise |
| GroupCombobox.FindIsMembership | src/components/GroupCombobox.tsx:42 | `groups.find(g => g === value)` gives the value when it is in the catalog and `undefined` otherwise |
| GroupCombobox.TriggerLabelCases | src/components/GroupCombobox.tsx:42 | the trigger shows the prompt exactly when the value is empty, the group when it is in the catalog, and nothing otherwise |
| GroupCombobox.SelectLabel | src/components/GroupCombobox.tsx:42-59 | after choosing a catalog item the trigger shows that group, or the prompt when the choice was cleared |

## Left out

- JSX rendering, the Tailwind classes and the UI primitives (button, popover, command list, select, checkbox, switch, card). They are presentational, and their libraries are not part of this model.
- The re-render mechanics of react-hook-form (`useForm`, `watch`, `field.onChange`) and `React.useMemo`. The URLs are functions of the current form values and are recomputed after each change.
- The zod schema engine and its error messages. Only the schema's constraints are modelled, as the predicate `SchemaValid`.
- The catalog JSON files for groups, electives and English teachers. Their contents are not part of this model, so a catalog is any sequence of strings.
- The `console.log` in `onSubmit`. It is output only.
- The debloater service behind the raw URL and the handler of the `adp:` scheme. They are external.
- The build configuration, which holds no logic.
- NumberText.IntToText: integers only. JavaScript writes numbers of magnitude 10^21 and more in exponent form and has non-integer numbers; day ids are small integers, so neither is modelled.
- Utf8.EncodeChar: a Dafny `char` is a Unicode scalar value, so JavaScript strings with lone surrogates cannot be written in the model. `URLSearchParams` would serialise such a surrogate as U+FFFD.
- FormUrlEncoded.Parse: a strict decoder used only to show that serialisation loses nothing. The standard's lenient parser (section 5.1 of the URL Standard) is not modelled.
- DebloatBuilder.ToggleDay: `checked` is a boolean. The checkbox library can also report `"indeterminate"`, which is truthy and would add the day.
- GroupCombobox.SelectLabel: it assumes the item's `currentValue` is its own catalog entry (`g in groups`). The command-list library makes that call and is not part of this model.
- ElectivesCombobox.OnSelect: the properties assume `currentValue` equals the item's own value. The command-list library makes that call and is not part of this model; `MismatchedValueDuplicates` shows what would happen otherwise.
- Reading the form values (`watch`) is not modelled. The two weeks are `DaySet` objects in the handler and plain sequences in the URL functions. `WeekDays` connects the two.
