/**
 * The filter form of `DebloatBuilder.tsx`: its values, defaults and schema,
 * the two URLs it derives from them, the action links' inert state, and the
 * week-day checkboxes, which change the two `Set<number>` values of the form
 * in place.
 */
module DebloatBuilder {
  import opened Sequences
  import opened Options
  import opened FormUrlEncoded
  import opened SearchParams
  import NumberText

  /** The values of the form, as `form.watch()` returns them. */
  datatype FormValues = FormValues(
    group: string,
    subgroup: string,
    shouldFilterElectivesByGroup: bool,
    daysWithElectives: seq<seq<int>>,
    electives: seq<string>,
    englishTeacher: string)

  const RawPrefix := "https://debloater.anyduck.workers.dev/filters.txt?"
  const SubscribePrefix := "adp:subscribe?"
  const SubscriptionTitle := "ZTU Schedule"

  // The parameter names the two URLs use.
  const GroupKey := "group"
  const SubgroupKey := "subgroup"
  const FilterFlagKey := "should_filter_electives_by_group"
  const EnglishKey := "english"
  const ElectivesKey := "electives"
  const WeekOneKey := "days_with_electives[1]"
  const WeekTwoKey := "days_with_electives[2]"
  const LocationKey := "location"
  const TitleKey := "title"

  /** The values the form starts with. */
  const Defaults := FormValues("", "", true, [[5, 6], [2, 5, 6]], [], "")

  /**
   * The constraints the form's zod schema states: non-empty group, subgroup
   * and English teacher, and exactly two weeks of day ids.
   */
  predicate SchemaValid(v: FormValues) {
    && |v.group| >= 1
    && |v.subgroup| >= 1
    && |v.daysWithElectives| == 2
    && |v.englishTeacher| >= 1
  }

  /** `Boolean.prototype.toString()`. */
  function BoolText(b: bool): string {
    if b then "true" else "false"
  }

  /** One `(name, value)` tuple per value, in order. */
  function NamedTuples(name: string, values: seq<string>): (r: seq<Pair>)
    ensures |r| == |values|
    ensures forall i :: 0 <= i < |r| ==> r[i] == (name, values[i])
  {
    seq(|values|, i requires 0 <= i < |values| => (name, values[i]))
  }

  /** The decimal text of every day id, in the set's order. */
  function DayTexts(days: seq<int>): (r: seq<string>)
    ensures |r| == |days|
    ensures forall i :: 0 <= i < |r| ==> r[i] == NumberText.IntToText(days[i])
  {
    seq(|days|, i requires 0 <= i < |days| => NumberText.IntToText(days[i]))
  }

  /** The four fields that `rawURL` sets on its fresh parameter list. */
  function HeadTuples(v: FormValues): seq<Pair> {
    [(GroupKey, v.group),
     (SubgroupKey, v.subgroup),
     (FilterFlagKey, BoolText(v.shouldFilterElectivesByGroup)),
     (EnglishKey, v.englishTeacher)]
  }

  /** The tuples `rawURL` builds, in the order it puts them in the list. */
  function FilterTuples(v: FormValues): seq<Pair>
    requires |v.daysWithElectives| >= 2
  {
    HeadTuples(v)
    + NamedTuples(ElectivesKey, v.electives)
    + NamedTuples(WeekOneKey, DayTexts(v.daysWithElectives[0]))
    + NamedTuples(WeekTwoKey, DayTexts(v.daysWithElectives[1]))
  }

  function RawUrl(v: FormValues): string
    requires |v.daysWithElectives| >= 2
  {
    RawPrefix + Serialize(FilterTuples(v))
  }

  function SubscriptionUrl(rawUrl: string): string {
    SubscribePrefix + Serialize([(LocationKey, rawUrl), (TitleKey, SubscriptionTitle)])
  }

  // The two URL builders, step by step as the component builds them.

  /** `set` on a list without the name appends, so the four `set` calls build `HeadTuples`. */
  lemma SetOnFreshList(v: FormValues)
    ensures SetTuple(SetTuple(SetTuple(SetTuple([], GroupKey, v.group),
              SubgroupKey, v.subgroup),
              FilterFlagKey, BoolText(v.shouldFilterElectivesByGroup)),
              EnglishKey, v.englishTeacher)
            == HeadTuples(v)
  {
    KeysDistinct();
    var l1 := SetTuple([], GroupKey, v.group);
    assert l1 == [(GroupKey, v.group)];
    var l2 := SetTuple(l1, SubgroupKey, v.subgroup);
    assert l2 == l1 + [(SubgroupKey, v.subgroup)];
    var l3 := SetTuple(l2, FilterFlagKey, BoolText(v.shouldFilterElectivesByGroup));
    assert l3 == l2 + [(FilterFlagKey, BoolText(v.shouldFilterElectivesByGroup))];
    var l4 := SetTuple(l3, EnglishKey, v.englishTeacher);
    assert l4 == l3 + [(EnglishKey, v.englishTeacher)];
  }

  /** The names differ from one another (they differ in length, the week keys in their digit). */
  lemma KeysDistinct()
    ensures |GroupKey| == 5 && |SubgroupKey| == 8 && |FilterFlagKey| == 32 && |EnglishKey| == 7
    ensures |ElectivesKey| == 9 && |WeekOneKey| == 22 && |WeekTwoKey| == 22
    ensures WeekOneKey[20] == '1' && WeekTwoKey[20] == '2'
    ensures |LocationKey| == 8 && |TitleKey| == 5
  {
  }

  /** Appends one tuple per value to `params`, in order (the `forEach` loops of `rawURL`). */
  method AppendAll(params: URLSearchParams, name: string, values: seq<string>)
    modifies params
    ensures params.list == old(params.list) + NamedTuples(name, values)
  {
    var i := 0;
    while i < |values|
      invariant 0 <= i <= |values|
      invariant params.list == old(params.list) + NamedTuples(name, values[..i])
    {
      params.Append(name, values[i]);
      assert NamedTuples(name, values[..i + 1]) == NamedTuples(name, values[..i]) + [(name, values[i])];
      i := i + 1;
    }
    assert values[..i] == values;
  }

  /** Appends one tuple per day id, written in decimal, in the set's order. */
  method AppendDays(params: URLSearchParams, name: string, days: seq<int>)
    modifies params
    ensures params.list == old(params.list) + NamedTuples(name, DayTexts(days))
  {
    var i := 0;
    while i < |days|
      invariant 0 <= i <= |days|
      invariant params.list == old(params.list) + NamedTuples(name, DayTexts(days[..i]))
    {
      params.Append(name, NumberText.IntToText(days[i]));
      assert NamedTuples(name, DayTexts(days[..i + 1]))
          == NamedTuples(name, DayTexts(days[..i])) + [(name, NumberText.IntToText(days[i]))];
      i := i + 1;
    }
    assert days[..i] == days;
  }

  /** `rawURL`: the endpoint followed by the serialised filter tuples. */
  method BuildRawUrl(v: FormValues) returns (url: string)
    requires |v.daysWithElectives| >= 2
    ensures url == RawUrl(v)
  {
    var params := new URLSearchParams();
    params.Set(GroupKey, v.group);
    params.Set(SubgroupKey, v.subgroup);
    params.Set(FilterFlagKey, BoolText(v.shouldFilterElectivesByGroup));
    params.Set(EnglishKey, v.englishTeacher);
    SetOnFreshList(v);
    AppendAll(params, ElectivesKey, v.electives);
    AppendDays(params, WeekOneKey, v.daysWithElectives[0]);
    AppendDays(params, WeekTwoKey, v.daysWithElectives[1]);
    url := RawPrefix + params.ToString();
  }

  /** `subURL`: the raw URL as the `location` parameter of an `adp:subscribe?` link. */
  method BuildSubscriptionUrl(rawUrl: string) returns (url: string)
    ensures url == SubscriptionUrl(rawUrl)
  {
    var params := new URLSearchParams();
    params.Set(LocationKey, rawUrl);
    params.Set(TitleKey, SubscriptionTitle);
    KeysDistinct();
    assert params.list == [(LocationKey, rawUrl), (TitleKey, SubscriptionTitle)];
    url := SubscribePrefix + params.ToString();
  }

  // What the URLs say.

  lemma {:induction false} GetAllNamed(name: string, values: seq<string>, key: string)
    ensures GetAll(NamedTuples(name, values), key) == if key == name then values else []
  {
    if values != [] {
      var t := NamedTuples(name, values);
      assert t[1..] == NamedTuples(name, values[1..]);
      GetAllNamed(name, values[1..], key);
      assert values == [values[0]] + values[1..];
    }
  }

  lemma GetAllFilterTuples(v: FormValues, key: string)
    requires |v.daysWithElectives| >= 2
    ensures GetAll(FilterTuples(v), key)
         == GetAll(HeadTuples(v), key)
          + (if key == ElectivesKey then v.electives else [])
          + (if key == WeekOneKey then DayTexts(v.daysWithElectives[0]) else [])
          + (if key == WeekTwoKey then DayTexts(v.daysWithElectives[1]) else [])
  {
    var h := HeadTuples(v);
    var e := NamedTuples(ElectivesKey, v.electives);
    var w1 := NamedTuples(WeekOneKey, DayTexts(v.daysWithElectives[0]));
    var w2 := NamedTuples(WeekTwoKey, DayTexts(v.daysWithElectives[1]));
    GetAllConcat(h + e + w1, w2, key);
    GetAllConcat(h + e, w1, key);
    GetAllConcat(h, e, key);
    GetAllNamed(ElectivesKey, v.electives, key);
    GetAllNamed(WeekOneKey, DayTexts(v.daysWithElectives[0]), key);
    GetAllNamed(WeekTwoKey, DayTexts(v.daysWithElectives[1]), key);
  }

  lemma GetAllFour(a: Pair, b: Pair, c: Pair, d: Pair, key: string)
    ensures GetAll([a, b, c, d], key)
         == (if a.0 == key then [a.1] else [])
          + ((if b.0 == key then [b.1] else [])
             + ((if c.0 == key then [c.1] else []) + (if d.0 == key then [d.1] else [])))
  {
    var ga, gb, gc, gd := (if a.0 == key then [a.1] else []), (if b.0 == key then [b.1] else []),
      (if c.0 == key then [c.1] else []), (if d.0 == key then [d.1] else []);
    assert [d][1..] == [];
    assert GetAll([d], key) == gd;
    assert [c, d][1..] == [d];
    assert GetAll([c, d], key) == gc + gd;
    assert [b, c, d][1..] == [c, d];
    assert GetAll([b, c, d], key) == gb + (gc + gd);
    assert [a, b, c, d][1..] == [b, c, d];
  }

  /**
   * Reading the tuples back by name (`getAll`) gives each field: the four
   * single fields once each, the flag as `"true"` or `"false"`, every elective
   * in order, and the decimal text of every day of each week in the set's order.
   */
  lemma FilterTuplesFields(v: FormValues)
    requires |v.daysWithElectives| >= 2
    ensures GetAll(FilterTuples(v), GroupKey) == [v.group]
    ensures GetAll(FilterTuples(v), SubgroupKey) == [v.subgroup]
    ensures GetAll(FilterTuples(v), FilterFlagKey)
         == [if v.shouldFilterElectivesByGroup then "true" else "false"]
    ensures GetAll(FilterTuples(v), EnglishKey) == [v.englishTeacher]
    ensures GetAll(FilterTuples(v), ElectivesKey) == v.electives
    ensures GetAll(FilterTuples(v), WeekOneKey) == DayTexts(v.daysWithElectives[0])
    ensures GetAll(FilterTuples(v), WeekTwoKey) == DayTexts(v.daysWithElectives[1])
  {
    KeysDistinct();
    var h := HeadTuples(v);
    GetAllFilterTuples(v, GroupKey);
    GetAllFour(h[0], h[1], h[2], h[3], GroupKey);
    GetAllFilterTuples(v, SubgroupKey);
    GetAllFour(h[0], h[1], h[2], h[3], SubgroupKey);
    GetAllFilterTuples(v, FilterFlagKey);
    GetAllFour(h[0], h[1], h[2], h[3], FilterFlagKey);
    GetAllFilterTuples(v, EnglishKey);
    GetAllFour(h[0], h[1], h[2], h[3], EnglishKey);
    GetAllFilterTuples(v, ElectivesKey);
    GetAllFour(h[0], h[1], h[2], h[3], ElectivesKey);
    GetAllFilterTuples(v, WeekOneKey);
    GetAllFour(h[0], h[1], h[2], h[3], WeekOneKey);
    GetAllFilterTuples(v, WeekTwoKey);
    GetAllFour(h[0], h[1], h[2], h[3], WeekTwoKey);
  }

  /**
   * The order of the tuples: the four single fields first, then the
   * electives, then week 1's days, then week 2's days.
   */
  lemma FilterTuplesLayout(v: FormValues)
    requires |v.daysWithElectives| >= 2
    ensures var t := FilterTuples(v);
      var e, w1, w2 := v.electives, v.daysWithElectives[0], v.daysWithElectives[1];
      && |t| == 4 + |e| + |w1| + |w2|
      && t[..4] == HeadTuples(v)
      && (forall i :: 0 <= i < |e| ==> t[4 + i] == (ElectivesKey, e[i]))
      && (forall i :: 0 <= i < |w1| ==> t[4 + |e| + i] == (WeekOneKey, NumberText.IntToText(w1[i])))
      && (forall i :: 0 <= i < |w2| ==> t[4 + |e| + |w1| + i] == (WeekTwoKey, NumberText.IntToText(w2[i])))
  {
  }

  /** The raw URL is the endpoint followed by a query that decodes to exactly the filter tuples. */
  lemma RawUrlDecodes(v: FormValues)
    requires |v.daysWithElectives| >= 2
    ensures |RawUrl(v)| >= |RawPrefix| && RawUrl(v)[..|RawPrefix|] == RawPrefix
    ensures Parse(RawUrl(v)[|RawPrefix|..]) == Some(FilterTuples(v))
  {
    assert RawUrl(v)[|RawPrefix|..] == Serialize(FilterTuples(v));
    ParseSerialize(FilterTuples(v));
  }

  /** The subscription link decodes to the raw URL as `location` and the fixed title. */
  lemma SubscriptionUrlDecodes(rawUrl: string)
    ensures SubscriptionUrl(rawUrl)[..|SubscribePrefix|] == SubscribePrefix
    ensures Parse(SubscriptionUrl(rawUrl)[|SubscribePrefix|..])
         == Some([(LocationKey, rawUrl), (TitleKey, SubscriptionTitle)])
  {
    var t := [(LocationKey, rawUrl), (TitleKey, SubscriptionTitle)];
    assert SubscriptionUrl(rawUrl)[|SubscribePrefix|..] == Serialize(t);
    ParseSerialize(t);
  }

  // The text of the URLs.

  /** `&name=value` for every value, with the values as given. */
  function Repeated(name: string, values: seq<string>): string {
    if values == [] then "" else Repeated(name, values[..|values| - 1]) + "&" + name + "=" + values[|values| - 1]
  }

  function EncodeEach(values: seq<string>): (r: seq<string>)
    ensures |r| == |values|
    ensures forall i :: 0 <= i < |r| ==> r[i] == EncodeComponent(values[i])
  {
    seq(|values|, i requires 0 <= i < |values| => EncodeComponent(values[i]))
  }

  lemma {:induction false} ContinuationOfNamed(name: string, values: seq<string>)
    ensures Continuation(NamedTuples(name, values)) == Repeated(EncodeComponent(name), EncodeEach(values))
    decreases |values|
  {
    if values != [] {
      var init := values[..|values| - 1];
      var last := values[|values| - 1];
      var es := EncodeAll(NamedTuples(name, values));
      assert es[..|es| - 1] == EncodeAll(NamedTuples(name, init));
      assert EncodeEach(values)[..|values| - 1] == EncodeEach(init);
      ContinuationOfNamed(name, init);
    }
  }

  lemma DayTextUnchanged(d: int)
    ensures EncodeComponent(NumberText.IntToText(d)) == NumberText.IntToText(d)
  {
    var s := NumberText.IntToText(d);
    assert forall i :: 0 <= i < |s| ==> IsUnreserved(s[i] as int) by {
      forall i | 0 <= i < |s| ensures IsUnreserved(s[i] as int) {
        if i > 0 {
          assert NumberText.IsDigit(s[i]);
        }
      }
    }
    EncodeUnreservedText(s);
  }

  lemma DayTextsUnchanged(days: seq<int>)
    ensures EncodeEach(DayTexts(days)) == DayTexts(days)
  {
    forall i | 0 <= i < |days| ensures EncodeEach(DayTexts(days))[i] == DayTexts(days)[i] {
      DayTextUnchanged(days[i]);
    }
  }

  // The names and the fixed title as the serializer writes them. Letters,
  // digits and `_` stay as they are; `[`, `]` and the space do not.

  lemma HeadKeysText()
    ensures EncodeComponent(GroupKey) == GroupKey && EncodeComponent(SubgroupKey) == SubgroupKey
    ensures EncodeComponent(FilterFlagKey) == FilterFlagKey && EncodeComponent(EnglishKey) == EnglishKey
  {
    assert IsUnreservedText(GroupKey) && IsUnreservedText(SubgroupKey);
    assert IsUnreservedText(FilterFlagKey) && IsUnreservedText(EnglishKey);
    EncodeUnreservedText(GroupKey);
    EncodeUnreservedText(SubgroupKey);
    EncodeUnreservedText(FilterFlagKey);
    EncodeUnreservedText(EnglishKey);
  }

  lemma ElectivesKeyText()
    ensures EncodeComponent(ElectivesKey) == ElectivesKey
  {
    assert IsUnreservedText(ElectivesKey);
    EncodeUnreservedText(ElectivesKey);
  }

  lemma SubscriptionKeysText()
    ensures EncodeComponent(LocationKey) == LocationKey && EncodeComponent(TitleKey) == TitleKey
  {
    assert IsUnreservedText(LocationKey) && IsUnreservedText(TitleKey);
    EncodeUnreservedText(LocationKey);
    EncodeUnreservedText(TitleKey);
  }

  lemma BoolTextUnchanged(b: bool)
    ensures EncodeComponent(BoolText(b)) == BoolText(b)
  {
    EncodeUnreservedText(BoolText(b));
  }

  /** Two words separated by a space: the space becomes `+`. */
  lemma SpacedText(a: string, b: string)
    requires IsUnreservedText(a) && IsUnreservedText(b)
    ensures EncodeComponent(a + " " + b) == a + "+" + b
  {
    EncodeUnreservedText(a);
    EncodeUnreservedText(b);
    EncodeAsciiChar(' ');
    EncodeComponentConcat(a + " ", b);
    EncodeComponentConcat(a, " ");
  }

  lemma TitleWords()
    ensures SubscriptionTitle == "ZTU" + " " + "Schedule"
    ensures "ZTU+Schedule" == "ZTU" + "+" + "Schedule"
    ensures IsUnreservedText("ZTU") && IsUnreservedText("Schedule")
  {
  }

  lemma TitleText()
    ensures EncodeComponent(SubscriptionTitle) == "ZTU+Schedule"
  {
    TitleWords();
    SpacedText("ZTU", "Schedule");
  }

  /** A name followed by `[digit]`: the brackets are percent-encoded. */
  lemma BracketedText(stem: string, digit: string)
    requires IsUnreservedText(stem) && IsUnreservedText(digit)
    ensures EncodeComponent(stem + "[" + digit + "]") == stem + "%5B" + digit + "%5D"
  {
    EncodeUnreservedText(stem);
    EncodeUnreservedText(digit);
    BracketsText();
    EncodeComponentConcat(stem + "[" + digit, "]");
    EncodeComponentConcat(stem + "[", digit);
    EncodeComponentConcat(stem, "[");
  }

  lemma BracketsText()
    ensures EncodeComponent("[") == "%5B" && EncodeComponent("]") == "%5D"
  {
    EncodeAsciiChar('[');
    EncodeAsciiChar(']');
  }

  lemma WeekKeyParts()
    ensures WeekOneKey == "days_with_electives" + "[" + "1" + "]"
    ensures WeekTwoKey == "days_with_electives" + "[" + "2" + "]"
    ensures "days_with_electives%5B1%5D" == "days_with_electives" + "%5B" + "1" + "%5D"
    ensures "days_with_electives%5B2%5D" == "days_with_electives" + "%5B" + "2" + "%5D"
    ensures IsUnreservedText("days_with_electives") && IsUnreservedText("1") && IsUnreservedText("2")
  {
  }

  lemma WeekKeysText()
    ensures EncodeComponent(WeekOneKey) == "days_with_electives%5B1%5D"
    ensures EncodeComponent(WeekTwoKey) == "days_with_electives%5B2%5D"
  {
    WeekKeyParts();
    BracketedText("days_with_electives", "1");
    BracketedText("days_with_electives", "2");
  }

  /** Four tuples whose names need no escaping. */
  lemma KeyedFourText(k1: string, v1: string, k2: string, v2: string, k3: string, v3: string, k4: string, v4: string)
    requires EncodeComponent(k1) == k1 && EncodeComponent(k2) == k2
    requires EncodeComponent(k3) == k3 && EncodeComponent(k4) == k4
    ensures Serialize([(k1, v1), (k2, v2), (k3, v3), (k4, v4)])
         == (k1 + "=" + EncodeComponent(v1)) + "&" + (k2 + "=" + EncodeComponent(v2))
          + "&" + (k3 + "=" + EncodeComponent(v3)) + "&" + (k4 + "=" + EncodeComponent(v4))
  {
    SerializeFour((k1, v1), (k2, v2), (k3, v3), (k4, v4));
  }

  lemma HeadText(v: FormValues)
    ensures Serialize(HeadTuples(v))
         == (GroupKey + "=" + EncodeComponent(v.group))
          + "&" + (SubgroupKey + "=" + EncodeComponent(v.subgroup))
          + "&" + (FilterFlagKey + "=" + BoolText(v.shouldFilterElectivesByGroup))
          + "&" + (EnglishKey + "=" + EncodeComponent(v.englishTeacher))
  {
    HeadKeysText();
    BoolTextUnchanged(v.shouldFilterElectivesByGroup);
    KeyedFourText(GroupKey, v.group, SubgroupKey, v.subgroup,
                  FilterFlagKey, BoolText(v.shouldFilterElectivesByGroup), EnglishKey, v.englishTeacher);
  }

  /**
   * The raw URL written out: the endpoint, the four single fields, then
   * `&electives=…` per elective and `&days_with_electives%5Bk%5D=…` per day
   * (`WeekKeysText` gives the encoded week names).
   */
  lemma RawUrlText(v: FormValues)
    requires |v.daysWithElectives| >= 2
    ensures RawUrl(v)
         == RawPrefix
          + (Serialize(HeadTuples(v))
             + (Repeated(ElectivesKey, EncodeEach(v.electives))
                + Repeated(EncodeComponent(WeekOneKey), DayTexts(v.daysWithElectives[0]))
                + Repeated(EncodeComponent(WeekTwoKey), DayTexts(v.daysWithElectives[1]))))
  {
    var h := HeadTuples(v);
    var e := NamedTuples(ElectivesKey, v.electives);
    var w1 := NamedTuples(WeekOneKey, DayTexts(v.daysWithElectives[0]));
    var w2 := NamedTuples(WeekTwoKey, DayTexts(v.daysWithElectives[1]));
    assert FilterTuples(v) == h + (e + w1 + w2);
    SerializeAppend(h, e + w1 + w2);
    ContinuationConcat(e + w1, w2);
    ContinuationConcat(e, w1);
    ElectivesKeyText();
    ContinuationOfNamed(ElectivesKey, v.electives);
    ContinuationOfNamed(WeekOneKey, DayTexts(v.daysWithElectives[0]));
    ContinuationOfNamed(WeekTwoKey, DayTexts(v.daysWithElectives[1]));
    DayTextsUnchanged(v.daysWithElectives[0]);
    DayTextsUnchanged(v.daysWithElectives[1]);
  }

  lemma KeyedTwoText(k1: string, v1: string, k2: string, v2: string)
    requires EncodeComponent(k1) == k1 && EncodeComponent(k2) == k2
    ensures Serialize([(k1, v1), (k2, v2)]) == (k1 + "=" + EncodeComponent(v1)) + "&" + (k2 + "=" + EncodeComponent(v2))
  {
    SerializeTwo((k1, v1), (k2, v2));
  }

  /**
   * The subscription link written out; it depends on nothing but the raw URL
   * (`TitleText` gives the encoded title, `ZTU+Schedule`).
   */
  lemma SubscriptionUrlText(rawUrl: string)
    ensures SubscriptionUrl(rawUrl)
         == SubscribePrefix
          + ((LocationKey + "=" + EncodeComponent(rawUrl)) + "&" + (TitleKey + "=" + EncodeComponent(SubscriptionTitle)))
  {
    SubscriptionKeysText();
    KeyedTwoText(LocationKey, rawUrl, TitleKey, SubscriptionTitle);
  }

  /** With the default values the tuples are the four empty or `true` fields and the default days. */
  lemma DefaultTuples()
    ensures FilterTuples(Defaults)
         == [(GroupKey, ""), (SubgroupKey, ""), (FilterFlagKey, "true"), (EnglishKey, ""),
             (WeekOneKey, "5"), (WeekOneKey, "6"),
             (WeekTwoKey, "2"), (WeekTwoKey, "5"), (WeekTwoKey, "6")]
  {
    assert DayTexts([5, 6]) == ["5", "6"];
    assert DayTexts([2, 5, 6]) == ["2", "5", "6"];
  }

  // The action links.

  /** The class both action links get: inert while no group is chosen. */
  function LinkClass(group: string): string {
    if group == "" then "pointer-events-none opacity-50" else ""
  }

  predicate LinkInert(group: string) {
    LinkClass(group) != ""
  }

  /** The links are inert exactly when the group is empty. */
  lemma LinkInertIffNoGroup(group: string)
    ensures LinkInert(group) <==> group == ""
  {
  }

  /** A form that passes the schema has active links; the defaults do not pass and are inert. */
  lemma LinkRuleAndSchema(v: FormValues)
    ensures SchemaValid(v) ==> !LinkInert(v.group)
    ensures !SchemaValid(Defaults) && LinkInert(Defaults.group)
  {
  }

  /** The links check the group only: a form missing its teacher still has active links. */
  lemma LinkRuleIsWeakerThanSchema()
    ensures var v := Defaults.(group := "g", subgroup := "1");
      !SchemaValid(v) && !LinkInert(v.group)
  {
  }

  // The week-day checkboxes.

  /** `Set.prototype.add` on an insertion-ordered set. */
  function Inserted(s: seq<int>, d: int): seq<int> {
    if d in s then s else s + [d]
  }

  /** What a checkbox change does to its week: add when ticked, delete otherwise. */
  function Toggled(s: seq<int>, d: int, checked: bool): seq<int> {
    if checked then Inserted(s, d) else Without(s, d)
  }

  /** The values `new Set(init)` holds: the first occurrence of each value, in order. */
  function Distinct(init: seq<int>): seq<int> {
    if init == [] then [] else Inserted(Distinct(init[..|init| - 1]), init[|init| - 1])
  }

  /**
   * After a checkbox change the day is in its week exactly when the box is
   * ticked; other days keep their membership, the set stays duplicate-free,
   * and a deletion keeps the order of the remaining days.
   */
  lemma ToggledMembership(s: seq<int>, d: int, checked: bool)
    requires NoDuplicates(s)
    ensures d in Toggled(s, d, checked) <==> checked
    ensures forall x :: x != d ==> (x in Toggled(s, d, checked) <==> x in s)
    ensures NoDuplicates(Toggled(s, d, checked))
    ensures checked && d !in s ==> Toggled(s, d, checked) == s + [d]
    ensures checked && d in s ==> Toggled(s, d, checked) == s
    ensures !checked ==> IsSubsequence(Toggled(s, d, checked), s)
  {
    if !checked {
      WithoutMembers(s, d);
      WithoutNoDuplicates(s, d);
      WithoutIsSubsequence(s, d);
    }
  }

  /** Ticking a box that was clear and then clearing it restores the week. */
  lemma ToggleOnThenOff(s: seq<int>, d: int)
    requires d !in s
    ensures Toggled(Toggled(s, d, true), d, false) == s
  {
    WithoutConcat(s, [d], d);
    WithoutAbsent(s, d);
  }

  lemma {:induction false} DistinctMembers(init: seq<int>)
    ensures NoDuplicates(Distinct(init))
    ensures forall x :: x in Distinct(init) <==> x in init
  {
    if init != [] {
      var init' := init[..|init| - 1];
      DistinctMembers(init');
      assert init == init' + [init[|init| - 1]];
    }
  }

  lemma {:induction false} CountDayTexts(days: seq<int>, d: int)
    ensures Count(DayTexts(days), NumberText.IntToText(d)) == Count(days, d)
  {
    if days != [] {
      assert DayTexts(days)[1..] == DayTexts(days[1..]);
      CountDayTexts(days[1..], d);
      if NumberText.IntToText(days[0]) == NumberText.IntToText(d) {
        NumberText.IntToTextInjective(days[0], d);
      }
    }
  }

  /**
   * After toggling day `d` of week `k` the raw URL carries exactly one
   * `days_with_electives[k+1]=d` tuple when the box is ticked and none when it
   * is cleared, and the other week's tuples are unchanged.
   */
  lemma ToggleDayInUrl(v: FormValues, k: int, d: int, checked: bool)
    requires |v.daysWithElectives| == 2 && 0 <= k < 2
    requires NoDuplicates(v.daysWithElectives[k])
    ensures var v' := v.(daysWithElectives := v.daysWithElectives[k := Toggled(v.daysWithElectives[k], d, checked)]);
      var key := if k == 0 then WeekOneKey else WeekTwoKey;
      var other := if k == 0 then WeekTwoKey else WeekOneKey;
      && Count(GetAll(FilterTuples(v'), key), NumberText.IntToText(d)) == (if checked then 1 else 0)
      && GetAll(FilterTuples(v'), other) == GetAll(FilterTuples(v), other)
  {
    var s := v.daysWithElectives[k];
    var t := Toggled(s, d, checked);
    var v' := v.(daysWithElectives := v.daysWithElectives[k := t]);
    FilterTuplesFields(v);
    FilterTuplesFields(v');
    ToggledMembership(s, d, checked);
    CountDayTexts(t, d);
    CountNoDuplicates(t, d);
  }

  /** A JavaScript `Set<number>`: distinct values, iterated in insertion order. */
  class DaySet {
    var elems: seq<int>

    ghost predicate Valid()
      reads this
    {
      NoDuplicates(elems)
    }

    /** `new Set(init)`: adds the values of `init` one by one. */
    constructor (init: seq<int>)
      ensures Valid() && elems == Distinct(init)
    {
      var s: seq<int> := [];
      var i := 0;
      while i < |init|
        invariant 0 <= i <= |init|
        invariant s == Distinct(init[..i])
      {
        assert init[..i + 1][..i] == init[..i];
        if init[i] !in s {
          s := s + [init[i]];
        }
        i := i + 1;
      }
      assert init[..i] == init;
      DistinctMembers(init);
      elems := s;
    }

    function Has(d: int): bool
      reads this
    {
      d in elems
    }

    method Add(d: int)
      requires Valid()
      modifies this
      ensures Valid() && elems == Inserted(old(elems), d)
    {
      if d !in elems {
        elems := elems + [d];
      }
    }

    method Delete(d: int) returns (deleted: bool)
      requires Valid()
      modifies this
      ensures Valid() && elems == Without(old(elems), d)
      ensures deleted <==> d in old(elems)
    {
      deleted := d in elems;
      WithoutNoDuplicates(elems, d);
      elems := Without(elems, d);
    }
  }

  /** The day ids of the two weeks, as the next `watch()` reports them. */
  function WeekDays(weeks: array<DaySet>): seq<seq<int>>
    requires weeks.Length == 2
    reads weeks, weeks[0], weeks[1]
  {
    [weeks[0].elems, weeks[1].elems]
  }

  /** The default weeks: `[new Set([5, 6]), new Set([2, 5, 6])]`. */
  method DefaultWeeks() returns (weeks: array<DaySet>)
    ensures fresh(weeks) && weeks.Length == 2 && fresh(weeks[0]) && fresh(weeks[1])
    ensures weeks[0] != weeks[1] && weeks[0].Valid() && weeks[1].Valid()
    ensures WeekDays(weeks) == Defaults.daysWithElectives
  {
    var first := new DaySet([5, 6]);
    var second := new DaySet([2, 5, 6]);
    assert Distinct([5, 6]) == [5, 6] by {
      assert [5, 6][..1] == [5];
      assert [5][..0] == [];
    }
    assert Distinct([2, 5, 6]) == [2, 5, 6] by {
      assert [2, 5, 6][..2] == [2, 5];
      assert [2, 5][..1] == [2];
      assert [2][..0] == [];
    }
    weeks := new DaySet[2][first, second];
  }

  /**
   * The checkbox handler for day `day` of week `index`: adds or deletes the
   * day in that week's set in place, then hands on both sets again.
   */
  method ToggleDay(weeks: array<DaySet>, index: int, day: int, checked: bool) returns (emitted: seq<DaySet>)
    requires weeks.Length == 2 && 0 <= index < 2 && weeks[0] != weeks[1]
    requires weeks[0].Valid() && weeks[1].Valid()
    modifies weeks[index]
    ensures emitted == [weeks[0], weeks[1]]
    ensures weeks[0].Valid() && weeks[1].Valid()
    ensures WeekDays(weeks) == old(WeekDays(weeks))[index := Toggled(old(weeks[index].elems), day, checked)]
    ensures weeks[index].Has(day) == checked
  {
    ToggledMembership(weeks[index].elems, day, checked);
    if checked {
      weeks[index].Add(day);
    } else {
      var _ := weeks[index].Delete(day);
    }
    emitted := [weeks[0], weeks[1]];
  }
}
