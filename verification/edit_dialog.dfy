/** The edit dialog's local editing operations. Each one rewrites a single
    field of the entry being edited; the multi-valued fields are handled as
    lists of strings. */
module EditDialog {
  import opened Wrappers
  import opened Values
  import opened Text
  import opened Seqs
  import opened Inventory

  /** `handleChange`: `{ ...prev, [field]: value }`. The field takes the new
      value and every other key, undeclared ones included, keeps its own. */
  function HandleChange(e: Entry, f: Field, v: Value): (r: Entry)
    ensures Get(r, f) == Some(v)
    ensures forall g :: g != f ==> Get(r, g) == Get(e, g)
    ensures r.extra == e.extra
  {
    match f
    case Id => e.(id := Some(v))
    case TagTeam => e.(tagTeam := Some(v))
    case CourseName => e.(courseName := Some(v))
    case Url => e.(url := Some(v))
    case Level => e.(level := Some(v))
    case Platform => e.(platform := Some(v))
    case Keywords => e.(keywords := Some(v))
    case CourseLength => e.(courseLength := Some(v))
    case InstructionMedium => e.(instructionMedium := Some(v))
    case Delivery => e.(delivery := Some(v))
    case Language => e.(language := Some(v))
    case ProgrammingLanguage => e.(programmingLanguage := Some(v))
    case NeuroimagingSoftware => e.(neuroimagingSoftware := Some(v))
    case ImagingModality => e.(imagingModality := Some(v))
    case OpenDataset => e.(openDataset := Some(v))
    case LastUpdated => e.(lastUpdated := Some(v))
    case Functionality => e.(functionality := Some(v))
    case Assessment => e.(assessment := Some(v))
    case Prerequisite => e.(prerequisite := Some(v))
    case Source => e.(source := Some(v))
    case Review => e.(review := Some(v))
    case ExcludeFromReproInventory => e.(excludeFromReproInventory := Some(v))
    case AliasLinks => e.(aliasLinks := Some(v))
    case Notes => e.(notes := Some(v))
    case Quadrants => e.(quadrants := Some(v))
  }

  /** The field values `(entry[field] || []) as string[]` reads as a list:
      an array, or anything falsy (which becomes the empty list). */
  predicate ReadsAsList(v: Option<Value>) {
    v.None? || v.value.List? || Falsy(v.value)
  }

  function CurrentList(v: Option<Value>): (items: seq<string>)
    requires ReadsAsList(v)
    ensures v.Some? && v.value.List? ==> items == v.value.items
    ensures !(v.Some? && v.value.List?) ==> items == []
  {
    if v.Some? && v.value.List? then v.value.items else []
  }

  /** The field values the checkbox test `entry[field]?.includes(option)`
      can be evaluated on: missing or null, an array, or a string. */
  predicate Checkable(v: Option<Value>) {
    v.None? || v.value.Null? || v.value.List? || v.value.Text?
  }

  /** Whether an option's checkbox is shown ticked: membership for an array,
      substring containment for a string, false for a missing value. */
  predicate IsChecked(e: Entry, f: Field, option: string)
    requires Checkable(Get(e, f))
  {
    var v := Get(e, f);
    if v.None? || v.value.Null? then false
    else if v.value.List? then option in v.value.items
    else Contains(v.value.s, option)
  }

  /** `handleMultiSelectChange`: checking appends the option to the field's
      list, unchecking removes every occurrence of it; the box then shows
      what was clicked and no other field changes. */
  function HandleMultiSelectChange(e: Entry, f: Field, option: string, checked: bool): (r: Entry)
    requires ReadsAsList(Get(e, f))
    ensures Get(r, f).Some? && Get(r, f).value.List?
    ensures var before := CurrentList(Get(e, f));
      var after := Get(r, f).value.items;
      && (checked ==> after == before + [option])
      && (!checked ==> IsSubsequence(after, before) && multiset(after) == multiset(before)[option := 0])
    ensures forall g :: g != f ==> Get(r, g) == Get(e, g)
  {
    HandleChange(e, f, List(Toggle(CurrentList(Get(e, f)), option, checked)))
  }

  /** After a click the option's box shows what was clicked: ticked after
      checking, clear after unchecking, since every copy is removed. */
  lemma CheckboxShowsClick(e: Entry, f: Field, option: string, checked: bool)
    requires ReadsAsList(Get(e, f))
    ensures IsChecked(HandleMultiSelectChange(e, f, option, checked), f, option) <==> checked
  {
  }

  /** `handleArrayInputChange` at an index inside the list: that element
      alone is replaced and the length stays. */
  function HandleArrayInputChange(e: Entry, f: Field, index: nat, value: string): (r: Entry)
    requires ReadsAsList(Get(e, f)) && index < |CurrentList(Get(e, f))|
    ensures Get(r, f).Some? && Get(r, f).value.List?
    ensures var before := CurrentList(Get(e, f));
      var after := Get(r, f).value.items;
      && |after| == |before|
      && after[index] == value
      && (forall i :: 0 <= i < |before| && i != index ==> after[i] == before[i])
    ensures forall g :: g != f ==> Get(r, g) == Get(e, g)
  {
    var items := CurrentList(Get(e, f));
    HandleChange(e, f, List(items[index := value]))
  }

  /** `handleAddArrayItem`: an empty string is appended after the existing
      elements. */
  function HandleAddArrayItem(e: Entry, f: Field): (r: Entry)
    requires ReadsAsList(Get(e, f))
    ensures Get(r, f).Some? && Get(r, f).value.List?
    ensures var before := CurrentList(Get(e, f));
      var after := Get(r, f).value.items;
      |after| == |before| + 1 && after[..|before|] == before && after[|before|] == ""
    ensures forall g :: g != f ==> Get(r, g) == Get(e, g)
  {
    HandleChange(e, f, List(CurrentList(Get(e, f)) + [""]))
  }

  /** `handleRemoveArrayItem`: the element at `index` is dropped when the
      index is inside the list, the rest keep their order; any other index
      leaves the elements as they are. */
  function HandleRemoveArrayItem(e: Entry, f: Field, index: int): (r: Entry)
    requires ReadsAsList(Get(e, f))
    ensures Get(r, f).Some? && Get(r, f).value.List?
    ensures var before := CurrentList(Get(e, f));
      var after := Get(r, f).value.items;
      && (0 <= index < |before| ==> |after| == |before| - 1 && after == before[..index] + before[index + 1..])
      && (!(0 <= index < |before|) ==> after == before)
    ensures forall g :: g != f ==> Get(r, g) == Get(e, g)
  {
    HandleChange(e, f, List(WithoutIndex(CurrentList(Get(e, f)), index)))
  }

  /* ---------------- Round trips ---------------- */

  /** Changing a field and then writing its old value back restores the
      entry. */
  lemma ChangeThenRevert(e: Entry, f: Field, v: Value)
    requires Get(e, f).Some?
    ensures HandleChange(HandleChange(e, f, v), f, Get(e, f).value) == e
  {
  }

  /** Checking an option the list does not hold and unchecking it again
      gives the list back. */
  lemma CheckThenUncheck(e: Entry, f: Field, option: string)
    requires ReadsAsList(Get(e, f))
    requires option !in CurrentList(Get(e, f))
    ensures var r := HandleMultiSelectChange(HandleMultiSelectChange(e, f, option, true), f, option, false);
      Get(r, f) == Some(List(CurrentList(Get(e, f))))
  {
    ToggleRoundTrip(CurrentList(Get(e, f)), option);
  }

  /** Adding an item and removing it again at its index gives the list back. */
  lemma AddThenRemove(e: Entry, f: Field)
    requires ReadsAsList(Get(e, f))
    ensures var items := CurrentList(Get(e, f));
      Get(HandleRemoveArrayItem(HandleAddArrayItem(e, f), f, |items|), f) == Some(List(items))
  {
    var items := CurrentList(Get(e, f));
    var added := items + [""];
    assert CurrentList(Get(HandleAddArrayItem(e, f), f)) == added;
    assert added[..|items|] + added[|items| + 1..] == items;
  }

  /** Editing an item and then typing its old text back gives the list back. */
  lemma EditThenRevert(e: Entry, f: Field, index: nat, value: string)
    requires ReadsAsList(Get(e, f)) && index < |CurrentList(Get(e, f))|
    ensures var items := CurrentList(Get(e, f));
      var r := HandleArrayInputChange(HandleArrayInputChange(e, f, index, value), f, index, items[index]);
      Get(r, f) == Some(List(items))
  {
    var items := CurrentList(Get(e, f));
    assert CurrentList(Get(HandleArrayInputChange(e, f, index, value), f)) == items[index := value];
    assert items[index := value][index := items[index]] == items;
  }
}
