/** $util.getLabelByValue: the label of the option whose value is the given one. */
module SelectOptions {
  import opened Js

  /** The value of an option: a string or a number, compared with === (so the
      string "1" and the number 1 differ). */
  datatype Scalar = Text(s: string) | Number(n: int)

  /** The SelectOption record: its label (labelText here, since label is a Dafny
      keyword), an optional value and nested options. */
  datatype SelectOption = SelectOption(labelText: string, value: Option<Scalar>, options: seq<SelectOption>)

  /** The text shown when no option supplies a label. */
  const Placeholder: string := "--"

  /** e.value === value; an option without a value never matches. */
  predicate HasValue(option: SelectOption, value: Scalar) {
    option.value == Some(value)
  }

  /** The index of the first option whose value is strictly equal to the
      given one, or none. Nested options are not searched. */
  function FindIndex(items: seq<SelectOption>, value: Scalar): (r: Option<nat>)
    ensures r.Some? ==> r.value < |items| && HasValue(items[r.value], value)
    ensures r.Some? ==> forall j :: 0 <= j < r.value ==> !HasValue(items[j], value)
    ensures r.None? <==> forall j :: 0 <= j < |items| ==> !HasValue(items[j], value)
  {
    if items == [] then None
    else if HasValue(items[0], value) then Some(0)
    else match FindIndex(items[1..], value)
      case None => None
      case Some(i) => Some(i + 1)
  }

  /** The label of the first option carrying the value,
      unless there is none or its label is empty (falsy), then the placeholder. */
  function GetLabelByValue(value: Scalar, items: seq<SelectOption>): (r: string)
    ensures r != ""
    ensures (forall i :: 0 <= i < |items| ==> !HasValue(items[i], value)) ==> r == Placeholder
    ensures forall i ::
      0 <= i < |items| && HasValue(items[i], value) && (forall j :: 0 <= j < i ==> !HasValue(items[j], value))
      ==> r == if items[i].labelText != "" then items[i].labelText else Placeholder
  {
    match FindIndex(items, value)
    case None => Placeholder
    case Some(i) => if Truthy(Str(items[i].labelText)) then items[i].labelText else Placeholder
  }

  /** A label found is always one of the options' labels. */
  lemma {:induction false} LabelComesFromOptions(value: Scalar, items: seq<SelectOption>)
    ensures var r := GetLabelByValue(value, items);
      r == Placeholder || exists i :: 0 <= i < |items| && items[i].labelText == r && HasValue(items[i], value)
  {
    match FindIndex(items, value)
    case None =>
    case Some(i) =>
      assert items[i].labelText == GetLabelByValue(value, items) || GetLabelByValue(value, items) == Placeholder;
  }

  /** Equality is strict: the number 1 does not find an option whose value is "1". */
  lemma StrictEquality()
    ensures GetLabelByValue(Number(1), [SelectOption("one", Some(Text("1")), [])]) == Placeholder
    ensures GetLabelByValue(Text("1"), [SelectOption("one", Some(Text("1")), [])]) == "one"
  {
  }
}
