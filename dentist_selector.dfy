/**
 * The dentist picker (src/components/DentistSelector.tsx): a select whose value "all"
 * stands for "no dentist" and whose other values are dentist ids.
 */
module DentistSelector {
  import opened Wrappers
  import opened Api

  const AllValue: string := "all"

  /** The select's value: `selectedDentist || "all"`. */
  function SelectValue(selected: Option<string>): (v: string)
    ensures v == AllValue <==> !Present(selected) || selected.value == AllValue
    ensures Present(selected) ==> v == selected.value
  {
    if Present(selected) then selected.value else AllValue
  }

  /** handleChange: "all" reports null, any other value reports itself. */
  function HandleChange(value: string): (r: Option<string>)
    ensures r.None? <==> value == AllValue
    ensures r.Some? ==> r.value == value
  {
    if value == AllValue then None else Some(value)
  }

  /** Encoding the selection and decoding it gives it back, for null and for every
      non-empty id other than "all". */
  lemma SelectRoundTrip(selected: Option<string>)
    requires selected.None? || (selected.value != "" && selected.value != AllValue)
    ensures HandleChange(SelectValue(selected)) == selected
  {
  }

  /** Decoding a value and encoding the result gives the value back unless it is empty. */
  lemma ChangeRoundTrip(value: string)
    requires value != ""
    ensures SelectValue(HandleChange(value)) == value
  {
  }

  /** One entry of the drop-down. */
  datatype SelectItem = SelectItem(value: string, text: string)

  /** The drop-down: "All Dentists" first, then one entry per dentist in list order. */
  function Items(dentists: seq<Dentist>): (items: seq<SelectItem>)
    ensures |items| == |dentists| + 1
    ensures items[0] == SelectItem(AllValue, "All Dentists")
    ensures forall i :: 0 <= i < |dentists| ==> items[i + 1].value == dentists[i].id
    ensures forall i :: 0 <= i < |dentists| ==>
      items[i + 1].text == dentists[i].name + " - " + dentists[i].specialty
  {
    [SelectItem(AllValue, "All Dentists")]
      + seq(|dentists|, i requires 0 <= i < |dentists| =>
          SelectItem(dentists[i].id, dentists[i].name + " - " + dentists[i].specialty))
  }

  /** Choosing entry k reports null for the first entry and for a dentist whose id is
      "all"; otherwise it reports that dentist's id. */
  lemma ChoosingItem(dentists: seq<Dentist>, k: int)
    requires 0 <= k <= |dentists|
    ensures k == 0 ==> HandleChange(Items(dentists)[k].value) == None
    ensures k > 0 ==>
      (HandleChange(Items(dentists)[k].value) ==
       if dentists[k - 1].id == AllValue then None else Some(dentists[k - 1].id))
  {
  }
}
