/**
 * The attribute chip picker: the current selection is a list of attributes,
 * a chip shows as selected when some attribute in the list has its id, and
 * pressing a chip toggles that id in or out of the list.
 */
module AttributePicker {
  import opened Diary
  import opened Seqs

  /** `value.some(a => a.Id === id)`: whether a chip with this id shows as selected. */
  function Selected(value: seq<Attribute>, id: int): (r: bool)
    ensures r <==> exists a :: a in value && a.Id == id
    decreases |value|
  {
    if |value| == 0 then false
    else value[0].Id == id || Selected(value[1..], id)
  }

  /**
   * `toggle(attr)`: when an attribute with `attr`'s id is selected, every
   * attribute with that id is dropped and the rest keep their order;
   * otherwise `attr` is appended at the end.
   */
  function Toggle(value: seq<Attribute>, attr: Attribute): (r: seq<Attribute>)
    ensures Selected(r, attr.Id) <==> !Selected(value, attr.Id)
    ensures forall id :: id != attr.Id ==> (Selected(r, id) <==> Selected(value, id))
    ensures Selected(value, attr.Id) ==>
              && IsSubsequence(r, value)
              && forall a :: multiset(r)[a] == if a.Id == attr.Id then 0 else multiset(value)[a]
    ensures !Selected(value, attr.Id) ==> |r| == |value| + 1 && r[..|value|] == value && r[|value|] == attr
  {
    if Selected(value, attr.Id) then
      FilterMultiplicity(value, (a: Attribute) => a.Id != attr.Id);
      Filter(value, (a: Attribute) => a.Id != attr.Id)
    else value + [attr]
  }

  /** Pressing a chip that is not selected and then pressing it again restores the selection exactly. */
  lemma ToggleTwice(value: seq<Attribute>, attr: Attribute)
    requires !Selected(value, attr.Id)
    ensures Toggle(Toggle(value, attr), attr) == value
  {
    var p := (a: Attribute) => a.Id != attr.Id;
    FilterAppend(value, [attr], p);
    FilterKeepsAll(value, p);
    assert Filter([attr], p) == [];
  }

  /** Two presses on different chips commute as far as which ids show as selected. */
  lemma TogglesCommuteOnSelection(value: seq<Attribute>, x: Attribute, y: Attribute, id: int)
    requires x.Id != y.Id
    ensures Selected(Toggle(Toggle(value, x), y), id) <==> Selected(Toggle(Toggle(value, y), x), id)
  {
  }
}
