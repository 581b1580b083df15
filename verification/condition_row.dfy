/**
 * The search screen's condition editor: the per-field configuration (label,
 * value kind, offered operators), the operator labels, the patches each
 * control of a condition row produces, and the screen's add/update/remove of
 * conditions. The point of the module is that every condition the screen
 * can build compiles without throwing.
 */
module ConditionRow {
  import opened Diary
  import opened JsValues
  import opened Seqs
  import opened SqlBuilder
  import opened AttributePicker

  /** What kind of value editor a field shows. */
  datatype ValueKind = TextValue | DateValue | AttributeValue

  datatype FieldConfig = FieldConfig(caption: string, kind: ValueKind, operators: seq<Operator>)

  /** `FIELD_CONFIG[f]`. */
  function Config(f: Field): (c: FieldConfig)
    ensures |c.operators| >= 1
    ensures forall i, j :: 0 <= i < j < |c.operators| ==> c.operators[i] != c.operators[j]
    ensures c.kind == AttributeValue <==> f == AttributeField
    ensures c.kind == DateValue <==> f == Date
    ensures Contains in c.operators <==> f == Name || f == Notes
    ensures Between in c.operators <==> f == Date
    ensures In in c.operators <==> f == AttributeField
  {
    match f
    case Name => FieldConfig("Название", TextValue, [Contains, Equals])
    case Notes => FieldConfig("Заметки", TextValue, [Contains])
    case Date => FieldConfig("Дата", DateValue, [Equals, Before, After, Between])
    case AttributeField => FieldConfig("Атрибут", AttributeValue, [In])
  }

  /** The four fields show four different labels in the field picker. */
  lemma FieldLabelsDistinct(f: Field, g: Field)
    requires f != g
    ensures Config(f).caption != Config(g).caption
  {
    assert Config(f).caption[0] != Config(g).caption[0];
  }

  /** `operatorLabel(op)`: the Russian caption of an operator in the operator picker. */
  function OperatorLabel(op: Operator): string {
    match op
    case Contains => "содержит"
    case Equals => "равно"
    case Before => "до"
    case After => "после"
    case Between => "между"
    case In => "содержит"
  }

  /** Two operators share a caption only when they are `contains` and `in`. */
  lemma OperatorLabelsCollide(a: Operator, b: Operator)
    ensures OperatorLabel(a) == OperatorLabel(b)
            <==> a == b || (a == Contains && b == In) || (a == In && b == Contains)
  {
    if a != b && OperatorLabel(a) == OperatorLabel(b) {
      assert OperatorLabel(a)[0] == OperatorLabel(b)[0];
    }
  }

  /** No field offers two operators with the same caption, so every operator picker's entries read differently. */
  lemma OfferedLabelsDistinct(f: Field, i: nat, j: nat)
    requires i < j < |Config(f).operators|
    ensures OperatorLabel(Config(f).operators[i]) != OperatorLabel(Config(f).operators[j])
  {
    var ops := Config(f).operators;
    OperatorLabelsCollide(ops[i], ops[j]);
  }

  // ---------------------------------------------------------------------
  // Patches: `Partial<SearchCondition>` and `{ ...c, ...patch }`.
  // ---------------------------------------------------------------------

  /** A partial condition; `None` is a key the patch does not carry. */
  datatype Patch = Patch(
    field: Option<Field>,
    operator: Option<Operator>,
    value: Option<JsValue>,
    negate: Option<bool>,
    logic: Option<Logic>)

  const NoChange: Patch := Patch(None, None, None, None, None)

  function Pick<T>(o: Option<T>, d: T): T {
    match o
    case Some(x) => x
    case None => d
  }

  /** `{ ...c, ...patch }`: the keys the patch carries override, the rest (the id included) are kept. */
  function Apply(c: SearchCondition, p: Patch): (r: SearchCondition)
    ensures r.id == c.id
    ensures p == NoChange ==> r == c
    ensures p.field.None? && p.operator.None? && p.value.None? ==>
              ClauseOf(r) == ClauseOf(c)
  {
    var r := SearchCondition(
      c.id,
      Pick(p.field, c.field),
      Pick(p.operator, c.operator),
      Pick(p.value, c.value),
      Pick(p.negate, c.negate),
      if p.logic.Some? then p.logic else c.logic);
    ClauseIgnoresNegateAndLogic(c, r.negate, r.logic);
    r
  }

  /** `{ ...p, ...q }`: the keys of `q` win. */
  function Merge(p: Patch, q: Patch): Patch {
    Patch(
      if q.field.Some? then q.field else p.field,
      if q.operator.Some? then q.operator else p.operator,
      if q.value.Some? then q.value else p.value,
      if q.negate.Some? then q.negate else p.negate,
      if q.logic.Some? then q.logic else p.logic)
  }

  /** Spreading two patches one after the other is spreading their merge; in particular a repeated patch changes nothing more. */
  lemma ApplyMerge(c: SearchCondition, p: Patch, q: Patch)
    ensures Apply(Apply(c, p), q) == Apply(c, Merge(p, q))
    ensures Apply(Apply(c, p), p) == Apply(c, p)
  {
  }

  // ---------------------------------------------------------------------
  // The controls of one condition row.
  // ---------------------------------------------------------------------

  /**
   * What a user can do on a row: pick a field, pick an operator, press NOT,
   * pick AND/OR, type text, pick the `from` or `to` date of a range (as the
   * `YYYY-MM-DD` text the date picker yields), or press an attribute chip.
   */
  datatype Edit =
    | PickField(f: Field)
    | PickOperator(op: Operator)
    | ToggleNegate
    | PickLogic(l: Logic)
    | TypeText(text: string)
    | PickFrom(day: string)
    | PickTo(day: string)
    | ToggleAttribute(attr: Attribute)

  /**
   * Whether the row shows the control for an edit: the operator picker lists
   * only the field's operators, the logic picker appears only with
   * `showLogic`, and the value editor depends on the field's kind (a date
   * range shows two date buttons; a single date shows a button that opens no
   * picker).
   */
  predicate Offered(c: SearchCondition, e: Edit, showLogic: bool) {
    match e
    case PickField(_) => true
    case PickOperator(op) => op in Config(c.field).operators
    case ToggleNegate => true
    case PickLogic(_) => showLogic
    case TypeText(_) => Config(c.field).kind == TextValue
    case PickFrom(_) => Config(c.field).kind == DateValue && c.operator == Between
    case PickTo(_) => Config(c.field).kind == DateValue && c.operator == Between
    case ToggleAttribute(_) => Config(c.field).kind == AttributeValue
  }

  /** The `to` key of `{ ...v }`: only an object carries one. */
  function SpreadTo(v: JsValue): (r: JsValue)
    ensures v.Range? ==> r == v.to
    ensures !v.Range? ==> r == Undefined
  {
    if v.Range? then v.to else Undefined
  }

  function SpreadFrom(v: JsValue): (r: JsValue)
    ensures v.Range? ==> r == v.from
    ensures !v.Range? ==> r == Undefined
  {
    if v.Range? then v.from else Undefined
  }

  /** The attribute editor's list: `value ?? []`, which must be an array for `.some` to be callable. */
  function AttributeSelection(v: JsValue): (r: Result<seq<Attribute>>)
    ensures r.TypeError? <==> !(v.AttrList? || v.Null? || v.Undefined?)
    ensures v.AttrList? ==> r == Ok(v.items)
    ensures v.Null? || v.Undefined? ==> r == Ok([])
  {
    match v
    case AttrList(xs) => Ok(xs)
    case Null => Ok([])
    case Undefined => Ok([])
    case _ => TypeError
  }

  /** The value a field starts with when it is picked: an empty list for attributes, `null` otherwise. */
  function FreshValue(f: Field): (v: JsValue)
    ensures v.AttrList? <==> f == AttributeField
    ensures v.AttrList? ==> v.items == []
    ensures !v.AttrList? ==> v == Null
  {
    if Config(f).kind == AttributeValue then AttrList([]) else Null
  }

  /** The patch a row sends to `onChange` for an edit. */
  function PatchFor(c: SearchCondition, e: Edit): (r: Result<Patch>)
    ensures r.TypeError? <==> e.ToggleAttribute? && AttributeSelection(c.value).TypeError?
    ensures r.Ok? ==> (r.value.field.Some? <==> e.PickField?)
    ensures r.Ok? ==> (r.value.operator.Some? <==> e.PickField? || e.PickOperator?)
    ensures r.Ok? && e.PickField? ==> r.value.operator == Some(Config(e.f).operators[0])
  {
    match e
    case PickField(f) =>
      Ok(Patch(Some(f), Some(Config(f).operators[0]), Some(FreshValue(f)), None, None))
    case PickOperator(op) =>
      var v := if Config(c.field).kind == AttributeValue then AttrList([])
               else if op == Between then Range(Str(""), Str(""))
               else Null;
      Ok(Patch(None, Some(op), Some(v), None, None))
    case ToggleNegate => Ok(NoChange.(negate := Some(!c.negate)))
    case PickLogic(l) => Ok(NoChange.(logic := Some(l)))
    case TypeText(s) => Ok(NoChange.(value := Some(Str(s))))
    case PickFrom(d) => Ok(NoChange.(value := Some(Range(Str(d), SpreadTo(c.value)))))
    case PickTo(d) => Ok(NoChange.(value := Some(Range(SpreadFrom(c.value), Str(d)))))
    case ToggleAttribute(a) =>
      match AttributeSelection(c.value)
      case Ok(xs) => Ok(NoChange.(value := Some(AttrList(Toggle(xs, a)))))
      case TypeError => TypeError
  }

  /** Pressing NOT flips `negate` and changes nothing else. */
  lemma NegateFlipsOnly(c: SearchCondition)
    ensures PatchFor(c, ToggleNegate).Ok?
    ensures Apply(c, PatchFor(c, ToggleNegate).value) == c.(negate := !c.negate)
  {
  }

  /**
   * Picking a field selects that field's first operator, which the field
   * offers, resets the value to an empty list for attributes and `null`
   * otherwise, and keeps the id, `negate` and `logic`.
   */
  lemma PickFieldResets(c: SearchCondition, f: Field)
    ensures PatchFor(c, PickField(f)).Ok?
    ensures var r := Apply(c, PatchFor(c, PickField(f)).value);
      && r.field == f && r.operator in Config(f).operators
      && (f == AttributeField ==> r.value == AttrList([]))
      && (f != AttributeField ==> r.value == Null)
      && r.id == c.id && r.negate == c.negate && r.logic == c.logic
  {
  }

  /**
   * Picking an operator keeps the field, resets the value to an empty list on
   * an attribute row, to an object with empty `from` and `to` for `between`,
   * and to `null` otherwise, and keeps the id, `negate` and `logic`.
   */
  lemma PickOperatorResets(c: SearchCondition, op: Operator)
    ensures PatchFor(c, PickOperator(op)).Ok?
    ensures var r := Apply(c, PatchFor(c, PickOperator(op)).value);
      && r.field == c.field && r.operator == op
      && (c.field == AttributeField ==> r.value == AttrList([]))
      && (c.field != AttributeField && op == Between ==> r.value == Range(Str(""), Str("")))
      && (c.field != AttributeField && op != Between ==> r.value == Null)
      && r.id == c.id && r.negate == c.negate && r.logic == c.logic
  {
  }

  /**
   * The shape every condition the screen builds keeps: the operator is one
   * its field offers, an attribute condition holds a list, a date range holds
   * an object, any other date holds `null`, and a text field holds a string
   * or `null`.
   */
  predicate RowInvariant(c: SearchCondition) {
    && c.operator in Config(c.field).operators
    && (c.field == AttributeField ==> c.value.AttrList?)
    && (c.field == Date && c.operator == Between ==> c.value.Range?)
    && (c.field == Date && c.operator != Between ==> c.value.Null?)
    && (Config(c.field).kind == TextValue ==> c.value.Str? || c.value.Null?)
  }

  /** Every control the row shows produces a patch, and the patched condition keeps the invariant. */
  lemma EditKeepsInvariant(c: SearchCondition, e: Edit, showLogic: bool)
    requires RowInvariant(c) && Offered(c, e, showLogic)
    ensures PatchFor(c, e).Ok?
    ensures RowInvariant(Apply(c, PatchFor(c, e).value))
  {
  }

  /** A condition that keeps the invariant never makes the query builder throw. */
  lemma InvariantRowsNeverThrow(c: SearchCondition)
    requires RowInvariant(c)
    ensures !Throws(c) && ClauseOf(c).Ok?
  {
  }

  /**
   * Picking the name field resets the value to `null` and the operator to
   * `contains`, so searching before typing anything looks for names
   * containing the text `null`.
   */
  lemma PickingNameSearchesForNull(c: SearchCondition)
    ensures PatchFor(c, PickField(Name)).Ok?
    ensures ClauseOf(Apply(c, PatchFor(c, PickField(Name)).value)) == Ok(Clause([NameLike], [Str("%null%")]))
  {
    assert Interpolate(Null) == "null";
    assert "%" + "null" + "%" == "%null%";
  }

  /** A single-date condition only ever holds `null` (no picker is shown for it), so `equals` binds `null`. */
  lemma SingleDateBindsNull(c: SearchCondition)
    requires RowInvariant(c) && c.field == Date && c.operator == Equals
    ensures ClauseOf(c) == Ok(Clause([DateEquals], [Null]))
  {
  }

  // ---------------------------------------------------------------------
  // The search screen's list of conditions.
  // ---------------------------------------------------------------------

  /** `addCondition`'s new row: a name `contains` search for the empty string. */
  function NewCondition(id: string): (c: SearchCondition)
    ensures RowInvariant(c) && c.id == id && !c.negate && c.logic.None?
    ensures ClauseOf(c) == Ok(Clause([NameLike], [Str("%%")]))
  {
    assert "%" + "" + "%" == "%%";
    SearchCondition(id, Name, Contains, Str(""), false, None)
  }

  /** `addCondition`: the new row goes at the end. */
  function AddCondition(conds: seq<SearchCondition>, id: string): (r: seq<SearchCondition>)
    ensures |r| == |conds| + 1 && r[..|conds|] == conds && r[|conds|] == NewCondition(id)
  {
    conds + [NewCondition(id)]
  }

  /** `updateCondition(id, patch)`: every condition with that id is patched; the others are left as they are. */
  function UpdateCondition(conds: seq<SearchCondition>, id: string, p: Patch): (r: seq<SearchCondition>)
    ensures |r| == |conds|
    ensures forall i :: 0 <= i < |r| ==> r[i].id == conds[i].id
    ensures forall i :: 0 <= i < |r| && conds[i].id != id ==> r[i] == conds[i]
  {
    seq(|conds|, i requires 0 <= i < |conds| => if conds[i].id == id then Apply(conds[i], p) else conds[i])
  }

  /** `removeCondition(id)`: the conditions without that id, in their order. */
  function RemoveCondition(conds: seq<SearchCondition>, id: string): (r: seq<SearchCondition>)
    ensures forall c :: c in r <==> c in conds && c.id != id
    ensures IsSubsequence(r, conds)
  {
    Filter(conds, (c: SearchCondition) => c.id != id)
  }

  predicate DistinctIds(conds: seq<SearchCondition>) {
    forall i, j :: 0 <= i < j < |conds| ==> conds[i].id != conds[j].id
  }

  /** The screen's invariant: ids are distinct and every row keeps the row invariant. */
  predicate ScreenInvariant(conds: seq<SearchCondition>) {
    DistinctIds(conds) && forall i :: 0 <= i < |conds| ==> RowInvariant(conds[i])
  }

  lemma AddKeepsInvariant(conds: seq<SearchCondition>, id: string)
    requires ScreenInvariant(conds)
    requires forall c :: c in conds ==> c.id != id
    ensures ScreenInvariant(AddCondition(conds, id))
  {
    var r := AddCondition(conds, id);
    forall i, j | 0 <= i < j < |r|
      ensures r[i].id != r[j].id
    {
      if j == |conds| {
        assert conds[i] in conds;
      }
    }
  }

  /** An edit made on row `k` through the control the row shows keeps the screen's invariant. */
  lemma UpdateKeepsInvariant(conds: seq<SearchCondition>, k: nat, e: Edit, showLogic: bool)
    requires ScreenInvariant(conds) && k < |conds|
    requires Offered(conds[k], e, showLogic)
    ensures PatchFor(conds[k], e).Ok?
    ensures ScreenInvariant(UpdateCondition(conds, conds[k].id, PatchFor(conds[k], e).value))
  {
    EditKeepsInvariant(conds[k], e, showLogic);
    var r := UpdateCondition(conds, conds[k].id, PatchFor(conds[k], e).value);
    forall i | 0 <= i < |r|
      ensures RowInvariant(r[i])
    {
      if i != k {
        assert conds[i].id != conds[k].id;
      }
    }
  }

  lemma RemoveKeepsInvariant(conds: seq<SearchCondition>, id: string)
    requires ScreenInvariant(conds)
    ensures ScreenInvariant(RemoveCondition(conds, id))
  {
    var r := RemoveCondition(conds, id);
    SubsequenceKeepsDistinct(r, conds);
  }

  lemma {:induction false} SubsequenceKeepsDistinct(a: seq<SearchCondition>, b: seq<SearchCondition>)
    requires IsSubsequence(a, b) && ScreenInvariant(b)
    ensures ScreenInvariant(a)
    decreases |b|
  {
    if |a| > 0 {
      assert ScreenInvariant(b[1..]) by {
        assert forall i :: 0 <= i < |b| - 1 ==> b[1..][i] == b[i + 1];
      }
      if a[0] == b[0] {
        SubsequenceKeepsDistinct(a[1..], b[1..]);
        SubsequenceMembers(a[1..], b[1..]);
        forall j | 0 < j < |a|
          ensures a[0].id != a[j].id
        {
          assert a[1..][j - 1] in b[1..];
        }
        assert forall i :: 0 < i < |a| ==> a[i] == a[1..][i - 1];
      } else {
        SubsequenceKeepsDistinct(a, b[1..]);
      }
    }
  }

  lemma {:induction false} SubsequenceMembers<T>(a: seq<T>, b: seq<T>)
    requires IsSubsequence(a, b)
    ensures forall x :: x in a ==> x in b
    decreases |b|
  {
    if |a| > 0 {
      if a[0] == b[0] {
        SubsequenceMembers(a[1..], b[1..]);
        assert forall x :: x in a ==> x == a[0] || x in a[1..];
      } else {
        SubsequenceMembers(a, b[1..]);
      }
    }
  }

  /** Whatever the screen built, running the search compiles without throwing. */
  lemma ScreenSearchCompiles(conds: seq<SearchCondition>)
    requires ScreenInvariant(conds)
    ensures BuildSql(conds).Ok?
  {
    BuildSqlThrowsIff(conds);
  }

  /**
   * Ids matter: if two rows shared an id, an edit on one would patch both, and
   * an operator change on a date row turns an attribute row into one that
   * makes the query builder throw.
   */
  lemma SharedIdBreaksSearch()
    ensures
      var a := SearchCondition("x", AttributeField, In, AttrList([]), false, None);
      var d := SearchCondition("x", Date, Between, Range(Str(""), Str("")), false, None);
      && ScreenInvariant([d]) && ScreenInvariant([a])
      && Offered(d, PickOperator(Equals), false)
      && BuildSql(UpdateCondition([d, a], "x", PatchFor(d, PickOperator(Equals)).value)).TypeError?
  {
    var a := SearchCondition("x", AttributeField, In, AttrList([]), false, None);
    var d := SearchCondition("x", Date, Between, Range(Str(""), Str("")), false, None);
    var r := UpdateCondition([d, a], "x", PatchFor(d, PickOperator(Equals)).value);
    assert Throws(r[1]);
    BuildSqlThrowsIff(r);
  }
}
