/**
 * One row of the filter menu (src/app/_components/base/filter-option.tsx):
 * the filter at position `fieldIdx` of the filter list, whose field,
 * operator and value the user can change, and which the user can remove.
 * Each handler copies the list, changes the copy and hands it to the setter.
 */
module FilterOption {
  import opened Common
  import opened Rows
  import opened Entities
  import opened Js
  import opened ViewSession

  /** The operator a filter starts with when its field is chosen. */
  function DefaultOp(t: FieldType): FilterOp {
    match t
    case Number => LessThan
    case Text => Contains
  }

  /** The operator menu for the row's field: the text operators for a Text field, the number operators for a Number field. */
  function OperatorChoices(t: FieldType): seq<string> {
    match t
    case Text => TextFilterNames
    case Number => NumberFilterNames
  }

  /**
   * Every operator offered is one the view's filter schema accepts and one
   * of the field's kind, and a newly chosen field's default operator is
   * among those offered for it.
   */
  lemma OperatorChoicesFit(t: FieldType, name: string)
    ensures name in OperatorChoices(t) <==> ParseOp(name).Some? && (IsNumberOp(ParseOp(name).value) <==> t == Number)
    ensures OpName(DefaultOp(t)) in OperatorChoices(t)
  {
    FilterNamesMatchEnums(name);
    FilterNamesMatchEnums(OpName(DefaultOp(t)));
  }

  /** The filter a newly chosen field starts with: its id, its kind's default operator and no value. */
  function FreshFilter(f: Row<Field>): Filter {
    Filter(IdString(f.id), DefaultOp(f.data.fieldType), None)
  }

  /** The field menu's intent: `None` when the handler returns early (no field, or no filter at the index). */
  function FieldChanged(filters: seq<Filter>, idx: int, value: Option<Row<Field>>): Option<seq<Filter>> {
    if value.None? || !(0 <= idx < |filters|) then None
    else Some(filters[idx := FreshFilter(value.value)])
  }

  /** The field menu's handler. */
  method ChangeField(s: Session, idx: int, value: Option<Row<Field>>)
    modifies s
    ensures match FieldChanged(old(s.filters), idx, value)
      case None => s.filters == old(s.filters) && s.sent == old(s.sent)
      case Some(v) => s.filters == v && s.sent == old(s.sent) + if s.loaded then [FiltersSaved(s.viewId, v)] else []
    ensures s.sorting == old(s.sorting) && s.hiddenFields == old(s.hiddenFields) && s.loaded == old(s.loaded)
  {
    if value.None? || !(0 <= idx < |s.filters|) {
      return;
    }
    var filter := FreshFilter(value.value);
    var newFilters := s.filters;
    newFilters := newFilters[idx := filter];
    s.SetFilters(newFilters);
  }

  /** Choosing a field replaces only the filter at the index, with the field's fresh filter; the length stays. */
  lemma FieldChangedExact(filters: seq<Filter>, idx: int, value: Option<Row<Field>>)
    ensures FieldChanged(filters, idx, value).Some? <==> value.Some? && 0 <= idx < |filters|
    ensures match FieldChanged(filters, idx, value)
      case None => true
      case Some(v) =>
        && |v| == |filters|
        && v[idx] == Filter(IdString(value.value.id), if value.value.data.fieldType == Number then LessThan else Contains, None)
        && forall k :: 0 <= k < |v| && k != idx ==> v[k] == filters[k]
  {
  }

  /** Operator and value handlers: the filter at the index gets a new part; `None` where the index holds no filter. */
  function OpChanged(filters: seq<Filter>, idx: int, op: FilterOp): Option<seq<Filter>> {
    if 0 <= idx < |filters| then Some(filters[idx := filters[idx].(op := op)]) else None
  }

  function ValueSet(filters: seq<Filter>, idx: int, text: string): Option<seq<Filter>> {
    if 0 <= idx < |filters| then Some(filters[idx := filters[idx].(value := Some(text))]) else None
  }

  /** The operator menu's handler. The filter object is changed in place, shared by the copy and the old list. */
  method ChangeOperator(s: Session, idx: int, op: FilterOp) returns (r: Result<()>)
    modifies s
    ensures match OpChanged(old(s.filters), idx, op)
      case None => r == Err(TypeError) && s.filters == old(s.filters) && s.sent == old(s.sent)
      case Some(v) => r == Ok(()) && s.filters == v && s.sent == old(s.sent) + if s.loaded then [FiltersSaved(s.viewId, v)] else []
    ensures s.sorting == old(s.sorting) && s.hiddenFields == old(s.hiddenFields) && s.loaded == old(s.loaded)
  {
    var newFilters := s.filters;
    if !(0 <= idx < |newFilters|) {
      return Err(TypeError);
    }
    newFilters := newFilters[idx := newFilters[idx].(op := op)];
    s.SetFilters(newFilters);
    r := Ok(());
  }

  /** The value box's blur handler. The filter object is changed in place, as for the operator. */
  method Blur(s: Session, idx: int, text: string) returns (r: Result<()>)
    modifies s
    ensures match ValueSet(old(s.filters), idx, text)
      case None => r == Err(TypeError) && s.filters == old(s.filters) && s.sent == old(s.sent)
      case Some(v) => r == Ok(()) && s.filters == v && s.sent == old(s.sent) + if s.loaded then [FiltersSaved(s.viewId, v)] else []
    ensures s.sorting == old(s.sorting) && s.hiddenFields == old(s.hiddenFields) && s.loaded == old(s.loaded)
  {
    var newFilters := s.filters;
    if !(0 <= idx < |newFilters|) {
      return Err(TypeError);
    }
    newFilters := newFilters[idx := newFilters[idx].(value := Some(text))];
    s.SetFilters(newFilters);
    r := Ok(());
  }

  /** Changing the operator or the value changes that part of the filter at the index and nothing else. */
  lemma EditsChangeOnePart(filters: seq<Filter>, idx: int, op: FilterOp, text: string)
    requires 0 <= idx < |filters|
    ensures var v := OpChanged(filters, idx, op).value;
      && |v| == |filters|
      && v[idx].id == filters[idx].id && v[idx].value == filters[idx].value && v[idx].op == op
      && forall k :: 0 <= k < |v| && k != idx ==> v[k] == filters[k]
    ensures var w := ValueSet(filters, idx, text).value;
      && |w| == |filters|
      && w[idx].id == filters[idx].id && w[idx].op == filters[idx].op && w[idx].value == Some(text)
      && forall k :: 0 <= k < |w| && k != idx ==> w[k] == filters[k]
  {
  }

  /** The remove button's handler: copy the list and splice at the index. */
  method RemoveAt(s: Session, idx: nat)
    modifies s
    ensures s.filters == SpliceOne(old(s.filters), idx)
    ensures s.sorting == old(s.sorting) && s.hiddenFields == old(s.hiddenFields) && s.loaded == old(s.loaded)
    ensures s.sent == old(s.sent) + if s.loaded then [FiltersSaved(s.viewId, s.filters)] else []
  {
    var newFilters := s.filters;
    newFilters := SpliceOne(newFilters, idx);
    s.SetFilters(newFilters);
  }

  /** Removing the filter at an index of the list drops exactly it; the others keep their order. */
  lemma RemoveAtExact(filters: seq<Filter>, idx: nat)
    requires idx < |filters|
    ensures SpliceOne(filters, idx) == filters[..idx] + filters[idx + 1..]
    ensures |SpliceOne(filters, idx)| == |filters| - 1
  {
    SpliceInside(filters, idx);
  }
}
