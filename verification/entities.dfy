/**
 * The entities of the spreadsheet: bases owned by users, tables in bases,
 * typed fields (columns) and records (rows) in tables, sparse cells holding
 * one value for a (field, record) pair, and views holding a table's saved
 * sort list, filter list and hidden-field list. Also the filter operators,
 * shared by the server's input schema and the client's menus.
 */
module Entities {
  import opened Common

  type UserId = string

  datatype FieldType = Text | Number

  /** A cell value: a JavaScript number (modelled as an integer) or a string. */
  datatype Value = Num(n: int) | Str(s: string)

  datatype Base = Base(name: string, userId: UserId, modifiedAt: int)
  datatype Table = Table(name: string, baseId: nat)
  datatype Field = Field(name: string, tableId: nat, fieldType: FieldType)
  datatype Record = Record(tableId: nat)
  datatype Cell = Cell(fieldId: nat, recordId: nat, value: Value)

  /** One sort key: `id` is a field id rendered as a string; `desc` is the direction. */
  datatype SortEntry = SortEntry(id: string, desc: bool)

  datatype FilterOp =
    | LessThan | GreaterThan                                      // NumberFilters
    | Is | Contains | DoesNotContain | IsEmpty | IsNotEmpty       // TextFilters

  /** One filter: `id` is a field id rendered as a string; the comparison value is optional. */
  datatype Filter = Filter(id: string, op: FilterOp, value: Option<string>)

  /** A view's saved criteria. `createView` does not set `hiddenFields`, hence the option. */
  datatype View = View(name: string, tableId: nat, sort: seq<SortEntry>, filters: seq<Filter>,
                       hiddenFields: Option<seq<int>>)

  /** The string each operator stands for in the enums and in stored filters. */
  function OpName(op: FilterOp): (s: string)
    ensures ParseOp(s) == Some(op)
  {
    match op
    case LessThan => "<"
    case GreaterThan => ">"
    case Is => "is"
    case Contains => "contains"
    case DoesNotContain => "does not contain"
    case IsEmpty => "is empty"
    case IsNotEmpty => "is not empty"
  }

  /** Validation of an operator string against the union of the two enums. */
  function ParseOp(s: string): (r: Option<FilterOp>)
  {
    if s == "<" then Some(LessThan)
    else if s == ">" then Some(GreaterThan)
    else if s == "is" then Some(Is)
    else if s == "contains" then Some(Contains)
    else if s == "does not contain" then Some(DoesNotContain)
    else if s == "is empty" then Some(IsEmpty)
    else if s == "is not empty" then Some(IsNotEmpty)
    else None
  }

  /** A string is accepted exactly when it is the name of an operator, and it parses back to that operator. */
  lemma ParseOpExact(s: string)
    ensures ParseOp(s).Some? <==> exists op :: OpName(op) == s
    ensures ParseOp(s).Some? ==> OpName(ParseOp(s).value) == s
  {
    if ParseOp(s).Some? {
      assert OpName(ParseOp(s).value) == s;
    }
  }

  predicate IsNumberOp(op: FilterOp) {
    op == LessThan || op == GreaterThan
  }

  /** The client's operator menus: `numberFilters` and `textFilters`. */
  const NumberFilterNames: seq<string> := ["<", ">"]
  const TextFilterNames: seq<string> := ["is", "contains", "does not contain", "is empty", "is not empty"]

  /** The menus list exactly the enum members, number operators in one and text operators in the other. */
  lemma FilterNamesMatchEnums(s: string)
    ensures s in NumberFilterNames <==> ParseOp(s).Some? && IsNumberOp(ParseOp(s).value)
    ensures s in TextFilterNames <==> ParseOp(s).Some? && !IsNumberOp(ParseOp(s).value)
    ensures NumberFilterNames == [OpName(LessThan), OpName(GreaterThan)]
    ensures TextFilterNames == [OpName(Is), OpName(Contains), OpName(DoesNotContain), OpName(IsEmpty), OpName(IsNotEmpty)]
  {
  }

  /** The field types the input schema accepts: `z.enum(["Text", "Number"])`. */
  function ParseFieldType(s: string): (r: Option<FieldType>)
    ensures r == Some(Text) <==> s == "Text"
    ensures r == Some(Number) <==> s == "Number"
    ensures r.None? <==> s != "Text" && s != "Number"
  {
    if s == "Text" then Some(Text) else if s == "Number" then Some(Number) else None
  }
}
