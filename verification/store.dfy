/**
 * The database behind the routers, held in memory: one row sequence per
 * Prisma model, each in ascending id order, and one counter that hands out
 * fresh ids. `DbState` is a snapshot of it as a value; the routers' effects
 * are specified as functions on snapshots, and `Db` is the mutable store the
 * router methods change step by step.
 *
 * Ownership runs User -> Base -> Table -> Field / Record / View: a table is
 * the caller's when its base's `userId` is the caller's id.
 */
module Store {
  import opened Common
  import opened Rows
  import opened Entities

  datatype DbState = DbState(
    bases: seq<Row<Base>>,
    tables: seq<Row<Table>>,
    fields: seq<Row<Field>>,
    records: seq<Row<Record>>,
    views: seq<Row<View>>,
    cellText: seq<Row<Cell>>,
    cellNumber: seq<Row<Cell>>,
    nextId: nat)

  /** The two cell tables. */
  datatype CellKind = TextCells | NumberCells

  function CellsOf(st: DbState, kind: CellKind): seq<Row<Cell>> {
    match kind
    case TextCells => st.cellText
    case NumberCells => st.cellNumber
  }

  function WithCells(st: DbState, kind: CellKind, cs: seq<Row<Cell>>): (st': DbState)
    ensures CellsOf(st', kind) == cs
  {
    match kind
    case TextCells => st.(cellText := cs)
    case NumberCells => st.(cellNumber := cs)
  }

  /** The (fieldId, recordId) pair a cell is stored under. */
  function CellPair(c: Row<Cell>): (nat, nat) {
    (c.data.fieldId, c.data.recordId)
  }

  /** At most one cell per (fieldId, recordId) pair. */
  predicate PairsDistinct(cs: seq<Row<Cell>>) {
    DistinctBy(cs, CellPair)
  }

  /** Every cell's field and record ids are ids already handed out. */
  predicate CellsBelow(cs: seq<Row<Cell>>, next: nat) {
    forall c :: c in cs ==> c.data.fieldId < next && c.data.recordId < next
  }

  /** A cell table's ids ascend below `next`, its pairs are distinct and its field and record ids are below `next`. */
  predicate CellTableOk(cs: seq<Row<Cell>>, next: nat) {
    KeyedBelow(cs, next) && PairsDistinct(cs) && CellsBelow(cs, next)
  }

  /** Every table's base id is an id already handed out. */
  predicate BasesBelow(ts: seq<Row<Table>>, next: nat) {
    forall i :: 0 <= i < |ts| ==> ts[i].data.baseId < next
  }

  /** Every field's table id is an id already handed out. */
  predicate FieldTablesBelow(fs: seq<Row<Field>>, next: nat) {
    forall i :: 0 <= i < |fs| ==> fs[i].data.tableId < next
  }

  predicate RecordTablesBelow(rs: seq<Row<Record>>, next: nat) {
    forall i :: 0 <= i < |rs| ==> rs[i].data.tableId < next
  }

  predicate ViewTablesBelow(vs: seq<Row<View>>, next: nat) {
    forall i :: 0 <= i < |vs| ==> vs[i].data.tableId < next
  }

  /**
   * Every reference a table, field, record or view holds is to an id already
   * handed out, so a fresh id is never the target of an existing reference.
   */
  predicate RefsOk(st: DbState) {
    && BasesBelow(st.tables, st.nextId)
    && FieldTablesBelow(st.fields, st.nextId)
    && RecordTablesBelow(st.records, st.nextId)
    && ViewTablesBelow(st.views, st.nextId)
  }

  /**
   * What every router operation preserves. The conjunction is compared with
   * `true` so that the verifier proves it as one goal instead of splitting it
   * into a goal per conjunct at every use.
   */
  predicate Consistent(st: DbState) {
    (&& KeyedBelow(st.bases, st.nextId)
     && KeyedBelow(st.tables, st.nextId)
     && KeyedBelow(st.fields, st.nextId)
     && KeyedBelow(st.records, st.nextId)
     && KeyedBelow(st.views, st.nextId)
     && CellTableOk(st.cellText, st.nextId)
     && CellTableOk(st.cellNumber, st.nextId)
     && RefsOk(st)) == true
  }

  predicate BaseExists(st: DbState, baseId: nat) {
    exists b :: b in st.bases && b.id == baseId
  }

  predicate TableExists(st: DbState, tableId: nat) {
    exists t :: t in st.tables && t.id == tableId
  }

  predicate OwnsBase(st: DbState, user: UserId, baseId: nat) {
    exists b :: b in st.bases && b.id == baseId && b.data.userId == user
  }

  /** `Table: { Base: { userId } }`: the table exists and its base is the caller's. */
  predicate OwnsTable(st: DbState, user: UserId, tableId: nat) {
    exists t :: t in st.tables && t.id == tableId && OwnsBase(st, user, t.data.baseId)
  }

  predicate OwnsField(st: DbState, user: UserId, fieldId: nat) {
    exists f :: f in st.fields && f.id == fieldId && OwnsTable(st, user, f.data.tableId)
  }

  predicate OwnsRecord(st: DbState, user: UserId, recordId: nat) {
    exists r :: r in st.records && r.id == recordId && OwnsTable(st, user, r.data.tableId)
  }

  predicate OwnsView(st: DbState, user: UserId, viewId: nat) {
    exists v :: v in st.views && v.id == viewId && OwnsTable(st, user, v.data.tableId)
  }

  function FieldInTable(tableId: nat): Row<Field> -> bool {
    (f: Row<Field>) => f.data.tableId == tableId
  }

  function RecordInTable(tableId: nat): Row<Record> -> bool {
    (r: Row<Record>) => r.data.tableId == tableId
  }

  function ViewInTable(tableId: nat): Row<View> -> bool {
    (v: Row<View>) => v.data.tableId == tableId
  }

  function CellOfRecord(recordId: nat): Row<Cell> -> bool {
    (c: Row<Cell>) => c.data.recordId == recordId
  }

  /** The `getFields` helper of the table router: the table's fields in ascending id order, for any caller. */
  function FieldsOf(st: DbState, tableId: nat): seq<Row<Field>> {
    Where(st.fields, FieldInTable(tableId))
  }

  /** The helper returns exactly the fields of the table. */
  lemma FieldsOfExact(st: DbState, tableId: nat, f: Row<Field>)
    ensures f in FieldsOf(st, tableId) <==> f in st.fields && f.data.tableId == tableId
  {
    WhereMembers(st.fields, FieldInTable(tableId), f);
  }

  /** The helper returns them in ascending id order. */
  lemma FieldsOfOrdered(st: DbState, tableId: nat)
    requires Consistent(st)
    ensures KeyedBelow(FieldsOf(st, tableId), st.nextId)
  {
    WhereKeyed(st.fields, FieldInTable(tableId), st.nextId);
  }

  /** A table that exists has an id already handed out. */
  lemma TableBelow(st: DbState, tableId: nat)
    requires Consistent(st) && TableExists(st, tableId)
    ensures tableId < st.nextId
  {
    var t :| t in st.tables && t.id == tableId;
    var i :| 0 <= i < |st.tables| && st.tables[i] == t;
  }

  lemma OwnedTableBelow(st: DbState, user: UserId, tableId: nat)
    requires Consistent(st) && OwnsTable(st, user, tableId)
    ensures tableId < st.nextId
  {
    TableBelow(st, tableId);
  }

  lemma BaseBelow(st: DbState, baseId: nat)
    requires Consistent(st) && BaseExists(st, baseId)
    ensures baseId < st.nextId
  {
    var b :| b in st.bases && b.id == baseId;
    var i :| 0 <= i < |st.bases| && st.bases[i] == b;
  }

  /** Handing out ids without writing rows keeps the store consistent. */
  lemma NextIdGrows(st: DbState, next: nat)
    requires Consistent(st) && st.nextId <= next
    ensures Consistent(st.(nextId := next))
  {
    KeyedMonotone(st.bases, st.nextId, next);
    KeyedMonotone(st.tables, st.nextId, next);
    KeyedMonotone(st.fields, st.nextId, next);
    KeyedMonotone(st.records, st.nextId, next);
    KeyedMonotone(st.views, st.nextId, next);
    CellTableMonotone(st.cellText, st.nextId, next);
    CellTableMonotone(st.cellNumber, st.nextId, next);
    assert RefsOk(st.(nextId := next));
  }

  lemma CellTableMonotone(cs: seq<Row<Cell>>, a: nat, b: nat)
    requires CellTableOk(cs, a) && a <= b
    ensures CellTableOk(cs, b)
  {
  }

  lemma KeyedMonotone<T>(s: seq<Row<T>>, a: nat, b: nat)
    requires KeyedBelow(s, a) && a <= b
    ensures KeyedBelow(s, b)
  {
  }

  /** Deleting cells keeps a cell table well formed. */
  lemma CellTableWhere(cs: seq<Row<Cell>>, p: Row<Cell> -> bool, next: nat)
    requires CellTableOk(cs, next)
    ensures CellTableOk(Where(cs, p), next)
  {
    WhereKeyed(cs, p, next);
    WhereDistinct(cs, p, CellPair);
    forall c | c in Where(cs, p) ensures c.data.fieldId < next && c.data.recordId < next {
      WhereMembers(cs, p, c);
    }
  }

  /** One row appended with the next id, and the counter moved past it. */
  lemma AppendOneKeyed<T>(s: seq<Row<T>>, x: T, next: nat)
    requires KeyedBelow(s, next)
    ensures KeyedBelow(s + [Row(next, x)], next + 1)
  {
    AppendKeyed(s, [x], next);
    assert Numbered([x], next) == [Row(next, x)];
  }

  /** The mutable database. */
  class Db {
    var bases: seq<Row<Base>>
    var tables: seq<Row<Table>>
    var fields: seq<Row<Field>>
    var records: seq<Row<Record>>
    var views: seq<Row<View>>
    var cellText: seq<Row<Cell>>
    var cellNumber: seq<Row<Cell>>
    var nextId: nat

    function State(): DbState
      reads this
    {
      DbState(bases, tables, fields, records, views, cellText, cellNumber, nextId)
    }

    predicate Valid()
      reads this
    {
      Consistent(State())
    }

    constructor ()
      ensures Valid()
      ensures State() == DbState([], [], [], [], [], [], [], 0)
    {
      bases, tables, fields, records, views := [], [], [], [], [];
      cellText, cellNumber, nextId := [], [], 0;
    }

    /** Replaces one cell table. */
    method SetCells(kind: CellKind, cs: seq<Row<Cell>>)
      modifies this
      ensures State() == WithCells(old(State()), kind, cs)
    {
      match kind
      case TextCells => cellText := cs;
      case NumberCells => cellNumber := cs;
    }
  }
}
