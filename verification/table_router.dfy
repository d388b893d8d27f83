/**
 * Tables (src/server/api/routers/table.ts): the field and view listings,
 * creating a table with its default view, columns and rows, the cascading
 * delete, and the record page with its reshaping into one map per record.
 */
module TableRouter {
  import opened Common
  import opened Rows
  import opened Entities
  import opened Store
  import opened RecordRouter
  import ViewRouter

  /** `getAllViews`: the table's views in creation order. No ownership check. */
  function GetAllViews(st: DbState, tableId: nat): (r: seq<Row<View>>)
    ensures forall i :: 0 <= i < |r| ==> r[i] in st.views && r[i].data.tableId == tableId
  {
    WhereKept(st.views, ViewInTable(tableId));
    Where(st.views, ViewInTable(tableId))
  }

  /** `getAllViews` lists exactly the table's views, in ascending id order. */
  lemma GetAllViewsExact(st: DbState, tableId: nat, v: Row<View>)
    requires Consistent(st)
    ensures v in GetAllViews(st, tableId) <==> v in st.views && v.data.tableId == tableId
    ensures KeyedBelow(GetAllViews(st, tableId), st.nextId)
  {
    WhereMembers(st.views, ViewInTable(tableId), v);
    WhereKeyed(st.views, ViewInTable(tableId), st.nextId);
  }

  /** The router's `getFields`: the table's fields whose table's base is the caller's, in id order. */
  function GetFields(st: DbState, user: UserId, tableId: nat): (r: seq<Row<Field>>)
    ensures forall i :: 0 <= i < |r| ==> r[i] in st.fields && r[i].data.tableId == tableId
    ensures !OwnsTable(st, user, tableId) ==> r == []
  {
    WhereKept(st.fields, (f: Row<Field>) => f.data.tableId == tableId && OwnsTable(st, user, f.data.tableId));
    if OwnsTable(st, user, tableId) then
      Where(st.fields, (f: Row<Field>) => f.data.tableId == tableId && OwnsTable(st, user, f.data.tableId))
    else
      WhereNone(st.fields, (f: Row<Field>) => f.data.tableId == tableId && OwnsTable(st, user, f.data.tableId));
      Where(st.fields, (f: Row<Field>) => f.data.tableId == tableId && OwnsTable(st, user, f.data.tableId))
  }

  /** The router's `getFields` is the helper's list for an owned table and empty for any other. */
  lemma GetFieldsOwned(st: DbState, user: UserId, tableId: nat)
    ensures GetFields(st, user, tableId) == if OwnsTable(st, user, tableId) then FieldsOf(st, tableId) else []
  {
    var p := (f: Row<Field>) => f.data.tableId == tableId && OwnsTable(st, user, f.data.tableId);
    if OwnsTable(st, user, tableId) {
      WhereWhere(st.fields, FieldInTable(tableId), p);
      WhereAll(FieldsOf(st, tableId), p) by {
        forall i | 0 <= i < |FieldsOf(st, tableId)| ensures p(FieldsOf(st, tableId)[i]) {
          FieldsOfExact(st, tableId, FieldsOf(st, tableId)[i]);
        }
      }
    } else {
      WhereNone(st.fields, p);
    }
  }

  /** The columns every new table starts with. */
  function DefaultFields(tableId: nat): seq<Field> {
    [Field("Name", tableId, Text), Field("Color", tableId, Text), Field("Number", tableId, Number)]
  }

  /** The generators `createTable` passes: a full name for "Name" and a colour for "Color", and none without data. */
  function TableGenerators(generateData: bool, faker: Faker): Generators {
    if generateData then
      var name: (nat, nat) -> Value := (r: nat, f: nat) => Str(faker.fullName(r, f));
      var color: (nat, nat) -> Value := (r: nat, f: nat) => Str(faker.color(r, f));
      map["Name" := name, "Color" := color]
    else map[]
  }

  /** The store once the table, its "Grid View" and its three columns are written, before any record. */
  function Scaffolded(st: DbState, baseId: nat, name: string): DbState {
    var t := st.nextId;
    st.(tables := st.tables + [Row(t, Table(name, baseId))],
        views := st.views + [Row(t + 1, View("Grid View", t, [], [], None))],
        fields := st.fields + Numbered(DefaultFields(t), t + 2),
        nextId := t + 5)
  }

  /**
   * `createTable`: the table, then its view, then its columns, then
   * `numRecords` records. The base is not checked for ownership; its id is a
   * foreign key, so the first insert fails when no base has it. The steps
   * are separate writes, so a count `Array` refuses fails only after the
   * table, view and columns exist.
   */
  method CreateTable(db: Db, baseId: nat, name: string, generateData: bool, numRecords: int, faker: Faker)
    returns (r: Result<Row<Table>>)
    requires db.Valid()
    modifies db
    ensures db.Valid()
    ensures var st := old(db.State());
      if !BaseExists(st, baseId) then r == Err(ForeignKey) && db.State() == st
      else if !ArrayLengthOk(numRecords) then r == Err(RangeError) && db.State() == Scaffolded(st, baseId, name)
      else (r == Ok(Row(st.nextId, Table(name, baseId))) &&
            db.State() == AfterCreateRecords(Scaffolded(st, baseId, name), st.nextId, numRecords, generateData,
                                             TableGenerators(generateData, faker), faker))
  {
    if !BaseExists(db.State(), baseId) {
      return Err(ForeignKey);
    }
    var table := Scaffold(db, baseId, name);
    assert table in db.tables by {
      assert db.tables[|db.tables| - 1] == table;
    }
    var created := CreateRecords(db, table.id, numRecords, generateData, TableGenerators(generateData, faker), faker);
    if created.Err? {
      return Err(created.error);
    }
    r := Ok(table);
  }

  /** The table row, its "Grid View" and its three columns. */
  method Scaffold(db: Db, baseId: nat, name: string) returns (table: Row<Table>)
    requires db.Valid() && BaseExists(db.State(), baseId)
    modifies db
    ensures db.Valid()
    ensures table == Row(old(db.nextId), Table(name, baseId)) && db.State() == Scaffolded(old(db.State()), baseId, name)
  {
    ghost var st := db.State();
    BaseBelow(st, baseId);
    table := AppendTable(db, Table(name, baseId));
    TableAppended(st, table.data);
    assert TableExists(db.State(), table.id) by {
      assert db.tables[|st.tables|] == table;
    }
    GridViewAndColumns(db, table.id);
  }

  /** The "Grid View" and the three columns of a table just created. */
  method GridViewAndColumns(db: Db, tableId: nat)
    requires db.Valid() && TableExists(db.State(), tableId)
    modifies db
    ensures db.Valid()
    ensures var st := old(db.State());
      db.State() == st.(views := st.views + [Row(st.nextId, View("Grid View", tableId, [], [], None))],
                        fields := st.fields + Numbered(DefaultFields(tableId), st.nextId + 1),
                        nextId := st.nextId + 4)
  {
    ghost var st := db.State();
    TableBelow(st, tableId);
    var _ := ViewRouter.CreateView(db, "Grid View", tableId);
    ghost var st2 := db.State();
    AppendFields(db, DefaultFields(tableId));
    FieldsAppended(st2, DefaultFields(tableId));
  }

  /** `table.create`. */
  method AppendTable(db: Db, t: Table) returns (table: Row<Table>)
    modifies db
    ensures var st := old(db.State());
      table == Row(st.nextId, t) && db.State() == st.(tables := st.tables + [table], nextId := st.nextId + 1)
  {
    table := Row(db.nextId, t);
    db.tables := db.tables + [table];
    db.nextId := db.nextId + 1;
  }

  /** `field.createManyAndReturn`. */
  method AppendFields(db: Db, fs: seq<Field>)
    modifies db
    ensures var st := old(db.State());
      db.State() == st.(fields := st.fields + Numbered(fs, st.nextId), nextId := st.nextId + |fs|)
  {
    db.fields := db.fields + Numbered(fs, db.nextId);
    db.nextId := db.nextId + |fs|;
  }

  lemma TableAppended(st: DbState, t: Table)
    requires Consistent(st) && t.baseId < st.nextId
    ensures Consistent(st.(tables := st.tables + [Row(st.nextId, t)], nextId := st.nextId + 1))
  {
    AppendOneKeyed(st.tables, t, st.nextId);
    NextIdGrows(st, st.nextId + 1);
    assert RefsOk(st.(tables := st.tables + [Row(st.nextId, t)], nextId := st.nextId + 1));
  }

  lemma FieldsAppended(st: DbState, fs: seq<Field>)
    requires Consistent(st) && forall i :: 0 <= i < |fs| ==> fs[i].tableId < st.nextId
    ensures Consistent(st.(fields := st.fields + Numbered(fs, st.nextId), nextId := st.nextId + |fs|))
  {
    AppendKeyed(st.fields, fs, st.nextId);
    NextIdGrows(st, st.nextId + |fs|);
    var all := st.fields + Numbered(fs, st.nextId);
    forall x | x in all ensures x.data.tableId < st.nextId {
      var i :| 0 <= i < |all| && all[i] == x;
      if i >= |st.fields| {
        assert all[i] == Row(st.nextId + (i - |st.fields|), fs[i - |st.fields|]);
      } else {
        assert st.fields[i] in st.fields;
      }
    }
    assert RefsOk(st.(fields := all, nextId := st.nextId + |fs|));
  }

  /** `table.create`: the name must be non-empty; data is generated and three records are made unless asked otherwise. */
  method Create(db: Db, baseId: nat, name: string, generateData: Option<bool>, numRecords: Option<int>, faker: Faker)
    returns (r: Result<Row<Table>>)
    requires db.Valid()
    modifies db
    ensures db.Valid()
    ensures var st := old(db.State());
      var g, n := generateData.GetOr(true), numRecords.GetOr(3);
      if |name| == 0 then r == Err(InvalidInput("name")) && db.State() == st
      else if !BaseExists(st, baseId) then r == Err(ForeignKey) && db.State() == st
      else if !ArrayLengthOk(n) then r == Err(RangeError) && db.State() == Scaffolded(st, baseId, name)
      else (r == Ok(Row(st.nextId, Table(name, baseId))) &&
            db.State() == AfterCreateRecords(Scaffolded(st, baseId, name), st.nextId, n, g, TableGenerators(g, faker), faker))
  {
    if |name| == 0 {
      return Err(InvalidInput("name"));
    }
    r := CreateTable(db, baseId, name, generateData.GetOr(true), numRecords.GetOr(3), faker);
  }

  /**
   * A new table has exactly one view, "Grid View", with empty lists; the
   * columns Name (Text), Color (Text) and Number (Number), in that order;
   * and `numRecords` records.
   */
  lemma CreateTableShape(st: DbState, baseId: nat, name: string, numRecords: nat, generateData: bool, faker: Faker)
    requires Consistent(st)
    ensures var t := st.nextId;
      var st' := AfterCreateRecords(Scaffolded(st, baseId, name), t, numRecords, generateData, TableGenerators(generateData, faker), faker);
      && Row(t, Table(name, baseId)) in st'.tables
      && GetAllViews(st', t) == [Row(t + 1, View("Grid View", t, [], [], None))]
      && FieldsOf(st', t) == [Row(t + 2, Field("Name", t, Text)), Row(t + 3, Field("Color", t, Text)), Row(t + 4, Field("Number", t, Number))]
      && Where(st'.records, RecordInTable(t)) == NewRecords(t, numRecords, t + 5)
  {
    var t := st.nextId;
    var sc := Scaffolded(st, baseId, name);
    AfterCreateRecordsKeeps(sc, t, numRecords, generateData, TableGenerators(generateData, faker), faker);
    assert sc.tables[|st.tables|] == Row(t, Table(name, baseId));
    ScaffoldViews(st, baseId, name);
    ScaffoldFields(st, baseId, name);
    NewTableRecords(st.records, NewRecords(t, numRecords, t + 5), t);
  }

  lemma ScaffoldViews(st: DbState, baseId: nat, name: string)
    requires Consistent(st)
    ensures GetAllViews(Scaffolded(st, baseId, name), st.nextId) == [Row(st.nextId + 1, View("Grid View", st.nextId, [], [], None))]
  {
    var t := st.nextId;
    WhereAppend(st.views, [Row(t + 1, View("Grid View", t, [], [], None))], ViewInTable(t));
    WhereNone(st.views, ViewInTable(t)) by {
      forall i | 0 <= i < |st.views| ensures !ViewInTable(t)(st.views[i]) {
        assert st.views[i] in st.views;
      }
    }
  }

  lemma ScaffoldFields(st: DbState, baseId: nat, name: string)
    requires Consistent(st)
    ensures var t := st.nextId;
      FieldsOf(Scaffolded(st, baseId, name), t) ==
        [Row(t + 2, Field("Name", t, Text)), Row(t + 3, Field("Color", t, Text)), Row(t + 4, Field("Number", t, Number))]
  {
    var t := st.nextId;
    var added := Numbered(DefaultFields(t), t + 2);
    WhereAppend(st.fields, added, FieldInTable(t));
    WhereNone(st.fields, FieldInTable(t)) by {
      forall i | 0 <= i < |st.fields| ensures !FieldInTable(t)(st.fields[i]) {
        assert st.fields[i] in st.fields;
      }
    }
    WhereAll(added, FieldInTable(t));
  }

  lemma NewTableRecords(prior: seq<Row<Record>>, news: seq<Row<Record>>, t: nat)
    requires forall r :: r in prior ==> r.data.tableId < t
    requires forall i :: 0 <= i < |news| ==> news[i].data.tableId == t
    ensures Where(prior + news, RecordInTable(t)) == news
  {
    WhereAppend(prior, news, RecordInTable(t));
    WhereNone(prior, RecordInTable(t)) by {
      forall i | 0 <= i < |prior| ensures !RecordInTable(t)(prior[i]) {
        assert prior[i] in prior;
      }
    }
    WhereAll(news, RecordInTable(t));
  }

  /** A cell whose record (looked up in `records`) is not in the table. */
  function CellOutside(records: seq<Row<Record>>, tableId: nat): Row<Cell> -> bool {
    (c: Row<Cell>) => !exists r :: r in records && r.id == c.data.recordId && r.data.tableId == tableId
  }

  function FieldOutside(tableId: nat): Row<Field> -> bool {
    (f: Row<Field>) => f.data.tableId != tableId
  }

  function RecordOutside(tableId: nat): Row<Record> -> bool {
    (r: Row<Record>) => r.data.tableId != tableId
  }

  function ViewOutside(tableId: nat): Row<View> -> bool {
    (v: Row<View>) => v.data.tableId != tableId
  }

  /**
   * The store after `deleteTable`: number cells and text cells of the
   * table's records (looked up while the records still exist), then its
   * fields, records and views, then the table itself are deleted.
   */
  function AfterDeleteTable(st: DbState, tableId: nat): DbState {
    DbState(st.bases,
            Where(st.tables, IdIsNot(tableId)),
            Where(st.fields, FieldOutside(tableId)),
            Where(st.records, RecordOutside(tableId)),
            Where(st.views, ViewOutside(tableId)),
            Where(st.cellText, CellOutside(st.records, tableId)),
            Where(st.cellNumber, CellOutside(st.records, tableId)),
            st.nextId)
  }

  /** `deleteTable`: the caller must own the table; the deletes are separate writes, in this order. */
  method DeleteTable(db: Db, user: UserId, tableId: nat) returns (r: Result<()>)
    requires db.Valid()
    modifies db
    ensures db.Valid()
    ensures var st := old(db.State());
      if OwnsTable(st, user, tableId) then r == Ok(()) && db.State() == AfterDeleteTable(st, tableId)
      else r == Err(Thrown("Error occurred")) && db.State() == st
  {
    var owned := OwnsTable(db.State(), user, tableId);
    if !owned {
      return Err(Thrown("Error occurred"));
    }
    ghost var st := db.State();
    RemoveTable(db, tableId);
    DeleteTableConsistent(st, tableId);
    r := Ok(());
  }

  /** The six `deleteMany`/`delete` calls of `deleteTable`, in order. */
  method RemoveTable(db: Db, tableId: nat)
    modifies db
    ensures db.State() == AfterDeleteTable(old(db.State()), tableId)
  {
    db.cellNumber := Where(db.cellNumber, CellOutside(db.records, tableId));
    db.cellText := Where(db.cellText, CellOutside(db.records, tableId));
    db.fields := Where(db.fields, FieldOutside(tableId));
    db.records := Where(db.records, RecordOutside(tableId));
    db.views := Where(db.views, ViewOutside(tableId));
    db.tables := Where(db.tables, IdIsNot(tableId));
  }

  lemma DeleteTableConsistent(st: DbState, tableId: nat)
    requires Consistent(st)
    ensures Consistent(AfterDeleteTable(st, tableId))
  {
    WhereKeyed(st.tables, IdIsNot(tableId), st.nextId);
    WhereKeyed(st.fields, FieldOutside(tableId), st.nextId);
    WhereKeyed(st.records, RecordOutside(tableId), st.nextId);
    WhereKeyed(st.views, ViewOutside(tableId), st.nextId);
    WhereSubset(st.fields, FieldOutside(tableId));
    WhereSubset(st.records, RecordOutside(tableId));
    WhereSubset(st.views, ViewOutside(tableId));
    WhereSubset(st.tables, IdIsNot(tableId));
    CellTableWhere(st.cellText, CellOutside(st.records, tableId), st.nextId);
    CellTableWhere(st.cellNumber, CellOutside(st.records, tableId), st.nextId);
  }

  /**
   * After `deleteTable` the table is gone and so are its fields, records and
   * views and the cells of its records; everything else is kept.
   */
  lemma DeleteTableExact(st: DbState, tableId: nat)
    ensures var st' := AfterDeleteTable(st, tableId);
      && st'.bases == st.bases
      && (forall t :: t in st'.tables <==> t in st.tables && t.id != tableId)
      && (forall f :: f in st'.fields <==> f in st.fields && f.data.tableId != tableId)
      && (forall x :: x in st'.records <==> x in st.records && x.data.tableId != tableId)
      && (forall v :: v in st'.views <==> v in st.views && v.data.tableId != tableId)
      && (forall c :: c in st'.cellText <==> c in st.cellText && CellOutside(st.records, tableId)(c))
      && (forall c :: c in st'.cellNumber <==> c in st.cellNumber && CellOutside(st.records, tableId)(c))
  {
    forall t { WhereMembers(st.tables, IdIsNot(tableId), t); }
    forall f { WhereMembers(st.fields, FieldOutside(tableId), f); }
    forall x { WhereMembers(st.records, RecordOutside(tableId), x); }
    forall v { WhereMembers(st.views, ViewOutside(tableId), v); }
    forall c ensures c in Where(st.cellText, CellOutside(st.records, tableId)) <==> c in st.cellText && CellOutside(st.records, tableId)(c) {
      WhereMembers(st.cellText, CellOutside(st.records, tableId), c);
    }
    forall c ensures c in Where(st.cellNumber, CellOutside(st.records, tableId)) <==> c in st.cellNumber && CellOutside(st.records, tableId)(c) {
      WhereMembers(st.cellNumber, CellOutside(st.records, tableId), c);
    }
  }

  /** What `getRecords` pages over: the table's records whose table's base is the caller's, in id order. */
  function OwnedRecords(st: DbState, user: UserId, tableId: nat): seq<Row<Record>> {
    Where(st.records, (r: Row<Record>) => r.data.tableId == tableId && OwnsTable(st, user, r.data.tableId))
  }

  /** One key of a formatted record: a field id rendered as a string, or "recordId". */
  datatype Entry = CellEntry(cell: Row<Cell>) | RecordIdEntry(id: nat)

  type RecordData = map<string, Entry>

  /** The key a cell is stored under in a formatted record. */
  function CellKey(c: Row<Cell>): string {
    IdString(c.data.fieldId)
  }

  /** `cells.forEach((cell) => (recordData[cell.fieldId] = cell))`: a later cell overwrites an earlier one under the same key. */
  function Assigned(m: RecordData, cs: seq<Row<Cell>>): RecordData
    decreases |cs|
  {
    if |cs| == 0 then m
    else Assigned(m, cs[..|cs| - 1])[CellKey(cs[|cs| - 1]) := CellEntry(cs[|cs| - 1])]
  }

  /** A formatted record: the text cells, then the number cells, each under its field id, then the record id. */
  function Formatted(recordId: nat, text: seq<Row<Cell>>, num: seq<Row<Cell>>): RecordData {
    Assigned(Assigned(map[], text), num)["recordId" := RecordIdEntry(recordId)]
  }

  /** The cells `include` attaches to a record: those of the cell table that name it, in id order. */
  function CellsOfRecord(cs: seq<Row<Cell>>, recordId: nat): seq<Row<Cell>> {
    Where(cs, CellOfRecord(recordId))
  }

  /** The formatting step of `getRecords` for one record. */
  method FormatRecord(recordId: nat, text: seq<Row<Cell>>, num: seq<Row<Cell>>) returns (data: RecordData)
    ensures data == Formatted(recordId, text, num)
  {
    data := map[];
    for i := 0 to |text|
      invariant data == Assigned(map[], text[..i])
    {
      assert text[..i + 1][..i] == text[..i];
      data := data[CellKey(text[i]) := CellEntry(text[i])];
    }
    assert text[..|text|] == text;
    for i := 0 to |num|
      invariant data == Assigned(Assigned(map[], text), num[..i])
    {
      assert num[..i + 1][..i] == num[..i];
      data := data[CellKey(num[i]) := CellEntry(num[i])];
    }
    assert num[..|num|] == num;
    data := data["recordId" := RecordIdEntry(recordId)];
  }

  /**
   * `getRecords`: `offset` is at least 0 (default 0) and `size` at least 1
   * (default 100); the page is taken from the caller's records of the table
   * in id order and each record is formatted.
   */
  method GetRecords(db: Db, user: UserId, tableId: nat, offset: Option<int>, size: Option<int>)
    returns (r: Result<seq<RecordData>>)
    ensures var st := db.State();
      var o, n := offset.GetOr(0), size.GetOr(100);
      if o < 0 then r == Err(InvalidInput("offset"))
      else if n < 1 then r == Err(InvalidInput("size"))
      else
        var page := SkipTake(OwnedRecords(st, user, tableId), o, n);
        && r.Ok? && |r.value| == |page|
        && forall i :: 0 <= i < |page| ==>
             r.value[i] == Formatted(page[i].id, CellsOfRecord(st.cellText, page[i].id), CellsOfRecord(st.cellNumber, page[i].id))
  {
    var o, n := offset.GetOr(0), size.GetOr(100);
    if o < 0 {
      return Err(InvalidInput("offset"));
    }
    if n < 1 {
      return Err(InvalidInput("size"));
    }
    var st := db.State();
    var records := SkipTake(OwnedRecords(st, user, tableId), o, n);
    var out: seq<RecordData> := [];
    for i := 0 to |records|
      invariant |out| == i
      invariant forall k :: 0 <= k < i ==>
        out[k] == Formatted(records[k].id, CellsOfRecord(st.cellText, records[k].id), CellsOfRecord(st.cellNumber, records[k].id))
    {
      var id := records[i].id;
      var data := FormatRecord(id, CellsOfRecord(st.cellText, id), CellsOfRecord(st.cellNumber, id));
      out := out + [data];
    }
    r := Ok(out);
  }

  /**
   * The page holds at most `size` records, all of the table and the
   * caller's, in strictly ascending id order, and it is the run of the
   * caller's records of the table starting at position `offset`.
   */
  lemma GetRecordsPage(st: DbState, user: UserId, tableId: nat, offset: nat, size: nat)
    requires Consistent(st)
    ensures var owned := OwnedRecords(st, user, tableId);
      var page := SkipTake(owned, offset, size);
      && |page| <= size
      && (forall x :: x in page ==> x in st.records && x.data.tableId == tableId && OwnsTable(st, user, tableId))
      && KeyedBelow(page, st.nextId)
      && (forall i :: 0 <= i < |page| ==> page[i] == owned[offset + i])
      && (forall x :: x in owned <==> x in st.records && x.data.tableId == tableId && OwnsTable(st, user, tableId))
  {
    var p := (r: Row<Record>) => r.data.tableId == tableId && OwnsTable(st, user, r.data.tableId);
    var owned := OwnedRecords(st, user, tableId);
    var page := SkipTake(owned, offset, size);
    forall x ensures x in owned <==> x in st.records && x.data.tableId == tableId && OwnsTable(st, user, tableId) {
      WhereMembers(st.records, p, x);
    }
    WhereKeyed(st.records, p, st.nextId);
    forall x | x in page ensures x in owned {
      var i :| 0 <= i < |page| && page[i] == x;
      assert owned[offset + i] == x;
    }
  }

  /** Keys of a map after assigning cells: the old keys and one key per cell. */
  lemma {:induction false} AssignedKeys(m: RecordData, cs: seq<Row<Cell>>, k: string)
    ensures k in Assigned(m, cs) <==> k in m || exists c :: c in cs && k == CellKey(c)
    decreases |cs|
  {
    if |cs| > 0 {
      var init := cs[..|cs| - 1];
      AssignedKeys(m, init, k);
      assert cs == init + [cs[|cs| - 1]];
      if exists c :: c in cs && k == CellKey(c) {
        var c :| c in cs && k == CellKey(c);
        if c != cs[|cs| - 1] {
          assert c in init;
        }
      }
    }
  }

  /** A key no assigned cell maps to keeps its old entry. */
  lemma {:induction false} AssignedOther(m: RecordData, cs: seq<Row<Cell>>, k: string)
    requires k in m && forall c :: c in cs ==> CellKey(c) != k
    ensures k in Assigned(m, cs) && Assigned(m, cs)[k] == m[k]
    decreases |cs|
  {
    if |cs| > 0 {
      var init := cs[..|cs| - 1];
      assert forall c :: c in init ==> c in cs;
      AssignedOther(m, init, k);
    }
  }

  /** With one cell per field, every cell sits under its own field's key. */
  lemma {:induction false} AssignedCell(m: RecordData, cs: seq<Row<Cell>>, c: Row<Cell>)
    requires c in cs && DistinctBy(cs, CellKey)
    ensures CellKey(c) in Assigned(m, cs) && Assigned(m, cs)[CellKey(c)] == CellEntry(c)
    decreases |cs|
  {
    var init := cs[..|cs| - 1];
    var last := cs[|cs| - 1];
    if c != last {
      assert c in init;
      assert DistinctBy(init, CellKey);
      AssignedCell(m, init, c);
      var i :| 0 <= i < |init| && init[i] == c;
      assert cs[i] == c;
    }
  }

  /**
   * A formatted record maps "recordId" to the record's id, and each field id
   * of its cells to a cell: a number cell wins over a text cell of the same
   * field. It has no other keys.
   */
  lemma FormattedExact(recordId: nat, text: seq<Row<Cell>>, num: seq<Row<Cell>>)
    requires DistinctBy(text, CellKey) && DistinctBy(num, CellKey)
    ensures var d := Formatted(recordId, text, num);
      && "recordId" in d && d["recordId"] == RecordIdEntry(recordId)
      && (forall k :: k in d <==> k == "recordId" || (exists c :: c in text && k == CellKey(c)) || (exists c :: c in num && k == CellKey(c)))
      && (forall c :: c in num ==> d[CellKey(c)] == CellEntry(c))
      && (forall c :: c in text && (forall n :: n in num ==> n.data.fieldId != c.data.fieldId) ==> d[CellKey(c)] == CellEntry(c))
  {
    var a := Assigned(map[], text);
    var d := Formatted(recordId, text, num);
    forall k ensures k in d <==> k == "recordId" || (exists c :: c in text && k == CellKey(c)) || (exists c :: c in num && k == CellKey(c)) {
      AssignedKeys(map[], text, k);
      AssignedKeys(a, num, k);
    }
    forall c | c in num ensures d[CellKey(c)] == CellEntry(c) {
      AssignedCell(a, num, c);
      NotAnIdString("recordId", c.data.fieldId, 0);
    }
    forall c | c in text && (forall n :: n in num ==> n.data.fieldId != c.data.fieldId) ensures d[CellKey(c)] == CellEntry(c) {
      AssignedCell(map[], text, c);
      forall n | n in num ensures CellKey(n) != CellKey(c) {
        IdStringInjective(n.data.fieldId, c.data.fieldId);
      }
      AssignedOther(a, num, CellKey(c));
      NotAnIdString("recordId", c.data.fieldId, 0);
    }
  }

  /** In a consistent store, the cells of one record have distinct fields within each cell table. */
  lemma RecordCellsDistinct(cs: seq<Row<Cell>>, recordId: nat)
    requires PairsDistinct(cs)
    ensures DistinctBy(CellsOfRecord(cs, recordId), CellKey)
  {
    var w := CellsOfRecord(cs, recordId);
    WhereDistinct(cs, CellOfRecord(recordId), CellPair);
    forall i, j | 0 <= i < j < |w| ensures CellKey(w[i]) != CellKey(w[j]) {
      WhereMembers(cs, CellOfRecord(recordId), w[i]);
      WhereMembers(cs, CellOfRecord(recordId), w[j]);
      IdStringInjective(w[i].data.fieldId, w[j].data.fieldId);
    }
  }
}
