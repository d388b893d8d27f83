/**
 * Creating records (src/server/api/routers/record.ts). `createRecords` adds
 * `amount` empty records to a table and, when asked to generate data, one
 * cell for every (new record, field of the table) pair: number fields get a
 * number cell, the other fields a text cell. A value comes from the
 * generator registered under the field's name, otherwise from the random
 * default (an integer in 0..1000 for numbers, a noun of 1 to 5 letters for
 * text).
 *
 * The random draws are parameters: `Faker` gives, for each (record id,
 * field id), the value the random source would produce there.
 */
module RecordRouter {
  import opened Common
  import opened Rows
  import opened Entities
  import opened Store

  /** The random source, one draw per (record id, field id). */
  datatype Faker = Faker(
    number: (nat, nat) -> int,          // faker.number.int({ min: 0, max: 1000 })
    noun: (nat, nat) -> string,         // faker.word.noun({ length: { min: 1, max: 5 } })
    fullName: (nat, nat) -> string,     // faker.person.fullName
    color: (nat, nat) -> string)        // faker.color.human

  /** The ranges the random defaults are documented to stay in. */
  ghost predicate InRange(faker: Faker) {
    && (forall r, f :: 0 <= faker.number(r, f) <= 1000)
    && (forall r, f :: 1 <= |faker.noun(r, f)| <= 5)
  }

  /** Value generators keyed by field name. */
  type Generators = map<string, (nat, nat) -> Value>

  /** The value generated for `field` in record `recordId`: the named generator if there is one, else the default. */
  function GenValue(field: Row<Field>, recordId: nat, gens: Generators, faker: Faker): (v: Value)
    ensures field.data.name in gens ==> v == gens[field.data.name](recordId, field.id)
    ensures field.data.name !in gens && field.data.fieldType == Number ==> v == Num(faker.number(recordId, field.id))
    ensures field.data.name !in gens && field.data.fieldType == Text ==> v == Str(faker.noun(recordId, field.id))
  {
    if field.data.fieldType == Number then
      if field.data.name in gens then gens[field.data.name](recordId, field.id) else Num(faker.number(recordId, field.id))
    else
      if field.data.name in gens then gens[field.data.name](recordId, field.id) else Str(faker.noun(recordId, field.id))
  }

  /** The cell planned for one (record, field) pair. */
  function PlannedCell(recordId: nat, field: Row<Field>, gens: Generators, faker: Faker): Cell {
    Cell(field.id, recordId, GenValue(field, recordId, gens, faker))
  }

  /** Whether `field`'s cells go to the number table (`number`) or to the text table. */
  predicate InTable(field: Row<Field>, number: bool) {
    (field.data.fieldType == Number) == number
  }

  /** The cells one record gets, for the fields whose table is `number`, in field order. */
  function RowCells(recordId: nat, fs: seq<Row<Field>>, number: bool, gens: Generators, faker: Faker): seq<Cell>
    decreases |fs|
  {
    if |fs| == 0 then []
    else
      var f := fs[|fs| - 1];
      RowCells(recordId, fs[..|fs| - 1], number, gens, faker) +
        (if InTable(f, number) then [PlannedCell(recordId, f, gens, faker)] else [])
  }

  /** The cells of one table for all the new records, record by record. */
  function PlannedCells(recs: seq<Row<Record>>, fs: seq<Row<Field>>, number: bool, gens: Generators, faker: Faker): seq<Cell>
    decreases |recs|
  {
    if |recs| == 0 then []
    else PlannedCells(recs[..|recs| - 1], fs, number, gens, faker) + RowCells(recs[|recs| - 1].id, fs, number, gens, faker)
  }

  /** JavaScript's `Array(n)` makes an array of `n` empty slots only for 0 <= n < 2^32; any other length is a RangeError. */
  const MaxArrayLength := 0x1_0000_0000

  predicate ArrayLengthOk(n: int) {
    0 <= n < MaxArrayLength
  }

  /** `Array(amount).fill({ tableId })`, numbered from `start`. */
  function NewRecords(tableId: nat, amount: nat, start: nat): (rs: seq<Row<Record>>)
    ensures |rs| == amount
    ensures forall i :: 0 <= i < amount ==> rs[i] == Row(start + i, Record(tableId))
  {
    Numbered(seq(amount, _ => Record(tableId)), start)
  }

  /** The store after `createRecords(tableId, amount, generateData, gens)` with a non-negative amount. */
  function AfterCreateRecords(st: DbState, tableId: nat, amount: nat, generateData: bool, gens: Generators, faker: Faker): DbState {
    Grown(st, NewRecords(tableId, amount, st.nextId), FieldsOf(st, tableId), generateData, gens, faker)
  }

  /** `recs` appended to the records and, when generating, their planned cells for the fields `fs`. */
  function Grown(st: DbState, recs: seq<Row<Record>>, fs: seq<Row<Field>>, generateData: bool, gens: Generators, faker: Faker): DbState {
    if !generateData then st.(records := st.records + recs, nextId := st.nextId + |recs|)
    else WithNewRows(st, st.records + recs, PlannedCells(recs, fs, false, gens, faker), PlannedCells(recs, fs, true, gens, faker),
                     st.nextId + |recs|)
  }

  /** `records` in place of the records; the text cells, then the number cells, appended with ids from `next`. */
  function WithNewRows(st: DbState, records: seq<Row<Record>>, text: seq<Cell>, num: seq<Cell>, next: nat): DbState {
    DbState(st.bases, st.tables, st.fields, records, st.views,
            st.cellText + Numbered(text, next), st.cellNumber + Numbered(num, next + |text|),
            next + |text| + |num|)
  }

  /**
   * The generation loops of `createRecords`: for each new record, for each
   * field of the table in id order, one cell into the number list or the
   * text list by the field's type.
   */
  method PlanCells(records: seq<Row<Record>>, fields: seq<Row<Field>>, gens: Generators, faker: Faker)
    returns (numberCells: seq<Cell>, textCells: seq<Cell>)
    ensures numberCells == PlannedCells(records, fields, true, gens, faker)
    ensures textCells == PlannedCells(records, fields, false, gens, faker)
  {
    numberCells, textCells := [], [];
    for i := 0 to |records|
      invariant numberCells == PlannedCells(records[..i], fields, true, gens, faker)
      invariant textCells == PlannedCells(records[..i], fields, false, gens, faker)
    {
      var rowNumbers, rowTexts := PlanRow(records[i], fields, gens, faker);
      numberCells, textCells := numberCells + rowNumbers, textCells + rowTexts;
      PlannedStep(records, fields, i, gens, faker);
    }
    assert records[..|records|] == records;
  }

  /** The inner loop of the nested loops: the cells of one record, field by field. */
  method PlanRow(record: Row<Record>, fields: seq<Row<Field>>, gens: Generators, faker: Faker)
    returns (numberCells: seq<Cell>, textCells: seq<Cell>)
    ensures numberCells == RowCells(record.id, fields, true, gens, faker)
    ensures textCells == RowCells(record.id, fields, false, gens, faker)
  {
    numberCells, textCells := [], [];
    for j := 0 to |fields|
      invariant numberCells == RowCells(record.id, fields[..j], true, gens, faker)
      invariant textCells == RowCells(record.id, fields[..j], false, gens, faker)
    {
      var field := fields[j];
      RowCellsStep(record.id, fields, j, gens, faker);
      if field.data.fieldType == Number {
        var value := if field.data.name in gens then gens[field.data.name](record.id, field.id) else Num(faker.number(record.id, field.id));
        numberCells := numberCells + [Cell(field.id, record.id, value)];
      } else {
        var value := if field.data.name in gens then gens[field.data.name](record.id, field.id) else Str(faker.noun(record.id, field.id));
        textCells := textCells + [Cell(field.id, record.id, value)];
      }
    }
    assert fields[..|fields|] == fields;
  }

  /** One more field adds its planned cell to the table its type selects. */
  lemma RowCellsStep(recordId: nat, fields: seq<Row<Field>>, j: nat, gens: Generators, faker: Faker)
    requires j < |fields|
    ensures RowCells(recordId, fields[..j + 1], true, gens, faker) ==
      RowCells(recordId, fields[..j], true, gens, faker) + (if InTable(fields[j], true) then [PlannedCell(recordId, fields[j], gens, faker)] else [])
    ensures RowCells(recordId, fields[..j + 1], false, gens, faker) ==
      RowCells(recordId, fields[..j], false, gens, faker) + (if InTable(fields[j], false) then [PlannedCell(recordId, fields[j], gens, faker)] else [])
  {
    assert fields[..j + 1][..j] == fields[..j];
    assert fields[..j + 1][j] == fields[j];
  }

  /** One more record adds its row of cells to each table. */
  lemma PlannedStep(records: seq<Row<Record>>, fields: seq<Row<Field>>, i: nat, gens: Generators, faker: Faker)
    requires i < |records|
    ensures PlannedCells(records[..i + 1], fields, true, gens, faker) ==
      PlannedCells(records[..i], fields, true, gens, faker) + RowCells(records[i].id, fields, true, gens, faker)
    ensures PlannedCells(records[..i + 1], fields, false, gens, faker) ==
      PlannedCells(records[..i], fields, false, gens, faker) + RowCells(records[i].id, fields, false, gens, faker)
  {
    assert records[..i + 1][..i] == records[..i];
    assert records[..i + 1][i] == records[i];
  }

  /**
   * `createRecords`. A length `Array(amount)` refuses fails before anything
   * is written; so does a non-empty `createManyAndReturn` whose records name
   * a table that does not exist (`tableId` is a foreign key). An empty one
   * inserts nothing and checks nothing.
   */
  method CreateRecords(db: Db, tableId: nat, amount: int, generateData: bool, gens: Generators, faker: Faker)
    returns (r: Result<()>)
    requires db.Valid()
    modifies db
    ensures db.Valid()
    ensures var st := old(db.State());
      if !ArrayLengthOk(amount) then r == Err(RangeError) && db.State() == st
      else if amount > 0 && !TableExists(st, tableId) then r == Err(ForeignKey) && db.State() == st
      else r == Ok(()) && db.State() == AfterCreateRecords(st, tableId, amount, generateData, gens, faker)
  {
    if !ArrayLengthOk(amount) {
      return Err(RangeError);
    }
    if amount > 0 && !TableExists(db.State(), tableId) {
      return Err(ForeignKey);
    }
    ghost var st := db.State();
    if amount > 0 {
      TableBelow(st, tableId);
    }
    AddRecords(db, tableId, amount, generateData, gens, faker);
    AfterCreateRecordsConsistent(st, tableId, amount, generateData, gens, faker);
    r := Ok(());
  }

  /** The writes of `createRecords` for a non-negative amount. */
  method AddRecords(db: Db, tableId: nat, amount: nat, generateData: bool, gens: Generators, faker: Faker)
    modifies db
    ensures db.State() == AfterCreateRecords(old(db.State()), tableId, amount, generateData, gens, faker)
  {
    ghost var st := db.State();
    var records := NewRecords(tableId, amount, db.nextId);
    var fields := FieldsOf(db.State(), tableId);
    if !generateData {
      db.records := db.records + records;
      db.nextId := db.nextId + amount;
    } else {
      var numberCells, textCells := PlanCells(records, fields, gens, faker);
      AppendRows(db, records, textCells, numberCells);
    }
    assert db.State() == Grown(st, records, fields, generateData, gens, faker);
  }

  /** `createManyAndReturn` for the records, then `createMany` for the text cells and for the number cells. */
  method AppendRows(db: Db, records: seq<Row<Record>>, text: seq<Cell>, num: seq<Cell>)
    modifies db
    ensures var st := old(db.State());
      db.State() == WithNewRows(st, st.records + records, text, num, st.nextId + |records|)
  {
    db.records := db.records + records;
    db.nextId := db.nextId + |records|;
    db.cellText := db.cellText + Numbered(text, db.nextId);
    db.nextId := db.nextId + |text|;
    db.cellNumber := db.cellNumber + Numbered(num, db.nextId);
    db.nextId := db.nextId + |num|;
  }

  /** The pair a planned cell is stored under. */
  function NewPair(c: Cell): (nat, nat) {
    (c.fieldId, c.recordId)
  }

  /** A record gets one cell per field of the table: number fields in the number table, the rest in the text table. */
  lemma {:induction false} RowCellsCount(recordId: nat, fs: seq<Row<Field>>, gens: Generators, faker: Faker)
    ensures |RowCells(recordId, fs, true, gens, faker)| + |RowCells(recordId, fs, false, gens, faker)| == |fs|
  {
    if |fs| > 0 {
      RowCellsCount(recordId, fs[..|fs| - 1], gens, faker);
    }
  }

  /** The new cells number exactly (new records) x (fields of the table). */
  lemma {:induction false} PlannedCount(recs: seq<Row<Record>>, fs: seq<Row<Field>>, gens: Generators, faker: Faker)
    ensures |PlannedCells(recs, fs, true, gens, faker)| + |PlannedCells(recs, fs, false, gens, faker)| == |recs| * |fs|
  {
    if |recs| > 0 {
      var n := |recs| - 1;
      PlannedCount(recs[..n], fs, gens, faker);
      RowCellsCount(recs[n].id, fs, gens, faker);
      MulSucc(n, |fs|);
    }
  }

  lemma MulSucc(n: nat, m: nat)
    ensures (n + 1) * m == n * m + m
  {
  }

  /** A record's cells are exactly the planned cells of its fields that belong in this table. */
  lemma {:induction false} RowCellsMembers(recordId: nat, fs: seq<Row<Field>>, number: bool, gens: Generators, faker: Faker, c: Cell)
    ensures c in RowCells(recordId, fs, number, gens, faker) <==>
              exists f :: f in fs && InTable(f, number) && c == PlannedCell(recordId, f, gens, faker)
  {
    if |fs| > 0 {
      var init := fs[..|fs| - 1];
      RowCellsMembers(recordId, init, number, gens, faker, c);
      assert fs == init + [fs[|fs| - 1]];
      if exists f :: f in fs && InTable(f, number) && c == PlannedCell(recordId, f, gens, faker) {
        var f :| f in fs && InTable(f, number) && c == PlannedCell(recordId, f, gens, faker);
        if f != fs[|fs| - 1] {
          assert f in init;
        }
      }
    }
  }

  /**
   * Coverage and soundness: the new cells of a table are exactly one planned
   * cell for each (new record, field of the table whose type selects this table).
   */
  lemma {:induction false} PlannedMembers(recs: seq<Row<Record>>, fs: seq<Row<Field>>, number: bool, gens: Generators, faker: Faker, c: Cell)
    ensures c in PlannedCells(recs, fs, number, gens, faker) <==>
              exists r, f :: r in recs && f in fs && InTable(f, number) && c == PlannedCell(r.id, f, gens, faker)
  {
    if |recs| > 0 {
      var n := |recs| - 1;
      var init := recs[..n];
      PlannedMembers(init, fs, number, gens, faker, c);
      RowCellsMembers(recs[n].id, fs, number, gens, faker, c);
      assert PlannedCells(recs, fs, number, gens, faker) ==
        PlannedCells(init, fs, number, gens, faker) + RowCells(recs[n].id, fs, number, gens, faker);
      if c in PlannedCells(init, fs, number, gens, faker) {
        var r, f :| r in init && f in fs && InTable(f, number) && c == PlannedCell(r.id, f, gens, faker);
        assert r in recs;
      } else if c in RowCells(recs[n].id, fs, number, gens, faker) {
        assert recs[n] in recs;
      }
      if exists r, f :: r in recs && f in fs && InTable(f, number) && c == PlannedCell(r.id, f, gens, faker) {
        var r, f :| r in recs && f in fs && InTable(f, number) && c == PlannedCell(r.id, f, gens, faker);
        if r != recs[n] {
          assert recs == init + [recs[n]];
          assert r in init;
        }
      }
    }
  }

  /** The fields' ids are distinct, so a record's cells have distinct pairs. */
  lemma {:induction false} RowCellsDistinct(recordId: nat, fs: seq<Row<Field>>, number: bool, gens: Generators, faker: Faker, next: nat)
    requires KeyedBelow(fs, next)
    ensures DistinctBy(RowCells(recordId, fs, number, gens, faker), NewPair)
  {
    if |fs| > 0 {
      var init := fs[..|fs| - 1];
      var last := fs[|fs| - 1];
      RowCellsDistinct(recordId, init, number, gens, faker, next);
      var a := RowCells(recordId, init, number, gens, faker);
      var b: seq<Cell> := if InTable(last, number) then [PlannedCell(recordId, last, gens, faker)] else [];
      forall i, j | 0 <= i < |a| && 0 <= j < |b| ensures NewPair(a[i]) != NewPair(b[j]) {
        RowCellsMembers(recordId, init, number, gens, faker, a[i]);
        var f :| f in init && InTable(f, number) && a[i] == PlannedCell(recordId, f, gens, faker);
        var k :| 0 <= k < |init| && init[k] == f;
      }
      DistinctConcat(a, b, NewPair);
    }
  }

  /** With distinct record ids and distinct field ids, the new cells of a table have distinct pairs. */
  lemma {:induction false} PlannedDistinct(recs: seq<Row<Record>>, fs: seq<Row<Field>>, number: bool, gens: Generators, faker: Faker, next: nat)
    requires KeyedBelow(recs, next) && KeyedBelow(fs, next)
    ensures DistinctBy(PlannedCells(recs, fs, number, gens, faker), NewPair)
  {
    if |recs| > 0 {
      var n := |recs| - 1;
      var init := recs[..n];
      PlannedDistinct(init, fs, number, gens, faker, next);
      RowCellsDistinct(recs[n].id, fs, number, gens, faker, next);
      var a := PlannedCells(init, fs, number, gens, faker);
      var b := RowCells(recs[n].id, fs, number, gens, faker);
      forall i, j | 0 <= i < |a| && 0 <= j < |b| ensures NewPair(a[i]) != NewPair(b[j]) {
        PlannedMembers(init, fs, number, gens, faker, a[i]);
        RowCellsMembers(recs[n].id, fs, number, gens, faker, b[j]);
        var r, f :| r in init && f in fs && InTable(f, number) && a[i] == PlannedCell(r.id, f, gens, faker);
        var k :| 0 <= k < n && init[k] == r;
        assert recs[k] == r;
      }
      DistinctConcat(a, b, NewPair);
    }
  }

  /**
   * Without generators (as `record.create` calls it), every new number cell
   * holds an integer in 0..1000 and every new text cell a word of 1 to 5 letters.
   */
  lemma DefaultValuesInRange(recs: seq<Row<Record>>, fs: seq<Row<Field>>, faker: Faker, c: Cell)
    requires InRange(faker)
    ensures c in PlannedCells(recs, fs, true, map[], faker) ==> c.value.Num? && 0 <= c.value.n <= 1000
    ensures c in PlannedCells(recs, fs, false, map[], faker) ==> c.value.Str? && 1 <= |c.value.s| <= 5
  {
    PlannedMembers(recs, fs, true, map[], faker, c);
    PlannedMembers(recs, fs, false, map[], faker, c);
  }

  /** Every new cell belongs to one of the new records. */
  lemma PlannedRecordIds(recs: seq<Row<Record>>, fs: seq<Row<Field>>, number: bool, gens: Generators, faker: Faker, c: Cell)
    requires c in PlannedCells(recs, fs, number, gens, faker)
    ensures exists r :: r in recs && c.recordId == r.id
  {
    PlannedMembers(recs, fs, number, gens, faker, c);
  }

  /** New cells belong to records with ids in [lo, hi) and to fields with ids below `hi`. */
  lemma PlannedIdsBetween(recs: seq<Row<Record>>, fs: seq<Row<Field>>, number: bool, gens: Generators, faker: Faker, lo: nat, hi: nat)
    requires forall r :: r in recs ==> lo <= r.id < hi
    requires forall f :: f in fs ==> f.id < hi
    ensures forall c :: c in PlannedCells(recs, fs, number, gens, faker) ==> lo <= c.recordId < hi && c.fieldId < hi
  {
    forall c | c in PlannedCells(recs, fs, number, gens, faker) ensures lo <= c.recordId < hi && c.fieldId < hi {
      PlannedMembers(recs, fs, number, gens, faker, c);
    }
  }

  /**
   * Appending numbered new cells whose record ids lie in [lo, hi) and whose
   * field ids are below `hi` to a consistent cell table keeps pairs distinct and bounded.
   */
  lemma AppendCellsConsistent(old_: seq<Row<Cell>>, cs: seq<Cell>, start: nat, lo: nat, hi: nat)
    requires PairsDistinct(old_) && CellsBelow(old_, lo) && lo <= hi
    requires DistinctBy(cs, NewPair)
    requires forall c :: c in cs ==> lo <= c.recordId < hi && c.fieldId < hi
    ensures PairsDistinct(old_ + Numbered(cs, start))
    ensures CellsBelow(old_ + Numbered(cs, start), hi)
  {
    var b := Numbered(cs, start);
    forall i, j | 0 <= i < j < |b| ensures CellPair(b[i]) != CellPair(b[j]) {
      assert CellPair(b[i]) == NewPair(cs[i]) && CellPair(b[j]) == NewPair(cs[j]);
    }
    forall i, j | 0 <= i < |old_| && 0 <= j < |b| ensures CellPair(old_[i]) != CellPair(b[j]) {
      assert old_[i] in old_;
      assert cs[j] in cs;
    }
    DistinctConcat(old_, b, CellPair);
    forall c | c in old_ + b ensures c.data.fieldId < hi && c.data.recordId < hi {
      if c !in old_ {
        assert c in b;
        var k :| 0 <= k < |b| && b[k] == c;
        assert cs[k] in cs;
      }
    }
  }

  /**
   * `createRecords` adds rows to the records and, at most, to the two cell
   * tables: bases, tables, fields and views stay as they are, and the old
   * records keep their place in front of the `amount` new ones.
   */
  lemma AfterCreateRecordsKeeps(st: DbState, tableId: nat, amount: nat, generateData: bool, gens: Generators, faker: Faker)
    ensures var st' := AfterCreateRecords(st, tableId, amount, generateData, gens, faker);
      && st'.bases == st.bases && st'.tables == st.tables && st'.fields == st.fields && st'.views == st.views
      && st'.records == st.records + NewRecords(tableId, amount, st.nextId)
      && (!generateData ==> st'.cellText == st.cellText && st'.cellNumber == st.cellNumber)
      && |st'.cellText| + |st'.cellNumber| == |st.cellText| + |st.cellNumber| + (if generateData then amount * |FieldsOf(st, tableId)| else 0)
  {
    if generateData {
      PlannedCount(NewRecords(tableId, amount, st.nextId), FieldsOf(st, tableId), gens, faker);
    }
  }

  /** Creating records keeps the database consistent. */
  lemma AfterCreateRecordsConsistent(st: DbState, tableId: nat, amount: nat, generateData: bool, gens: Generators, faker: Faker)
    requires Consistent(st) && (amount == 0 || tableId < st.nextId)
    ensures Consistent(AfterCreateRecords(st, tableId, amount, generateData, gens, faker))
  {
    NewRowsKeyed(st, tableId, amount);
    GrownConsistent(st, NewRecords(tableId, amount, st.nextId), FieldsOf(st, tableId), generateData, gens, faker);
  }

  /** The new records are keyed below the bound after them and the table's fields below the old bound. */
  lemma NewRowsKeyed(st: DbState, tableId: nat, amount: nat)
    requires Consistent(st)
    ensures var recs := NewRecords(tableId, amount, st.nextId);
      && KeyedBelow(recs, st.nextId + amount)
      && KeyedBelow(FieldsOf(st, tableId), st.nextId)
      && forall r :: r in recs ==> st.nextId <= r.id
  {
    FieldsOfOrdered(st, tableId);
  }

  /** Fresh records, and cells for them over fields that exist, keep the store consistent. */
  lemma GrownConsistent(st: DbState, recs: seq<Row<Record>>, fs: seq<Row<Field>>, generateData: bool, gens: Generators, faker: Faker)
    requires Consistent(st)
    requires KeyedBelow(recs, st.nextId + |recs|) && KeyedBelow(fs, st.nextId) && RecordTablesBelow(recs, st.nextId)
    requires forall r :: r in recs ==> st.nextId <= r.id
    ensures Consistent(Grown(st, recs, fs, generateData, gens, faker))
  {
    ConcatKeyed(st.records, recs, st.nextId, st.nextId + |recs|);
    if generateData {
      GeneratedConsistent(st, recs, fs, gens, faker);
    } else {
      PlainConsistent(st, recs, fs, gens, faker);
    }
  }

  lemma GeneratedConsistent(st: DbState, recs: seq<Row<Record>>, fs: seq<Row<Field>>, gens: Generators, faker: Faker)
    requires Consistent(st)
    requires KeyedBelow(st.records + recs, st.nextId + |recs|) && KeyedBelow(recs, st.nextId + |recs|) && KeyedBelow(fs, st.nextId)
    requires RecordTablesBelow(st.records + recs, st.nextId)
    requires forall r :: r in recs ==> st.nextId <= r.id
    ensures Consistent(Grown(st, recs, fs, true, gens, faker))
  {
    var text, num := PlannedCells(recs, fs, false, gens, faker), PlannedCells(recs, fs, true, gens, faker);
    PlannedCellsConsistent(st, recs, fs, gens, faker, text, num);
    GrownGenerated(st, recs, fs, gens, faker, text, num);
  }

  /** The planned cells of new records, appended after them, keep the store consistent. */
  lemma PlannedCellsConsistent(st: DbState, recs: seq<Row<Record>>, fs: seq<Row<Field>>, gens: Generators, faker: Faker,
                               text: seq<Cell>, num: seq<Cell>)
    requires Consistent(st)
    requires KeyedBelow(st.records + recs, st.nextId + |recs|) && KeyedBelow(recs, st.nextId + |recs|) && KeyedBelow(fs, st.nextId)
    requires RecordTablesBelow(st.records + recs, st.nextId)
    requires forall r :: r in recs ==> st.nextId <= r.id
    requires text == PlannedCells(recs, fs, false, gens, faker) && num == PlannedCells(recs, fs, true, gens, faker)
    ensures Consistent(WithNewRows(st, st.records + recs, text, num, st.nextId + |recs|))
  {
    var n1 := st.nextId + |recs|;
    KeyedMonotone(fs, st.nextId, n1);
    PlannedFacts(recs, fs, gens, faker, st.nextId, n1);
    CellsAppendedConsistent(st, st.records + recs, text, num, n1);
    assert WithNewRows(st, st.records + recs, text, num, n1) == WithNewRows(st, st.records + recs, text, num, st.nextId + |recs|);
  }

  lemma GrownGenerated(st: DbState, recs: seq<Row<Record>>, fs: seq<Row<Field>>, gens: Generators, faker: Faker,
                       text: seq<Cell>, num: seq<Cell>)
    requires text == PlannedCells(recs, fs, false, gens, faker) && num == PlannedCells(recs, fs, true, gens, faker)
    ensures Grown(st, recs, fs, true, gens, faker) == WithNewRows(st, st.records + recs, text, num, st.nextId + |recs|)
  {
  }

  lemma PlainConsistent(st: DbState, recs: seq<Row<Record>>, fs: seq<Row<Field>>, gens: Generators, faker: Faker)
    requires Consistent(st)
    requires KeyedBelow(st.records + recs, st.nextId + |recs|) && RecordTablesBelow(st.records + recs, st.nextId)
    ensures Consistent(Grown(st, recs, fs, false, gens, faker))
  {
    var n1 := st.nextId + |recs|;
    CellTableMonotone(st.cellText, st.nextId, n1);
    CellTableMonotone(st.cellNumber, st.nextId, n1);
    ReplacedConsistent(st, st.records + recs, st.cellText, st.cellNumber, n1);
  }

  /** The planned cells of each table have distinct pairs and belong to records with ids in [lo, hi). */
  lemma PlannedFacts(recs: seq<Row<Record>>, fs: seq<Row<Field>>, gens: Generators, faker: Faker, lo: nat, hi: nat)
    requires KeyedBelow(recs, hi) && KeyedBelow(fs, hi)
    requires forall r :: r in recs ==> lo <= r.id < hi
    ensures DistinctBy(PlannedCells(recs, fs, false, gens, faker), NewPair)
    ensures DistinctBy(PlannedCells(recs, fs, true, gens, faker), NewPair)
    ensures forall c :: c in PlannedCells(recs, fs, false, gens, faker) ==> lo <= c.recordId < hi && c.fieldId < hi
    ensures forall c :: c in PlannedCells(recs, fs, true, gens, faker) ==> lo <= c.recordId < hi && c.fieldId < hi
  {
    forall f | f in fs ensures f.id < hi {
      var k :| 0 <= k < |fs| && fs[k] == f;
    }
    PlannedDistinct(recs, fs, false, gens, faker, hi);
    PlannedDistinct(recs, fs, true, gens, faker, hi);
    PlannedIdsBetween(recs, fs, false, gens, faker, lo, hi);
    PlannedIdsBetween(recs, fs, true, gens, faker, lo, hi);
  }

  /**
   * New records (ids below `n1`) and, numbered from `n1`, new cells with
   * distinct pairs whose records are new keep the store consistent.
   */
  lemma CellsAppendedConsistent(st: DbState, records: seq<Row<Record>>, text: seq<Cell>, num: seq<Cell>, n1: nat)
    requires Consistent(st) && st.nextId <= n1 && KeyedBelow(records, n1) && RecordTablesBelow(records, st.nextId)
    requires DistinctBy(text, NewPair) && DistinctBy(num, NewPair)
    requires forall c :: c in text ==> st.nextId <= c.recordId < n1 && c.fieldId < n1
    requires forall c :: c in num ==> st.nextId <= c.recordId < n1 && c.fieldId < n1
    ensures Consistent(WithNewRows(st, records, text, num, n1))
  {
    var n2 := n1 + |text|;
    var n3 := n2 + |num|;
    CellTableGrows(st.cellText, text, n1, st.nextId, n3);
    CellTableGrows(st.cellNumber, num, n2, st.nextId, n3);
    KeyedMonotone(records, n1, n3);
    ReplacedConsistent(st, records, st.cellText + Numbered(text, n1), st.cellNumber + Numbered(num, n2), n3);
  }

  /** A consistent store with its records and cell tables replaced by well-formed ones below a larger bound. */
  lemma ReplacedConsistent(st: DbState, records: seq<Row<Record>>, ct: seq<Row<Cell>>, cn: seq<Row<Cell>>, next: nat)
    requires Consistent(st) && st.nextId <= next
    requires KeyedBelow(records, next) && RecordTablesBelow(records, next) && CellTableOk(ct, next) && CellTableOk(cn, next)
    ensures Consistent(DbState(st.bases, st.tables, st.fields, records, st.views, ct, cn, next))
  {
    KeyedMonotone(st.bases, st.nextId, next);
    KeyedMonotone(st.tables, st.nextId, next);
    KeyedMonotone(st.fields, st.nextId, next);
    KeyedMonotone(st.views, st.nextId, next);
    assert RefsOk(DbState(st.bases, st.tables, st.fields, records, st.views, ct, cn, next));
  }

  /** One cell table after appending new cells numbered from `start`, for records with ids in [lo, hi). */
  lemma CellTableGrows(cs: seq<Row<Cell>>, news: seq<Cell>, start: nat, lo: nat, hi: nat)
    requires CellTableOk(cs, lo)
    requires lo <= start && start + |news| <= hi
    requires DistinctBy(news, NewPair)
    requires forall c :: c in news ==> lo <= c.recordId < hi && c.fieldId < hi
    ensures CellTableOk(cs + Numbered(news, start), hi)
  {
    AppendCellsConsistent(cs, news, start, lo, hi);
    KeyedMonotone(cs, lo, start);
    AppendKeyed(cs, news, start);
    KeyedMonotone(cs + Numbered(news, start), start + |news|, hi);
  }

  /**
   * `record.create`: the caller must own the table; `numRows` is at least 1
   * (input schema) and `randomData` defaults to false. No generators are
   * passed, so generated values are the random defaults.
   */
  method Create(db: Db, user: UserId, tableId: nat, numRows: int, randomData: Option<bool>, faker: Faker)
    returns (r: Result<()>)
    requires db.Valid()
    modifies db
    ensures db.Valid()
    ensures var st := old(db.State());
      if numRows < 1 then r == Err(InvalidInput("numRows")) && db.State() == st
      else if !OwnsTable(st, user, tableId) then
        r == Err(Thrown("Table not found or user doesn't have perms")) && db.State() == st
      else if !ArrayLengthOk(numRows) then r == Err(RangeError) && db.State() == st
      else r == Ok(()) && db.State() == AfterCreateRecords(st, tableId, numRows, randomData.GetOr(false), map[], faker)
  {
    if numRows < 1 {
      return Err(InvalidInput("numRows"));
    }
    var owned := OwnsTable(db.State(), user, tableId);
    if !owned {
      return Err(Thrown("Table not found or user doesn't have perms"));
    }
    r := CreateRecords(db, tableId, numRows, randomData.GetOr(false), map[], faker);
  }
}
