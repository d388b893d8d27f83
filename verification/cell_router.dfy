/**
 * Writing one cell (src/server/api/routers/cell.ts). Cells are sparse: a
 * (field, record) pair has a row in a cell table only while it holds a
 * non-empty value. A write to an owned field and record looks the pair up
 * and then deletes, updates, creates or does nothing:
 *
 *                    | empty input (null or "") | any other input
 *   cell exists      | delete it, reply null    | update its value, reply the row
 *   no cell          | nothing, reply undefined | create it, reply the row
 */
module CellRouter {
  import opened Common
  import opened Rows
  import opened Entities
  import opened Store

  /** Only null and the empty string are empty: the number 0 is a value. */
  predicate IsEmptyInput(v: Option<Value>) {
    v == None || v == Some(Str(""))
  }

  /** What `updateCell` returns: null after a delete, the written row, or undefined. */
  datatype Reply = Deleted | Stored(cell: Row<Cell>) | NoReply

  /** The effect of one write on a cell table and on the id counter. */
  datatype Write = Write(cells: seq<Row<Cell>>, reply: Reply, nextId: nat)

  function HasPair(fieldId: nat, recordId: nat): Row<Cell> -> bool {
    (c: Row<Cell>) => CellPair(c) == (fieldId, recordId)
  }

  /** The decision table, applied to the cell table `cs` with `next` the next free id. */
  function WriteCell(cs: seq<Row<Cell>>, fieldId: nat, recordId: nat, v: Option<Value>, next: nat): Write {
    var found := First(cs, HasPair(fieldId, recordId));
    if found.Some? && IsEmptyInput(v) then
      Write(Where(cs, IdIsNot(found.value.id)), Deleted, next)
    else if found.Some? then
      var updated := found.value.data.(value := v.value);
      Write(UpdateById(cs, found.value.id, updated), Stored(Row(found.value.id, updated)), next)
    else if !IsEmptyInput(v) then
      var created := Row(next, Cell(fieldId, recordId, v.value));
      Write(cs + [created], Stored(created), next + 1)
    else
      Write(cs, NoReply, next)
  }

  lemma SamePairSameCell(cs: seq<Row<Cell>>, a: Row<Cell>, b: Row<Cell>)
    requires PairsDistinct(cs) && a in cs && b in cs && CellPair(a) == CellPair(b)
    ensures a == b
  {
    var i :| 0 <= i < |cs| && cs[i] == a;
    var j :| 0 <= j < |cs| && cs[j] == b;
    assert !(i < j) && !(j < i);
  }

  /** Empty input over an existing cell deletes exactly that cell and replies null. */
  lemma WriteEmptyDeletes(cs: seq<Row<Cell>>, fieldId: nat, recordId: nat, v: Option<Value>, next: nat, c: Row<Cell>)
    requires KeyedBelow(cs, next) && PairsDistinct(cs)
    requires c in cs && CellPair(c) == (fieldId, recordId) && IsEmptyInput(v)
    ensures var w := WriteCell(cs, fieldId, recordId, v, next);
      && w.reply == Deleted && w.nextId == next
      && |w.cells| == |cs| - 1
      && c !in w.cells
      && (forall x :: x in w.cells ==> CellPair(x) != (fieldId, recordId))
      && (forall x :: CellPair(x) != (fieldId, recordId) ==> (x in w.cells <==> x in cs))
  {
    var found := First(cs, HasPair(fieldId, recordId));
    assert found.Some?;
    SamePairSameCell(cs, c, found.value);
    var w := WriteCell(cs, fieldId, recordId, v, next);
    WhereMembers(cs, IdIsNot(c.id), c);
    forall x | x in w.cells
      ensures CellPair(x) != (fieldId, recordId)
    {
      WhereMembers(cs, IdIsNot(c.id), x);
      if CellPair(x) == (fieldId, recordId) {
        SamePairSameCell(cs, c, x);
      }
    }
    forall x | CellPair(x) != (fieldId, recordId)
      ensures x in w.cells <==> x in cs
    {
      WhereMembers(cs, IdIsNot(c.id), x);
      if x in cs {
        assert x.id != c.id by {
          var i :| 0 <= i < |cs| && cs[i] == x;
          var j :| 0 <= j < |cs| && cs[j] == c;
          assert i != j;
          assert cs[i].id != cs[j].id;
        }
      }
    }
    WhereDropsOne(cs, c, next);
  }

  /** A value over an existing cell changes only that cell's value: its id, field and record stay. */
  lemma WriteValueUpdates(cs: seq<Row<Cell>>, fieldId: nat, recordId: nat, v: Option<Value>, next: nat, c: Row<Cell>)
    requires KeyedBelow(cs, next) && PairsDistinct(cs)
    requires c in cs && CellPair(c) == (fieldId, recordId) && !IsEmptyInput(v)
    ensures var w := WriteCell(cs, fieldId, recordId, v, next);
      && w.reply == Stored(Row(c.id, Cell(fieldId, recordId, v.value))) && w.nextId == next
      && |w.cells| == |cs|
      && Row(c.id, Cell(fieldId, recordId, v.value)) in w.cells
      && (forall x :: x in w.cells && CellPair(x) == (fieldId, recordId) ==> x == Row(c.id, Cell(fieldId, recordId, v.value)))
      && (forall x :: CellPair(x) != (fieldId, recordId) ==> (x in w.cells <==> x in cs))
  {
    var found := First(cs, HasPair(fieldId, recordId));
    SamePairSameCell(cs, c, found.value);
    var d := Cell(fieldId, recordId, v.value);
    forall x
      ensures x in UpdateById(cs, c.id, d) <==>
              (x in cs && x.id != c.id) || (x == Row(c.id, d) && exists i :: 0 <= i < |cs| && cs[i].id == c.id)
    {
      UpdateMembers(cs, c.id, d, x);
    }
    var i :| 0 <= i < |cs| && cs[i] == c;
    forall x | x in cs && x.id == c.id ensures x == c {
      var j :| 0 <= j < |cs| && cs[j] == x;
      assert !(i < j) && !(j < i);
    }
  }

  /** A value where no cell exists creates exactly one cell with that field, record and value. */
  lemma WriteValueCreates(cs: seq<Row<Cell>>, fieldId: nat, recordId: nat, v: Option<Value>, next: nat)
    requires forall x :: x in cs ==> CellPair(x) != (fieldId, recordId)
    requires !IsEmptyInput(v)
    ensures var w := WriteCell(cs, fieldId, recordId, v, next);
      && w.cells == cs + [Row(next, Cell(fieldId, recordId, v.value))]
      && w.reply == Stored(Row(next, Cell(fieldId, recordId, v.value)))
      && w.nextId == next + 1
  {
    assert forall i :: 0 <= i < |cs| ==> !HasPair(fieldId, recordId)(cs[i]);
  }

  /** Empty input where no cell exists changes nothing and replies undefined. */
  lemma WriteEmptyNoop(cs: seq<Row<Cell>>, fieldId: nat, recordId: nat, v: Option<Value>, next: nat)
    requires forall x :: x in cs ==> CellPair(x) != (fieldId, recordId)
    requires IsEmptyInput(v)
    ensures WriteCell(cs, fieldId, recordId, v, next) == Write(cs, NoReply, next)
  {
    assert forall i :: 0 <= i < |cs| ==> !HasPair(fieldId, recordId)(cs[i]);
  }

  /** Every write keeps the ids ascending and at most one cell per (field, record) pair. */
  lemma WriteKeepsTable(cs: seq<Row<Cell>>, fieldId: nat, recordId: nat, v: Option<Value>, next: nat)
    requires KeyedBelow(cs, next) && PairsDistinct(cs)
    ensures var w := WriteCell(cs, fieldId, recordId, v, next);
      && KeyedBelow(w.cells, w.nextId) && PairsDistinct(w.cells)
      && (forall x :: x in w.cells ==> x in cs || CellPair(x) == (fieldId, recordId))
  {
    var found := First(cs, HasPair(fieldId, recordId));
    var w := WriteCell(cs, fieldId, recordId, v, next);
    if found.Some? && IsEmptyInput(v) {
      WhereKeyed(cs, IdIsNot(found.value.id), next);
      WhereDistinct(cs, IdIsNot(found.value.id), CellPair);
      forall x | x in w.cells ensures x in cs {
        WhereMembers(cs, IdIsNot(found.value.id), x);
      }
    } else if found.Some? {
      var c := found.value;
      var d := c.data.(value := v.value);
      forall i, j | 0 <= i < j < |w.cells| ensures CellPair(w.cells[i]) != CellPair(w.cells[j]) {
        assert CellPair(w.cells[i]) == CellPair(cs[i]);
        assert CellPair(w.cells[j]) == CellPair(cs[j]);
      }
      forall x | x in w.cells ensures x in cs || CellPair(x) == (fieldId, recordId) {
        UpdateMembers(cs, c.id, d, x);
      }
    } else if !IsEmptyInput(v) {
      AppendKeyed(cs, [Cell(fieldId, recordId, v.value)], next);
      assert Numbered([Cell(fieldId, recordId, v.value)], next) == [Row(next, Cell(fieldId, recordId, v.value))];
      forall i, j | 0 <= i < j < |w.cells| ensures CellPair(w.cells[i]) != CellPair(w.cells[j]) {
        if j == |cs| {
          assert w.cells[i] in cs;
        }
      }
    }
  }

  /** Cells of every other (field, record) pair are exactly as before. */
  lemma WriteLeavesOtherPairs(cs: seq<Row<Cell>>, fieldId: nat, recordId: nat, v: Option<Value>, next: nat, x: Row<Cell>)
    requires KeyedBelow(cs, next) && PairsDistinct(cs)
    requires CellPair(x) != (fieldId, recordId)
    ensures x in WriteCell(cs, fieldId, recordId, v, next).cells <==> x in cs
  {
    var found := First(cs, HasPair(fieldId, recordId));
    if found.Some? {
      var c := found.value;
      var i :| 0 <= i < |cs| && cs[i] == c && HasPair(fieldId, recordId)(cs[i]);
      if IsEmptyInput(v) {
        WriteEmptyDeletes(cs, fieldId, recordId, v, next, c);
      } else {
        WriteValueUpdates(cs, fieldId, recordId, v, next, c);
      }
    }
  }

  /**
   * `updateCell`: both the field and the record must lie in tables whose base
   * belongs to the caller; then the write rule runs on the chosen cell table.
   * The cell table is chosen by the endpoint, not by the field's type, and the
   * field and the record need not be in the same table.
   */
  method UpdateCell(db: Db, user: UserId, fieldId: nat, recordId: nat, value: Option<Value>, kind: CellKind)
    returns (r: Result<Reply>)
    requires db.Valid()
    modifies db
    ensures db.Valid()
    ensures var st := old(db.State());
      if OwnsField(st, user, fieldId) && OwnsRecord(st, user, recordId) then
        var w := WriteCell(CellsOf(st, kind), fieldId, recordId, value, st.nextId);
        r == Ok(w.reply) && db.State() == WithCells(st, kind, w.cells).(nextId := w.nextId)
      else
        r == Err(Thrown("View or record not found or user doesn't own it")) && db.State() == st
  {
    var st := db.State();
    var v := OwnsField(st, user, fieldId);
    var rec := OwnsRecord(st, user, recordId);
    if !v || !rec {
      return Err(Thrown("View or record not found or user doesn't own it"));
    }
    var cells := CellsOf(st, kind);
    ghost var w := WriteCell(cells, fieldId, recordId, value, st.nextId);
    var cell := First(cells, HasPair(fieldId, recordId));
    if cell.Some? && IsEmptyInput(value) {
      // cell exists and the input is empty: delete the cell
      db.SetCells(kind, Where(cells, IdIsNot(cell.value.id)));
      r := Ok(Deleted);
    } else if cell.Some? {
      // cell exists and the input is not empty: update its value
      var updated := cell.value.data.(value := value.value);
      db.SetCells(kind, UpdateById(cells, cell.value.id, updated));
      r := Ok(Stored(Row(cell.value.id, updated)));
    } else if !IsEmptyInput(value) {
      // no cell and the input is not empty: create the cell
      var created := Row(db.nextId, Cell(fieldId, recordId, value.value));
      db.SetCells(kind, cells + [created]);
      db.nextId := db.nextId + 1;
      r := Ok(Stored(created));
    } else {
      r := Ok(NoReply);
    }
    assert r == Ok(w.reply) && db.State() == WithCells(st, kind, w.cells).(nextId := w.nextId);
    OwnedRecordBelow(st, user, recordId);
    OwnedFieldBelow(st, user, fieldId);
    WriteKeepsConsistent(st, kind, fieldId, recordId, value);
  }

  lemma OwnedRecordBelow(st: DbState, user: UserId, recordId: nat)
    requires Consistent(st) && OwnsRecord(st, user, recordId)
    ensures recordId < st.nextId
  {
    var rr :| rr in st.records && rr.id == recordId && OwnsTable(st, user, rr.data.tableId);
    var k :| 0 <= k < |st.records| && st.records[k] == rr;
  }

  lemma OwnedFieldBelow(st: DbState, user: UserId, fieldId: nat)
    requires Consistent(st) && OwnsField(st, user, fieldId)
    ensures fieldId < st.nextId
  {
    var f :| f in st.fields && f.id == fieldId && OwnsTable(st, user, f.data.tableId);
    var k :| 0 <= k < |st.fields| && st.fields[k] == f;
  }

  /** A write to a field and a record that exist keeps the whole database consistent. */
  lemma WriteKeepsConsistent(st: DbState, kind: CellKind, fieldId: nat, recordId: nat, v: Option<Value>)
    requires Consistent(st) && fieldId < st.nextId && recordId < st.nextId
    ensures var w := WriteCell(CellsOf(st, kind), fieldId, recordId, v, st.nextId);
      Consistent(WithCells(st, kind, w.cells).(nextId := w.nextId))
  {
    var cs := CellsOf(st, kind);
    var w := WriteCell(cs, fieldId, recordId, v, st.nextId);
    WriteKeepsCellTable(cs, fieldId, recordId, v, st.nextId);
    NextIdGrows(st, w.nextId);
    assert WithCells(st, kind, w.cells).(nextId := w.nextId) == WithCells(st.(nextId := w.nextId), kind, w.cells);
  }

  /** A write whose field and record ids are below `next` keeps a well-formed cell table well formed. */
  lemma WriteKeepsCellTable(cs: seq<Row<Cell>>, fieldId: nat, recordId: nat, v: Option<Value>, next: nat)
    requires CellTableOk(cs, next) && fieldId < next && recordId < next
    ensures var w := WriteCell(cs, fieldId, recordId, v, next);
      next <= w.nextId && CellTableOk(w.cells, w.nextId)
  {
    WriteKeepsTable(cs, fieldId, recordId, v, next);
  }

  /** `cell.updateNumber`: a number or null, written to the number cells. */
  method UpdateNumber(db: Db, user: UserId, fieldId: nat, recordId: nat, value: Option<int>)
    returns (r: Result<Reply>)
    requires db.Valid()
    modifies db
    ensures db.Valid()
    ensures var st := old(db.State());
      var v := if value.None? then None else Some(Num(value.value));
      if OwnsField(st, user, fieldId) && OwnsRecord(st, user, recordId) then
        var w := WriteCell(st.cellNumber, fieldId, recordId, v, st.nextId);
        r == Ok(w.reply) && db.State() == st.(cellNumber := w.cells, nextId := w.nextId)
      else
        r.Err? && db.State() == st
  {
    r := UpdateCell(db, user, fieldId, recordId, if value.None? then None else Some(Num(value.value)), NumberCells);
  }

  /** `cell.updateText`: a string or null, written to the text cells. */
  method UpdateText(db: Db, user: UserId, fieldId: nat, recordId: nat, value: Option<string>)
    returns (r: Result<Reply>)
    requires db.Valid()
    modifies db
    ensures db.Valid()
    ensures var st := old(db.State());
      var v := if value.None? then None else Some(Str(value.value));
      if OwnsField(st, user, fieldId) && OwnsRecord(st, user, recordId) then
        var w := WriteCell(st.cellText, fieldId, recordId, v, st.nextId);
        r == Ok(w.reply) && db.State() == st.(cellText := w.cells, nextId := w.nextId)
      else
        r.Err? && db.State() == st
  {
    r := UpdateCell(db, user, fieldId, recordId, if value.None? then None else Some(Str(value.value)), TextCells);
  }
}
