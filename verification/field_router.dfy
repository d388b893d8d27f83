/**
 * Fields (src/server/api/routers/field.ts): adding a column to a table of
 * the caller's, and deleting or renaming a column through a `where` clause
 * that only matches when the column's table's base is the caller's. Prisma's
 * `delete` and `update` fail when their `where` matches nothing.
 */
module FieldRouter {
  import opened Common
  import opened Rows
  import opened Entities
  import opened Store

  /** A consistent store with its fields replaced by fields keyed below a larger bound. */
  lemma FieldsReplaced(st: DbState, fields: seq<Row<Field>>, next: nat)
    requires Consistent(st) && st.nextId <= next
    requires KeyedBelow(fields, next) && FieldTablesBelow(fields, next)
    ensures Consistent(st.(fields := fields, nextId := next))
  {
    NextIdGrows(st, next);
  }

  /** `field.create`: a non-empty name and a type of "Text" or "Number", on a table of the caller's. */
  method Create(db: Db, user: UserId, tableId: nat, name: string, fieldType: string) returns (r: Result<()>)
    requires db.Valid()
    modifies db
    ensures db.Valid()
    ensures var st := old(db.State());
      if |name| == 0 then r == Err(InvalidInput("name")) && db.State() == st
      else if ParseFieldType(fieldType).None? then r == Err(InvalidInput("type")) && db.State() == st
      else if !OwnsTable(st, user, tableId) then
        r == Err(Thrown("Table not found or user doesn't have perms")) && db.State() == st
      else (r == Ok(()) &&
            db.State() == st.(fields := st.fields + [Row(st.nextId, Field(name, tableId, ParseFieldType(fieldType).value))],
                              nextId := st.nextId + 1))
  {
    if |name| == 0 {
      return Err(InvalidInput("name"));
    }
    var t := ParseFieldType(fieldType);
    if t.None? {
      return Err(InvalidInput("type"));
    }
    if !OwnsTable(db.State(), user, tableId) {
      return Err(Thrown("Table not found or user doesn't have perms"));
    }
    ghost var st := db.State();
    OwnedTableBelow(st, user, tableId);
    var f := Field(name, tableId, t.value);
    FieldAppended(st, f);
    db.fields := db.fields + [Row(db.nextId, f)];
    db.nextId := db.nextId + 1;
    r := Ok(());
  }

  /** A field of an existing table, appended under the next id, keeps the store consistent. */
  lemma FieldAppended(st: DbState, f: Field)
    requires Consistent(st) && f.tableId < st.nextId
    ensures Consistent(st.(fields := st.fields + [Row(st.nextId, f)], nextId := st.nextId + 1))
  {
    AppendOneKeyed(st.fields, f, st.nextId);
    FieldsReplaced(st, st.fields + [Row(st.nextId, f)], st.nextId + 1);
  }

  lemma FieldRemoved(st: DbState, id: nat)
    requires Consistent(st)
    ensures Consistent(st.(fields := Where(st.fields, IdIsNot(id))))
  {
    WhereKeyed(st.fields, IdIsNot(id), st.nextId);
    WhereSubset(st.fields, IdIsNot(id));
    FieldsReplaced(st, Where(st.fields, IdIsNot(id)), st.nextId);
  }

  /** Field `f.id` given new data that keeps the table of `old_`, a field of the store. */
  lemma FieldUpdated(st: DbState, f: Row<Field>, old_: Row<Field>)
    requires Consistent(st) && old_ in st.fields && f.data.tableId == old_.data.tableId
    ensures Consistent(st.(fields := UpdateById(st.fields, f.id, f.data)))
  {
    UpdateKeyed(st.fields, f.id, f.data, st.nextId);
    UpdateSubset(st.fields, f.id, f.data);
    FieldsReplaced(st, UpdateById(st.fields, f.id, f.data), st.nextId);
  }

  /** A field just created is one of its table's fields, the last in id order, and the caller owns it. */
  lemma CreatedFieldListed(st: DbState, user: UserId, tableId: nat, f: Field)
    requires Consistent(st) && OwnsTable(st, user, tableId) && f.tableId == tableId
    ensures var st' := st.(fields := st.fields + [Row(st.nextId, f)], nextId := st.nextId + 1);
      && FieldsOf(st', tableId) == FieldsOf(st, tableId) + [Row(st.nextId, f)]
      && OwnsField(st', user, st.nextId)
  {
    var st' := st.(fields := st.fields + [Row(st.nextId, f)], nextId := st.nextId + 1);
    WhereAppend(st.fields, [Row(st.nextId, f)], FieldInTable(tableId));
    assert st'.fields[|st.fields|] == Row(st.nextId, f);
    assert OwnsTable(st', user, tableId);
  }

  /** The `where` of `delete` and `rename`: field `id`, when its table's base is the caller's. */
  function OwnedField(st: DbState, user: UserId, id: nat): (r: Option<Row<Field>>)
    ensures r.Some? <==> OwnsField(st, user, id)
    ensures r.Some? ==> r.value in st.fields && r.value.id == id && OwnsTable(st, user, r.value.data.tableId)
  {
    var p := (f: Row<Field>) => f.id == id && OwnsTable(st, user, f.data.tableId);
    var r := First(st.fields, p);
    assert r.None? ==> forall f :: f in st.fields ==> !p(f) by {
      if r.None? {
        forall f | f in st.fields ensures !p(f) {
          var i :| 0 <= i < |st.fields| && st.fields[i] == f;
        }
      }
    }
    r
  }

  /** `field.delete`: removes the caller's field `id`; Prisma fails when no such field matches. */
  method Delete(db: Db, user: UserId, id: nat) returns (r: Result<()>)
    requires db.Valid()
    modifies db
    ensures db.Valid()
    ensures var st := old(db.State());
      if OwnsField(st, user, id) then r == Ok(()) && db.State() == st.(fields := Where(st.fields, IdIsNot(id)))
      else r == Err(NotFound) && db.State() == st
  {
    var found := OwnedField(db.State(), user, id);
    if found.None? {
      return Err(NotFound);
    }
    FieldRemoved(db.State(), id);
    db.fields := Where(db.fields, IdIsNot(id));
    r := Ok(());
  }

  /** Deleting a field removes exactly the row with that id and keeps the others in order. */
  lemma DeleteRemovesOne(st: DbState, user: UserId, id: nat, x: Row<Field>)
    requires Consistent(st) && OwnsField(st, user, id)
    ensures x in Where(st.fields, IdIsNot(id)) <==> x in st.fields && x.id != id
    ensures |Where(st.fields, IdIsNot(id))| == |st.fields| - 1
  {
    WhereMembers(st.fields, IdIsNot(id), x);
    var f :| f in st.fields && f.id == id && OwnsTable(st, user, f.data.tableId);
    WhereDropsOne(st.fields, f, st.nextId);
  }

  /** `field.rename`: the caller's field `id` gets the non-empty `name`; its table and type stay. */
  method Rename(db: Db, user: UserId, id: nat, name: string) returns (r: Result<Row<Field>>)
    requires db.Valid()
    modifies db
    ensures db.Valid()
    ensures var st := old(db.State());
      if |name| == 0 then r == Err(InvalidInput("name")) && db.State() == st
      else match OwnedField(st, user, id)
        case None => r == Err(NotFound) && db.State() == st
        case Some(f) => (r == Ok(Row(id, f.data.(name := name))) &&
                         db.State() == st.(fields := UpdateById(st.fields, id, r.value.data)))
  {
    if |name| == 0 {
      return Err(InvalidInput("name"));
    }
    var found := OwnedField(db.State(), user, id);
    if found.None? {
      return Err(NotFound);
    }
    var f := Row(id, found.value.data.(name := name));
    FieldUpdated(db.State(), f, found.value);
    db.fields := UpdateById(db.fields, id, f.data);
    r := Ok(f);
  }

  /** Renaming changes the renamed field's name only: every other field is kept, and the count is the same. */
  lemma RenameChangesOne(st: DbState, user: UserId, id: nat, name: string, x: Row<Field>)
    requires OwnsField(st, user, id)
    ensures var f := OwnedField(st, user, id).value;
      var fields := UpdateById(st.fields, id, f.data.(name := name));
      && |fields| == |st.fields|
      && (x in fields <==> (x in st.fields && x.id != id) || x == Row(id, Field(name, f.data.tableId, f.data.fieldType)))
  {
    var f := OwnedField(st, user, id).value;
    UpdateMembers(st.fields, id, f.data.(name := name), x);
    var i :| 0 <= i < |st.fields| && st.fields[i] == f;
  }
}
