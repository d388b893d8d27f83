/**
 * Views (src/server/api/routers/view.ts). A view stores a table's sort
 * list, filter list and hidden-field list. `createView` inserts one with
 * empty lists; the three update endpoints find the view through the owner
 * chain and replace exactly one of its lists wholesale; `deleteView`
 * removes it. Every endpoint but `create` fails with "Error occurred"
 * when the view is missing or its table's base is not the caller's.
 */
module ViewRouter {
  import opened Common
  import opened Rows
  import opened Entities
  import opened Store

  const NotOwned := "Error occurred"

  /**
   * `createView`: no ownership check, and `hiddenFields` is left unset. The
   * view's `tableId` is a foreign key, so the insert fails when no table has
   * that id.
   */
  method CreateView(db: Db, name: string, tableId: nat) returns (r: Result<Row<View>>)
    requires db.Valid()
    modifies db
    ensures db.Valid()
    ensures var st := old(db.State());
      if !TableExists(st, tableId) then r == Err(ForeignKey) && db.State() == st
      else (r == Ok(Row(st.nextId, View(name, tableId, [], [], None))) &&
            db.State() == st.(views := st.views + [r.value], nextId := st.nextId + 1))
  {
    if !TableExists(db.State(), tableId) {
      return Err(ForeignKey);
    }
    ghost var st := db.State();
    TableBelow(st, tableId);
    var v := Row(db.nextId, View(name, tableId, [], [], None));
    db.views := db.views + [v];
    db.nextId := db.nextId + 1;
    AppendOneKeyed(st.views, v.data, st.nextId);
    ViewsReplaced(st, st.views + [v], st.nextId + 1);
    r := Ok(v);
  }

  /** A consistent store with its views replaced by views keyed below a larger bound. */
  lemma ViewsReplaced(st: DbState, views: seq<Row<View>>, next: nat)
    requires Consistent(st) && st.nextId <= next
    requires KeyedBelow(views, next) && ViewTablesBelow(views, next)
    ensures Consistent(st.(views := views, nextId := next))
  {
    NextIdGrows(st, next);
  }

  /** `view.create`: the name must be non-empty, and the table must exist. */
  method Create(db: Db, tableId: nat, name: string) returns (r: Result<Row<View>>)
    requires db.Valid()
    modifies db
    ensures db.Valid()
    ensures var st := old(db.State());
      if |name| == 0 then r == Err(InvalidInput("name")) && db.State() == st
      else if !TableExists(st, tableId) then r == Err(ForeignKey) && db.State() == st
      else (r == Ok(Row(st.nextId, View(name, tableId, [], [], None))) &&
            db.State() == st.(views := st.views + [r.value], nextId := st.nextId + 1))
  {
    if |name| == 0 {
      return Err(InvalidInput("name"));
    }
    r := CreateView(db, name, tableId);
  }

  /** The ownership filter of the view endpoints: the view `viewId`, when its table's base is the caller's. */
  function OwnedView(st: DbState, user: UserId, viewId: nat): (r: Option<Row<View>>)
    ensures r.Some? <==> OwnsView(st, user, viewId)
    ensures r.Some? ==> r.value in st.views && r.value.id == viewId && OwnsTable(st, user, r.value.data.tableId)
  {
    var p := (v: Row<View>) => v.id == viewId && OwnsTable(st, user, v.data.tableId);
    var r := First(st.views, p);
    assert r.None? ==> forall v :: v in st.views ==> !p(v) by {
      if r.None? {
        forall v | v in st.views ensures !p(v) {
          var i :| 0 <= i < |st.views| && st.views[i] == v;
        }
      }
    }
    r
  }

  /** A view just created for a table of the caller's is the one the endpoints find under its id. */
  lemma CreatedViewFound(st: DbState, user: UserId, name: string, tableId: nat)
    requires Consistent(st) && OwnsTable(st, user, tableId)
    ensures var v := Row(st.nextId, View(name, tableId, [], [], None));
      OwnedView(st.(views := st.views + [v], nextId := st.nextId + 1), user, st.nextId) == Some(v)
  {
    var v := Row(st.nextId, View(name, tableId, [], [], None));
    var st' := st.(views := st.views + [v], nextId := st.nextId + 1);
    assert OwnsTable(st', user, tableId);
    var r := OwnedView(st', user, st.nextId);
    assert forall x :: x in st.views ==> x.id < st.nextId by {
      forall x | x in st.views ensures x.id < st.nextId {
        var i :| 0 <= i < |st.views| && st.views[i] == x;
      }
    }
    assert r.value in st.views + [v];
  }

  /** The store with view `v.id` holding `v`'s data. */
  function WithView(st: DbState, v: Row<View>): DbState {
    st.(views := UpdateById(st.views, v.id, v.data))
  }

  /** Replacing a view's data changes that view only. */
  lemma WithViewChangesOne(st: DbState, v: Row<View>, x: Row<View>)
    requires v in st.views
    ensures x in WithView(st, v).views <==> (x in st.views && x.id != v.id) || x == v
    ensures |WithView(st, v).views| == |st.views|
  {
    UpdateMembers(st.views, v.id, v.data, x);
  }

  lemma WithViewConsistent(st: DbState, v: Row<View>)
    requires Consistent(st) && v.data.tableId < st.nextId
    ensures Consistent(WithView(st, v))
  {
    UpdateKeyed(st.views, v.id, v.data, st.nextId);
    UpdateSubset(st.views, v.id, v.data);
    ViewsReplaced(st, UpdateById(st.views, v.id, v.data), st.nextId);
  }

  /** `view.update({ where: { id }, data })`; the update never points a view at a table not yet created. */
  method ReplaceView(db: Db, v: Row<View>)
    requires db.Valid() && v.data.tableId < db.nextId
    modifies db
    ensures db.Valid()
    ensures db.State() == WithView(old(db.State()), v)
  {
    WithViewConsistent(db.State(), v);
    db.views := UpdateById(db.views, v.id, v.data);
  }

  /** `updateSort`: the view's sort list becomes `sort`; its filters and hidden fields stay. */
  method UpdateSort(db: Db, user: UserId, viewId: nat, sort: seq<SortEntry>) returns (r: Result<()>)
    requires db.Valid()
    modifies db
    ensures db.Valid()
    ensures var st := old(db.State());
      match OwnedView(st, user, viewId)
      case None => r == Err(Thrown(NotOwned)) && db.State() == st
      case Some(v) => r == Ok(()) && db.State() == WithView(st, Row(v.id, v.data.(sort := sort)))
  {
    var view := OwnedView(db.State(), user, viewId);
    if view.None? {
      return Err(Thrown(NotOwned));
    }
    var v := view.value;
    ReplaceView(db, Row(v.id, v.data.(sort := sort)));
    r := Ok(());
  }

  /** A filter as it arrives, before the operator string is checked against the two enums. */
  datatype FilterInput = FilterInput(id: string, op: string, value: Option<string>)

  /** The input schema of `updateFilter`: every operator must be one of the seven names. */
  function ParseFilters(fs: seq<FilterInput>): (r: Option<seq<Filter>>)
    ensures r.Some? <==> forall i :: 0 <= i < |fs| ==> ParseOp(fs[i].op).Some?
    ensures r.Some? ==> (|r.value| == |fs| &&
      forall i :: 0 <= i < |fs| ==> r.value[i] == Filter(fs[i].id, ParseOp(fs[i].op).value, fs[i].value))
    decreases |fs|
  {
    if |fs| == 0 then Some([])
    else
      var last := fs[|fs| - 1];
      match (ParseFilters(fs[..|fs| - 1]), ParseOp(last.op))
      case (Some(init), Some(op)) => Some(init + [Filter(last.id, op, last.value)])
      case (None, _) => None
      case (_, None) => None
  }

  /** Filters written back from the model parse back to themselves. */
  lemma ParseFiltersRoundTrip(fs: seq<Filter>)
    ensures ParseFilters(seq(|fs|, i requires 0 <= i < |fs| => FilterInput(fs[i].id, OpName(fs[i].op), fs[i].value))) == Some(fs)
  {
    var ins := seq(|fs|, i requires 0 <= i < |fs| => FilterInput(fs[i].id, OpName(fs[i].op), fs[i].value));
    forall i | 0 <= i < |fs| ensures ParseOp(ins[i].op) == Some(fs[i].op) {
      assert ins[i].op == OpName(fs[i].op);
    }
    var r := ParseFilters(ins);
    assert r.Some?;
    forall i | 0 <= i < |fs| ensures r.value[i] == fs[i] {
      assert ins[i] == FilterInput(fs[i].id, OpName(fs[i].op), fs[i].value);
    }
    assert r.value == fs;
  }

  /** `updateFilter`: the view's filter list becomes the parsed `filters`; its sort and hidden fields stay. */
  method UpdateFilter(db: Db, user: UserId, viewId: nat, filters: seq<FilterInput>) returns (r: Result<()>)
    requires db.Valid()
    modifies db
    ensures db.Valid()
    ensures var st := old(db.State());
      match (ParseFilters(filters), OwnedView(st, user, viewId))
      case (None, _) => r == Err(InvalidInput("filters")) && db.State() == st
      case (_, None) => r == Err(Thrown(NotOwned)) && db.State() == st
      case (Some(fs), Some(v)) => r == Ok(()) && db.State() == WithView(st, Row(v.id, v.data.(filters := fs)))
  {
    var parsed := ParseFilters(filters);
    if parsed.None? {
      return Err(InvalidInput("filters"));
    }
    var view := OwnedView(db.State(), user, viewId);
    if view.None? {
      return Err(Thrown(NotOwned));
    }
    var v := view.value;
    ReplaceView(db, Row(v.id, v.data.(filters := parsed.value)));
    r := Ok(());
  }

  /** `updateHiddenFields`: the view's hidden-field list becomes `hidden`; its sort and filters stay. */
  method UpdateHiddenFields(db: Db, user: UserId, viewId: nat, hidden: seq<int>) returns (r: Result<()>)
    requires db.Valid()
    modifies db
    ensures db.Valid()
    ensures var st := old(db.State());
      match OwnedView(st, user, viewId)
      case None => r == Err(Thrown(NotOwned)) && db.State() == st
      case Some(v) => r == Ok(()) && db.State() == WithView(st, Row(v.id, v.data.(hiddenFields := Some(hidden))))
  {
    var view := OwnedView(db.State(), user, viewId);
    if view.None? {
      return Err(Thrown(NotOwned));
    }
    var v := view.value;
    ReplaceView(db, Row(v.id, v.data.(hiddenFields := Some(hidden))));
    r := Ok(());
  }

  /** `deleteView`: the owned view is removed. */
  method DeleteView(db: Db, user: UserId, viewId: nat) returns (r: Result<()>)
    requires db.Valid()
    modifies db
    ensures db.Valid()
    ensures var st := old(db.State());
      if OwnsView(st, user, viewId) then r == Ok(()) && db.State() == st.(views := Where(st.views, IdIsNot(viewId)))
      else r == Err(Thrown(NotOwned)) && db.State() == st
  {
    var view := OwnedView(db.State(), user, viewId);
    if view.None? {
      return Err(Thrown(NotOwned));
    }
    ViewRemoved(db.State(), viewId);
    db.views := Where(db.views, IdIsNot(viewId));
    r := Ok(());
  }

  lemma ViewRemoved(st: DbState, viewId: nat)
    requires Consistent(st)
    ensures Consistent(st.(views := Where(st.views, IdIsNot(viewId))))
  {
    WhereKeyed(st.views, IdIsNot(viewId), st.nextId);
    WhereSubset(st.views, IdIsNot(viewId));
    ViewsReplaced(st, Where(st.views, IdIsNot(viewId)), st.nextId);
  }

  /** Deleting a view removes exactly the row with that id and keeps the others in order. */
  lemma DeleteViewRemovesOne(st: DbState, user: UserId, viewId: nat, x: Row<View>)
    requires Consistent(st) && OwnsView(st, user, viewId)
    ensures x in Where(st.views, IdIsNot(viewId)) <==> x in st.views && x.id != viewId
    ensures |Where(st.views, IdIsNot(viewId))| == |st.views| - 1
  {
    WhereMembers(st.views, IdIsNot(viewId), x);
    var v :| v in st.views && v.id == viewId && OwnsTable(st, user, v.data.tableId);
    WhereDropsOne(st.views, v, st.nextId);
  }
}
