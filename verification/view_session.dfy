/**
 * The state the view page keeps (src/app/_components/base/view.tsx): the
 * sort list, the filter list and the hidden-field list being edited, and a
 * `loaded` flag. Loading a view copies its saved lists into the state;
 * after that, every change to one of the lists is saved back to the view,
 * and before it none is. The editors change the lists only through the
 * three setters here.
 */
module ViewSession {
  import opened Common
  import opened Rows
  import opened Entities

  /** A save request the page sends: `updateSort`, `updateFilter` or `updateHiddenFields`. */
  datatype Saved =
    | SortSaved(viewId: nat, sort: seq<SortEntry>)
    | FiltersSaved(viewId: nat, filters: seq<Filter>)
    | HiddenSaved(viewId: nat, hidden: seq<int>)

  class Session {
    const viewId: nat
    var sorting: seq<SortEntry>
    var filters: seq<Filter>
    var hiddenFields: seq<int>
    var loaded: bool
    /** The save requests sent so far, oldest first. */
    var sent: seq<Saved>

    /** The page's initial state: empty lists, not loaded, nothing sent. */
    constructor (viewId: nat)
      ensures this.viewId == viewId
      ensures sorting == [] && filters == [] && hiddenFields == [] && !loaded && sent == []
    {
      this.viewId := viewId;
      sorting, filters, hiddenFields, loaded, sent := [], [], [], false, [];
    }

    /** `setSorting`, followed by the effect that saves the sort list once loaded. */
    method SetSorting(v: seq<SortEntry>)
      modifies this
      ensures sorting == v && filters == old(filters) && hiddenFields == old(hiddenFields) && loaded == old(loaded)
      ensures sent == old(sent) + if loaded then [SortSaved(viewId, v)] else []
    {
      sorting := v;
      if loaded {
        sent := sent + [SortSaved(viewId, v)];
      }
    }

    /** `setColumnFilters`, followed by the effect that saves the filter list once loaded. */
    method SetFilters(v: seq<Filter>)
      modifies this
      ensures filters == v && sorting == old(sorting) && hiddenFields == old(hiddenFields) && loaded == old(loaded)
      ensures sent == old(sent) + if loaded then [FiltersSaved(viewId, v)] else []
    {
      filters := v;
      if loaded {
        sent := sent + [FiltersSaved(viewId, v)];
      }
    }

    /** `setHiddenFields`, followed by the effect that saves the hidden-field list once loaded. */
    method SetHiddenFields(v: seq<int>)
      modifies this
      ensures hiddenFields == v && sorting == old(sorting) && filters == old(filters) && loaded == old(loaded)
      ensures sent == old(sent) + if loaded then [HiddenSaved(viewId, v)] else []
    {
      hiddenFields := v;
      if loaded {
        sent := sent + [HiddenSaved(viewId, v)];
      }
    }

    /**
     * `updateView`: the page's view is looked up among the table's views
     * with a non-null assertion, so a missing view fails on the property
     * read. Its lists become the state (no hidden-field list means none
     * hidden) and the state is marked loaded.
     */
    method UpdateView(views: seq<Row<View>>) returns (r: Result<()>)
      modifies this
      ensures match CurrentView(views, viewId)
        case None => r == Err(TypeError) && sorting == old(sorting) && filters == old(filters) &&
                     hiddenFields == old(hiddenFields) && loaded == old(loaded)
        case Some(v) => (r == Ok(()) && sorting == v.data.sort && filters == v.data.filters &&
                         hiddenFields == v.data.hiddenFields.GetOr([]) && loaded)
      ensures sent == old(sent)
    {
      var current := CurrentView(views, viewId);
      if current.None? {
        return Err(TypeError);
      }
      var v := current.value.data;
      sorting := v.sort;
      filters := v.filters;
      hiddenFields := v.hiddenFields.GetOr([]);
      loaded := true;
      r := Ok(());
    }
  }

  /** `views.find((v) => v.id === viewId)`. */
  function CurrentView(views: seq<Row<View>>, viewId: nat): (r: Option<Row<View>>)
    ensures r.Some? <==> exists v :: v in views && v.id == viewId
    ensures r.Some? ==> r.value in views && r.value.id == viewId
  {
    var r := First(views, IdIs(viewId));
    assert r.None? ==> forall v :: v in views ==> v.id != viewId by {
      if r.None? {
        forall v | v in views ensures v.id != viewId {
          var i :| 0 <= i < |views| && views[i] == v;
          assert !IdIs(viewId)(views[i]);
        }
      }
    }
    r
  }

  function IdIs(id: nat): Row<View> -> bool {
    (v: Row<View>) => v.id == id
  }

  /**
   * Before the view is loaded, no edit is saved: a run of setter calls on an
   * unloaded session sends nothing, and once loaded every setter call sends
   * exactly the list it set.
   */
  method EditBeforeLoad(s: Session, sort: seq<SortEntry>, fs: seq<Filter>, hidden: seq<int>)
    requires !s.loaded
    modifies s
    ensures s.sent == old(s.sent) && !s.loaded
    ensures s.sorting == sort && s.filters == fs && s.hiddenFields == hidden
  {
    s.SetSorting(sort);
    s.SetFilters(fs);
    s.SetHiddenFields(hidden);
  }

  /** Loading a view and then editing its sort list saves the edit, and only it. */
  method LoadThenSort(s: Session, views: seq<Row<View>>, sort: seq<SortEntry>) returns (r: Result<()>)
    modifies s
    ensures r.Ok? <==> CurrentView(views, s.viewId).Some?
    ensures r.Ok? ==> s.sent == old(s.sent) + [SortSaved(s.viewId, sort)]
    ensures r.Err? ==> s.sent == old(s.sent)
  {
    r := s.UpdateView(views);
    if r.Ok? {
      s.SetSorting(sort);
    }
  }

  /** The fields the grid shows: `fields.filter((f) => !hiddenFields.includes(f.id))`. */
  function VisibleFields(fields: seq<Row<Field>>, hidden: seq<int>): (r: seq<Row<Field>>)
    ensures forall f :: f in r ==> f in fields && !(f.id in hidden)
    ensures hidden == [] ==> r == fields
  {
    WhereKept(fields, NotHidden(hidden));
    WhereAll(fields, NotHidden([]));
    Where(fields, NotHidden(hidden))
  }

  function NotHidden(hidden: seq<int>): Row<Field> -> bool {
    (f: Row<Field>) => !(f.id in hidden)
  }

  /** The grid gets exactly the fields that are not hidden, in their order, and hiding nothing shows all. */
  lemma VisibleFieldsExact(fields: seq<Row<Field>>, hidden: seq<int>, f: Row<Field>)
    ensures f in VisibleFields(fields, hidden) <==> f in fields && !(f.id in hidden)
    ensures VisibleFields(fields, []) == fields
    ensures VisibleFields(fields, hidden) == Where(fields, NotHidden(hidden))
  {
    WhereMembers(fields, NotHidden(hidden), f);
    WhereAll(fields, NotHidden([]));
  }

  /** The name the "Grid" button gives a new view: `View ${views.length + 1}`. */
  function NewViewName(viewCount: nat): (name: string)
    ensures |name| > 5 && name[..5] == "View "
  {
    "View " + IdString(viewCount + 1)
  }

  /** Different view counts give different names. */
  lemma NewViewNameInjective(a: nat, b: nat)
    ensures NewViewName(a) == NewViewName(b) ==> a == b
  {
    if NewViewName(a) == NewViewName(b) {
      assert NewViewName(a)[5..] == IdString(a + 1);
      assert NewViewName(b)[5..] == IdString(b + 1);
      IdStringInjective(a + 1, b + 1);
    }
  }

  /** A view is offered for deletion only while the table has more than one. */
  function CanDelete(views: seq<Row<View>>): (r: bool)
    ensures r <==> |views| > 0 && forall i :: 0 <= i < |views| ==> |views[..i] + views[i + 1..]| > 0
  {
    assert |views| > 0 ==> |views[..0] + views[1..]| == |views| - 1;
    |views| > 1
  }

  /** Deleting a view that is offered for deletion leaves the table with at least one view. */
  lemma CanDeleteLeavesOne(views: seq<Row<View>>, v: Row<View>, next: nat)
    requires KeyedBelow(views, next) && v in views && CanDelete(views)
    ensures |Where(views, IdIsNot(v.id))| >= 1
  {
    WhereDropsOne(views, v, next);
  }
}
