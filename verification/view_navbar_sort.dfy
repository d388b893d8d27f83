/**
 * The sort menu (src/app/_components/base/view-navbar-sort.tsx). With an
 * empty sort list it lists every field, and picking one starts the list
 * with it. Otherwise it shows one row per sorted field and an "add another
 * sort" list of the unsorted fields, where picking one appends it.
 */
module ViewNavbarSort {
  import opened Common
  import opened Rows
  import opened Entities
  import opened Js
  import opened SortOption
  import opened ViewSession

  function Sorted(sorting: seq<SortEntry>): Row<Field> -> bool {
    (f: Row<Field>) => FindIndex(sorting, SortsField(f.id)) != -1
  }

  /** The fields that get a sort row: those some entry sorts by, in field order. */
  function SortedFieldRows(fields: seq<Row<Field>>, sorting: seq<SortEntry>): seq<Row<Field>> {
    Where(fields, Sorted(sorting))
  }

  /**
   * A field gets a sort row exactly when some entry sorts by it, and every
   * field is either a sort row or an "add another sort" candidate, never both.
   */
  lemma SortedFieldRowsExact(fields: seq<Row<Field>>, sorting: seq<SortEntry>, f: Row<Field>)
    ensures f in SortedFieldRows(fields, sorting) <==> f in fields && exists e :: e in sorting && e.id == IdString(f.id)
    ensures !(f in SortedFieldRows(fields, sorting) && f in FilteredFields(fields, sorting))
    ensures |SortedFieldRows(fields, sorting)| + |FilteredFields(fields, sorting)| == |fields|
  {
    WhereMembers(fields, Sorted(sorting), f);
    FilteredFieldsExact(fields, sorting, f);
    if FindIndex(sorting, SortsField(f.id)) != -1 {
      assert sorting[FindIndex(sorting, SortsField(f.id))] in sorting;
    }
    WherePartition(fields, Sorted(sorting), Unsorted(sorting));
  }

  /** Two complementary filters split a sequence. */
  lemma {:induction false} WherePartition<T>(s: seq<T>, p: T -> bool, q: T -> bool)
    requires forall x :: p(x) <==> !q(x)
    ensures |Where(s, p)| + |Where(s, q)| == |s|
  {
    if |s| > 0 {
      WherePartition(s[1..], p, q);
    }
  }

  /** The fields the menu offers to pick: all of them for an empty sort list, else the "add another sort" candidates. */
  function Offered(fields: seq<Row<Field>>, sorting: seq<SortEntry>): seq<Row<Field>> {
    if |sorting| > 0 then FilteredFields(fields, sorting) else fields
  }

  /** The list a pick sets: the first entry for an empty list, else the old list with the entry appended. */
  function Picked(sorting: seq<SortEntry>, f: Row<Field>): seq<SortEntry> {
    if |sorting| > 0 then sorting + [SortEntry(IdString(f.id), false)]
    else [SortEntry(IdString(f.id), false)]
  }

  /** The two pick handlers: the first entry of an empty list, or "add another sort" appending to a copy. */
  method Pick(s: Session, f: Row<Field>)
    modifies s
    ensures s.sorting == Picked(old(s.sorting), f)
    ensures s.filters == old(s.filters) && s.hiddenFields == old(s.hiddenFields) && s.loaded == old(s.loaded)
    ensures s.sent == old(s.sent) + if s.loaded then [SortSaved(s.viewId, s.sorting)] else []
  {
    if |s.sorting| > 0 {
      var newSorting := s.sorting + [SortEntry(IdString(f.id), false)];
      s.SetSorting(newSorting);
    } else {
      s.SetSorting([SortEntry(IdString(f.id), false)]);
    }
  }

  /**
   * Both handlers append an ascending entry for the picked field and keep
   * the existing entries in order; an empty list becomes exactly that one
   * entry; and picking an offered field never repeats a field.
   */
  lemma PickedAppends(fields: seq<Row<Field>>, sorting: seq<SortEntry>, f: Row<Field>)
    requires f in Offered(fields, sorting)
    ensures Picked(sorting, f) == sorting + [SortEntry(IdString(f.id), false)]
    ensures |sorting| == 0 ==> Picked(sorting, f) == [SortEntry(IdString(f.id), false)]
    ensures f in fields
    ensures DistinctBy(sorting, EntryId) ==> DistinctBy(Picked(sorting, f), EntryId)
  {
    var e := SortEntry(IdString(f.id), false);
    if |sorting| > 0 {
      FilteredFieldsExact(fields, sorting, f);
      WhereMembers(fields, Unsorted(sorting), f);
    } else {
      assert sorting + [e] == [e];
    }
    if DistinctBy(sorting, EntryId) {
      forall i, j | 0 <= i < |sorting| && 0 <= j < 1 ensures EntryId(sorting[i]) != EntryId([e][j]) {
        assert sorting[i] in sorting;
      }
      DistinctConcat(sorting, [e], EntryId);
    }
  }
}
