/**
 * One row of the sort menu (src/app/_components/base/sort-option.tsx): the
 * sort entry of one field, which the user can point at another field, flip
 * between ascending and descending, or remove. Sort entries name their field
 * by its id rendered as a string.
 */
module SortOption {
  import opened Common
  import opened Rows
  import opened Entities
  import opened Js
  import opened ViewSession

  /** The entry sorts by field `fieldId`. */
  function SortsField(fieldId: nat): SortEntry -> bool {
    (e: SortEntry) => e.id == IdString(fieldId)
  }

  /** No entry of `sorting` sorts by the field. */
  function Unsorted(sorting: seq<SortEntry>): Row<Field> -> bool {
    (f: Row<Field>) => FindIndex(sorting, SortsField(f.id)) == -1
  }

  /** `filteredFields`: the fields the row can be pointed at, those not sorted by yet. */
  function FilteredFields(fields: seq<Row<Field>>, sorting: seq<SortEntry>): (r: seq<Row<Field>>)
    ensures forall i :: 0 <= i < |r| ==> r[i] in fields && forall e :: e in sorting ==> e.id != IdString(r[i].id)
  {
    WhereKept(fields, Unsorted(sorting));
    Where(fields, Unsorted(sorting))
  }

  /** The offered fields are exactly the fields no entry sorts by. */
  lemma FilteredFieldsExact(fields: seq<Row<Field>>, sorting: seq<SortEntry>, f: Row<Field>)
    ensures f in FilteredFields(fields, sorting) <==> f in fields && forall e :: e in sorting ==> e.id != IdString(f.id)
  {
    WhereMembers(fields, Unsorted(sorting), f);
  }

  /** `selectedSort`: the entry of the row's field, if any. */
  function SelectedSort(sorting: seq<SortEntry>, fieldId: nat): (r: Option<SortEntry>)
    ensures r.None? <==> forall e :: e in sorting ==> e.id != IdString(fieldId)
    ensures r.Some? ==> r.value in sorting && r.value.id == IdString(fieldId)
  {
    var r := First(sorting, SortsField(fieldId));
    assert r.None? ==> forall e :: e in sorting ==> e.id != IdString(fieldId) by {
      if r.None? {
        forall e | e in sorting ensures e.id != IdString(fieldId) {
          var i :| 0 <= i < |sorting| && sorting[i] == e;
          assert !SortsField(fieldId)(sorting[i]);
        }
      }
    }
    r
  }

  /** What pointing the row from field `selected` to field `value` means: the old entry goes, an ascending one for `value` is appended. */
  function Swapped(sorting: seq<SortEntry>, selected: nat, value: nat): seq<SortEntry> {
    RemoveFirst(sorting, SortsField(selected)) + [SortEntry(IdString(value), false)]
  }

  /** The field menu's handler: append the new entry to a copy, then splice out the old entry if there was one. */
  method Swap(s: Session, selected: nat, value: nat)
    modifies s
    ensures s.sorting == Swapped(old(s.sorting), selected, value)
    ensures s.filters == old(s.filters) && s.hiddenFields == old(s.hiddenFields) && s.loaded == old(s.loaded)
    ensures s.sent == old(s.sent) + if s.loaded then [SortSaved(s.viewId, s.sorting)] else []
  {
    var sorting := s.sorting;
    var newSorting := sorting + [SortEntry(IdString(value), false)];
    var index := FindIndex(sorting, SortsField(selected));
    if index > -1 {
      SpliceAppend(sorting, [SortEntry(IdString(value), false)], index);
      SpliceFound(sorting, SortsField(selected));
      newSorting := SpliceOne(newSorting, index);
    } else {
      RemoveFirstNone(sorting, SortsField(selected));
    }
    s.SetSorting(newSorting);
  }

  /** Pointing a row elsewhere keeps the list's length when the row's field had an entry, and adds one otherwise. */
  lemma SwapLength(sorting: seq<SortEntry>, selected: nat, value: nat)
    ensures (exists e :: e in sorting && e.id == IdString(selected)) ==> |Swapped(sorting, selected, value)| == |sorting|
    ensures (forall e :: e in sorting ==> e.id != IdString(selected)) ==> |Swapped(sorting, selected, value)| == |sorting| + 1
  {
    if exists e :: e in sorting && e.id == IdString(selected) {
      var e :| e in sorting && e.id == IdString(selected);
      var i :| 0 <= i < |sorting| && sorting[i] == e;
      assert SortsField(selected)(sorting[i]);
    }
  }

  function EntryId(e: SortEntry): string {
    e.id
  }

  /** Since only unsorted fields are offered, pointing a row at an offered field keeps the entries' fields distinct. */
  lemma SwapKeepsDistinct(fields: seq<Row<Field>>, sorting: seq<SortEntry>, selected: nat, f: Row<Field>)
    requires DistinctBy(sorting, EntryId)
    requires f in FilteredFields(fields, sorting)
    ensures DistinctBy(Swapped(sorting, selected, f.id), EntryId)
  {
    FilteredFieldsExact(fields, sorting, f);
    var kept := RemoveFirst(sorting, SortsField(selected));
    RemoveFirstDistinct(sorting, SortsField(selected), EntryId);
    forall i, j | 0 <= i < |kept| && 0 <= j < 1 ensures EntryId(kept[i]) != EntryId([SortEntry(IdString(f.id), false)][j]) {
      assert kept[i] in kept;
    }
    DistinctConcat(kept, [SortEntry(IdString(f.id), false)], EntryId);
  }

  /** Entries of other fields stay, in their order. */
  lemma SwapKeepsOthers(sorting: seq<SortEntry>, selected: nat, value: nat)
    ensures Where(Swapped(sorting, selected, value), NeitherField(selected, value)) == Where(sorting, NeitherField(selected, value))
  {
    var q := NeitherField(selected, value);
    RemoveFirstKeeps(sorting, SortsField(selected), q);
    WhereAppend(RemoveFirst(sorting, SortsField(selected)), [SortEntry(IdString(value), false)], q);
    WhereNone([SortEntry(IdString(value), false)], q);
  }

  function NeitherField(a: nat, b: nat): SortEntry -> bool {
    (e: SortEntry) => e.id != IdString(a) && e.id != IdString(b)
  }

  /** The direction menu's intent: the row's entry gets `desc`; `None` where the handler's non-null assertion fails. */
  function Redirected(sorting: seq<SortEntry>, selected: nat, desc: bool): Option<seq<SortEntry>> {
    var i := FindIndex(sorting, SortsField(selected));
    if i == -1 then None else Some(sorting[i := sorting[i].(desc := desc)])
  }

  /**
   * The direction menu's handler: copy the list, find the row's entry and
   * set its direction. The entry is changed in place, so the copy and the
   * old list share it; here the new list is a value.
   */
  method SetDirection(s: Session, selected: nat, desc: bool) returns (r: Result<()>)
    modifies s
    ensures match Redirected(old(s.sorting), selected, desc)
      case None => r == Err(TypeError) && s.sorting == old(s.sorting) && s.sent == old(s.sent)
      case Some(v) => r == Ok(()) && s.sorting == v && s.sent == old(s.sent) + if s.loaded then [SortSaved(s.viewId, v)] else []
    ensures s.filters == old(s.filters) && s.hiddenFields == old(s.hiddenFields) && s.loaded == old(s.loaded)
  {
    var newSorting := s.sorting;
    var i := FindIndex(newSorting, SortsField(selected));
    if i == -1 {
      return Err(TypeError);
    }
    newSorting := newSorting[i := newSorting[i].(desc := desc)];
    s.SetSorting(newSorting);
    r := Ok(());
  }

  /** Flipping direction fails exactly when the row's field has no entry; otherwise only that entry's `desc` changes. */
  lemma RedirectedExact(sorting: seq<SortEntry>, selected: nat, desc: bool)
    ensures Redirected(sorting, selected, desc).None? <==> forall e :: e in sorting ==> e.id != IdString(selected)
    ensures match Redirected(sorting, selected, desc)
      case None => true
      case Some(v) =>
        && |v| == |sorting|
        && (forall k :: 0 <= k < |v| ==> v[k].id == sorting[k].id)
        && (exists k :: 0 <= k < |v| && v[k] == SortEntry(IdString(selected), desc) &&
              forall m :: 0 <= m < |v| && m != k ==> v[m] == sorting[m])
  {
    var i := FindIndex(sorting, SortsField(selected));
    if i == -1 {
      forall e | e in sorting ensures e.id != IdString(selected) {
        var k :| 0 <= k < |sorting| && sorting[k] == e;
        assert !SortsField(selected)(sorting[k]);
      }
    } else {
      assert sorting[i] in sorting;
    }
  }

  /** The remove button's handler: copy the list and splice at the row's entry's position. */
  method Remove(s: Session, selected: nat)
    modifies s
    ensures s.sorting == SpliceOne(old(s.sorting), FindIndex(old(s.sorting), SortsField(selected)))
    ensures s.filters == old(s.filters) && s.hiddenFields == old(s.hiddenFields) && s.loaded == old(s.loaded)
    ensures s.sent == old(s.sent) + if s.loaded then [SortSaved(s.viewId, s.sorting)] else []
  {
    var newSorting := s.sorting;
    var index := FindIndex(s.sorting, SortsField(selected));
    newSorting := SpliceOne(newSorting, index);
    s.SetSorting(newSorting);
  }

  /**
   * Removing the row's entry drops it and keeps the other entries in their
   * order. With no entry for the row's field, `findIndex` answers -1 and the
   * splice drops the last entry instead.
   */
  lemma RemoveExact(sorting: seq<SortEntry>, selected: nat)
    ensures var r := SpliceOne(sorting, FindIndex(sorting, SortsField(selected)));
      if FindIndex(sorting, SortsField(selected)) != -1 then
        && r == RemoveFirst(sorting, SortsField(selected))
        && |r| == |sorting| - 1
        && Where(r, NotField(selected)) == Where(sorting, NotField(selected))
      else |sorting| > 0 ==> r == sorting[..|sorting| - 1]
  {
    if FindIndex(sorting, SortsField(selected)) != -1 {
      SpliceFound(sorting, SortsField(selected));
      RemoveFirstKeeps(sorting, SortsField(selected), NotField(selected));
    }
  }

  function NotField(a: nat): SortEntry -> bool {
    (e: SortEntry) => e.id != IdString(a)
  }
}
