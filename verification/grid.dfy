/**
 * The grid (src/app/_components/base/table.tsx): the map from column id to
 * field type, the column layout, the replacement of one cell in the loaded
 * rows, the concatenation of fetched pages and the condition for fetching
 * the next page. Column ids are field ids rendered as strings, beside the
 * row-number column "id".
 */
module Grid {
  import opened Common
  import opened Rows
  import opened Entities

  /** `types`: each field's id string mapped to its type, built by `reduce` in field order. */
  function Types(fields: seq<Row<Field>>): (r: map<string, FieldType>)
    ensures forall i :: 0 <= i < |fields| ==> IdString(fields[i].id) in r
    ensures |fields| > 0 ==> r[IdString(fields[|fields| - 1].id)] == fields[|fields| - 1].data.fieldType
    decreases |fields|
  {
    if |fields| == 0 then map[]
    else
      var f := fields[|fields| - 1];
      Types(fields[..|fields| - 1])[IdString(f.id) := f.data.fieldType]
  }

  /** Its keys are the fields' id strings, and with distinct ids each maps to its field's type. */
  lemma TypesExact(fields: seq<Row<Field>>, k: string)
    requires DistinctBy(fields, RowId)
    ensures k in Types(fields) <==> exists f :: f in fields && IdString(f.id) == k
    ensures forall f :: f in fields ==> IdString(f.id) in Types(fields) && Types(fields)[IdString(f.id)] == f.data.fieldType
  {
    TypesKeys(fields, k);
    TypesValues(fields);
  }

  /** A key of `types` is the id string of some field. */
  lemma {:induction false} TypesKeys(fields: seq<Row<Field>>, k: string)
    ensures k in Types(fields) <==> exists f :: f in fields && IdString(f.id) == k
    decreases |fields|
  {
    if |fields| > 0 {
      var init := fields[..|fields| - 1];
      TypesKeys(init, k);
      assert fields == init + [fields[|fields| - 1]];
    }
  }

  /** With distinct ids, no later field overwrites an earlier field's entry. */
  lemma {:induction false} TypesValues(fields: seq<Row<Field>>)
    requires DistinctBy(fields, RowId)
    ensures forall f :: f in fields ==> Types(fields)[IdString(f.id)] == f.data.fieldType
    decreases |fields|
  {
    if |fields| > 0 {
      var init := fields[..|fields| - 1];
      var last := fields[|fields| - 1];
      assert DistinctBy(init, RowId);
      TypesValues(init);
      forall f | f in fields ensures Types(fields)[IdString(f.id)] == f.data.fieldType {
        if f != last {
          var i :| 0 <= i < |fields| && fields[i] == f;
          assert i < |init| && init[i] == f;
          IdStringInjective(f.id, last.id);
        }
      }
    }
  }

  function RowId(f: Row<Field>): nat {
    f.id
  }

  /** The column ids: the row-number column "id", then one per field in field order. */
  function Columns(fields: seq<Row<Field>>): (cols: seq<string>)
    ensures |cols| == |fields| + 1 && cols[0] == "id"
    ensures forall i :: 0 <= i < |fields| ==> cols[i + 1] == IdString(fields[i].id)
  {
    ["id"] + seq(|fields|, i requires 0 <= i < |fields| => IdString(fields[i].id))
  }

  /** With distinct field ids, no two columns share an id: no field column is called "id". */
  lemma ColumnsDistinct(fields: seq<Row<Field>>)
    requires DistinctBy(fields, RowId)
    ensures forall i, j :: 0 <= i < j < |Columns(fields)| ==> Columns(fields)[i] != Columns(fields)[j]
  {
    var cols := Columns(fields);
    forall i, j | 0 <= i < j < |cols| ensures cols[i] != cols[j] {
      if i == 0 {
        NotAnIdString("id", fields[j - 1].id, 0);
      } else {
        IdStringInjective(fields[i - 1].id, fields[j - 1].id);
      }
    }
  }

  /** `updateData`: row `rowIndex` gets `v` under `columnId`; every row is copied otherwise. */
  function UpdateData<V>(rows: seq<map<string, V>>, rowIndex: int, columnId: string, v: V): (r: seq<map<string, V>>)
    ensures |r| == |rows|
    ensures forall i :: 0 <= i < |rows| && i != rowIndex ==> r[i] == rows[i]
  {
    seq(|rows|, i requires 0 <= i < |rows| => if i == rowIndex then rows[rowIndex][columnId := v] else rows[i])
  }

  /**
   * Only the row at the index changes, and in it only the column: the other
   * columns keep their values. An index outside the rows changes nothing,
   * and a second identical update changes nothing more.
   */
  lemma UpdateDataExact<V>(rows: seq<map<string, V>>, rowIndex: int, columnId: string, v: V)
    ensures 0 <= rowIndex < |rows| ==>
      var row := UpdateData(rows, rowIndex, columnId, v)[rowIndex];
      && columnId in row && row[columnId] == v
      && row.Keys == rows[rowIndex].Keys + {columnId}
      && forall c :: c in rows[rowIndex] && c != columnId ==> c in row && row[c] == rows[rowIndex][c]
    ensures !(0 <= rowIndex < |rows|) ==> UpdateData(rows, rowIndex, columnId, v) == rows
    ensures UpdateData(UpdateData(rows, rowIndex, columnId, v), rowIndex, columnId, v) == UpdateData(rows, rowIndex, columnId, v)
  {
    var r := UpdateData(rows, rowIndex, columnId, v);
    var r2 := UpdateData(r, rowIndex, columnId, v);
    if 0 <= rowIndex < |rows| {
      assert r2[rowIndex] == r[rowIndex];
    }
  }

  /** The grid's rows: `pages.flatMap((page) => page.records)`. */
  function AllRecords<R(!new)>(pages: seq<seq<R>>): (r: seq<R>)
    ensures forall x :: x in r <==> exists p :: 0 <= p < |pages| && x in pages[p]
    decreases |pages|
  {
    if |pages| == 0 then [] else AllRecords(pages[..|pages| - 1]) + pages[|pages| - 1]
  }

  /** The page sizes of `pages` summed. */
  function TotalSize<R>(pages: seq<seq<R>>): nat
    decreases |pages|
  {
    if |pages| == 0 then 0 else TotalSize(pages[..|pages| - 1]) + |pages[|pages| - 1]|
  }

  /** Fetching a page appends its records after the rows already loaded, which stay as they were. */
  lemma AllRecordsAppend<R(!new)>(pages: seq<seq<R>>, page: seq<R>)
    ensures AllRecords(pages + [page]) == AllRecords(pages) + page
  {
    assert (pages + [page])[..|pages|] == pages;
  }

  /** The grid holds every fetched record once: its length is the sum of the pages' sizes. */
  lemma {:induction false} AllRecordsSize<R(!new)>(pages: seq<seq<R>>)
    ensures |AllRecords(pages)| == TotalSize(pages)
    decreases |pages|
  {
    if |pages| > 0 {
      AllRecordsSize(pages[..|pages| - 1]);
    }
  }

  /** Record `k` of page `p` sits after the records of the pages before it. */
  lemma {:induction false} AllRecordsAt<R(!new)>(pages: seq<seq<R>>, p: nat, k: nat)
    requires p < |pages| && k < |pages[p]|
    ensures TotalSize(pages[..p]) + k < |AllRecords(pages)|
    ensures AllRecords(pages)[TotalSize(pages[..p]) + k] == pages[p][k]
    decreases |pages|
  {
    var init := pages[..|pages| - 1];
    AllRecordsSize(init);
    if p < |pages| - 1 {
      assert pages[..p] == init[..p];
      AllRecordsAt(init, p, k);
    } else {
      assert pages[..p] == init;
    }
  }

  /** A JavaScript value's truthiness, for the page cursor: absent and 0 are falsy. */
  function CursorTruthy(nextCursor: Option<int>): bool {
    nextCursor.Some? && nextCursor.value != 0
  }

  /** `fetchMoreOnBottomReached`'s condition, for a mounted container. */
  function ShouldFetchMore(scrollHeight: int, scrollTop: int, clientHeight: int, isFetching: bool, nextCursor: Option<int>): (r: bool)
    ensures r ==> scrollTop + clientHeight > scrollHeight - 500
    ensures nextCursor == None || nextCursor == Some(0) || isFetching ==> !r
  {
    scrollHeight - scrollTop - clientHeight < 500 && !isFetching && CursorTruthy(nextCursor)
  }

  /**
   * A page is fetched only near the bottom, never while a fetch is in
   * flight, and never without a cursor; a cursor of 0 counts as none.
   */
  lemma FetchMoreNeeds(scrollHeight: int, scrollTop: int, clientHeight: int, isFetching: bool, nextCursor: Option<int>)
    ensures ShouldFetchMore(scrollHeight, scrollTop, clientHeight, isFetching, nextCursor) ==>
      && scrollTop + clientHeight > scrollHeight - 500
      && !isFetching
      && nextCursor.Some? && nextCursor.value != 0
    ensures ShouldFetchMore(scrollHeight, scrollTop, clientHeight, isFetching, Some(0)) == false
    ensures ShouldFetchMore(scrollHeight, scrollTop, clientHeight, isFetching, None) == false
  {
  }
}
