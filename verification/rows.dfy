/**
 * A database table as the routers see it: a sequence of rows, each with an
 * id, kept in ascending id order (ids are handed out in creation order).
 * The generic operations here are the store primitives the routers call:
 * `findMany`/`deleteMany` (Where), `findFirst` (First), `update` by id
 * (UpdateById) and `createMany` (Numbered).
 */
module Rows {
  import opened Common

  datatype Row<T> = Row(id: nat, data: T)

  /** The elements of `s` that satisfy `p`, in their order in `s`. */
  function Where<T>(s: seq<T>, p: T -> bool): (r: seq<T>)
    ensures |r| <= |s|
  {
    if |s| == 0 then []
    else if p(s[0]) then [s[0]] + Where(s[1..], p)
    else Where(s[1..], p)
  }

  /** An element is kept exactly when it is in `s` and satisfies `p`. */
  lemma {:induction false} WhereMembers<T>(s: seq<T>, p: T -> bool, x: T)
    ensures x in Where(s, p) <==> x in s && p(x)
  {
    if |s| > 0 {
      WhereMembers(s[1..], p, x);
      assert s == [s[0]] + s[1..];
    }
  }

  /** Every element filtering keeps is an element of `s` that satisfies `p`. */
  lemma WhereKept<T>(s: seq<T>, p: T -> bool)
    ensures forall x :: x in Where(s, p) ==> x in s && p(x)
  {
    forall x | x in Where(s, p) ensures x in s && p(x) {
      WhereMembers(s, p, x);
    }
  }

  /** The first element of `s` that satisfies `p`, if any. */
  function First<T>(s: seq<T>, p: T -> bool): (r: Option<T>)
    ensures r.None? <==> forall i :: 0 <= i < |s| ==> !p(s[i])
    ensures r.Some? ==> exists i :: 0 <= i < |s| && s[i] == r.value && p(s[i]) &&
                                    forall k :: 0 <= k < i ==> !p(s[k])
  {
    if |s| == 0 then None
    else if p(s[0]) then Some(s[0])
    else
      var r := First(s[1..], p);
      if r.Some? then
        ghost var i :| 0 <= i < |s[1..]| && s[1..][i] == r.value && p(s[1..][i]) &&
                       forall k :: 0 <= k < i ==> !p(s[1..][k]);
        assert s[i + 1] == r.value;
        r
      else r
  }

  /** Ids strictly ascend along `s` and are all below `next`, the next id to hand out. */
  predicate KeyedBelow<T>(s: seq<Row<T>>, next: nat) {
    && (forall i, j :: 0 <= i < j < |s| ==> s[i].id < s[j].id)
    && (forall i :: 0 <= i < |s| ==> s[i].id < next)
  }

  /** No two elements of `s` share a key. */
  predicate DistinctBy<T, K(==)>(s: seq<T>, key: T -> K) {
    forall i, j :: 0 <= i < j < |s| ==> key(s[i]) != key(s[j])
  }

  /** `update({ where: { id }, data })`: the row with that id gets new data, every other row is kept. */
  function UpdateById<T>(s: seq<Row<T>>, id: nat, d: T): (r: seq<Row<T>>)
    ensures |r| == |s|
    ensures forall i :: 0 <= i < |s| ==> r[i].id == s[i].id
    ensures forall i :: 0 <= i < |s| && s[i].id != id ==> r[i] == s[i]
    ensures forall i :: 0 <= i < |s| && s[i].id == id ==> r[i].data == d
  {
    seq(|s|, i requires 0 <= i < |s| => if s[i].id == id then Row(id, d) else s[i])
  }

  /** `createMany`: new rows for `items`, numbered consecutively from `start`. */
  function Numbered<T>(items: seq<T>, start: nat): (r: seq<Row<T>>)
    ensures |r| == |items|
    ensures forall i :: 0 <= i < |items| ==> r[i] == Row(start + i, items[i])
  {
    seq(|items|, i requires 0 <= i < |items| => Row(start + i, items[i]))
  }

  function IdIsNot<T>(id: nat): Row<T> -> bool {
    (x: Row<T>) => x.id != id
  }

  /** `skip`/`take`: at most `take` elements of `s`, starting at position `skip`. */
  function SkipTake<T>(s: seq<T>, skip: nat, take: nat): (r: seq<T>)
    ensures |r| <= take
    ensures |r| == if skip >= |s| then 0 else if take <= |s| - skip then take else |s| - skip
    ensures forall i :: 0 <= i < |r| ==> skip + i < |s| && r[i] == s[skip + i]
  {
    if skip >= |s| then [] else if take <= |s| - skip then s[skip..skip + take] else s[skip..]
  }

  /** A filter nothing passes leaves nothing. */
  lemma {:induction false} WhereNone<T>(s: seq<T>, p: T -> bool)
    requires forall i :: 0 <= i < |s| ==> !p(s[i])
    ensures Where(s, p) == []
  {
    if |s| > 0 {
      assert forall i :: 0 <= i < |s[1..]| ==> s[1..][i] == s[i + 1];
      WhereNone(s[1..], p);
    }
  }

  /** A filter some element fails drops at least that element. */
  lemma {:induction false} WhereShorter<T>(s: seq<T>, p: T -> bool, x: T)
    requires x in s && !p(x)
    ensures |Where(s, p)| < |s|
  {
    if s[0] != x {
      assert x in s[1..];
      WhereShorter(s[1..], p, x);
    }
  }

  /** Filtering keeps the ids ascending and bounded. */
  lemma {:induction false} WhereKeyed<T(!new)>(s: seq<Row<T>>, p: Row<T> -> bool, next: nat)
    requires KeyedBelow(s, next)
    ensures KeyedBelow(Where(s, p), next)
  {
    if |s| > 0 {
      var t := s[1..];
      assert KeyedBelow(t, next);
      WhereKeyed(t, p, next);
      var w := Where(t, p);
      forall j | 0 <= j < |w|
        ensures s[0].id < w[j].id
      {
        WhereMembers(t, p, w[j]);
        var k :| 0 <= k < |t| && t[k] == w[j];
        assert s[k + 1] == w[j];
      }
    }
  }

  /** Filtering keeps keys distinct. */
  lemma {:induction false} WhereDistinct<T(!new), K>(s: seq<T>, p: T -> bool, key: T -> K)
    requires DistinctBy(s, key)
    ensures DistinctBy(Where(s, p), key)
  {
    if |s| > 0 {
      var t := s[1..];
      assert DistinctBy(t, key);
      WhereDistinct(t, p, key);
      var w := Where(t, p);
      forall j | 0 <= j < |w|
        ensures key(s[0]) != key(w[j])
      {
        WhereMembers(t, p, w[j]);
        var k :| 0 <= k < |t| && t[k] == w[j];
        assert s[k + 1] == w[j];
      }
    }
  }

  /** Filtering by `q` after filtering by a weaker `p` is filtering by `q` alone. */
  lemma {:induction false} WhereWhere<T(!new)>(s: seq<T>, p: T -> bool, q: T -> bool)
    requires forall x :: q(x) ==> p(x)
    ensures Where(Where(s, p), q) == Where(s, q)
  {
    if |s| > 0 {
      WhereWhere(s[1..], p, q);
      if p(s[0]) {
        assert Where(s, p) == [s[0]] + Where(s[1..], p);
        assert Where(s, p)[1..] == Where(s[1..], p);
      }
    }
  }

  /** Filtering distributes over concatenation. */
  lemma {:induction false} WhereAppend<T(!new)>(s: seq<T>, t: seq<T>, p: T -> bool)
    ensures Where(s + t, p) == Where(s, p) + Where(t, p)
  {
    if |s| > 0 {
      assert (s + t)[1..] == s[1..] + t;
      WhereAppend(s[1..], t, p);
    } else {
      assert s + t == t;
    }
  }

  /** A filter every element passes keeps the sequence as it is. */
  lemma {:induction false} WhereAll<T>(s: seq<T>, p: T -> bool)
    requires forall i :: 0 <= i < |s| ==> p(s[i])
    ensures Where(s, p) == s
  {
    if |s| > 0 {
      assert forall i :: 0 <= i < |s[1..]| ==> s[1..][i] == s[i + 1];
      WhereAll(s[1..], p);
      assert [s[0]] + s[1..] == s;
    }
  }

  /** Appending freshly numbered rows keeps the ids ascending and moves the bound past them. */
  lemma AppendKeyed<T>(s: seq<Row<T>>, items: seq<T>, next: nat)
    requires KeyedBelow(s, next)
    ensures KeyedBelow(s + Numbered(items, next), next + |items|)
  {
    var r := s + Numbered(items, next);
    forall i, j | 0 <= i < j < |r|
      ensures r[i].id < r[j].id
    {
      if j >= |s| && i < |s| {
        assert r[i].id < next <= r[j].id;
      }
    }
  }

  /** Rows with ids in [lo, hi) appended to rows keyed below `lo` give rows keyed below `hi`. */
  lemma ConcatKeyed<T>(s: seq<Row<T>>, t: seq<Row<T>>, lo: nat, hi: nat)
    requires KeyedBelow(s, lo) && KeyedBelow(t, hi) && lo <= hi
    requires forall x :: x in t ==> lo <= x.id
    ensures KeyedBelow(s + t, hi)
  {
    var r := s + t;
    forall i, j | 0 <= i < j < |r|
      ensures r[i].id < r[j].id
    {
      if i < |s| && j >= |s| {
        assert r[j] == t[j - |s|] && r[j] in t;
      } else if i >= |s| {
        assert r[i] == t[i - |s|] && r[j] == t[j - |s|];
      }
    }
    forall i | 0 <= i < |r| ensures r[i].id < hi {
      if i >= |s| {
        assert r[i] == t[i - |s|];
      }
    }
  }

  /** Deleting by id drops exactly one row from a sequence whose ids ascend. */
  lemma {:induction false} WhereDropsOne<T>(s: seq<Row<T>>, x: Row<T>, next: nat)
    requires KeyedBelow(s, next) && x in s
    ensures |Where(s, IdIsNot(x.id))| == |s| - 1
  {
    assert KeyedBelow(s[1..], next);
    if s[0] == x {
      forall k | 0 <= k < |s[1..]| ensures IdIsNot(x.id)(s[1..][k]) {
        assert s[1..][k] == s[k + 1];
      }
      WhereAll(s[1..], IdIsNot(x.id));
    } else {
      WhereDropsOne(s[1..], x, next);
    }
  }

  /** Filtering keeps only elements of `s`: each kept element sits at some position of `s`. */
  lemma WhereSubset<T>(s: seq<T>, p: T -> bool)
    ensures forall i :: 0 <= i < |Where(s, p)| ==> exists j :: 0 <= j < |s| && s[j] == Where(s, p)[i]
  {
    var w := Where(s, p);
    forall i | 0 <= i < |w| ensures exists j :: 0 <= j < |s| && s[j] == w[i] {
      WhereMembers(s, p, w[i]);
    }
  }

  /** An update by id keeps only the rows of `s` and the updated row. */
  lemma UpdateSubset<T>(s: seq<Row<T>>, id: nat, d: T)
    ensures forall x :: x in UpdateById(s, id, d) ==> x in s || x == Row(id, d)
  {
    forall x | x in UpdateById(s, id, d) ensures x in s || x == Row(id, d) {
      UpdateMembers(s, id, d, x);
    }
  }

  /** Updating a row's data keeps the ids ascending and bounded. */
  lemma UpdateKeyed<T>(s: seq<Row<T>>, id: nat, d: T, next: nat)
    requires KeyedBelow(s, next)
    ensures KeyedBelow(UpdateById(s, id, d), next)
  {
  }

  /** Membership in an updated table: every row but the updated one is kept; the updated one carries the new data. */
  lemma UpdateMembers<T>(s: seq<Row<T>>, id: nat, d: T, x: Row<T>)
    ensures x in UpdateById(s, id, d) <==>
              (x in s && x.id != id) || (x == Row(id, d) && exists i :: 0 <= i < |s| && s[i].id == id)
  {
    var r := UpdateById(s, id, d);
    if x in r {
      var i :| 0 <= i < |r| && r[i] == x;
      if s[i].id != id { assert x == s[i]; } else { assert x == Row(id, d); }
    }
    if x in s && x.id != id {
      var i :| 0 <= i < |s| && s[i] == x;
      assert r[i] == x;
    }
    if x == Row(id, d) && exists i :: 0 <= i < |s| && s[i].id == id {
      var i :| 0 <= i < |s| && s[i].id == id;
      assert r[i] == x;
    }
  }

  /** Two key-distinct sequences with no key in common concatenate to a key-distinct sequence. */
  lemma DistinctConcat<T, K>(a: seq<T>, b: seq<T>, key: T -> K)
    requires DistinctBy(a, key) && DistinctBy(b, key)
    requires forall i, j :: 0 <= i < |a| && 0 <= j < |b| ==> key(a[i]) != key(b[j])
    ensures DistinctBy(a + b, key)
  {
    var c := a + b;
    forall i, j | 0 <= i < j < |c| ensures key(c[i]) != key(c[j]) {
      if j < |a| {
      } else if i >= |a| {
        assert c[i] == b[i - |a|] && c[j] == b[j - |a|];
      } else {
        assert c[j] == b[j - |a|];
      }
    }
  }
}
