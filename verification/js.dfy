/**
 * The JavaScript array primitives the client's list editors are built
 * from: `findIndex`/`indexOf`, which answer -1 when nothing matches, and
 * `splice(start, 1)`, which counts a negative start from the end. Beside
 * them, `RemoveFirst` is the plain meaning "drop the first match" that the
 * editors' find-then-splice steps implement.
 */
module Js {
  import opened Rows

  /** `findIndex`: the position of the first element satisfying `p`, or -1. */
  function FindIndex<T>(s: seq<T>, p: T -> bool): (i: int)
    ensures -1 <= i < |s|
    ensures i == -1 <==> forall k :: 0 <= k < |s| ==> !p(s[k])
    ensures 0 <= i ==> p(s[i]) && forall k :: 0 <= k < i ==> !p(s[k])
  {
    if |s| == 0 then -1
    else if p(s[0]) then 0
    else
      var j := FindIndex(s[1..], p);
      if j == -1 then -1 else j + 1
  }

  function Is<T(==)>(x: T): T -> bool {
    (y: T) => y == x
  }

  /** `indexOf`: `findIndex` by equality. */
  function IndexOf<T(==)>(s: seq<T>, x: T): int {
    FindIndex(s, Is(x))
  }

  /** `splice(start, 1)` applied to a copy of `s`: the copy afterwards. */
  function SpliceOne<T>(s: seq<T>, start: int): seq<T> {
    var at := if start >= 0 then start else if |s| + start >= 0 then |s| + start else 0;
    if at < |s| then s[..at] + s[at + 1..] else s
  }

  /** Splicing inside the array removes exactly that element. */
  lemma SpliceInside<T>(s: seq<T>, start: int)
    requires 0 <= start < |s|
    ensures |SpliceOne(s, start)| == |s| - 1
    ensures forall k :: 0 <= k < start ==> SpliceOne(s, start)[k] == s[k]
    ensures forall k :: start <= k < |s| - 1 ==> SpliceOne(s, start)[k] == s[k + 1]
  {
  }

  /** `splice(-1, 1)`, the result of splicing at a failed `findIndex`, drops the last element. */
  lemma SpliceMinusOne<T>(s: seq<T>)
    ensures |s| > 0 ==> SpliceOne(s, -1) == s[..|s| - 1]
    ensures |s| == 0 ==> SpliceOne(s, -1) == s
  {
  }

  /** Splicing before the end of `s` commutes with appending after it. */
  lemma SpliceAppend<T>(s: seq<T>, t: seq<T>, start: int)
    requires 0 <= start < |s|
    ensures SpliceOne(s + t, start) == SpliceOne(s, start) + t
  {
    SpliceAt(s + t, start);
    SpliceAt(s, start);
    assert (s + t)[..start] == s[..start];
    assert (s + t)[start + 1..] == s[start + 1..] + t;
  }

  /** `s` without its first element satisfying `p`; `s` itself when none does. */
  function RemoveFirst<T>(s: seq<T>, p: T -> bool): (r: seq<T>)
    ensures |r| == if FindIndex(s, p) == -1 then |s| else |s| - 1
    ensures forall x :: x in r ==> x in s
  {
    if |s| == 0 then []
    else if p(s[0]) then s[1..]
    else [s[0]] + RemoveFirst(s[1..], p)
  }

  /** Splicing at the position `findIndex` found is removing the first match. */
  lemma {:induction false} SpliceFound<T>(s: seq<T>, p: T -> bool)
    requires FindIndex(s, p) != -1
    ensures SpliceOne(s, FindIndex(s, p)) == RemoveFirst(s, p)
  {
    if p(s[0]) {
      SpliceAt(s, 0);
    } else {
      var j := FindIndex(s[1..], p);
      SpliceFound(s[1..], p);
      SpliceAt(s, j + 1);
      SpliceAt(s[1..], j);
      SpliceCons(s, j);
    }
  }

  lemma SpliceAt<T>(s: seq<T>, i: int)
    requires 0 <= i < |s|
    ensures SpliceOne(s, i) == s[..i] + s[i + 1..]
  {
  }

  lemma SpliceCons<T>(s: seq<T>, j: nat)
    requires j + 1 < |s|
    ensures s[..j + 1] + s[j + 2..] == [s[0]] + (s[1..][..j] + s[1..][j + 1..])
  {
    assert s[..j + 1] == [s[0]] + s[1..][..j];
    assert s[j + 2..] == s[1..][j + 1..];
  }

  /** With no match there is nothing to remove. */
  lemma {:induction false} RemoveFirstNone<T>(s: seq<T>, p: T -> bool)
    requires FindIndex(s, p) == -1
    ensures RemoveFirst(s, p) == s
  {
    if |s| > 0 {
      RemoveFirstNone(s[1..], p);
      assert [s[0]] + s[1..] == s;
    }
  }

  /** Removing the first match keeps every non-match, in order. */
  lemma {:induction false} RemoveFirstKeeps<T>(s: seq<T>, p: T -> bool, q: T -> bool)
    requires forall x :: q(x) ==> !p(x)
    ensures Where(RemoveFirst(s, p), q) == Where(s, q)
  {
    if |s| > 0 {
      if p(s[0]) {
        assert !q(s[0]);
      } else {
        RemoveFirstKeeps(s[1..], p, q);
        assert RemoveFirst(s, p) == [s[0]] + RemoveFirst(s[1..], p);
        assert ([s[0]] + RemoveFirst(s[1..], p))[1..] == RemoveFirst(s[1..], p);
      }
    }
  }

  /** Removing an element keeps the remaining keys distinct. */
  lemma {:induction false} RemoveFirstDistinct<T, K>(s: seq<T>, p: T -> bool, key: T -> K)
    requires DistinctBy(s, key)
    ensures DistinctBy(RemoveFirst(s, p), key)
  {
    if |s| > 0 {
      assert DistinctBy(s[1..], key);
      if !p(s[0]) {
        RemoveFirstDistinct(s[1..], p, key);
        var rest := RemoveFirst(s[1..], p);
        forall j | 0 <= j < |rest| ensures key(s[0]) != key(rest[j]) {
          assert rest[j] in s[1..];
          var k :| 0 <= k < |s[1..]| && s[1..][k] == rest[j];
          assert s[k + 1] == rest[j];
        }
        DistinctConcat([s[0]], rest, key);
      }
    }
  }

  /** When only one element satisfies `p`, none is left after removing the first. */
  lemma {:induction false} RemoveFirstOnly<T>(s: seq<T>, p: T -> bool)
    requires forall i, j :: 0 <= i < j < |s| && p(s[i]) ==> !p(s[j])
    ensures forall x :: x in RemoveFirst(s, p) ==> !p(x)
  {
    if |s| > 0 {
      if p(s[0]) {
        forall x | x in s[1..] ensures !p(x) {
          var k :| 0 <= k < |s[1..]| && s[1..][k] == x;
          assert s[k + 1] == x;
        }
      } else {
        forall i, j | 0 <= i < j < |s[1..]| && p(s[1..][i]) ensures !p(s[1..][j]) {
          assert s[1..][i] == s[i + 1] && s[1..][j] == s[j + 1];
        }
        RemoveFirstOnly(s[1..], p);
      }
    }
  }
}
