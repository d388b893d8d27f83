/**
 * Bases (src/server/api/routers/base.ts). Every endpoint is scoped to the
 * caller: a base is listed, deleted, renamed or opened only when its
 * `userId` is the caller's. `open` stamps the base with the current time,
 * which `getAll` sorts by, newest first; the clock is a parameter here.
 */
module BaseRouter {
  import opened Common
  import opened Rows
  import opened Entities
  import opened Store

  const NoBaseDeleted := "Error occured, no base deleted"
  const BaseNotFound := "Base not found"

  /** A consistent store with its bases replaced by bases keyed below a larger bound. */
  lemma BasesReplaced(st: DbState, bases: seq<Row<Base>>, next: nat)
    requires Consistent(st) && st.nextId <= next
    requires KeyedBelow(bases, next)
    ensures Consistent(st.(bases := bases, nextId := next))
  {
    NextIdGrows(st, next);
  }

  /** `base.create`: a base with a non-empty name, owned by the caller, stamped with `now`. */
  method Create(db: Db, user: UserId, name: string, now: int) returns (r: Result<Row<Base>>)
    requires db.Valid()
    modifies db
    ensures db.Valid()
    ensures var st := old(db.State());
      if |name| == 0 then r == Err(InvalidInput("name")) && db.State() == st
      else (r == Ok(Row(st.nextId, Base(name, user, now))) &&
            db.State() == st.(bases := st.bases + [r.value], nextId := st.nextId + 1))
  {
    if |name| == 0 {
      return Err(InvalidInput("name"));
    }
    ghost var st := db.State();
    var b := Row(db.nextId, Base(name, user, now));
    db.bases := db.bases + [b];
    db.nextId := db.nextId + 1;
    AppendOneKeyed(st.bases, b.data, st.nextId);
    BasesReplaced(st, st.bases + [b], st.nextId + 1);
    r := Ok(b);
  }

  /** Newest first: `modifiedAt` never increases along `s`. */
  predicate NewestFirst(s: seq<Row<Base>>) {
    forall i, j :: 0 <= i < j < |s| ==> s[i].data.modifiedAt >= s[j].data.modifiedAt
  }

  /** `x` placed into a newest-first list before the first base that is not newer. */
  function Insert(x: Row<Base>, s: seq<Row<Base>>): (r: seq<Row<Base>>)
    requires NewestFirst(s)
    ensures NewestFirst(r)
    ensures multiset(r) == multiset(s) + multiset{x}
  {
    if |s| == 0 || x.data.modifiedAt >= s[0].data.modifiedAt then
      PrependNewest(x, s);
      [x] + s
    else
      var rest := Insert(x, s[1..]);
      InsertedAfter(x, s, rest);
      [s[0]] + rest
  }

  lemma PrependNewest(x: Row<Base>, s: seq<Row<Base>>)
    requires NewestFirst(s) && (|s| == 0 || x.data.modifiedAt >= s[0].data.modifiedAt)
    ensures NewestFirst([x] + s)
  {
  }

  /** The head of `s`, newer than `x`, stays in front of `x` inserted into the rest. */
  lemma InsertedAfter(x: Row<Base>, s: seq<Row<Base>>, rest: seq<Row<Base>>)
    requires NewestFirst(s) && |s| > 0 && x.data.modifiedAt < s[0].data.modifiedAt
    requires NewestFirst(rest) && multiset(rest) == multiset(s[1..]) + multiset{x}
    ensures NewestFirst([s[0]] + rest)
    ensures multiset([s[0]] + rest) == multiset(s) + multiset{x}
  {
    assert s == [s[0]] + s[1..];
    forall j | 0 <= j < |rest| ensures s[0].data.modifiedAt >= rest[j].data.modifiedAt {
      assert rest[j] in multiset(rest);
      if rest[j] != x {
        assert rest[j] in s[1..];
        var k :| 0 <= k < |s[1..]| && s[1..][k] == rest[j];
        assert s[k + 1] == rest[j];
      }
    }
  }

  /** The bases of `s` ordered by `modifiedAt`, newest first. */
  function ByRecency(s: seq<Row<Base>>): (r: seq<Row<Base>>)
    ensures NewestFirst(r)
    ensures multiset(r) == multiset(s)
  {
    if |s| == 0 then []
    else
      assert s == [s[0]] + s[1..];
      Insert(s[0], ByRecency(s[1..]))
  }

  function BaseOf(user: UserId): Row<Base> -> bool {
    (b: Row<Base>) => b.data.userId == user
  }

  /** `base.getAll`: the caller's bases, newest first. */
  function GetAll(st: DbState, user: UserId): (r: seq<Row<Base>>)
    ensures NewestFirst(r)
    ensures forall i :: 0 <= i < |r| ==> r[i] in st.bases && r[i].data.userId == user
  {
    WhereKept(st.bases, BaseOf(user));
    RecencyMembers(Where(st.bases, BaseOf(user)));
    ByRecency(Where(st.bases, BaseOf(user)))
  }

  /** Ordering by recency neither adds nor drops a base. */
  lemma RecencyMembers(s: seq<Row<Base>>)
    ensures forall x :: x in ByRecency(s) <==> x in s
  {
    forall x ensures x in ByRecency(s) <==> x in s {
      assert x in ByRecency(s) <==> x in multiset(ByRecency(s));
      assert x in s <==> x in multiset(s);
    }
  }

  /** `getAll` lists exactly the caller's bases, each once, newest first. */
  lemma GetAllExact(st: DbState, user: UserId, b: Row<Base>)
    ensures b in GetAll(st, user) <==> b in st.bases && b.data.userId == user
    ensures NewestFirst(GetAll(st, user))
    ensures |GetAll(st, user)| == |Where(st.bases, BaseOf(user))|
  {
    var w := Where(st.bases, BaseOf(user));
    WhereMembers(st.bases, BaseOf(user), b);
    assert b in GetAll(st, user) <==> b in multiset(GetAll(st, user));
    assert b in w <==> b in multiset(w);
    assert |GetAll(st, user)| == |multiset(GetAll(st, user))| == |multiset(w)| == |w|;
  }

  /** A base just created is listed for its owner. */
  lemma CreatedListed(st: DbState, user: UserId, name: string, now: int)
    ensures var b := Row(st.nextId, Base(name, user, now));
      b in GetAll(st.(bases := st.bases + [b], nextId := st.nextId + 1), user)
  {
    var b := Row(st.nextId, Base(name, user, now));
    var st' := st.(bases := st.bases + [b], nextId := st.nextId + 1);
    assert st'.bases[|st.bases|] == b;
    GetAllExact(st', user, b);
  }

  /** The rows `deleteMany({ where: { id, userId } })` keeps. */
  function NotMatching(id: nat, user: UserId): Row<Base> -> bool {
    (b: Row<Base>) => !(b.id == id && b.data.userId == user)
  }

  /** `base.delete`: removes the caller's base `id`, and fails when nothing was removed. */
  method Delete(db: Db, user: UserId, id: nat) returns (r: Result<()>)
    requires db.Valid()
    modifies db
    ensures db.Valid()
    ensures var st := old(db.State());
      if OwnsBase(st, user, id) then r == Ok(()) && db.State() == st.(bases := Where(st.bases, NotMatching(id, user)))
      else r == Err(Thrown(NoBaseDeleted)) && db.State() == st
  {
    ghost var st := db.State();
    var kept := Where(db.bases, NotMatching(id, user));
    var count := |db.bases| - |kept|;
    if OwnsBase(st, user, id) {
      var b :| b in st.bases && b.id == id && b.data.userId == user;
      WhereShorter(st.bases, NotMatching(id, user), b);
    } else {
      WhereAll(st.bases, NotMatching(id, user)) by {
        forall i | 0 <= i < |st.bases| ensures NotMatching(id, user)(st.bases[i]) {
          assert st.bases[i] in st.bases;
        }
      }
    }
    WhereKeyed(st.bases, NotMatching(id, user), st.nextId);
    BasesReplaced(st, kept, st.nextId);
    db.bases := kept;
    if count == 0 {
      return Err(Thrown(NoBaseDeleted));
    }
    r := Ok(());
  }

  /** After `delete`, the caller has no base `id`, and every other base is kept. */
  lemma DeleteExact(st: DbState, user: UserId, id: nat, x: Row<Base>)
    ensures x in Where(st.bases, NotMatching(id, user)) <==> x in st.bases && !(x.id == id && x.data.userId == user)
    ensures !OwnsBase(st.(bases := Where(st.bases, NotMatching(id, user))), user, id)
  {
    WhereMembers(st.bases, NotMatching(id, user), x);
    forall b | b in Where(st.bases, NotMatching(id, user)) ensures !(b.id == id && b.data.userId == user) {
      WhereMembers(st.bases, NotMatching(id, user), b);
    }
  }

  /** The `findFirst({ where: { id, userId } })` of `rename` and `open`. */
  function OwnedBase(st: DbState, user: UserId, id: nat): (r: Option<Row<Base>>)
    ensures r.Some? <==> OwnsBase(st, user, id)
    ensures r.Some? ==> r.value in st.bases && r.value.id == id && r.value.data.userId == user
  {
    var p := (b: Row<Base>) => b.id == id && b.data.userId == user;
    var r := First(st.bases, p);
    assert r.None? ==> forall b :: b in st.bases ==> !p(b) by {
      if r.None? {
        forall b | b in st.bases ensures !p(b) {
          var i :| 0 <= i < |st.bases| && st.bases[i] == b;
        }
      }
    }
    r
  }

  /** The store with base `b.id` holding `b`'s data. */
  function WithBase(st: DbState, b: Row<Base>): DbState {
    st.(bases := UpdateById(st.bases, b.id, b.data))
  }

  lemma WithBaseConsistent(st: DbState, b: Row<Base>)
    requires Consistent(st)
    ensures Consistent(WithBase(st, b))
  {
    UpdateKeyed(st.bases, b.id, b.data, st.nextId);
    BasesReplaced(st, UpdateById(st.bases, b.id, b.data), st.nextId);
  }

  /** Replacing a base's data changes that base only. */
  lemma WithBaseChangesOne(st: DbState, b: Row<Base>, x: Row<Base>)
    requires b.id in set y | y in st.bases :: y.id
    ensures x in WithBase(st, b).bases <==> (x in st.bases && x.id != b.id) || x == b
    ensures WithBase(st, b).tables == st.tables && WithBase(st, b).nextId == st.nextId
  {
    UpdateMembers(st.bases, b.id, b.data, x);
    var y :| y in st.bases && y.id == b.id;
    var i :| 0 <= i < |st.bases| && st.bases[i] == y;
  }

  /** `base.rename`: the caller's base `id` gets the non-empty `name`; nothing else about it changes. */
  method Rename(db: Db, user: UserId, id: nat, name: string) returns (r: Result<Row<Base>>)
    requires db.Valid()
    modifies db
    ensures db.Valid()
    ensures var st := old(db.State());
      if |name| == 0 then r == Err(InvalidInput("name")) && db.State() == st
      else match OwnedBase(st, user, id)
        case None => r == Err(Thrown(BaseNotFound)) && db.State() == st
        case Some(b) => r == Ok(Row(id, b.data.(name := name))) && db.State() == WithBase(st, r.value)
  {
    if |name| == 0 {
      return Err(InvalidInput("name"));
    }
    var found := OwnedBase(db.State(), user, id);
    if found.None? {
      return Err(Thrown(BaseNotFound));
    }
    var b := Row(id, found.value.data.(name := name));
    WithBaseConsistent(db.State(), b);
    db.bases := UpdateById(db.bases, b.id, b.data);
    r := Ok(b);
  }

  /** `base.open`: the caller's base `id` gets `modifiedAt := now`; nothing else about it changes. */
  method Open(db: Db, user: UserId, id: nat, now: int) returns (r: Result<Row<Base>>)
    requires db.Valid()
    modifies db
    ensures db.Valid()
    ensures var st := old(db.State());
      match OwnedBase(st, user, id)
      case None => r == Err(Thrown(BaseNotFound)) && db.State() == st
      case Some(b) => r == Ok(Row(id, b.data.(modifiedAt := now))) && db.State() == WithBase(st, r.value)
  {
    var found := OwnedBase(db.State(), user, id);
    if found.None? {
      return Err(Thrown(BaseNotFound));
    }
    var b := Row(id, found.value.data.(modifiedAt := now));
    WithBaseConsistent(db.State(), b);
    db.bases := UpdateById(db.bases, b.id, b.data);
    r := Ok(b);
  }

  /**
   * A base opened at a time later than every other base of the caller is
   * the first one `getAll` lists.
   */
  lemma OpenedListedFirst(st: DbState, user: UserId, id: nat, now: int)
    requires OwnsBase(st, user, id)
    requires forall c :: c in st.bases && c.data.userId == user && c.id != id ==> c.data.modifiedAt < now
    ensures var b := OwnedBase(st, user, id).value;
      var l := GetAll(WithBase(st, Row(id, b.data.(modifiedAt := now))), user);
      |l| > 0 && l[0] == Row(id, b.data.(modifiedAt := now))
  {
    var b := OwnedBase(st, user, id).value;
    var o := Row(id, b.data.(modifiedAt := now));
    var st' := WithBase(st, o);
    var l := GetAll(st', user);
    WithBaseChangesOne(st, o, o);
    GetAllExact(st', user, o);
    var k :| 0 <= k < |l| && l[k] == o;
    GetAllExact(st', user, l[0]);
    WithBaseChangesOne(st, o, l[0]);
  }
}
