/** The `bookmarks` object store (key path `id`, a non-unique `createdAt`
    index and a multi-entry `tags` index) and the four operations of `dbOps`.
    Each operation runs in its own transaction; here each is one atomic step,
    and the clock readings `Date.now()` and `new Date()` are parameters. */
module Db {
  import opened Bookmarks

  /** The only failure the operations report: IndexedDB's "ConstraintError",
      raised by `add` when the key is already in the store. */
  datatype StoreError = ConstraintError

  datatype Result<T> = Ok(value: T) | Err(error: StoreError)

  /** The item `add` stores: the draft's fields, with `id` defaulting to the
      millisecond clock and `createdAt` to the current time when falsy. */
  function NewItem(d: Draft, now: int, nowIso: int): (item: Bookmark)
    ensures HasId(d) ==> item.id == d.id.value
    ensures !HasId(d) ==> item.id == now
    ensures HasCreatedAt(d) ==> item.createdAt == d.createdAt.value
    ensures !HasCreatedAt(d) ==> item.createdAt == nowIso
    ensures item.url == d.url && item.title == d.title
    ensures item.description == d.description && item.tags == d.tags
  {
    Bookmark(
      if HasId(d) then d.id.value else now,
      d.url, d.title, d.description, d.tags,
      if HasCreatedAt(d) then d.createdAt.value else nowIso)
  }

  /** A record exported as JSON and handed back to `add` is rebuilt exactly,
      whatever the clocks say, unless its id is 0 (which `||` treats as missing). */
  lemma ExportedRecordRebuilds(b: Bookmark, now: int, nowIso: int)
    ensures b.id != 0 ==> NewItem(ToDraft(b), now, nowIso) == b
    ensures b.id == 0 ==> NewItem(ToDraft(b), now, nowIso) == b.(id := now)
  {
  }

  /** The store's key path is `id`: every record sits under its own id. */
  ghost predicate KeyedById(m: map<int, Bookmark>)
  {
    forall k :: k in m ==> m[k].id == k
  }

  /** Strictly increasing ids, the key order in which `getAll` returns records. */
  predicate IdsAscending(s: seq<Bookmark>)
  {
    forall i, j :: 0 <= i < j < |s| ==> s[i].id < s[j].id
  }

  // --------------------------------------------------------- the tags index

  /** What the multi-entry `tags` index yields for key `t`: the primary keys
      of the records whose `tags` contain `t` (one entry per record, however
      often `t` repeats in its tags). */
  function TagIndex(m: map<int, Bookmark>, t: string): (ks: set<int>)
    ensures forall k :: k in ks <==> k in m && t in m[k].tags
  {
    set k | k in m && t in m[k].tags
  }

  /** The keys of the `tags` index: every tag of every record. */
  function IndexKeys(m: map<int, Bookmark>): (ts: set<string>)
    ensures forall t :: t in ts <==> exists k :: k in m && t in m[k].tags
  {
    set k, t | k in m && t in m[k].tags :: t
  }

  /** After `put(b)`, `b.id` is listed under exactly the tags of `b`: its old
      tags no longer find it unless `b` still carries them. */
  lemma PutReindexes(m: map<int, Bookmark>, b: Bookmark, t: string)
    ensures TagIndex(m[b.id := b], t) ==
            (TagIndex(m, t) - {b.id}) + (if t in b.tags then {b.id} else {})
  {
    var lhs := TagIndex(m[b.id := b], t);
    var rhs := (TagIndex(m, t) - {b.id}) + (if t in b.tags then {b.id} else {});
    assert forall k :: k in lhs <==> k in rhs;
  }

  /** After `delete(id)`, no index key finds `id`, and nothing else changes. */
  lemma DeleteReindexes(m: map<int, Bookmark>, id: int, t: string)
    ensures TagIndex(m - {id}, t) == TagIndex(m, t) - {id}
  {
    var lhs := TagIndex(m - {id}, t);
    var rhs := TagIndex(m, t) - {id};
    assert forall k :: k in lhs <==> k in rhs;
  }

  /** A set of keys holding `x` has a least element (the next key `getAll` visits). */
  lemma {:induction false} LeastKeyExists(s: set<int>, x: int)
    requires x in s
    ensures exists m :: m in s && forall k :: k in s ==> m <= k
    decreases s
  {
    if !forall k :: k in s ==> x <= k {
      var y :| y in s && y < x;
      LeastKeyExists(s - {x}, y);
      var m :| m in s - {x} && forall k :: k in s - {x} ==> m <= k;
      forall k | k in s ensures m <= k {
        if k != x { assert k in s - {x}; }
      }
    }
  }

  /** Some key of a non-empty key set. */
  lemma AnyKey(s: set<int>) returns (x: int)
    requires |s| > 0
    ensures x in s
  {
    assert (forall y :: y !in s) ==> s == {};
    x :| x in s;
  }

  // ----------------------------------------------------------- the store

  class BookmarkStore {
    /** The object store's contents, by primary key. */
    var records: map<int, Bookmark>

    ghost predicate Valid()
      reads this
    {
      KeyedById(records)
    }

    /** The store as `onupgradeneeded` creates it: empty. */
    constructor ()
      ensures Valid() && records == map[]
    {
      records := map[];
    }

    /** `dbOps.getAll`: every stored record once, in ascending key order. */
    method GetAll() returns (all: seq<Bookmark>)
      requires Valid()
      ensures IdsAscending(all)
      ensures forall b :: b in all <==> b.id in records && records[b.id] == b
      ensures |all| == |records|
    {
      all := [];
      var rest := records.Keys;
      while |rest| > 0
        invariant rest <= records.Keys
        invariant IdsAscending(all)
        invariant forall b :: b in all <==> b.id in records && b.id !in rest && records[b.id] == b
        invariant forall i, k :: 0 <= i < |all| && k in rest ==> all[i].id < k
        invariant |all| + |rest| == |records|
        decreases rest
      {
        ghost var some := AnyKey(rest);
        LeastKeyExists(rest, some);
        var k :| k in rest && forall j :: j in rest ==> k <= j;
        all := all + [records[k]];
        rest := rest - {k};
      }
    }

    /** `dbOps.add`: builds the item, then inserts it without overwriting.
        An id already in the store (an explicit one, or two id-less adds in the
        same millisecond) fails with ConstraintError and changes nothing. */
    method Add(d: Draft, now: int, nowIso: int) returns (r: Result<Bookmark>)
      requires Valid()
      modifies this
      ensures Valid()
      ensures var item := NewItem(d, now, nowIso);
              if item.id in old(records) then r == Err(ConstraintError) && records == old(records)
              else r == Ok(item) && records == old(records)[item.id := item]
    {
      var item := NewItem(d, now, nowIso);
      if item.id in records {
        r := Err(ConstraintError);
      } else {
        records := records[item.id := item];
        r := Ok(item);
      }
    }

    /** `dbOps.update`: a `put`, which inserts or replaces the record under
        `b.id` whether or not it was there, and resolves with `b`. */
    method Update(b: Bookmark) returns (r: Bookmark)
      requires Valid()
      modifies this
      ensures Valid()
      ensures r == b && records == old(records)[b.id := b]
    {
      records := records[b.id := b];
      r := b;
    }

    /** `dbOps.delete`: removes the key, succeeding also when it is absent,
        and resolves with the id. */
    method Delete(id: int) returns (r: int)
      requires Valid()
      modifies this
      ensures Valid()
      ensures r == id && records == old(records) - {id}
    {
      records := records - {id};
      r := id;
    }
  }

  /** Two adds without an id in the same millisecond collide: the second is refused. */
  method SameMillisecondAddsCollide(d1: Draft, d2: Draft, now: int, nowIso: int)
    returns (r1: Result<Bookmark>, r2: Result<Bookmark>)
    requires !HasId(d1) && !HasId(d2)
    ensures r1.Ok? && r1.value.id == now
    ensures r2 == Err(ConstraintError)
  {
    var store := new BookmarkStore();
    r1 := store.Add(d1, now, nowIso);
    r2 := store.Add(d2, now, nowIso);
  }

  /** Adding the same explicit id twice: the first succeeds, the second is refused
      and the store still holds the first record. */
  method DuplicateIdRefused(d: Draft, now1: int, now2: int, nowIso: int)
    returns (r1: Result<Bookmark>, r2: Result<Bookmark>, all: seq<Bookmark>)
    requires HasId(d)
    ensures r1 == Ok(NewItem(d, now1, nowIso))
    ensures r2 == Err(ConstraintError)
    ensures all == [NewItem(d, now1, nowIso)]
  {
    var store := new BookmarkStore();
    r1 := store.Add(d, now1, nowIso);
    r2 := store.Add(d, now2, nowIso);
    all := store.GetAll();
    assert all[0] in all;
  }

  /** Deleting a missing id succeeds and leaves `getAll` as it was. */
  method DeleteAbsentIsHarmless(b: Bookmark, other: int, now: int)
    returns (before: seq<Bookmark>, r: int, after: seq<Bookmark>)
    requires other != b.id
    ensures r == other
    ensures before == after == [b]
  {
    var store := new BookmarkStore();
    var _ := store.Update(b);
    before := store.GetAll();
    assert before[0] in before;
    r := store.Delete(other);
    after := store.GetAll();
    assert after[0] in after;
  }
}
