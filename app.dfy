/** The page state of the client (`allBookmarks`, `currentFilter`,
    `searchQuery`) and the handlers that read and change it together with
    the store: start-up, grid and chip rendering, the form submit, the card's
    delete button, the import loop and the delete-all loop. */
module App {
  import opened Bookmarks
  import opened Db
  import opened Query
  import opened Seqs
  import opened Text

  // ------------------------------------------------------------- the import

  /** The import loop's guard `item.url && item.title`. */
  predicate Importable(d: Draft)
  {
    d.url != "" && d.title != ""
  }

  /** The store after one turn of the import loop: an importable item is
      added unless its id is taken, in which case the rejection is swallowed. */
  function ImportStep(m: map<int, Bookmark>, d: Draft, now: int, nowIso: int): (r: map<int, Bookmark>)
    ensures forall k :: k in m ==> k in r && r[k] == m[k]
    ensures forall k :: k in r && k !in m ==> Importable(d) && r[k] == NewItem(d, now, nowIso)
    ensures |r| <= |m| + 1
  {
    if !Importable(d) then m
    else
      var item := NewItem(d, now, nowIso);
      if item.id in m then m else m[item.id := item]
  }

  /** The store after the import loop has run over `items`; `nows[i]` and
      `isos[i]` are the clock readings during the `add` of `items[i]`. */
  function ImportAll(m: map<int, Bookmark>, items: seq<Draft>, nows: seq<int>, isos: seq<int>): (r: map<int, Bookmark>)
    requires |nows| == |items| && |isos| == |items|
    ensures |r| <= |m| + |items|
  {
    if items == [] then m
    else
      var n := |items| - 1;
      ImportStep(ImportAll(m, items[..n], nows[..n], isos[..n]), items[n], nows[n], isos[n])
  }

  /** Import never removes or changes a record that was already stored. */
  lemma {:induction false} ImportKeepsExisting(m: map<int, Bookmark>, items: seq<Draft>, nows: seq<int>, isos: seq<int>, k: int)
    requires |nows| == |items| && |isos| == |items|
    requires k in m
    ensures k in ImportAll(m, items, nows, isos) && ImportAll(m, items, nows, isos)[k] == m[k]
  {
    if items != [] {
      var n := |items| - 1;
      ImportKeepsExisting(m, items[..n], nows[..n], isos[..n], k);
    }
  }

  /** Every new record comes from an importable item, built as `add` builds it. */
  lemma {:induction false} ImportAddsOnlyImportable(m: map<int, Bookmark>, items: seq<Draft>, nows: seq<int>, isos: seq<int>, k: int)
    requires |nows| == |items| && |isos| == |items|
    requires k in ImportAll(m, items, nows, isos) && k !in m
    ensures exists i :: 0 <= i < |items| && Importable(items[i]) &&
                        ImportAll(m, items, nows, isos)[k] == NewItem(items[i], nows[i], isos[i])
  {
    var n := |items| - 1;
    var before := ImportAll(m, items[..n], nows[..n], isos[..n]);
    if k in before {
      ImportAddsOnlyImportable(m, items[..n], nows[..n], isos[..n], k);
      var i :| 0 <= i < n && Importable(items[..n][i]) && before[k] == NewItem(items[..n][i], nows[..n][i], isos[..n][i]);
      assert items[..n][i] == items[i] && nows[..n][i] == nows[i] && isos[..n][i] == isos[i];
      assert ImportAll(m, items, nows, isos)[k] == NewItem(items[i], nows[i], isos[i]);
    } else {
      assert ImportAll(m, items, nows, isos)[k] == NewItem(items[n], nows[n], isos[n]);
    }
  }

  /** A rejected item does not stop the loop: afterwards the key of every
      importable item is in the store (its own record, or the one that was there first). */
  lemma {:induction false} ImportReachesEveryItem(m: map<int, Bookmark>, items: seq<Draft>, nows: seq<int>, isos: seq<int>, i: int)
    requires |nows| == |items| && |isos| == |items|
    requires 0 <= i < |items| && Importable(items[i])
    ensures NewItem(items[i], nows[i], isos[i]).id in ImportAll(m, items, nows, isos)
  {
    var n := |items| - 1;
    var before := ImportAll(m, items[..n], nows[..n], isos[..n]);
    if i < n {
      ImportReachesEveryItem(m, items[..n], nows[..n], isos[..n], i);
      assert items[..n][i] == items[i] && nows[..n][i] == nows[i] && isos[..n][i] == isos[i];
      ImportKeepsExisting(before, [items[n]], [nows[n]], [isos[n]], NewItem(items[i], nows[i], isos[i]).id);
      assert [items[n]][..0] == [] && [nows[n]][..0] == [] && [isos[n]][..0] == [];
    }
  }

  /** Import keeps every record under its own id. */
  lemma {:induction false} ImportKeepsKeys(m: map<int, Bookmark>, items: seq<Draft>, nows: seq<int>, isos: seq<int>)
    requires |nows| == |items| && |isos| == |items|
    requires KeyedById(m)
    ensures KeyedById(ImportAll(m, items, nows, isos))
  {
    if items != [] {
      var n := |items| - 1;
      ImportKeepsKeys(m, items[..n], nows[..n], isos[..n]);
    }
  }

  /** Importing `[{url:"https://a",title:"A"}, {title:"no-url"}, {url:"https://b",title:"B"}]`
      into an empty store at three different milliseconds stores exactly two records. */
  lemma ImportSkipsItemWithoutUrl(isos: seq<int>)
    requires |isos| == 3
    ensures var items := [Draft(None, "https://a", "A", "", [], None),
                          Draft(None, "", "no-url", "", [], None),
                          Draft(None, "https://b", "B", "", [], None)];
            ImportAll(map[], items, [1, 2, 3], isos).Keys == {1, 3}
  {
    var items := [Draft(None, "https://a", "A", "", [], None),
                  Draft(None, "", "no-url", "", [], None),
                  Draft(None, "https://b", "B", "", [], None)];
    var nows := [1, 2, 3];
    assert items[..2][..1] == items[..1] && items[..1][..0] == [];
    assert nows[..2][..1] == nows[..1] && nows[..1][..0] == [];
    assert isos[..2][..1] == isos[..1] && isos[..1][..0] == [];
    assert ImportAll(map[], items[..1], nows[..1], isos[..1]).Keys == {1};
    assert ImportAll(map[], items[..2], nows[..2], isos[..2]).Keys == {1};
  }

  // ---------------------------------------------- export, then import again

  /** No two entries share an id. */
  predicate DistinctIds(s: seq<Bookmark>)
  {
    forall i, j :: 0 <= i < j < |s| ==> s[i].id != s[j].id
  }

  /** The records of `s` keyed by id. */
  function AsMap(s: seq<Bookmark>): map<int, Bookmark>
  {
    if s == [] then map[] else AsMap(s[..|s| - 1])[s[|s| - 1].id := s[|s| - 1]]
  }

  /** The drafts a JSON export of `s` reads back as. */
  function Exported(s: seq<Bookmark>): (ds: seq<Draft>)
    ensures |ds| == |s|
    ensures forall i :: 0 <= i < |s| ==> ds[i] == ToDraft(s[i])
  {
    seq(|s|, i requires 0 <= i < |s| => ToDraft(s[i]))
  }

  lemma {:induction false} AsMapHolds(s: seq<Bookmark>)
    requires DistinctIds(s)
    ensures forall k :: k in AsMap(s) <==> exists i :: 0 <= i < |s| && s[i].id == k
    ensures forall i :: 0 <= i < |s| ==> s[i].id in AsMap(s) && AsMap(s)[s[i].id] == s[i]
  {
    if s != [] {
      var n := |s| - 1;
      AsMapHolds(s[..n]);
      forall k ensures k in AsMap(s) <==> exists i :: 0 <= i < |s| && s[i].id == k {
        if k in AsMap(s[..n]) {
          var i :| 0 <= i < n && s[..n][i].id == k;
          assert s[i].id == k;
        }
        if exists i :: 0 <= i < |s| && s[i].id == k {
          var i :| 0 <= i < |s| && s[i].id == k;
          if i < n {
            assert s[..n][i].id == k;
          }
        }
      }
      forall i | 0 <= i < |s| ensures s[i].id in AsMap(s) && AsMap(s)[s[i].id] == s[i] {
        if i < n {
          assert s[..n][i] == s[i];
          assert s[i].id != s[n].id;
        }
      }
    }
  }

  /** Importing the export of a list with distinct, non-zero ids and a url and
      title on every record rebuilds the records keyed by id. */
  lemma {:induction false} ImportOfExportIsAsMap(s: seq<Bookmark>, nows: seq<int>, isos: seq<int>)
    requires |nows| == |s| && |isos| == |s|
    requires DistinctIds(s)
    requires forall i :: 0 <= i < |s| ==> s[i].id != 0 && s[i].url != "" && s[i].title != ""
    ensures ImportAll(map[], Exported(s), nows, isos) == AsMap(s)
  {
    if s != [] {
      var n := |s| - 1;
      assert Exported(s)[..n] == Exported(s[..n]);
      ImportOfExportIsAsMap(s[..n], nows[..n], isos[..n]);
      ExportedRecordRebuilds(s[n], nows[n], isos[n]);
      AsMapHolds(s[..n]);
      forall i | 0 <= i < n ensures s[..n][i].id != s[n].id {
        assert s[..n][i] == s[i];
      }
    }
  }

  /** Export then import into an empty store reproduces the store: for the
      cached records in any order (the cache is newest first once `renderGrid`
      has sorted it), when every record has a non-zero id, a url and a title. */
  lemma ExportImportRoundTrip(m: map<int, Bookmark>, all: seq<Bookmark>, nows: seq<int>, isos: seq<int>)
    requires KeyedById(m)
    requires DistinctIds(all)
    requires forall b :: b in all <==> b.id in m && m[b.id] == b
    requires forall k :: k in m ==> k != 0 && m[k].url != "" && m[k].title != ""
    requires |nows| == |all| && |isos| == |all|
    ensures ImportAll(map[], Exported(all), nows, isos) == m
  {
    forall i | 0 <= i < |all| ensures all[i].id != 0 && all[i].url != "" && all[i].title != "" {
      assert all[i] in all;
    }
    ImportOfExportIsAsMap(all, nows, isos);
    AsMapHolds(all);
    forall k | k in m ensures k in AsMap(all) && AsMap(all)[k] == m[k] {
      assert m[k] in all;
      var i :| 0 <= i < |all| && all[i] == m[k];
    }
    forall k | k in AsMap(all) ensures k in m {
      var i :| 0 <= i < |all| && all[i].id == k;
      assert all[i] in all;
    }
  }

  // -------------------------------------------------- the views and the index

  /** The ids listed in `s`. */
  function IdsOf(s: seq<Bookmark>): set<int>
  {
    set b | b in s :: b.id
  }

  /** Loaded from the store, the chip tags are exactly the keys of the `tags` index. */
  lemma ChipsAreIndexKeys(m: map<int, Bookmark>, all: seq<Bookmark>)
    requires KeyedById(m)
    requires forall b :: b in all <==> b.id in m && m[b.id] == b
    ensures TagsOf(all) == IndexKeys(m)
  {
    forall t | t in IndexKeys(m) ensures t in TagsOf(all) {
      var k :| k in m && t in m[k].tags;
      assert m[k] in all;
    }
  }

  /** Loaded from the store, filtering by a tag shows exactly the records the
      `tags` index lists under it. */
  lemma TagFilterMatchesIndex(m: map<int, Bookmark>, all: seq<Bookmark>, t: string)
    requires KeyedById(m)
    requires forall b :: b in all <==> b.id in m && m[b.id] == b
    requires t != AllTags
    ensures IdsOf(TagFilter(all, t)) == TagIndex(m, t)
  {
    forall b ensures b in TagFilter(all, t) <==> b in all && t in b.tags {
      TagFilterKeeps(all, t, b);
    }
    forall k | k in TagIndex(m, t) ensures k in IdsOf(TagFilter(all, t)) {
      assert m[k] in all;
    }
  }

  /** Deleting every cached id from a store whose records are all cached leaves it empty. */
  lemma DeleteAllEmptiesStore(m: map<int, Bookmark>, cache: seq<Bookmark>)
    requires forall k :: k in m ==> m[k] in cache
    requires KeyedById(m)
    ensures m - IdsOf(cache) == map[]
  {
    forall k | k in m ensures k in IdsOf(cache) {
      assert m[k] in cache;
    }
    assert (m - IdsOf(cache)).Keys == {};
  }

  // ------------------------------------------------------------ the page

  class Page {
    /** `dbOps`. */
    const store: BookmarkStore
    /** `allBookmarks`, the in-memory copy of the store. */
    var cache: seq<Bookmark>
    /** `currentFilter`: a tag, or "all". */
    var currentFilter: string
    /** `searchQuery`: the search box's text. */
    var searchQuery: string

    ghost predicate Valid()
      reads this, store
    {
      store.Valid()
    }

    /** The module state before `init` runs. */
    constructor (store: BookmarkStore)
      requires store.Valid()
      ensures Valid() && this.store == store
      ensures cache == [] && currentFilter == AllTags && searchQuery == ""
    {
      this.store := store;
      cache := [];
      currentFilter := AllTags;
      searchQuery := "";
    }

    /** `init`: loads every stored record into the cache. */
    method Init()
      requires Valid()
      modifies this`cache
      ensures Valid()
      ensures IdsAscending(cache)
      ensures forall b :: b in cache <==> b.id in store.records && store.records[b.id] == b
    {
      cache := store.GetAll();
    }

    /** `renderGrid`: search, then tag filter, then newest-first sort. With no
        query and the filter "all", the list sorted in place IS the cache, so
        the cache itself ends up sorted. */
    method RenderGrid() returns (shown: seq<Bookmark>)
      modifies this`cache
      ensures shown == SortByDate(TagFilter(Search(old(cache), searchQuery), currentFilter))
      ensures cache == if searchQuery == "" && currentFilter == AllTags then shown else old(cache)
    {
      var filtered := cache;
      if searchQuery != "" {
        filtered := Filter(Matcher(Lower(searchQuery)), filtered);
      }
      if currentFilter != AllTags {
        filtered := Filter(Tagged(currentFilter), filtered);
      }
      var a := new Bookmark[|filtered|](i requires 0 <= i < |filtered| => filtered[i]);
      assert a[..] == filtered;
      SortInPlace(a);
      shown := a[..];
      if searchQuery == "" && currentFilter == AllTags {
        cache := shown;
      }
    }

    /** `renderTags`: the chips, one per distinct tag, in ascending order. */
    method RenderTags() returns (chips: seq<string>)
      ensures StrictlyAscending(chips)
      ensures forall t :: t in chips <==> t in TagsOf(cache)
    {
      chips := TagChips(cache);
    }

    /** A chip's click handler: selects a tag, or "all" for the first chip. */
    method ChooseFilter(tag: string)
      modifies this`currentFilter
      ensures currentFilter == tag
    {
      currentFilter := tag;
    }

    /** The search box's input handler. */
    method SetQuery(query: string)
      modifies this`searchQuery
      ensures searchQuery == query
    {
      searchQuery := query;
    }

    /** A card's delete button: deletes from the store, then drops every
        cached entry with that id. */
    method DeleteBookmark(id: int)
      requires Valid()
      modifies this`cache, store
      ensures Valid()
      ensures store.records == old(store.records) - {id}
      ensures cache == WithoutId(old(cache), id)
    {
      var _ := store.Delete(id);
      cache := WithoutId(cache, id);
    }

    /** The form's submit handler. `editId` is `Number` of the hidden id field
        when it is non-empty; `nowIso` is the submit time stamped on the
        record, `now` the millisecond clock read inside `add`. The tags box is
        parsed into tags; then the record is saved as an edit or as a new one. */
    method Submit(editId: Option<int>, url: string, title: string, tagsStr: string, now: int, nowIso: int)
      returns (ok: bool)
      requires Valid()
      modifies this`cache, store
      ensures Valid()
      ensures editId.Some? ==>
        var b := Bookmark(editId.value, url, title, "", ParseTags(tagsStr), nowIso);
        var idx := FindIndex(old(cache), b.id);
        && ok
        && store.records == old(store.records)[b.id := b]
        && cache == (if idx == -1 then old(cache) else old(cache)[idx := b])
      ensures editId.None? ==>
        var b := Bookmark(now, url, title, "", ParseTags(tagsStr), nowIso);
        && ok == (now !in old(store.records))
        && store.records == (if ok then old(store.records)[now := b] else old(store.records))
        && cache == (if ok then old(cache) + [b] else old(cache))
    {
      var tags := ParseTags(tagsStr);
      if editId.Some? {
        SaveEdit(Bookmark(editId.value, url, title, "", tags, nowIso));
        ok := true;
      } else {
        ok := SaveNew(Draft(None, url, title, "", tags, Some(nowIso)), now, nowIso);
      }
    }

    /** The edit branch of submit: a `put` of a fresh record (new `createdAt`,
        empty description), then the first cached entry with that id, if any,
        is replaced. */
    method SaveEdit(b: Bookmark)
      requires Valid()
      modifies this`cache, store
      ensures Valid()
      ensures store.records == old(store.records)[b.id := b]
      ensures var idx := FindIndex(old(cache), b.id);
              cache == if idx == -1 then old(cache) else old(cache)[idx := b]
    {
      var _ := store.Update(b);
      var idx := FindIndex(cache, b.id);
      if idx != -1 {
        cache := cache[idx := b];
      }
    }

    /** The add branch of submit: the record the store returns is appended to
        the cache; a refused add leaves store and cache alone. */
    method SaveNew(d: Draft, now: int, nowIso: int) returns (ok: bool)
      requires Valid()
      modifies this`cache, store
      ensures Valid()
      ensures var item := NewItem(d, now, nowIso);
              && ok == (item.id !in old(store.records))
              && store.records == (if ok then old(store.records)[item.id := item] else old(store.records))
              && cache == (if ok then old(cache) + [item] else old(cache))
    {
      var r := store.Add(d, now, nowIso);
      if r.Ok? {
        cache := cache + [r.value];
        ok := true;
      } else {
        ok := false;
      }
    }

    /** The import handler's loop, then the reload of the cache. */
    method Import(items: seq<Draft>, nows: seq<int>, isos: seq<int>)
      requires Valid()
      requires |nows| == |items| && |isos| == |items|
      modifies this`cache, store
      ensures Valid()
      ensures store.records == ImportAll(old(store.records), items, nows, isos)
      ensures IdsAscending(cache)
      ensures forall b :: b in cache <==> b.id in store.records && store.records[b.id] == b
    {
      var i := 0;
      while i < |items|
        invariant 0 <= i <= |items|
        invariant store.Valid()
        invariant store.records == ImportAll(old(store.records), items[..i], nows[..i], isos[..i])
      {
        assert items[..i + 1][..i] == items[..i];
        assert nows[..i + 1][..i] == nows[..i];
        assert isos[..i + 1][..i] == isos[..i];
        if Importable(items[i]) {
          var _ := store.Add(items[i], nows[i], isos[i]);
        }
        i := i + 1;
      }
      assert items[..i] == items && nows[..i] == nows && isos[..i] == isos;
      cache := store.GetAll();
    }

    /** The delete-all handler: deletes each cached id, then empties the cache. */
    method DeleteAll()
      requires Valid()
      modifies this`cache, store
      ensures Valid()
      ensures store.records == old(store.records) - IdsOf(old(cache))
      ensures cache == []
    {
      var i := 0;
      while i < |cache|
        invariant 0 <= i <= |cache|
        invariant store.Valid()
        invariant cache == old(cache)
        invariant store.records == old(store.records) - IdsOf(cache[..i])
      {
        assert IdsOf(cache[..i + 1]) == IdsOf(cache[..i]) + {cache[i].id} by {
          assert cache[..i + 1] == cache[..i] + [cache[i]];
        }
        var _ := store.Delete(cache[i].id);
        i := i + 1;
      }
      assert cache[..i] == cache;
      cache := [];
    }
  }
}
