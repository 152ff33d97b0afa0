/** The client-side view of the bookmark list: search, tag filter and
    newest-first sort from `renderGrid`, the chip list from `renderTags`,
    and the tag parsing and look-ups of the form handlers. */
module Query {
  import opened Bookmarks
  import opened Text
  import opened Seqs

  /** The filter value that selects every bookmark. */
  const AllTags: string := "all"

  // ------------------------------------------------------------------ search

  /** A bookmark matches the lower-cased query when its lower-cased title,
      url or one of its lower-cased tags contains it. */
  predicate MatchesSearch(b: Bookmark, lowerQ: string)
  {
    || Contains(Lower(b.title), lowerQ)
    || Contains(Lower(b.url), lowerQ)
    || exists i :: 0 <= i < |b.tags| && Contains(Lower(b.tags[i]), lowerQ)
  }

  function Matcher(lowerQ: string): Bookmark -> bool
  {
    (b: Bookmark) => MatchesSearch(b, lowerQ)
  }

  /** The search step of `renderGrid`: an empty query keeps everything. */
  function Search(bs: seq<Bookmark>, query: string): (r: seq<Bookmark>)
    ensures query == "" ==> r == bs
    ensures |r| <= |bs|
  {
    if query == "" then bs else Filter(Matcher(Lower(query)), bs)
  }

  /** With an empty query nothing is dropped; otherwise a bookmark is kept
      exactly when it matches, as often as it occurs. */
  lemma SearchKeeps(bs: seq<Bookmark>, query: string, b: Bookmark)
    ensures query == "" ==> Search(bs, query) == bs
    ensures b in Search(bs, query) <==> b in bs && (query == "" || MatchesSearch(b, Lower(query)))
    ensures multiset(Search(bs, query))[b] ==
            if query == "" || MatchesSearch(b, Lower(query)) then multiset(bs)[b] else 0
  {
    if query != "" {
      FilterMembership(Matcher(Lower(query)), bs, b);
      FilterCount(Matcher(Lower(query)), bs, b);
    }
  }

  /** Search ignores ASCII case: a query and its lower-cased form select the same bookmarks. */
  lemma SearchIgnoresCase(bs: seq<Bookmark>, query: string)
    ensures Search(bs, query) == Search(bs, Lower(query))
  {
    LowerIdempotent(query);
    assert query == "" <==> Lower(query) == "";
  }

  // -------------------------------------------------------------- tag filter

  function Tagged(tag: string): Bookmark -> bool
  {
    (b: Bookmark) => tag in b.tags
  }

  /** The tag-filter step of `renderGrid`. */
  function TagFilter(bs: seq<Bookmark>, filter: string): (r: seq<Bookmark>)
    ensures filter == AllTags ==> r == bs
    ensures |r| <= |bs|
  {
    if filter == AllTags then bs else Filter(Tagged(filter), bs)
  }

  /** "all" keeps everything; any other filter keeps exactly the bookmarks
      carrying that tag, as often as they occur. */
  lemma TagFilterKeeps(bs: seq<Bookmark>, filter: string, b: Bookmark)
    ensures filter == AllTags ==> TagFilter(bs, filter) == bs
    ensures b in TagFilter(bs, filter) <==> b in bs && (filter == AllTags || filter in b.tags)
    ensures multiset(TagFilter(bs, filter))[b] ==
            if filter == AllTags || filter in b.tags then multiset(bs)[b] else 0
  {
    if filter != AllTags {
      FilterMembership(Tagged(filter), bs, b);
      FilterCount(Tagged(filter), bs, b);
    }
  }

  /** The sentinel clashes with a tag spelled "all": choosing that chip shows
      the bookmarks without the tag too. */
  lemma TagNamedAllIsNotFiltered(b: Bookmark)
    requires AllTags !in b.tags
    ensures TagFilter([b], AllTags) == [b]
    ensures Filter(Tagged(AllTags), [b]) == []
  {
  }

  // -------------------------------------------------------------------- sort

  /** Newest first: `createdAt` never increases along the list. */
  predicate DateDescending(s: seq<Bookmark>)
  {
    forall i, j :: 0 <= i < j < |s| ==> s[i].createdAt >= s[j].createdAt
  }

  /** Inserts `x` into the newest-first list `r` after every element at least
      as new as it: one step of a stable insertion sort. */
  function InsertByDate(r: seq<Bookmark>, x: Bookmark): (s: seq<Bookmark>)
    ensures |s| == |r| + 1
  {
    if r == [] || r[|r| - 1].createdAt >= x.createdAt then r + [x]
    else InsertByDate(r[..|r| - 1], x) + [r[|r| - 1]]
  }

  /** `list.sort((a, b) => b.createdAt - a.createdAt)`: the stable sort, newest first. */
  function SortByDate(s: seq<Bookmark>): (r: seq<Bookmark>)
    ensures |r| == |s|
  {
    if s == [] then [] else InsertByDate(SortByDate(s[..|s| - 1]), s[|s| - 1])
  }

  function SameDate(t: int): Bookmark -> bool
  {
    (b: Bookmark) => b.createdAt == t
  }

  lemma {:induction false} InsertKeepsDescending(r: seq<Bookmark>, x: Bookmark)
    requires DateDescending(r)
    ensures DateDescending(InsertByDate(r, x))
    ensures InsertByDate(r, x) != [] && InsertByDate(r, x)[0].createdAt >= (if r == [] then x.createdAt else r[0].createdAt)
    ensures forall i :: 0 <= i < |InsertByDate(r, x)| ==> InsertByDate(r, x)[i] in r || InsertByDate(r, x)[i] == x
  {
    if r == [] || r[|r| - 1].createdAt >= x.createdAt {
    } else {
      var p := r[..|r| - 1];
      InsertKeepsDescending(p, x);
      var q := InsertByDate(p, x);
      forall i | 0 <= i < |q| ensures q[i].createdAt >= r[|r| - 1].createdAt {
        if q[i] != x {
          assert q[i] in p;
        }
      }
    }
  }

  lemma {:induction false} InsertPermutes(r: seq<Bookmark>, x: Bookmark)
    ensures multiset(InsertByDate(r, x)) == multiset(r) + multiset{x}
  {
    if r != [] && r[|r| - 1].createdAt < x.createdAt {
      InsertPermutes(r[..|r| - 1], x);
      assert r == r[..|r| - 1] + [r[|r| - 1]];
    }
  }

  lemma {:induction false} InsertStable(r: seq<Bookmark>, x: Bookmark, t: int)
    ensures Filter(SameDate(t), InsertByDate(r, x)) ==
            Filter(SameDate(t), r) + (if x.createdAt == t then [x] else [])
  {
    var last := [x];
    if r == [] || r[|r| - 1].createdAt >= x.createdAt {
      FilterConcat(SameDate(t), r, [x]);
    } else {
      var p := r[..|r| - 1];
      var y := r[|r| - 1];
      InsertStable(p, x, t);
      FilterConcat(SameDate(t), InsertByDate(p, x), [y]);
      FilterConcat(SameDate(t), p, [y]);
      assert r == p + [y];
    }
  }

  /** The displayed list is newest first. */
  lemma {:induction false} SortByDateDescending(s: seq<Bookmark>)
    ensures DateDescending(SortByDate(s))
  {
    if s != [] {
      SortByDateDescending(s[..|s| - 1]);
      InsertKeepsDescending(SortByDate(s[..|s| - 1]), s[|s| - 1]);
    }
  }

  /** The displayed list holds the same bookmarks, as often, as the filtered list. */
  lemma {:induction false} SortByDatePermutes(s: seq<Bookmark>)
    ensures multiset(SortByDate(s)) == multiset(s)
  {
    if s != [] {
      SortByDatePermutes(s[..|s| - 1]);
      InsertPermutes(SortByDate(s[..|s| - 1]), s[|s| - 1]);
      assert s == s[..|s| - 1] + [s[|s| - 1]];
    }
  }

  /** Stability: bookmarks created at the same instant keep their relative order. */
  lemma {:induction false} SortByDateStable(s: seq<Bookmark>, t: int)
    ensures Filter(SameDate(t), SortByDate(s)) == Filter(SameDate(t), s)
  {
    if s != [] {
      var p := s[..|s| - 1];
      SortByDateStable(p, t);
      InsertStable(SortByDate(p), s[|s| - 1], t);
      FilterConcat(SameDate(t), p, [s[|s| - 1]]);
      assert s == p + [s[|s| - 1]];
    }
  }

  /** Descending order and stability pin the result down: any newest-first
      arrangement with the same same-instant subsequences as `s` is `SortByDate(s)`. */
  lemma StableSortIsUnique(s: seq<Bookmark>, r: seq<Bookmark>)
    requires DateDescending(r)
    requires forall t :: Filter(SameDate(t), r) == Filter(SameDate(t), s)
    ensures r == SortByDate(s)
  {
    SortByDateDescending(s);
    forall t ensures Filter(SameDate(t), r) == Filter(SameDate(t), SortByDate(s)) {
      SortByDateStable(s, t);
    }
    DescendingDetermined(r, SortByDate(s));
  }

  /** Two newest-first lists with the same same-instant subsequences are equal. */
  lemma {:induction false} DescendingDetermined(r1: seq<Bookmark>, r2: seq<Bookmark>)
    requires DateDescending(r1) && DateDescending(r2)
    requires forall t :: Filter(SameDate(t), r1) == Filter(SameDate(t), r2)
    ensures r1 == r2
    decreases |r1|
  {
    if r1 == [] {
      NoInstantMeansEmpty(r2);
    } else if r2 == [] {
      NoInstantMeansEmpty(r1);
    } else {
      HeadsAgree(r1, r2);
      assert DateDescending(r1[1..]) && DateDescending(r2[1..]);
      DescendingDetermined(r1[1..], r2[1..]);
      assert r1 == [r1[0]] + r1[1..] && r2 == [r2[0]] + r2[1..];
    }
  }

  /** A list whose every same-instant subsequence matches the empty list's is empty. */
  lemma NoInstantMeansEmpty(r: seq<Bookmark>)
    requires forall t :: Filter(SameDate(t), r) == Filter(SameDate(t), [])
    ensures r == []
  {
    assert r != [] ==> Filter(SameDate(r[0].createdAt), r) != [] by {
      if r != [] {
        FilterCons(SameDate(r[0].createdAt), r);
      }
    }
  }

  /** Two non-empty newest-first lists with the same same-instant subsequences
      start with the same bookmark and agree on the rest. */
  lemma HeadsAgree(r1: seq<Bookmark>, r2: seq<Bookmark>)
    requires DateDescending(r1) && DateDescending(r2) && r1 != [] && r2 != []
    requires forall t :: Filter(SameDate(t), r1) == Filter(SameDate(t), r2)
    ensures r1[0] == r2[0]
    ensures forall t :: Filter(SameDate(t), r1[1..]) == Filter(SameDate(t), r2[1..])
  {
    var k := r1[0].createdAt;
    HeadIsNewest(r1, r2, k);
    HeadIsNewest(r2, r1, r2[0].createdAt);
    assert r2[0].createdAt == k;
    forall t ensures Filter(SameDate(t), r1[1..]) == Filter(SameDate(t), r2[1..])
                     && (t == k ==> r1[0] == r2[0])
    {
      var p := SameDate(t);
      var tail1, tail2 := Filter(p, r1[1..]), Filter(p, r2[1..]);
      FilterCons(p, r1);
      FilterCons(p, r2);
      if t == k {
        assert p(r1[0]) && p(r2[0]);
        var whole := [r1[0]] + tail1;
        assert whole == [r2[0]] + tail2;
        assert whole[0] == r1[0] && whole[0] == r2[0];
        assert whole[1..] == tail1 && ([r2[0]] + tail2)[1..] == tail2;
      } else {
        assert !p(r1[0]) && !p(r2[0]);
        assert [] + tail1 == tail1 && [] + tail2 == tail2;
      }
    }
  }

  /** If `r1` starts with an element created at `k`, the head of `r2` is no older. */
  lemma HeadIsNewest(r1: seq<Bookmark>, r2: seq<Bookmark>, k: int)
    requires DateDescending(r2) && r1 != [] && r2 != [] && r1[0].createdAt == k
    requires Filter(SameDate(k), r1) == Filter(SameDate(k), r2)
    ensures r2[0].createdAt >= k
  {
    FilterMembership(SameDate(k), r1, r1[0]);
    var y := r1[0];
    FilterMembership(SameDate(k), r2, y);
    var j :| 0 <= j < |r2| && r2[j] == y;
    assert r2[0].createdAt >= r2[j].createdAt;
  }

  /** `filtered.sort(...)` in place, as a stable insertion sort. */
  method SortInPlace(a: array<Bookmark>)
    modifies a
    ensures a[..] == SortByDate(old(a[..]))
  {
    ghost var s := a[..];
    var i := 0;
    while i < a.Length
      invariant 0 <= i <= a.Length
      invariant a[..i] == SortByDate(s[..i])
      invariant forall k :: i <= k < a.Length ==> a[k] == s[k]
    {
      SortByDateStep(s, i);
      InsertAt(a, i);
      i := i + 1;
    }
    assert a[..] == a[..a.Length] && s == s[..a.Length];
  }

  /** Sorting one more element of `s` inserts it into the sorted prefix. */
  lemma SortByDateStep(s: seq<Bookmark>, i: int)
    requires 0 <= i < |s|
    ensures SortByDate(s[..i + 1]) == InsertByDate(SortByDate(s[..i]), s[i])
  {
    assert s[..i + 1][..i] == s[..i];
  }

  /** Moves `a[i]` left past every element strictly older than it. */
  method InsertAt(a: array<Bookmark>, i: int)
    requires 0 <= i < a.Length
    modifies a
    ensures a[..i + 1] == InsertByDate(old(a[..i]), old(a[i]))
    ensures forall k :: i < k < a.Length ==> a[k] == old(a[k])
  {
    ghost var sorted := a[..i];
    var x := a[i];
    var j := i;
    while j > 0 && a[j - 1].createdAt < x.createdAt
      invariant 0 <= j <= i
      invariant forall k :: 0 <= k < j ==> a[k] == sorted[k]
      invariant forall k :: j < k <= i ==> a[k] == sorted[k - 1]
      invariant forall k :: i < k < a.Length ==> a[k] == old(a[k])
      invariant forall k :: j <= k < i ==> sorted[k].createdAt < x.createdAt
    {
      a[j] := a[j - 1];
      j := j - 1;
    }
    a[j] := x;
    InsertLands(sorted, x, j);
    ghost var result := sorted[..j] + [x] + sorted[j..];
    forall k | 0 <= k <= i ensures a[k] == result[k] {
      if k > j {
        assert result[k] == sorted[k - 1];
      }
    }
    assert a[..i + 1] == result;
  }

  /** Where one insertion step puts `x`: after the elements at least as new as
      it and before the run of strictly older ones that ends the list. */
  lemma {:induction false} InsertLands(sorted: seq<Bookmark>, x: Bookmark, j: int)
    requires 0 <= j <= |sorted|
    requires j == 0 || sorted[j - 1].createdAt >= x.createdAt
    requires forall k :: j <= k < |sorted| ==> sorted[k].createdAt < x.createdAt
    ensures InsertByDate(sorted, x) == sorted[..j] + [x] + sorted[j..]
    decreases |sorted|
  {
    var n := |sorted|;
    if j == n {
      assert sorted[..j] == sorted && sorted[j..] == [];
    } else {
      var init := sorted[..n - 1];
      InsertLands(init, x, j);
      assert init[..j] == sorted[..j];
      assert init[j..] + [sorted[n - 1]] == sorted[j..];
    }
  }

  // ------------------------------------------------------------------- chips

  /** Every tag of every bookmark. */
  function TagsOf(bs: seq<Bookmark>): set<string>
  {
    set b, t | b in bs && t in b.tags :: t
  }

  /** Strictly increasing in JavaScript's string order, hence without duplicates. */
  predicate StrictlyAscending(s: seq<string>)
  {
    forall i, j :: 0 <= i < j < |s| ==> Less(s[i], s[j])
  }

  /** Adds `t` to an ascending chip list unless it is already there. */
  function InsertTag(chips: seq<string>, t: string): (r: seq<string>)
    requires StrictlyAscending(chips)
    ensures StrictlyAscending(r)
    ensures forall x :: x in r <==> x in chips || x == t
  {
    if chips == [] then [t]
    else if t == chips[0] then chips
    else if Less(t, chips[0]) then
      assert forall j :: 0 <= j < |chips| ==> Less(t, chips[j]) by {
        forall j | 0 <= j < |chips| ensures Less(t, chips[j]) {
          if j > 0 { LessTransitive(t, chips[0], chips[j]); }
        }
      }
      [t] + chips
    else
      var rest := InsertTag(chips[1..], t);
      LessTotal(t, chips[0]);
      assert forall x :: x in rest ==> Less(chips[0], x) by {
        forall x | x in rest ensures Less(chips[0], x) {
          if x != t {
            var j :| 0 <= j < |chips[1..]| && chips[1..][j] == x;
            assert chips[j + 1] == x;
          }
        }
      }
      [chips[0]] + rest
  }

  /** `renderTags`: the distinct tags of all bookmarks, gathered into a set and
      sorted ascending. */
  method TagChips(bs: seq<Bookmark>) returns (chips: seq<string>)
    ensures StrictlyAscending(chips)
    ensures forall t :: t in chips <==> t in TagsOf(bs)
  {
    chips := [];
    var i := 0;
    while i < |bs|
      invariant 0 <= i <= |bs|
      invariant StrictlyAscending(chips)
      invariant forall t :: t in chips <==> t in TagsOf(bs[..i])
    {
      var tags := bs[i].tags;
      var j := 0;
      while j < |tags|
        invariant 0 <= j <= |tags|
        invariant StrictlyAscending(chips)
        invariant forall t :: t in chips <==> t in TagsOf(bs[..i]) || t in tags[..j]
      {
        chips := InsertTag(chips, tags[j]);
        assert tags[..j + 1] == tags[..j] + [tags[j]];
        j := j + 1;
      }
      assert tags[..j] == tags;
      assert bs[..i + 1] == bs[..i] + [bs[i]];
      forall t ensures t in TagsOf(bs[..i + 1]) <==> t in TagsOf(bs[..i]) || t in tags {
        if t in TagsOf(bs[..i + 1]) {
          var b :| b in bs[..i + 1] && t in b.tags;
        }
      }
      i := i + 1;
    }
    assert bs[..i] == bs;
  }

  // ------------------------------------------------------------ tag parsing

  function NonEmpty(): string -> bool
  {
    (t: string) => |t| > 0
  }

  /** `tagsStr.split(',').map(t => t.trim()).filter(t => t.length > 0)`. */
  function ParseTags(s: string): (r: seq<string>)
    ensures |r| <= |Split(s)|
  {
    Filter(NonEmpty(), TrimAll(Split(s)))
  }

  /** Parsed tags are non-empty, carry no surrounding whitespace and no comma. */
  lemma ParsedTagsAreClean(s: string, t: string)
    ensures t in ParseTags(s) ==> t != "" && IsTrimmed(t) && ',' !in t
  {
    var pieces := Split(s);
    var trimmed := TrimAll(pieces);
    assert ParseTags(s) == Filter(NonEmpty(), trimmed);
    FilterMembership(NonEmpty(), trimmed, t);
    if t in trimmed {
      var k :| 0 <= k < |trimmed| && trimmed[k] == t;
      TrimKeepsChars(pieces[k], ',');
    }
  }

  /** A comma-free piece yields its trimmed text, or nothing when that is empty. */
  lemma ParseTagsPiece(p: string)
    requires ',' !in p
    ensures ParseTags(p) == if Trim(p) == "" then [] else [Trim(p)]
  {
    SplitNoComma(p);
    var t := Trim(p);
    assert TrimAll([p]) == [t];
    FilterOne(NonEmpty(), t);
  }

  /** Tags are produced left to right: parsing "a,b" is parsing "a" then parsing "b". */
  lemma ParseTagsConcat(a: string, b: string)
    ensures ParseTags(a + "," + b) == ParseTags(a) + ParseTags(b)
  {
    SplitComma(a, b);
    TrimAllConcat(Split(a), Split(b));
    FilterConcat(NonEmpty(), TrimAll(Split(a)), TrimAll(Split(b)));
  }

  /** Joining clean tags with commas and parsing the result gives the tags back. */
  lemma ParseJoinedTags(tags: seq<string>)
    requires forall i :: 0 <= i < |tags| ==> tags[i] != "" && IsTrimmed(tags[i]) && ',' !in tags[i]
    ensures ParseTags(Join(tags)) == tags
  {
    if tags == [] {
      assert Split("") == [""];
      assert TrimAll([""]) == [Trim("")];
      return;
    }
    SplitJoin(tags);
    forall i | 0 <= i < |tags| ensures Trim(tags[i]) == tags[i] {
      TrimTrimmed(tags[i]);
    }
    assert TrimAll(tags) == tags;
    FilterKeepsAll(NonEmpty(), tags);
  }

  // ------------------------------------------------------------ cache helpers

  /** `allBookmarks.findIndex(b => b.id === id)`: the first position holding
      `id`, or -1 when there is none. */
  function FindIndex(bs: seq<Bookmark>, id: int): (r: int)
    ensures r == -1 <==> forall i :: 0 <= i < |bs| ==> bs[i].id != id
    ensures r != -1 ==> 0 <= r < |bs| && bs[r].id == id
    ensures r != -1 ==> forall i :: 0 <= i < r ==> bs[i].id != id
  {
    if bs == [] then -1
    else if bs[0].id == id then 0
    else
      var k := FindIndex(bs[1..], id);
      if k == -1 then -1 else k + 1
  }

  function OtherId(id: int): Bookmark -> bool
  {
    (b: Bookmark) => b.id != id
  }

  /** `allBookmarks.filter(b => b.id !== id)`. */
  function WithoutId(bs: seq<Bookmark>, id: int): (r: seq<Bookmark>)
    ensures |r| <= |bs|
  {
    Filter(OtherId(id), bs)
  }

  /** Removing an id from the cache drops exactly its entries and keeps every
      other entry, as often as before. */
  lemma WithoutIdKeeps(bs: seq<Bookmark>, id: int, b: Bookmark)
    ensures b in WithoutId(bs, id) <==> b in bs && b.id != id
    ensures multiset(WithoutId(bs, id))[b] == if b.id == id then 0 else multiset(bs)[b]
  {
    FilterMembership(OtherId(id), bs, b);
    FilterCount(OtherId(id), bs, b);
  }
}
