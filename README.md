# Fav-Link bookmark store and client logic, in Dafny

Fav-Link is an offline bookmark manager. Its bookmarks live in an IndexedDB
object store named `bookmarks`. The store is keyed by `id` and has a
non-unique `createdAt` index and a multi-entry `tags` index. The page keeps
three pieces of state:

- `allBookmarks`, an in-memory copy of the store;
- the selected tag chip, `currentFilter`;
- the search box text, `searchQuery`.

Every view is derived from that copy.

This project models both halves:

- `db.dfy` (module `Db`) models the store of `js/db.js`. It is a class
  `BookmarkStore` over a `map<int, Bookmark>`, with the four `dbOps`
  operations:
  - `add`: builds the item, then inserts without overwriting;
  - `update`: a `put`, which is an upsert;
  - `delete`: idempotent;
  - `getAll`: ascending key order.

  It also gives the `tags` multi-entry index as a function of the stored
  records.
- `query.dfy` (module `Query`) models the pure view logic of `js/app.js`:
  - the search step and the tag-filter step of `renderGrid`;
  - its stable newest-first sort, which works in place on an array;
  - the chip computation of `renderTags`;
  - the tag-string parsing of the submit handler;
  - the `findIndex` and `filter` used on the cache.
- `app.dfy` (module `App`) models the page state of `js/app.js` as a class
  `Page`. Its handlers are start-up, grid and chip rendering, chip and search
  selection, submit (edit and add), the card's delete button, the import loop
  and the delete-all loop. The same module defines the import loop's effect
  on the store (`ImportAll`) and proves the export-then-import round trip.
- `text.dfy` (module `Text`) models the JavaScript string built-ins the client
  relies on: `toLowerCase`, `includes`, `split(',')`, `trim` and the `<`
  order that `Array.prototype.sort` uses by default. It also defines joining
  with commas, which the client never calls, as the inverse that pins down
  `split(',')`.
- `seqs.dfy` (module `Seqs`) models `Array.prototype.filter` and `Array.prototype.map`.
- `bookmarks.dfy` (module `Bookmarks`) defines the record. It also defines
  the partial record handed to `add`, whose `id` and `createdAt` may be falsy.

Clock readings are parameters:

- `now` stands for `Date.now()`;
- `nowIso` stands for `new Date().toISOString()`, as a timestamp.

Each store operation is one atomic step.

Facts about the code that the model keeps as they are:

- `update` is an upsert and never reports a missing id.
- There is no `clear()`. Delete-all deletes the cached ids one by one, so a
  record that is stored but not cached survives it.
- `add` does not check that `url` and `title` are non-empty. Only the import
  loop checks them.
- The edit branch of submit writes a fresh record. Its `createdAt` is the
  submit time and its description is empty, so the original creation time
  is lost.
- A record without `tags` behaves like one with no tags. The model stores `[]`.

## Model

| member | source | states |
|---|---|---|
| Db.NewItem | js/db.js:45-49 | a truthy id is kept, a missing id or id 0 becomes `now`; a given `createdAt` is kept, otherwise `nowIso`; every other field is copied |
| Db.ExportedRecordRebuilds | js/db.js:45-49 | a stored record handed back to `add` is rebuilt exactly, whatever the clocks, unless its id is 0, which is replaced by the clock |
| Db.TagIndex | js/db.js:12 | the multi-entry index under tag `t` lists exactly the keys whose record's tags contain `t` |
| Db.IndexKeys | js/db.js:12 | the index keys are exactly the tags of some stored record |
| Db.PutReindexes | js/db.js:65-67 | after `put(b)` the index lists `b.id` under exactly `b`'s tags; its old tags lose it and every other key is unaffected |
| Db.DeleteReindexes | js/db.js:80-82 | after `delete(id)` no index key lists `id` and nothing else changes |
| Db.BookmarkStore.constructor | js/db.js:7-13 | the store is created empty and keyed by id |
| Db.BookmarkStore.GetAll | js/db.js:28-30 | returns every stored record exactly once, nothing else, in strictly ascending key order |
| Db.BookmarkStore.Add | js/db.js:45-53 | builds the item; if its id is stored, fails with ConstraintError and changes nothing, otherwise stores it under its id, leaves every other key as it was and returns it |
| Db.BookmarkStore.Update | js/db.js:65-67 | upsert: the record under `b.id` becomes `b` whether or not it existed; other keys untouched; returns `b` |
| Db.BookmarkStore.Delete | js/db.js:80-82 | removes `id` from the keys, succeeding also when absent, and returns `id` |
| Db.SameMillisecondAddsCollide | js/db.js:47-53 | two id-less adds in the same millisecond: the first is stored under `now`, the second fails with ConstraintError |
| Db.DuplicateIdRefused | js/db.js:51-53 | adding an explicit id twice: the second add fails and `getAll` still returns only the first record |
| Db.DeleteAbsentIsHarmless | js/db.js:80-82 | deleting an absent id succeeds and `getAll` is the same before and after |
| Seqs.Filter | js/app.js:165-169 | `filter` keeps at most the elements it was given; FilterMembership and FilterCount state that it keeps exactly those satisfying the predicate, as often as they occur, and FilterConcat that it keeps their order |
| Seqs.Map | js/app.js:247 | `map` keeps the length and applies the function at each position |
| Text.Lower | js/app.js:164 | lower-casing keeps the length and lower-cases each character (ASCII) |
| Text.LowerIdempotent | js/app.js:164 | lower-casing twice is lower-casing once |
| Text.Contains | js/app.js:166-168 | `includes` holds for the empty needle and only for needles no longer than the string; ContainsIffOccurs characterises it fully |
| Text.ContainsIffOccurs | js/app.js:166-168 | `includes` holds exactly when the needle occurs at some offset |
| Text.ContainsEmpty | js/app.js:166-168 | every string includes the empty string |
| Text.Split | js/app.js:247 | `split(',')` yields at least one piece and no piece holds a comma |
| Text.Join | js/app.js:247 | a reference definition, not a call of the client: joining with commas starts with the first piece and is at least as long as the commas between the pieces; JoinSplit and SplitJoin make it the inverse that characterises `split(',')` |
| Text.JoinSplit | js/app.js:247 | joining the pieces of a split with commas gives back the string |
| Text.SplitJoin | js/app.js:247 | splitting a comma-free join gives back the pieces |
| Text.SplitComma | js/app.js:247 | splitting at a comma splits each side separately, in order |
| Text.TrimStart | js/app.js:247 | the result is a suffix of the input, only whitespace was dropped, and it does not start with whitespace |
| Text.TrimEnd | js/app.js:247 | the result is a prefix of the input, only whitespace was dropped, and it does not end with whitespace |
| Text.Trim | js/app.js:247 | the result neither starts nor ends with whitespace and is no longer than the input |
| Text.TrimOccurs | js/app.js:247 | the result is the substring of the input that starts where the leading whitespace ends |
| Text.TrimKeepsChars | js/app.js:247 | trimming introduces no character |
| Text.TrimTrimmed | js/app.js:247 | trimming a trimmed string changes nothing |
| Text.TrimAll | js/app.js:247 | `map(t => t.trim())` keeps the number of pieces and trims each one in its position |
| Text.TrimAllConcat | js/app.js:247 | trimming every piece commutes with concatenation |
| Text.Less | js/app.js:197 | the default sort order never relates a string to itself and puts a proper prefix first; the lemmas below make it a strict total order |
| Text.LessIrreflexive | js/app.js:197 | the default sort order is irreflexive |
| Text.LessTransitive | js/app.js:197 | the default sort order is transitive |
| Text.LessTotal | js/app.js:197 | any two different strings are ordered |
| Text.LessAsymmetric | js/app.js:197 | the default sort order is asymmetric |
| Query.SearchKeeps | js/app.js:163-170 | an empty query keeps the list as is; otherwise `b` is kept iff its lower-cased title, url or some tag includes the lower-cased query, as often as it occurred |
| Query.SearchIgnoresCase | js/app.js:164-168 | a query and its lower-cased form select the same list |
| Query.Search | js/app.js:163-170 | the search step keeps the list as is for an empty query and never adds entries; SearchKeeps states which entries it keeps |
| Query.TagFilterKeeps | js/app.js:173-175 | "all" keeps the list as is; any other filter keeps `b` iff its tags include the filter, as often as it occurred |
| Query.TagFilter | js/app.js:173-175 | the tag-filter step keeps the list as is for "all" and never adds entries; TagFilterKeeps states which entries it keeps |
| Query.TagNamedAllIsNotFiltered | js/app.js:173-175 | choosing a chip for a tag spelled "all" shows bookmarks without that tag, which a real filter would drop |
| Query.InsertByDate | js/app.js:178 | one insertion step of the sort adds exactly one element |
| Query.InsertKeepsDescending | js/app.js:178 | inserting into a newest-first list keeps it newest first and adds only `x` |
| Query.InsertPermutes | js/app.js:178 | inserting adds `x` once and keeps every other element |
| Query.InsertStable | js/app.js:178 | inserting puts `x` after every element created at the same instant |
| Query.SortByDate | js/app.js:178 | the sort keeps the length |
| Query.SortByDateDescending | js/app.js:178 | the displayed list is ordered by `createdAt`, newest first |
| Query.SortByDatePermutes | js/app.js:178 | the displayed list is a permutation of the filtered list |
| Query.SortByDateStable | js/app.js:178 | bookmarks with equal `createdAt` keep their relative order |
| Query.StableSortIsUnique | js/app.js:178 | any newest-first list that keeps equal-time order equals the sort: the sort is the only stable one |
| Query.DescendingDetermined | js/app.js:178 | two newest-first lists with the same equal-time subsequences are equal |
| Query.SortInPlace | js/app.js:178 | sorting the array in place leaves it holding the stable newest-first sort of its old contents |
| Query.SortByDateStep | js/app.js:178 | sorting one more element inserts it into the sorted prefix |
| Query.InsertLands | js/app.js:178 | an insertion step puts `x` after the elements at least as new and before the trailing run of strictly older ones |
| Query.InsertAt | js/app.js:178 | one pass of the in-place sort inserts `a[i]` into the sorted prefix and leaves the rest of the array alone |
| Query.InsertTag | js/app.js:189-197 | adding a tag to an ascending chip list keeps it strictly ascending and adds exactly that tag |
| Query.TagChips | js/app.js:189-197 | the chips are strictly ascending (no duplicates) and are exactly the tags of the bookmarks |
| Query.ParsedTagsAreClean | js/app.js:247 | every parsed tag is non-empty, has no surrounding whitespace and no comma |
| Query.ParseTagsConcat | js/app.js:247 | tags are produced left to right: parsing `a,b` is parsing `a` then `b` |
| Query.ParseJoinedTags | js/app.js:247 | joining clean tags (none, one or many) with commas and parsing gives the tags back |
| Query.ParseTagsPiece | js/app.js:247 | a comma-free piece yields exactly its trimmed text, or no tag when the trimmed text is empty |
| Query.ParseTags | js/app.js:247 | yields at most one tag per comma-separated piece; ParseTagsPiece and ParseTagsConcat together fix the tags on every input, and ParsedTagsAreClean and ParseJoinedTags follow |
| Query.FindIndex | js/app.js:261 | -1 iff no entry has the id, otherwise the first entry with it |
| Query.WithoutIdKeeps | js/app.js:114 | removing an id from the cache drops exactly its entries and keeps every other entry as often as before |
| Query.WithoutId | js/app.js:114 | removing an id from the cache never adds entries; WithoutIdKeeps states exactly which go |
| App.ImportKeepsExisting | js/app.js:336-345 | import never removes or changes a previously stored record |
| App.ImportAddsOnlyImportable | js/app.js:336-345 | every new record comes from an item with a url and a title, built as `add` builds it |
| App.ImportReachesEveryItem | js/app.js:336-345 | a rejected item does not stop the loop: every importable item's key is stored afterwards |
| App.ImportKeepsKeys | js/app.js:336-345 | import keeps every record under its own id |
| App.ImportSkipsItemWithoutUrl | js/app.js:336-345 | importing A, an item without url, then B into an empty store stores exactly the two records |
| App.ImportStep | js/app.js:338-343 | one turn of the import loop keeps every stored record, adds at most one, and a new key holds the item built by `add` from an item with url and title |
| App.ImportAll | js/app.js:336-345 | the import loop adds at most one record per item; the lemmas above state which |
| App.AsMapHolds | js/app.js:313 | a list with distinct ids keyed by id has exactly its ids as keys and each entry under its id |
| App.Exported | js/app.js:313 | the export writes one complete draft per record, in order |
| App.ImportOfExportIsAsMap | js/app.js:336-345 | importing the export of distinct, non-zero-id records with url and title into an empty store yields them keyed by id |
| App.ExportImportRoundTrip | js/app.js:336-345 | exporting the cache in any order (for instance newest first after `renderGrid`) and importing it into an empty store reproduces the store, when every record has a non-zero id, a url and a title |
| App.ChipsAreIndexKeys | js/app.js:189-192 | loaded from the store, the chip tags are exactly the keys of the `tags` index |
| App.TagFilterMatchesIndex | js/app.js:173-175 | loaded from the store, the tag filter shows exactly the records the `tags` index lists under that tag |
| App.DeleteAllEmptiesStore | js/app.js:370-373 | when every stored record is cached, delete-all leaves the store empty |
| App.Page.constructor | js/app.js:4-6 | the cache starts empty, the filter at "all" and the query empty |
| App.Page.Init | js/app.js:28 | the cache becomes exactly the stored records, in ascending id order |
| App.Page.RenderGrid | js/app.js:160-178 | the shown list is the stable newest-first sort of the tag-filtered search result; with no query and filter "all" the cache itself is left sorted, otherwise untouched |
| App.Page.RenderTags | js/app.js:188-197 | the chips are strictly ascending and exactly the tags of the cache |
| App.Page.ChooseFilter | js/app.js:202-203 | a chip's click selects its tag (the first chip selects "all") |
| App.Page.SetQuery | js/app.js:274-275 | the search box's text becomes the query |
| App.Page.DeleteBookmark | js/app.js:113-114 | the id leaves the store and exactly its entries leave the cache |
| App.Page.Submit | js/app.js:242-266 | edit: the store holds the fresh record (submit-time `createdAt`, empty description, parsed tags) and the first cached entry with that id is replaced if any; add: on success the record with id `now` is stored and appended, on a key collision neither store nor cache changes |
| App.Page.SaveEdit | js/app.js:257-262 | upserts the record and replaces only the first cached entry with its id, only if one exists |
| App.Page.SaveNew | js/app.js:264-265 | a successful add appends the stored record to the cache; a refused add changes nothing |
| App.Page.Import | js/app.js:336-347 | the store ends as `ImportAll` of the old store over the items, and the cache is reloaded from it |
| App.Page.DeleteAll | js/app.js:370-373 | every previously cached id is gone from the store, nothing else is, and the cache is empty |

## Left out

- IndexedDB plumbing is not modelled: opening the database, transactions, request callbacks and Promises. Each operation is one atomic, synchronous step. Interleavings of concurrent handlers are not modelled.
- The `createdAt` index is created but never queried, so it is not modelled.
- StorageUnavailable and other backend errors (quota, aborted transactions) are not modelled. Only ConstraintError from `add` is.
- The clocks `Date.now()` and `new Date().toISOString()` are parameters.
- `createdAt` is an integer timestamp rather than an ISO string. Sorting by `new Date(...)` therefore compares integers, so the NaN comparator results of unparsable dates are not modelled.
- Text.Lower: only ASCII letters are lower-cased. Unicode case mapping, including length-changing mappings, is not modelled.
- Text.Less: compares characters by code point. JavaScript compares UTF-16 code units, so strings with characters outside the Basic Multilingual Plane may order differently.
- Text.IsSpace: line terminators and the listed Unicode space separators are included, but strings are sequences of code points, not UTF-16 units.
- Ids are integers. A non-numeric id, such as the NaN that `Number` can return for the hidden id field, is not modelled. Nor is the DataError IndexedDB raises for it.
- App.Page.Submit: `editId` is the already-converted id. The page only ever clears the hidden id field, so the edit branch is not reachable from the form as shipped, but it is modelled. The rejection a refused add raises is modelled as `ok == false` with nothing changed. The handler's trailing `closeModal`, `renderGrid` and `renderTags` calls are not part of the method.
- App.Page.DeleteBookmark and App.Page.DeleteAll: the `confirm` dialogs are not modelled, and only the confirmed path is. The trailing `renderGrid`/`renderTags` calls are separate methods, not part of these.
- App.Page.Import: `FileReader`, `JSON.parse`, the `Array.isArray` check and the alerts are not modelled. Items arrive as already-parsed drafts, and a field's truthiness is modelled by `Option` and by string emptiness.
- App.Exported: the export's JSON serialisation, Blob and download are not modelled. Only the record-to-draft correspondence is.
- Not modelled (DOM or browser APIs with no state logic here):
  - DOM rendering: `createCard`, `innerHTML`, animation delays;
  - modals and theme toggle;
  - share target, clipboard and `navigator.share`;
  - favicon URLs and `new URL(...).hostname`.
- The service worker `sw.js` is not part of this model. It handles only the Cache API and fetches.
