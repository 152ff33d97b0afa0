/** The bookmark record as the object store keeps it, and the partial record
    that callers hand to `add`. */
module Bookmarks {

  datatype Option<T> = None | Some(value: T)

  /** A stored bookmark. `createdAt` is the creation time as a timestamp
      (the application writes it as an ISO-8601 string of that instant). A
      record without `tags` behaves everywhere like one with no tags. */
  datatype Bookmark = Bookmark(
    id: int,
    url: string,
    title: string,
    description: string,
    tags: seq<string>,
    createdAt: int)

  /** What a caller passes to `add`: `id` and `createdAt` may be missing.
      `None` stands for every falsy JavaScript value (missing, null, the
      empty string); an `id` of `Some(0)` is falsy as well. */
  datatype Draft = Draft(
    id: Option<int>,
    url: string,
    title: string,
    description: string,
    tags: seq<string>,
    createdAt: Option<int>)

  /** `bookmark.id` is truthy: present and not 0. */
  predicate HasId(d: Draft)
  {
    d.id.Some? && d.id.value != 0
  }

  /** `bookmark.createdAt` is truthy: a non-empty timestamp string was given. */
  predicate HasCreatedAt(d: Draft)
  {
    d.createdAt.Some?
  }

  /** The draft a stored record serialises to (every field present), as the
      JSON export writes it and the import reads it back. */
  function ToDraft(b: Bookmark): (d: Draft)
    ensures d.id == Some(b.id) && d.createdAt == Some(b.createdAt)
  {
    Draft(Some(b.id), b.url, b.title, b.description, b.tags, Some(b.createdAt))
  }
}
