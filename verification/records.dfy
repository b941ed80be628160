/**
 The `notes` table and the identities it is scoped by. The table is a map from
 note id to row; a row does not repeat its own id, so two keys never yield the
 same note.
 */
module Records {

  /** Note ids and user ids are opaque strings (UUIDs in the hosted store). */
  type Id = string

  /** Milliseconds since the epoch; `created_at` and `updated_at` are such instants. */
  type Instant = int

  datatype Row = Row(userId: Id, title: string, content: string, createdAt: Instant, updatedAt: Instant)

  /** A note as the API sends it: a row together with its id. */
  datatype Note = Note(id: Id, userId: Id, title: string, content: string, createdAt: Instant, updatedAt: Instant)

  type Store = map<Id, Row>

  /** The identity the authentication gate attaches to a request. */
  datatype User = User(id: Id, email: string)

  /** The note the store returns for key `id`. */
  function NoteAt(store: Store, id: Id): Note
    requires id in store
  {
    var row := store[id];
    Note(id, row.userId, row.title, row.content, row.createdAt, row.updatedAt)
  }

  /** The row with key `id` exists and belongs to `uid`: the filter `id = :id AND user_id = :uid`. */
  predicate OwnedBy(store: Store, id: Id, uid: Id)
  {
    id in store && store[id].userId == uid
  }

  /** `n` is, field for field, a row of `uid` in the store. */
  predicate IsOwnedNote(store: Store, uid: Id, n: Note)
  {
    OwnedBy(store, n.id, uid) && NoteAt(store, n.id) == n
  }
}
