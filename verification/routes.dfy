/**
 The note resource handler: list, get, create, update and delete, each scoped to
 the caller's user id and each mapped to an HTTP status.

 The hosted store is the map `store`. A call into it either succeeds, finds no row
 (the "no rows" error of a single-row query, which the handler turns into 404), or
 fails for any other reason; that last case is the parameter `fault`, carrying the
 store's error message, which the handler returns with status 500.
 */
module Routes {
  import opened Wrappers
  import opened Records

  datatype Body =
    | NoteJson(note: Note)
    | NoteListJson(notes: seq<Note>)
    | ErrorJson(message: string)
    | NoContent

  datatype Response = Response(status: int, body: Body)

  /** The JSON body of a create or update request; either field may be absent. */
  datatype Payload = Payload(title: Option<string>, content: Option<string>)

  /** The response together with the store as the request leaves it. */
  datatype Outcome = Outcome(response: Response, store: Store)

  const TitleAndContentRequired := "Title and content are required"
  const NoteNotFound := "Note not found"

  /** JavaScript truthiness of a string field: present and not the empty string. */
  predicate Truthy(field: Option<string>)
  {
    field.Some? && field.value != ""
  }

  /**
   The handler's check `!title || !content` fails: both fields are present and
   neither is the empty string. White space alone passes.
   */
  predicate Valid(p: Payload)
  {
    Truthy(p.title) && Truthy(p.content)
  }

  function InternalError(message: string): Response
  {
    Response(500, ErrorJson(message))
  }

  /* ---------------------------------------------------------------- list */

  /** Ordered by `created_at`, newest first. */
  ghost predicate NewestFirst(s: seq<Note>)
  {
    forall i, j :: 0 <= i < j < |s| ==> s[i].createdAt >= s[j].createdAt
  }

  /** Inserts `n` into a newest-first sequence, keeping it newest first. */
  function InsertNewestFirst(s: seq<Note>, n: Note): (r: seq<Note>)
    requires NewestFirst(s)
    ensures NewestFirst(r)
    ensures multiset(r) == multiset(s) + multiset{n}
    decreases |s|
  {
    if s == [] || n.createdAt >= s[0].createdAt then
      [n] + s
    else
      var rest := InsertNewestFirst(s[1..], n);
      assert s == [s[0]] + s[1..];
      HeadBoundsInsert(s, n, rest);
      [s[0]] + rest
  }

  lemma HeadBoundsInsert(s: seq<Note>, n: Note, rest: seq<Note>)
    requires s != [] && NewestFirst(s) && NewestFirst(rest)
    requires n.createdAt < s[0].createdAt
    requires multiset(rest) == multiset(s[1..]) + multiset{n}
    ensures NewestFirst([s[0]] + rest)
  {
    forall j | 0 <= j < |rest|
      ensures rest[j].createdAt <= s[0].createdAt
    {
      assert rest[j] in multiset(rest);
      if rest[j] != n {
        assert rest[j] in multiset(s[1..]);
        var k :| 0 <= k < |s[1..]| && s[1..][k] == rest[j];
        assert s[k + 1] == rest[j];
      }
    }
    var r := [s[0]] + rest;
    forall i, j | 0 <= i < j < |r|
      ensures r[i].createdAt >= r[j].createdAt
    {
      if i > 0 {
        assert r[i] == rest[i - 1] && r[j] == rest[j - 1];
      } else {
        assert r[j] == rest[j - 1];
      }
    }
  }

  /** The caller's notes, each exactly once, newest first. */
  method NewestFirstOwned(store: Store, uid: Id) returns (r: seq<Note>)
    ensures NewestFirst(r)
    ensures forall n :: multiset(r)[n] == if IsOwnedNote(store, uid, n) then 1 else 0
  {
    r := [];
    var todo := store.Keys;
    while todo != {}
      invariant todo <= store.Keys
      invariant NewestFirst(r)
      invariant forall n :: multiset(r)[n] == if IsOwnedNote(store, uid, n) && n.id !in todo then 1 else 0
      decreases todo
    {
      var k :| k in todo;
      if OwnedBy(store, k, uid) {
        r := InsertNewestFirst(r, NoteAt(store, k));
      }
      todo := todo - {k};
    }
  }

  /** GET /api/notes: every note of the caller, newest first, with status 200. */
  method ListNotes(store: Store, uid: Id, fault: Option<string>) returns (res: Response)
    ensures fault.Some? ==> res == InternalError(fault.value)
    ensures fault.None? ==> res.status == 200 && res.body.NoteListJson?
    ensures fault.None? ==> NewestFirst(res.body.notes)
    ensures fault.None? ==> forall n :: multiset(res.body.notes)[n] == if IsOwnedNote(store, uid, n) then 1 else 0
  {
    if fault.Some? {
      return InternalError(fault.value);
    }
    var notes := NewestFirstOwned(store, uid);
    res := Response(200, NoteListJson(notes));
  }

  /* ---------------------------------------------------------------- get */

  /** GET /api/notes/:id: the caller's note with that id, or 404. */
  function GetNote(store: Store, uid: Id, id: Id, fault: Option<string>): (res: Response)
    ensures fault.Some? ==> res == InternalError(fault.value)
    ensures res.status == 200 <==> fault.None? && OwnedBy(store, id, uid)
    ensures res.status == 200 ==> res.body.NoteJson? && res.body.note.id == id && IsOwnedNote(store, uid, res.body.note)
    ensures fault.None? && !OwnedBy(store, id, uid) ==> res == Response(404, ErrorJson(NoteNotFound))
  {
    if fault.Some? then InternalError(fault.value)
    else if OwnedBy(store, id, uid) then Response(200, NoteJson(NoteAt(store, id)))
    else Response(404, ErrorJson(NoteNotFound))
  }

  /* ---------------------------------------------------------------- create */

  /**
   POST /api/notes. The store assigns the fresh id `newId` and stamps both
   timestamps with `now`.
   */
  function CreateNote(store: Store, uid: Id, p: Payload, fault: Option<string>, newId: Id, now: Instant): (out: Outcome)
    requires newId !in store
    ensures !Valid(p) ==> out == Outcome(Response(400, ErrorJson(TitleAndContentRequired)), store)
    ensures Valid(p) && fault.Some? ==> out == Outcome(InternalError(fault.value), store)
    ensures out.response.status == 201 <==> Valid(p) && fault.None?
    ensures out.response.status == 201 ==>
      && out.store.Keys == store.Keys + {newId}
      && (forall k :: k in store ==> out.store[k] == store[k])
      && out.store[newId].userId == uid
      && out.store[newId].title == p.title.value
      && out.store[newId].content == p.content.value
      && out.response.body == NoteJson(NoteAt(out.store, newId))
  {
    if !Valid(p) then Outcome(Response(400, ErrorJson(TitleAndContentRequired)), store)
    else if fault.Some? then Outcome(InternalError(fault.value), store)
    else
      var store' := store[newId := Row(uid, p.title.value, p.content.value, now, now)];
      Outcome(Response(201, NoteJson(NoteAt(store', newId))), store')
  }

  /* ---------------------------------------------------------------- update */

  /** PUT /api/notes/:id: sets title and content of the caller's note with that id. */
  function UpdateNote(store: Store, uid: Id, id: Id, p: Payload, fault: Option<string>): (out: Outcome)
    ensures !Valid(p) ==> out == Outcome(Response(400, ErrorJson(TitleAndContentRequired)), store)
    ensures Valid(p) && fault.Some? ==> out == Outcome(InternalError(fault.value), store)
    ensures Valid(p) && fault.None? && !OwnedBy(store, id, uid) ==>
      out == Outcome(Response(404, ErrorJson(NoteNotFound)), store)
    ensures out.response.status == 200 <==> Valid(p) && fault.None? && OwnedBy(store, id, uid)
    ensures out.response.status == 200 ==>
      && out.store.Keys == store.Keys
      && (forall k :: k in store && k != id ==> out.store[k] == store[k])
      && out.store[id] == store[id].(title := p.title.value, content := p.content.value)
      && out.response.body == NoteJson(NoteAt(out.store, id))
  {
    if !Valid(p) then Outcome(Response(400, ErrorJson(TitleAndContentRequired)), store)
    else if fault.Some? then Outcome(InternalError(fault.value), store)
    else if !OwnedBy(store, id, uid) then Outcome(Response(404, ErrorJson(NoteNotFound)), store)
    else
      var store' := store[id := store[id].(title := p.title.value, content := p.content.value)];
      Outcome(Response(200, NoteJson(NoteAt(store', id))), store')
  }

  /* ---------------------------------------------------------------- delete */

  /** DELETE /api/notes/:id: removes the caller's note with that id, if any; 204 either way. */
  function DeleteNote(store: Store, uid: Id, id: Id, fault: Option<string>): (out: Outcome)
    ensures fault.Some? ==> out == Outcome(InternalError(fault.value), store)
    ensures fault.None? ==> out.response == Response(204, NoContent)
    ensures fault.None? ==> !OwnedBy(out.store, id, uid)
    ensures out.store.Keys == store.Keys - (if fault.None? && OwnedBy(store, id, uid) then {id} else {})
    ensures forall k :: k in out.store ==> out.store[k] == store[k]
  {
    if fault.Some? then Outcome(InternalError(fault.value), store)
    else if OwnedBy(store, id, uid) then Outcome(Response(204, NoContent), store - {id})
    else Outcome(Response(204, NoContent), store)
  }
}
