/**
 A request to the notes API end to end: the authentication gate, then the route
 the method and path select, run for the user the gate attached.
 */
module Server {
  import opened Wrappers
  import opened Records
  import opened Routes
  import opened Auth

  datatype Request =
    | ListAll                         // GET    /api/notes
    | GetOne(id: Id)                  // GET    /api/notes/:id
    | Create(payload: Payload)        // POST   /api/notes
    | Update(id: Id, payload: Payload) // PUT    /api/notes/:id
    | Delete(id: Id)                  // DELETE /api/notes/:id

  /** The single-note routes, for the caller `uid`. */
  function Handle(req: Request, uid: Id, store: Store, fault: Option<string>, newId: Id, now: Instant): Outcome
    requires !req.ListAll?
    requires req.Create? ==> newId !in store
  {
    match req
    case GetOne(id) => Outcome(GetNote(store, uid, id, fault), store)
    case Create(p) => CreateNote(store, uid, p, fault, newId, now)
    case Update(id, p) => UpdateNote(store, uid, id, p, fault)
    case Delete(id) => DeleteNote(store, uid, id, fault)
  }

  /**
   Serves one request. `header` is the `Authorization` header, `verify` the
   identity verifier, `fault` the error the store reports (if it fails), and
   `newId`, `now` what the store assigns to an inserted row.
   */
  method Serve(header: Option<string>, verify: Verifier, req: Request, store: Store,
               fault: Option<string>, newId: Id, now: Instant) returns (out: Outcome)
    requires req.Create? ==> newId !in store
    ensures Authenticate(header, verify).nextCalls == 0 ==>
      out.response.status == 401 && out.store == store
    ensures Authenticate(header, verify).nextCalls == 1 && !req.ListAll? ==>
      out == Handle(req, Authenticate(header, verify).requestUser.value.id, store, fault, newId, now)
    ensures Authenticate(header, verify).nextCalls == 1 && req.ListAll? ==>
      && out.store == store
      && (fault.Some? ==> out.response == InternalError(fault.value))
      && (fault.None? ==>
            && out.response.status == 200
            && out.response.body.NoteListJson?
            && NewestFirst(out.response.body.notes)
            && (forall n :: n in out.response.body.notes ==>
                  IsOwnedNote(store, Authenticate(header, verify).requestUser.value.id, n))
            && forall n :: multiset(out.response.body.notes)[n] ==
                 if IsOwnedNote(store, Authenticate(header, verify).requestUser.value.id, n) then 1 else 0)
  {
    var gate := Authenticate(header, verify);
    if gate.nextCalls == 0 {
      return Outcome(gate.response.value, store);
    }
    var uid := gate.requestUser.value.id;
    if req.ListAll? {
      var res := ListNotes(store, uid, fault);
      if fault.None? {
        forall n | n in res.body.notes
          ensures IsOwnedNote(store, uid, n)
        {
          assert multiset(res.body.notes)[n] > 0;
        }
      }
      out := Outcome(res, store);
    } else {
      out := Handle(req, uid, store, fault, newId, now);
    }
  }

  /**
   A note of another user is out of reach: reading or updating it answers exactly
   as for a missing note, and deleting it leaves it in place.
   */
  lemma OwnershipIsolation(store: Store, caller: Id, id: Id, p: Payload, fault: Option<string>)
    requires id in store && store[id].userId != caller
    ensures GetNote(store, caller, id, fault) == GetNote(store - {id}, caller, id, fault)
    ensures UpdateNote(store, caller, id, p, fault).response == UpdateNote(store - {id}, caller, id, p, fault).response
    ensures UpdateNote(store, caller, id, p, fault).store == store
    ensures DeleteNote(store, caller, id, fault).store == store
    ensures fault.None? ==> GetNote(store, caller, id, fault).status == 404
    ensures fault.None? && Valid(p) ==> UpdateNote(store, caller, id, p, fault).response.status == 404
  {
  }

  /** A note just created is read back with the creator as owner and the title and content sent. */
  lemma CreateThenGet(store: Store, uid: Id, title: string, content: string, newId: Id, now: Instant)
    requires newId !in store
    requires title != "" && content != ""
    ensures var created := CreateNote(store, uid, Payload(Some(title), Some(content)), None, newId, now);
      && created.response.status == 201
      && var got := GetNote(created.store, uid, newId, None);
      && got.status == 200
      && got.body == created.response.body
      && got.body.note.userId == uid && got.body.note.title == title && got.body.note.content == content
  {
  }

  /** Deleting twice answers 204 twice, and the second delete changes nothing. */
  lemma DeleteIsIdempotent(store: Store, uid: Id, id: Id)
    ensures var first := DeleteNote(store, uid, id, None);
      var second := DeleteNote(first.store, uid, id, None);
      && first.response.status == 204 && second.response.status == 204
      && second.store == first.store
  {
  }

  /** A store failure other than "no row" is answered with 500 and the store's message, and nothing is written. */
  lemma StoreFaultIs500(req: Request, uid: Id, store: Store, message: string, newId: Id, now: Instant)
    requires !req.ListAll?
    requires req.Create? ==> newId !in store
    requires req.Create? || req.Update? ==> Valid(req.payload)
    ensures Handle(req, uid, store, Some(message), newId, now) == Outcome(InternalError(message), store)
  {
  }
}
