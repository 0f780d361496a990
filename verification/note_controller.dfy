/**
 * The four note handlers as pure transitions over the note store. Each takes
 * the caller id that the authentication guard has already resolved and
 * returns the reply together with the store afterwards.
 */
module NoteController {
  import opened NoteModel

  /**
   * The caller's notes: the ids of `order` whose note exists and is owned by
   * `caller`, paired with their notes. No particular order is promised.
   */
  function OwnedEntries(order: seq<NoteId>, s: Store, caller: UserId): (es: seq<Entry>)
    ensures forall e :: e in es ==> e.id in order && e.id in s && e.note == s[e.id] && e.note.owner == caller
    ensures forall id :: id in order && id in s && s[id].owner == caller ==> Entry(id, s[id]) in es
    ensures Distinct(order) ==> DistinctEntries(es)
    decreases |order|
  {
    if |order| == 0 then []
    else
      var prefix := order[..|order| - 1];
      var id := order[|order| - 1];
      assert order == prefix + [id];
      var rest := OwnedEntries(prefix, s, caller);
      if id in s && s[id].owner == caller then
        assert IdsOf(rest + [Entry(id, s[id])]) == IdsOf(rest) + [id];
        rest + [Entry(id, s[id])]
      else rest
  }

  /** List: every note owned by the caller, nothing else, and the store is left as it was. */
  function GetNotes(s: Store, caller: UserId, order: seq<NoteId>): (r: Step)
    requires Enumerates(order, s)
    ensures r.store == s
    ensures r.reply.Ok? && r.reply.status == StatusOk && r.reply.payload.Listing?
    ensures forall e :: e in r.reply.payload.entries ==> e.id in s && e.note == s[e.id] && e.note.owner == caller
    ensures forall id :: id in s && s[id].owner == caller ==> Entry(id, s[id]) in r.reply.payload.entries
    ensures DistinctEntries(r.reply.payload.entries)
  {
    Step(Ok(StatusOk, Listing(OwnedEntries(order, s, caller))), s)
  }

  /**
   * Create: both fields must be truthy, otherwise 400 and nothing is stored;
   * when they are, the note is stored under the new id with the caller as owner.
   */
  function CreateNote(s: Store, caller: UserId, body: CreateBody, newId: NoteId): (r: Step)
    requires newId !in s
    ensures r.reply.Err? <==> !Truthy(body.title) || !Truthy(body.content)
    ensures r.reply.Err? ==> r.reply == Err(StatusBadRequest, MissingFields) && r.store == s
    ensures Truthy(body.title) && Truthy(body.content) ==>
      && r.reply == Ok(StatusCreated, Saved(Entry(newId, Note(caller, body.title.value, body.content.value))))
      && r.store.Keys == s.Keys + {newId}
      && r.store[newId] == r.reply.payload.entry.note
      && |r.store| == |s| + 1
    ensures forall id :: id in s ==> id in r.store && r.store[id] == s[id]
  {
    if !Truthy(body.title) || !Truthy(body.content) then
      Step(Err(StatusBadRequest, MissingFields), s)
    else
      var note := Note(caller, body.title.value, body.content.value);
      Step(Ok(StatusCreated, Saved(Entry(newId, note))), s[newId := note])
  }

  /**
   * The checks update and delete share, in their order: the id is looked up
   * first (404 when absent), the owner compared second (401 on a mismatch).
   * `None` means the caller may go on to change the note.
   */
  function Authorize(s: Store, caller: UserId, id: NoteId): (refusal: Option<Reply>)
    ensures refusal.None? <==> id in s && s[id].owner == caller
    ensures id !in s ==> refusal == Some(Err(StatusNotFound, NoteNotFound))
    ensures id in s && s[id].owner != caller ==> refusal == Some(Err(StatusUnauthorized, NotAuthorized))
  {
    if id !in s then Some(Err(StatusNotFound, NoteNotFound))
    else if s[id].owner != caller then Some(Err(StatusUnauthorized, NotAuthorized))
    else None
  }

  /**
   * Update: after the lookup and the ownership check, every field the body
   * carries overwrites the stored one; the reply holds the note as stored.
   */
  function UpdateNote(s: Store, caller: UserId, id: NoteId, patch: Patch): (r: Step)
    ensures id !in s ==> r.reply == Err(StatusNotFound, NoteNotFound)
    ensures id in s && s[id].owner != caller ==> r.reply == Err(StatusUnauthorized, NotAuthorized)
    ensures r.reply.Err? <==> id !in s || s[id].owner != caller
    ensures r.reply.Err? ==> r.store == s
    ensures r.reply.Ok? ==>
      && id in s && id in r.store
      && r.reply == Ok(StatusOk, Saved(Entry(id, r.store[id])))
      && Merged(s[id], patch, r.store[id])
      && r.store.Keys == s.Keys
    ensures forall other :: other in s && other != id ==> other in r.store && r.store[other] == s[other]
  {
    match Authorize(s, caller, id)
    case Some(refusal) => Step(refusal, s)
    case None =>
      var updated := Merge(s[id], patch);
      Step(Ok(StatusOk, Saved(Entry(id, updated))), s[id := updated])
  }

  /** Delete: after the lookup and the ownership check, the note is removed and acknowledged. */
  function DeleteNote(s: Store, caller: UserId, id: NoteId): (r: Step)
    ensures id !in s ==> r.reply == Err(StatusNotFound, NoteNotFound)
    ensures id in s && s[id].owner != caller ==> r.reply == Err(StatusUnauthorized, NotAuthorized)
    ensures r.reply.Err? <==> id !in s || s[id].owner != caller
    ensures r.reply.Err? ==> r.store == s
    ensures r.reply.Ok? ==>
      && r.reply == Ok(StatusOk, Ack(NoteDeleted))
      && id !in r.store
      && r.store.Keys == s.Keys - {id}
      && |r.store| == |s| - 1
    ensures forall other :: other in s && other != id ==> other in r.store && r.store[other] == s[other]
  {
    match Authorize(s, caller, id)
    case Some(refusal) => Step(refusal, s)
    case None => Step(Ok(StatusOk, Ack(NoteDeleted)), s - {id})
  }
}
