/**
 * Properties that relate several handler calls: error precedence, the
 * behaviour of repeated calls, and what a listing sees after a change.
 */
module NoteProperties {
  import opened NoteModel
  import opened NoteController

  /** A patch applied twice leaves the note as applying it once does. */
  lemma MergeIdempotent(n: Note, p: Patch)
    ensures Merge(Merge(n, p), p) == Merge(n, p)
  {
  }

  /** A patch that carries no field leaves the note as it was. */
  lemma MergeEmptyPatch(n: Note)
    ensures Merge(n, Patch(None, None, None)) == n
  {
  }

  /**
   * For an id that is not stored, update and delete give the same 404 reply
   * and leave the store alone, whoever calls and whatever the body: the
   * ownership check is never reached.
   */
  lemma NotFoundPrecedesOwnership(s: Store, caller: UserId, other: UserId, id: NoteId, patch: Patch)
    requires id !in s
    ensures UpdateNote(s, caller, id, patch) == DeleteNote(s, other, id)
    ensures UpdateNote(s, caller, id, patch) == Step(Err(StatusNotFound, NoteNotFound), s)
  {
  }

  /**
   * A caller who does not own a stored note gets 401 from update and delete
   * alike, whatever the body, and nothing changes.
   */
  lemma OwnershipRefusalIgnoresBody(s: Store, caller: UserId, id: NoteId, p1: Patch, p2: Patch)
    requires id in s && s[id].owner != caller
    ensures UpdateNote(s, caller, id, p1) == UpdateNote(s, caller, id, p2)
    ensures UpdateNote(s, caller, id, p1) == DeleteNote(s, caller, id)
    ensures DeleteNote(s, caller, id) == Step(Err(StatusUnauthorized, NotAuthorized), s)
  {
  }

  /**
   * Sending the same update twice leaves the store as sending it once does.
   * When the first call succeeds, the second reply repeats it exactly when
   * the body keeps the caller as owner; a body that hands the note to another
   * user gets the second call refused with 401.
   */
  lemma UpdateTwiceSameStore(s: Store, caller: UserId, id: NoteId, patch: Patch)
    ensures var first := UpdateNote(s, caller, id, patch);
            UpdateNote(first.store, caller, id, patch).store == first.store
    ensures var first := UpdateNote(s, caller, id, patch);
            patch.owner.None? || patch.owner == Some(caller) ==>
              UpdateNote(first.store, caller, id, patch).reply == first.reply
    ensures var first := UpdateNote(s, caller, id, patch);
            first.reply.Ok? && patch.owner.Some? && patch.owner.value != caller ==>
              UpdateNote(first.store, caller, id, patch).reply == Err(StatusUnauthorized, NotAuthorized)
  {
  }

  /**
   * The update body is not filtered: the owner can hand a note to another
   * user, and is refused on it from then on.
   */
  lemma UpdateCanHandOverNote(s: Store, caller: UserId, id: NoteId, heir: UserId, later: Patch)
    requires id in s && s[id].owner == caller && heir != caller
    ensures var after := UpdateNote(s, caller, id, Patch(Some(heir), None, None));
            && after.reply.Ok?
            && after.store[id] == Note(heir, s[id].title, s[id].content)
            && UpdateNote(after.store, caller, id, later).reply == Err(StatusUnauthorized, NotAuthorized)
            && UpdateNote(after.store, heir, id, later).reply.Ok?
  {
  }

  /** The update body may also empty the title: the non-empty rule applies only at creation. */
  lemma UpdateCanEmptyTitle(s: Store, caller: UserId, id: NoteId)
    requires id in s && s[id].owner == caller
    ensures UpdateNote(s, caller, id, Patch(None, Some(""), None)).store[id].title == ""
  {
  }

  /** Deleting is not idempotent: a second delete of the same id finds nothing, whoever sends it. */
  lemma DeleteTwiceNotFound(s: Store, caller: UserId, again: UserId, id: NoteId)
    requires id in s && s[id].owner == caller
    ensures var first := DeleteNote(s, caller, id);
            && first.reply == Ok(StatusOk, Ack(NoteDeleted))
            && DeleteNote(first.store, again, id) == Step(Err(StatusNotFound, NoteNotFound), first.store)
  {
  }

  /** After a successful create, the creator's listing holds the new note with the creator as owner. */
  lemma ListAfterCreate(s: Store, caller: UserId, title: string, content: string, newId: NoteId, order: seq<NoteId>)
    requires newId !in s && title != "" && content != ""
    requires Enumerates(order, CreateNote(s, caller, CreateBody(Some(title), Some(content)), newId).store)
    ensures var created := CreateNote(s, caller, CreateBody(Some(title), Some(content)), newId);
            Entry(newId, Note(caller, title, content)) in GetNotes(created.store, caller, order).reply.payload.entries
  {
  }

  /** After a successful delete, no listing holds the deleted id. */
  lemma ListAfterDelete(s: Store, caller: UserId, id: NoteId, anyone: UserId, order: seq<NoteId>)
    requires id in s && s[id].owner == caller
    requires Enumerates(order, DeleteNote(s, caller, id).store)
    ensures forall e :: e in GetNotes(DeleteNote(s, caller, id).store, anyone, order).reply.payload.entries ==> e.id != id
  {
  }

  /**
   * A walk-through: A creates "Groceries"/"Milk"; B may not
   * change its content; A may, and the title stays.
   */
  lemma GroceriesScenario(s: Store, a: UserId, b: UserId, n1: NoteId)
    requires n1 !in s && a != b
    ensures var created := CreateNote(s, a, CreateBody(Some("Groceries"), Some("Milk")), n1);
            var eggs := Patch(None, None, Some("Eggs"));
            var byB := UpdateNote(created.store, b, n1, eggs);
            var byA := UpdateNote(byB.store, a, n1, eggs);
            && created.reply.status == StatusCreated
            && byB == Step(Err(StatusUnauthorized, NotAuthorized), created.store)
            && byA.reply == Ok(StatusOk, Saved(Entry(n1, Note(a, "Groceries", "Eggs"))))
  {
  }
}
