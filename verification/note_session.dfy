/**
 * The note routes as one dispatcher, and sequences of authenticated calls run
 * against the store. Each call carries the caller id the authentication guard
 * resolved before the handler runs.
 */
module NoteSession {
  import opened NoteModel
  import opened NoteController

  /** The four routes of the notes collection. */
  datatype Request =
    | List(order: seq<NoteId>)
    | Create(body: CreateBody, newId: NoteId)
    | Update(id: NoteId, patch: Patch)
    | Delete(id: NoteId)

  /** One authenticated request. */
  datatype Call = Call(caller: UserId, request: Request)

  /**
   * What the store guarantees for a request: a listing order that enumerates
   * the store, and a newly generated id that is not already in use.
   */
  ghost predicate Admissible(s: Store, r: Request) {
    match r
    case List(order) => Enumerates(order, s)
    case Create(_, newId) => newId !in s
    case Update(_, _) => true
    case Delete(_) => true
  }

  /**
   * Dispatches one call. A refusal leaves the store unchanged, and no entry
   * owned by someone other than the caller is changed or removed.
   */
  function Handle(s: Store, c: Call): (r: Step)
    requires Admissible(s, c.request)
    ensures r.reply.Err? ==> r.store == s && r.reply.status in {StatusBadRequest, StatusUnauthorized, StatusNotFound}
    ensures r.reply.Ok? ==> r.reply.status in {StatusOk, StatusCreated}
    ensures forall id :: id in s && s[id].owner != c.caller ==> id in r.store && r.store[id] == s[id]
  {
    match c.request
    case List(order) => GetNotes(s, c.caller, order)
    case Create(body, newId) => CreateNote(s, c.caller, body, newId)
    case Update(id, patch) => UpdateNote(s, c.caller, id, patch)
    case Delete(id) => DeleteNote(s, c.caller, id)
  }

  /** Every call of the sequence is admissible in the store it reaches. */
  ghost predicate AdmissibleRun(s: Store, calls: seq<Call>)
    decreases |calls|
  {
    |calls| == 0 ||
    (Admissible(s, calls[0].request) && AdmissibleRun(Handle(s, calls[0]).store, calls[1..]))
  }

  /** The store after the calls, handled one at a time in order. */
  function Run(s: Store, calls: seq<Call>): (t: Store)
    requires AdmissibleRun(s, calls)
    decreases |calls|
  {
    if |calls| == 0 then s else Run(Handle(s, calls[0]).store, calls[1..])
  }

  /**
   * Calls by other users never change or remove a user's notes: whatever
   * sequence of requests the others send, every note `u` owned at the start
   * is still there, unchanged.
   */
  lemma {:induction false} OthersCannotTouch(s: Store, calls: seq<Call>, u: UserId)
    requires AdmissibleRun(s, calls)
    requires forall k :: 0 <= k < |calls| ==> calls[k].caller != u
    ensures forall id :: id in s && s[id].owner == u ==> id in Run(s, calls) && Run(s, calls)[id] == s[id]
    decreases |calls|
  {
    if |calls| > 0 {
      var next := Handle(s, calls[0]).store;
      OthersCannotTouch(next, calls[1..], u);
    }
  }

  /**
   * A run made only of refused calls leaves the store exactly as it was.
   */
  lemma {:induction false} RefusalsChangeNothing(s: Store, calls: seq<Call>)
    requires AdmissibleRun(s, calls)
    requires forall k :: 0 <= k < |calls| ==> Refused(s, calls[k])
    ensures Run(s, calls) == s
    decreases |calls|
  {
    if |calls| > 0 {
      assert Handle(s, calls[0]).store == s;
      RefusalsChangeNothing(s, calls[1..]);
    }
  }

  /** The call is refused when it reaches the store `s`. */
  ghost predicate Refused(s: Store, c: Call) {
    Admissible(s, c.request) && Handle(s, c).reply.Err?
  }
}
