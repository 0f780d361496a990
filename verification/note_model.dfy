/**
 * The data the note handlers work on: optional request fields, identities, the note record, the note
 * store, request bodies, and the status-tagged replies that replace the
 * throw-and-set-status control flow of the handlers.
 */
module NoteModel {
  /** A request field the client may omit. */
  datatype Option<T> = None | Some(value: T)

  /** The value a patch field carries, or `current` when the field is absent. */
  function Overwrite<T>(field: Option<T>, current: T): T
  {
    if field.Some? then field.value else current
  }

  /** Identity of an authenticated user. Identities are opaque and compared by value. */
  datatype UserId = UserId(hex: string)

  /** Identity of a stored note, generated by the store when the note is created. */
  datatype NoteId = NoteId(hex: string)

  /** A stored note: the owning user and its two text fields. */
  datatype Note = Note(owner: UserId, title: string, content: string)

  /** The note collection, keyed by note id. */
  type Store = map<NoteId, Note>

  /** Body of a create request; a field the client omits is `None`. */
  datatype CreateBody = CreateBody(title: Option<string>, content: Option<string>)

  /**
   * Body of an update request. It reaches the store unfiltered, so besides the
   * title and the content it may also carry a new owner.
   */
  datatype Patch = Patch(owner: Option<UserId>, title: Option<string>, content: Option<string>)

  /** A note as it appears in a reply: its id together with its fields. */
  datatype Entry = Entry(id: NoteId, note: Note)

  /** Body of a successful reply. */
  datatype Payload =
    | Saved(entry: Entry)
    | Listing(entries: seq<Entry>)
    | Ack(message: string)

  /** A reply: a status code with either a payload or an error message. */
  datatype Reply =
    | Ok(status: int, payload: Payload)
    | Err(status: int, message: string)

  /** Outcome of one handler: the reply sent and the store afterwards. */
  datatype Step = Step(reply: Reply, store: Store)

  const StatusOk := 200
  const StatusCreated := 201
  const StatusBadRequest := 400
  const StatusUnauthorized := 401
  const StatusNotFound := 404

  const MissingFields := "Please add all fields"
  const NoteNotFound := "Note not found"
  const NotAuthorized := "Not authorized"
  const NoteDeleted := "Note deleted"

  /** JavaScript truthiness of an optional string field: present and not empty. */
  predicate Truthy(field: Option<string>) {
    field.Some? && field.value != ""
  }

  /** `after` is `before` with every field the patch carries overwritten, and no other change. */
  ghost predicate Merged(before: Note, p: Patch, after: Note) {
    && (p.owner.Some? ==> after.owner == p.owner.value)
    && (p.owner.None? ==> after.owner == before.owner)
    && (p.title.Some? ==> after.title == p.title.value)
    && (p.title.None? ==> after.title == before.title)
    && (p.content.Some? ==> after.content == p.content.value)
    && (p.content.None? ==> after.content == before.content)
  }

  /** Applies an update body to a stored note. */
  function Merge(n: Note, p: Patch): (m: Note)
    ensures Merged(n, p, m)
  {
    Note(Overwrite(p.owner, n.owner), Overwrite(p.title, n.title), Overwrite(p.content, n.content))
  }

  /** No id occurs twice in `ids`. */
  ghost predicate Distinct(ids: seq<NoteId>) {
    forall i, j :: 0 <= i < j < |ids| ==> ids[i] != ids[j]
  }

  /** The ids of the entries, in their order. */
  function IdsOf(es: seq<Entry>): seq<NoteId>
  {
    seq(|es|, i requires 0 <= i < |es| => es[i].id)
  }

  /** No id occurs twice among the entries. */
  ghost predicate DistinctEntries(es: seq<Entry>) {
    Distinct(IdsOf(es))
  }

  /** `order` lists every id of the store exactly once: the order in which the store yields its notes. */
  ghost predicate Enumerates(order: seq<NoteId>, s: Store) {
    && Distinct(order)
    && (forall id :: id in order <==> id in s)
  }
}
