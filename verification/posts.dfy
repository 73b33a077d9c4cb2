/**
  The Post record and the pure rules of the post resource: request
  validation, the update merge, and the effect of each controller operation
  on the table of stored posts.
 */
module Posts {

  datatype Option<+T> = None | Some(value: T)

  /** A post. `version` is nullable and carried through without interpretation. */
  datatype Post = Post(id: int, userId: int, title: string, body: string, version: Option<int>)

  /** The persisted posts, keyed by identity. */
  type Store = map<int, Post>

  /** What a single-post request produces: the post, or one of the two errors. */
  datatype Outcome = Ok(post: Post) | NotFound | ValidationError

  /** An outcome together with the store it leaves behind. */
  datatype Step = Step(outcome: Outcome, store: Store)

  /** Request validation applied before create and update: title and body are not blank. */
  predicate Valid(p: Post)
    ensures p.title == "" ==> !Valid(p)
    ensures p.body == "" ==> !Valid(p)
    ensures p.title != "" && p.body != "" ==> Valid(p)
  {
    |p.title| > 0 && |p.body| > 0
  }

  /** Every stored post sits under its own identity. */
  ghost predicate Keyed(s: Store) {
    forall k :: k in s ==> s[k].id == k
  }

  /** Every stored post passes request validation. */
  ghost predicate AllValid(s: Store) {
    forall k :: k in s ==> Valid(s[k])
  }

  /**
    The record an update writes: identity, owner and version come from the
    stored record, title and body from the request.
   */
  function Merge(existing: Post, request: Post): (m: Post)
    ensures m.id == existing.id && m.userId == existing.userId && m.version == existing.version
    ensures m.title == request.title && m.body == request.body
    ensures Valid(m) <==> Valid(request)
  {
    Post(existing.id, existing.userId, request.title, request.body, existing.version)
  }

  /** The repository's save: insert or replace by the post's identity. */
  function Saved(s: Store, p: Post): (r: Store)
    ensures p.id in r && r[p.id] == p
    ensures r.Keys == s.Keys + {p.id}
    ensures forall k :: k in s && k != p.id ==> r[k] == s[k]
    ensures Keyed(s) ==> Keyed(r)
  {
    s[p.id := p]
  }

  /** The repository's delete by id; removing an absent id changes nothing. */
  function Deleted(s: Store, id: int): (r: Store)
    ensures r.Keys == s.Keys - {id}
    ensures forall k :: k in r ==> r[k] == s[k]
    ensures Keyed(s) ==> Keyed(r)
  {
    s - {id}
  }

  /** Get by id: the stored post, or NotFound when there is none. */
  function Lookup(s: Store, id: int): (r: Outcome)
    ensures r != ValidationError
    ensures r == NotFound <==> id !in s
    ensures r.Ok? ==> r.post == s[id]
  {
    if id in s then Ok(s[id]) else NotFound
  }

  /** Create: validation first; a valid request is saved as it is and returned. */
  function Created(s: Store, request: Post): (r: Step)
    ensures !Valid(request) ==> r == Step(ValidationError, s)
    ensures Valid(request) ==> r.outcome == Ok(request)
    ensures Valid(request) ==> r.store == Saved(s, request)
  {
    if !Valid(request) then Step(ValidationError, s)
    else Step(Ok(request), Saved(s, request))
  }

  /**
    Update: validation first, then the lookup, then the merged record is
    saved and returned. An invalid request is refused whether or not the
    id is stored.
   */
  function Updated(s: Store, id: int, request: Post): (r: Step)
    ensures !Valid(request) ==> r == Step(ValidationError, s)
    ensures Valid(request) && id !in s ==> r == Step(NotFound, s)
    ensures Valid(request) && id in s ==> r.outcome == Ok(Merge(s[id], request))
    ensures r.outcome.Ok? ==> r.store == Saved(s, r.outcome.post)
  {
    if !Valid(request) then Step(ValidationError, s)
    else if id in s then
      var updated := Merge(s[id], request);
      Step(Ok(updated), Saved(s, updated))
    else Step(NotFound, s)
  }

  /**
    A successful update keeps the stored id, owner and version, takes title
    and body from the request, writes exactly the returned record at `id`
    and leaves every other entry as it was.
   */
  lemma UpdateMergesAtId(s: Store, id: int, request: Post)
    requires Keyed(s) && id in s && Valid(request)
    ensures var r := Updated(s, id, request);
      && r.outcome.Ok?
      && r.outcome.post == Post(id, s[id].userId, request.title, request.body, s[id].version)
      && r.store.Keys == s.Keys
      && r.store[id] == r.outcome.post
      && forall k :: k in s && k != id ==> r.store[k] == s[k]
  {
  }

  /** Validation takes precedence over the existence check, for create and update alike. */
  lemma ValidationBeforeStore(s: Store, id: int, request: Post)
    requires !Valid(request)
    ensures Updated(s, id, request).outcome == ValidationError
    ensures Updated(s, id, request).store == s
    ensures Created(s, request).outcome == ValidationError
    ensures Created(s, request).store == s
  {
  }

  /** An update of a stored id never reports NotFound; one of an absent id never writes. */
  lemma UpdateNotFoundIffAbsent(s: Store, id: int, request: Post)
    requires Valid(request)
    ensures Updated(s, id, request).outcome == NotFound <==> id !in s
    ensures id !in s ==> Updated(s, id, request).store == s
  {
  }

  /** After a valid create, a get of the created id returns the created record. */
  lemma CreateThenGet(s: Store, request: Post)
    requires Valid(request)
    ensures var r := Created(s, request); Lookup(r.store, request.id) == r.outcome
  {
  }

  /** After a successful update, a get of the id returns what the update returned. */
  lemma UpdateThenGet(s: Store, id: int, request: Post)
    requires Keyed(s)
    ensures var r := Updated(s, id, request); r.outcome.Ok? ==> Lookup(r.store, id) == r.outcome
  {
  }

  /** Delete never fails: a second delete, or a delete of an absent id, changes nothing. */
  lemma DeleteIdempotent(s: Store, id: int)
    ensures Deleted(Deleted(s, id), id) == Deleted(s, id)
    ensures id !in s ==> Deleted(s, id) == s
    ensures Lookup(Deleted(s, id), id) == NotFound
  {
  }

  /** A create keeps every post under its own id and every stored post valid. */
  lemma CreateKeepsInvariant(s: Store, request: Post)
    requires Keyed(s) && AllValid(s)
    ensures Keyed(Created(s, request).store) && AllValid(Created(s, request).store)
  {
  }

  /** An update keeps every post under its own id and every stored post valid. */
  lemma UpdateKeepsInvariant(s: Store, id: int, request: Post)
    requires Keyed(s) && AllValid(s)
    ensures Keyed(Updated(s, id, request).store) && AllValid(Updated(s, id, request).store)
  {
  }

  /** A delete keeps every post under its own id and every stored post valid. */
  lemma DeleteKeepsInvariant(s: Store, id: int)
    requires Keyed(s) && AllValid(s)
    ensures Keyed(Deleted(s, id)) && AllValid(Deleted(s, id))
  {
  }

  /**
    Save is insert-or-replace, so a valid create that names a stored id
    replaces that post wholesale, owner and version included, without
    adding a key.
   */
  lemma CreateReplacesStored(s: Store, request: Post)
    requires Valid(request) && request.id in s
    ensures Created(s, request).store.Keys == s.Keys
    ensures Created(s, request).store[request.id] == request
  {
  }

  /** The scenario where an update names another owner: the stored owner is kept. */
  lemma UpdateIgnoresRequestOwner()
    ensures
      var stored := Post(1, 1, "Hello, World!", "This is my first post.", None);
      var request := Post(1, 99, "Hello, Space!", "This is my new first post.", None);
      Updated(map[1 := stored], 1, request).outcome
        == Ok(Post(1, 1, "Hello, Space!", "This is my new first post.", None))
  {
  }

  /** The scenario where a post with blank title and body is created: it is refused and nothing is saved. */
  lemma CreateBlankRefused(s: Store)
    ensures Created(s, Post(3, 1, "", "", None)) == Step(ValidationError, s)
  {
  }
}
