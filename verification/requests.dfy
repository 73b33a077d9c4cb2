/**
  The controller's five endpoints as requests, and what any sequence of
  them does to the store.
 */
module Requests {
  import opened Posts

  /** One request to the post resource, by endpoint. */
  datatype Request =
    | ListAll
    | GetOne(id: int)
    | CreateOne(request: Post)
    | UpdateOne(id: int, request: Post)
    | DeleteOne(id: int)

  predicate ReadOnly(req: Request) {
    req.ListAll? || req.GetOne?
  }

  /** The store after one request; reads never change it. */
  function Handle(s: Store, req: Request): (r: Store)
    ensures ReadOnly(req) ==> r == s
    ensures req.UpdateOne? && req.id !in s ==> r == s
  {
    match req
    case ListAll => s
    case GetOne(_) => s
    case CreateOne(p) => Created(s, p).store
    case UpdateOne(id, p) => Updated(s, id, p).store
    case DeleteOne(id) => Deleted(s, id)
  }

  /** The store after serving `reqs` in order; a run of reads leaves it as it was. */
  function Serve(s: Store, reqs: seq<Request>): (r: Store)
    ensures (forall i :: 0 <= i < |reqs| ==> ReadOnly(reqs[i])) ==> r == s
    decreases |reqs|
  {
    if reqs == [] then s else Serve(Handle(s, reqs[0]), reqs[1..])
  }

  /** Any sequence of requests keeps every post under its own id and every stored post valid. */
  lemma {:induction false} ServeKeepsInvariant(s: Store, reqs: seq<Request>)
    requires Keyed(s) && AllValid(s)
    ensures Keyed(Serve(s, reqs)) && AllValid(Serve(s, reqs))
    decreases |reqs|
  {
    if reqs != [] {
      var req := reqs[0];
      match req {
        case ListAll =>
        case GetOne(_) =>
        case CreateOne(p) => CreateKeepsInvariant(s, p);
        case UpdateOne(id, p) => UpdateKeepsInvariant(s, id, p);
        case DeleteOne(id) => DeleteKeepsInvariant(s, id);
      }
      ServeKeepsInvariant(Handle(s, req), reqs[1..]);
    }
  }

  /**
    Without a create, no sequence of requests adds a post or changes the
    id, owner or version of a stored one: updates only rewrite title and body.
    Creates are excluded because save is insert-or-replace: a create naming
    a stored id replaces that post wholesale, owner included
    (`Posts.CreateReplacesStored`).
   */
  lemma {:induction false} OwnerNeverChanges(s: Store, reqs: seq<Request>)
    requires Keyed(s)
    requires forall i :: 0 <= i < |reqs| ==> !reqs[i].CreateOne?
    ensures var t := Serve(s, reqs);
      forall k :: k in t ==>
        && k in s
        && t[k].id == s[k].id
        && t[k].userId == s[k].userId
        && t[k].version == s[k].version
    decreases |reqs|
  {
    if reqs != [] {
      var t := Handle(s, reqs[0]);
      assert Keyed(t) && forall k :: k in t ==> k in s && t[k].id == s[k].id && t[k].userId == s[k].userId && t[k].version == s[k].version by {
        match reqs[0]
        case ListAll =>
        case GetOne(_) =>
        case UpdateOne(id, p) =>
        case DeleteOne(id) =>
      }
      OwnerNeverChanges(t, reqs[1..]);
    }
  }
}
