/**
  The post resource manager: the five operations of the controller, each a
  sequence of calls on the repository it holds.
 */
module Controller {
  import opened Posts
  import opened Repository

  class PostController {
    const repository: PostRepository

    constructor (repository: PostRepository)
      ensures this.repository == repository
    {
      this.repository := repository;
    }

    /** List: the repository's contents, unchanged. */
    method FindAll() returns (all: Store)
      ensures all == repository.posts
    {
      all := repository.FindAll();
    }

    /** Get: the stored post, or NotFound; the store is only read. */
    method FindById(id: int) returns (r: Outcome)
      ensures r == Lookup(repository.posts, id)
    {
      var found := repository.FindById(id);
      if found.Some? {
        r := Ok(found.value);
      } else {
        r := NotFound;
      }
    }

    /** Create: validate, then hand the request to save unchanged. */
    method Create(request: Post) returns (r: Outcome)
      requires repository.KeyedById()
      modifies repository
      ensures repository.KeyedById()
      ensures Step(r, repository.posts) == Created(old(repository.posts), request)
      ensures !Valid(request) ==> unchanged(repository)
    {
      if !Valid(request) {
        return ValidationError;
      }
      var saved := repository.Save(request);
      r := Ok(saved);
    }

    /**
      Update: validate, look the id up, and save the stored record with the
      request's title and body; an absent id is NotFound and nothing is saved.
     */
    method Update(id: int, request: Post) returns (r: Outcome)
      requires repository.KeyedById()
      modifies repository
      ensures repository.KeyedById()
      ensures Step(r, repository.posts) == Updated(old(repository.posts), id, request)
      ensures !r.Ok? ==> unchanged(repository)
      ensures r.Ok? ==> repository.posts.Keys == old(repository.posts.Keys)
      ensures r.Ok? ==> repository.posts[id] == r.post
      ensures forall k :: k in old(repository.posts) && k != id ==> repository.posts[k] == old(repository.posts[k])
    {
      if !Valid(request) {
        return ValidationError;
      }
      var existing := repository.FindById(id);
      if existing.Some? {
        var updated := Merge(existing.value, request);
        var saved := repository.Save(updated);
        r := Ok(saved);
      } else {
        r := NotFound;
      }
    }

    /** Delete: remove by id with no existence check; it never fails. */
    method Delete(id: int)
      requires repository.KeyedById()
      modifies repository
      ensures repository.KeyedById()
      ensures repository.posts == Deleted(old(repository.posts), id)
    {
      repository.DeleteById(id);
    }
  }
}
