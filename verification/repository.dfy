/**
  The persistence collaborator the controller is handed: a table of posts
  keyed by identity, read and written in place.
 */
module Repository {
  import opened Posts

  class PostRepository {
    var posts: Store

    /** The table keeps every post under its own identity. */
    ghost predicate KeyedById()
      reads this
    {
      Posts.Keyed(posts)
    }

    constructor (initial: Store)
      requires Keyed(initial)
      ensures KeyedById() && posts == initial
    {
      posts := initial;
    }

    /** Every stored post, keyed by id. */
    method FindAll() returns (all: Store)
      ensures all == posts
    {
      all := posts;
    }

    /** The post stored under `id`, if any. */
    method FindById(id: int) returns (r: Option<Post>)
      ensures r.Some? <==> id in posts
      ensures r.Some? ==> r.value == posts[id]
    {
      r := if id in posts then Some(posts[id]) else None;
    }

    /** Insert or replace by the post's identity; returns what was stored. */
    method Save(p: Post) returns (saved: Post)
      requires KeyedById()
      modifies this
      ensures KeyedById()
      ensures posts == Saved(old(posts), p)
      ensures saved == p && posts[p.id] == saved
    {
      posts := posts[p.id := p];
      saved := p;
    }

    /** Remove the post stored under `id`; an absent id is not an error. */
    method DeleteById(id: int)
      requires KeyedById()
      modifies this
      ensures KeyedById()
      ensures posts == Deleted(old(posts), id)
    {
      posts := posts - {id};
    }
  }
}
