# Post resource manager

A model of `PostController` from the spring-tdd repository: a REST
controller over a single entity, `Post` (`id`, `userId`, `title`, `body`,
`version`), with list, get, create, update and delete operations delegated
to a `PostRepository`.

- `posts.dfy` (module `Posts`): the `Post` record, request validation
  (`Valid`: title and body are not blank), the update merge (`Merge`), and
  the effect of each operation on the table of stored posts as pure
  functions (`Lookup`, `Created`, `Updated`, `Deleted`, and the repository's
  `Saved`). The lemmas state the controller's contract: validation precedes
  the existence check, an update keeps the stored `id`, `userId` and
  `version` and writes only the entry at its id, create then get returns the
  created record, delete is idempotent.
- `repository.dfy` (module `Repository`): the repository as a class holding
  a `map<int, Post>` that `Save` (insert or replace by id) and `DeleteById`
  (no-op on an absent id) update in place. Its invariant is that every post
  sits under its own id.
- `controller.dfy` (module `Controller`): the controller as a class holding
  the repository, whose methods make the same repository calls as the source,
  in the same order, each proved against the pure function in `Posts`.
- `requests.dfy` (module `Requests`): the five endpoints as a request
  datatype and a sequence of requests served in order; proves that any
  sequence keeps the store's invariants, and that without a create no
  sequence changes a stored post's `id`, `userId` or `version`. Creates are
  excluded because save is insert-or-replace: a create that names a stored
  id replaces that post wholesale, owner included.

The repository's storage, `PostRepository`'s declaration and `Post`'s field
annotations are not part of this model; the repository is given the
behaviour the controller relies on (a keyed table). Validation, which the
framework runs before the controller method body because of `@Validated`,
is written out as the first step of `Create` and `Update`.

## Model

| member | source | states |
|---|---|---|
| Posts.Valid | src/main/java/br/com/tavuencas/sergio/post/PostController.java:33-38 | a request is refused when its title or its body is empty and accepted exactly when both are non-empty; the test at PostControllerTest.java:115-133 posts one with both empty |
| Posts.Merge | src/main/java/br/com/tavuencas/sergio/post/PostController.java:42-48 | the merged record keeps the stored id, owner and version and takes title and body from the request; it is valid exactly when the request is |
| Posts.Saved | src/main/java/br/com/tavuencas/sergio/post/PostController.java:50 | save stores the post under its id, adds no other key, leaves other entries alone and keeps every post under its own id |
| Posts.Deleted | src/main/java/br/com/tavuencas/sergio/post/PostController.java:59 | delete removes exactly the key `id`, changes no other entry and keeps every post under its own id |
| Posts.Lookup | src/main/java/br/com/tavuencas/sergio/post/PostController.java:26-28 | get yields NotFound exactly when the id is absent, otherwise the stored post; never a validation error |
| Posts.Created | src/main/java/br/com/tavuencas/sergio/post/PostController.java:33-34 | an invalid create is a ValidationError with the store untouched; a valid one saves the request unchanged and returns it |
| Posts.Updated | src/main/java/br/com/tavuencas/sergio/post/PostController.java:38-53 | invalid request: ValidationError, store untouched, whether or not the id exists; absent id: NotFound, store untouched; otherwise the merged record is saved and returned |
| Posts.UpdateMergesAtId | src/main/java/br/com/tavuencas/sergio/post/PostController.java:41-50 | a successful update returns the stored id, owner and version with the request's title and body, stores exactly that at `id`, keeps the key set and leaves every other entry unchanged |
| Posts.ValidationBeforeStore | src/main/java/br/com/tavuencas/sergio/post/PostController.java:33-38 | a blank title or body makes both create and update a ValidationError that leaves the store as it was, for any id |
| Posts.UpdateNotFoundIffAbsent | src/main/java/br/com/tavuencas/sergio/post/PostController.java:39-53 | a valid update is NotFound exactly when the id is absent, and then nothing is written |
| Posts.CreateThenGet | src/main/java/br/com/tavuencas/sergio/post/PostController.java:33-34 | after a valid create, get of the request's id returns the created record |
| Posts.UpdateThenGet | src/main/java/br/com/tavuencas/sergio/post/PostController.java:42-50 | after a successful update, get of the id returns what the update returned |
| Posts.DeleteIdempotent | src/main/java/br/com/tavuencas/sergio/post/PostController.java:58-59 | deleting twice equals deleting once, deleting an absent id changes nothing, and get after delete is NotFound |
| Posts.CreateKeepsInvariant | src/main/java/br/com/tavuencas/sergio/post/PostController.java:33-34 | a create keeps every post under its own id and every stored post valid |
| Posts.UpdateKeepsInvariant | src/main/java/br/com/tavuencas/sergio/post/PostController.java:38-53 | an update keeps every post under its own id and every stored post valid |
| Posts.DeleteKeepsInvariant | src/main/java/br/com/tavuencas/sergio/post/PostController.java:58-59 | a delete keeps every post under its own id and every stored post valid |
| Posts.CreateReplacesStored | src/main/java/br/com/tavuencas/sergio/post/PostController.java:33-34 | a valid create naming a stored id adds no key and replaces that post wholesale, owner and version included |
| Posts.UpdateIgnoresRequestOwner | src/main/java/br/com/tavuencas/sergio/post/PostController.java:42-48 | updating post 1 with a request naming owner 99 returns the post with owner 1 and the new title and body |
| Posts.CreateBlankRefused | src/test/java/br/com/tavuencas/sergio/post/PostControllerTest.java:115-133 | creating a post with empty title and body is a ValidationError and nothing is saved |
| Repository.PostRepository.constructor | src/main/java/br/com/tavuencas/sergio/post/PostController.java:14 | the repository starts from a given table that keeps every post under its own id |
| Repository.PostRepository.FindAll | src/main/java/br/com/tavuencas/sergio/post/PostController.java:22 | findAll returns the stored table itself |
| Repository.PostRepository.FindById | src/main/java/br/com/tavuencas/sergio/post/PostController.java:27 | findById is present exactly when the id is stored, and then holds the stored post |
| Repository.PostRepository.Save | src/main/java/br/com/tavuencas/sergio/post/PostController.java:34 | save replaces the table by `Saved` of the old one, keeps the invariant and returns the saved post |
| Repository.PostRepository.DeleteById | src/main/java/br/com/tavuencas/sergio/post/PostController.java:59 | deleteById replaces the table by `Deleted` of the old one and keeps the invariant |
| Controller.PostController.constructor | src/main/java/br/com/tavuencas/sergio/post/PostController.java:16-18 | the controller holds the repository it is given |
| Controller.PostController.FindAll | src/main/java/br/com/tavuencas/sergio/post/PostController.java:21-22 | list returns the repository's contents unchanged and changes nothing |
| Controller.PostController.FindById | src/main/java/br/com/tavuencas/sergio/post/PostController.java:26-28 | get returns `Lookup` of the stored table and changes nothing |
| Controller.PostController.Create | src/main/java/br/com/tavuencas/sergio/post/PostController.java:33-34 | create's outcome and new table are those of `Created`; an invalid request touches nothing |
| Controller.PostController.Update | src/main/java/br/com/tavuencas/sergio/post/PostController.java:38-53 | update's outcome and new table are those of `Updated`; a failed update touches nothing; a successful one keeps the key set, stores its result at `id` and leaves other entries unchanged |
| Controller.PostController.Delete | src/main/java/br/com/tavuencas/sergio/post/PostController.java:58-59 | delete has no error outcome and leaves `Deleted` of the old table |
| Requests.Handle | src/main/java/br/com/tavuencas/sergio/post/PostController.java:20-60 | list and get leave the store unchanged, and so does an update of an absent id |
| Requests.Serve | src/main/java/br/com/tavuencas/sergio/post/PostController.java:20-28 | a sequence made only of list and get requests leaves the store unchanged |
| Requests.ServeKeepsInvariant | src/main/java/br/com/tavuencas/sergio/post/PostController.java:33-59 | every sequence of requests keeps every post under its own id and every stored post valid |
| Requests.OwnerNeverChanges | src/main/java/br/com/tavuencas/sergio/post/PostController.java:41-50 | with no create among them, no sequence of requests adds a post or changes a stored post's id, owner or version (creates are excluded because a create naming a stored id replaces it, see `Posts.CreateReplacesStored`) |

## Left out

- HTTP routing, status codes (200, 201, 204, 400, 404) and JSON mapping: outcomes are the `Outcome` datatype (`Ok`, `NotFound`, `ValidationError`); delete has no outcome because it never fails.
- Repository.PostRepository.Save: the store's own assignment of an id or version to a new record is not modelled; save keys the record by the id it carries and returns it unchanged, and `version` is an opaque pass-through.
- Repository.PostRepository.FindAll: returns the table keyed by id; the list order the store chooses is not modelled.
- Posts.Valid: a title or body is blank when it is empty; whether whitespace-only text is also refused depends on the field annotations of `Post`, which is not part of this model; null title, body, id and owner are not modelled.
- Store-level failures (connectivity, constraint violations) propagate unchanged in the source and are not modelled.
- The read-then-write race in update under concurrent requests: the model is sequential.
