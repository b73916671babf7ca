# Social-Postify service rules in Dafny

This project models the business-rule layer of Social-Postify, a social-media
scheduling backend. Three services sit over three stores: media accounts
(`Media`), posts (`Post`) and publications (`Publication`, one post bound to
one media at an instant). The model states and proves what each service
method returns, which exception it raises, in which order the checks run, and
exactly how each store changes.

Layout, one module per file:

- `results.dfy` (`Results`): `Option`, and `Result = Ok | NotFound(entity) | Conflict | Forbidden | BadRequest`. These are the exceptions the services throw. `NotFound` records which entity was missing, so the order of the existence checks can be observed.
- `arrays.dfy` (`Arrays`): JavaScript's `Array.prototype.find` and `filter`, plus a subsequence predicate.
- `tables.dfy` (`Tables`): one database table as the repositories use it. It is a sequence of `Row(id, data)` in listing order, and `View` reads it as a map from primary key to record. Keys are handed out by autoincrement (`nextId`) and never reused. `Lookup`, `Insert`, `Replace` and `Delete` are the repositories' `findFirst`, `create`, `update` and `delete`.
- `entities.dfy` (`Entities`): the three records and the referential predicates "every publication's media / post is stored".
- `medias.dfy`, `posts.dfy`, `publications.dfy`: one class per service. Each class holds its store (`rows`, `nextId`) and an invariant `Valid()`. The create, update and remove operations are methods over that store. The lookups, the duplicate search, the reference search and the `findAll` filter are functions.

Cross-service calls are explicit parameters. This breaks the circular
`forwardRef` wiring:
- `PublicationsService.Create` and `Update` receive the `MediasService` and `PostsService` objects and call their `FindOne`.
- `PostsService.Remove` receives the publication listing, i.e. the result of the publication service's unfiltered `findAll`.

The current instant is the parameter `now`. Dates are integers on one time
line. class-validator's `isISO8601` and `new Date(after)` are the function
parameters `isIso8601` and `parseTime`.

Where the design description and the code disagree, the model follows the code:
- `findAll` with only `after` returns the publications strictly after `after` **and strictly before now**. It is not unbounded above.
- `findAll` returns undefined (`Ok(None)`) in two cases: `published` is `"1"` or `"0"`, or `published="false"` is combined with `after`. In both, control falls off the end of the method.
- The duplicate check of media `update` includes the media being updated. An update that leaves the pair as it is therefore always gets Conflict (`Medias.UnchangedPairConflicts`). The media end-to-end test expects exactly this.
- Media `remove` never deletes. See Findings.
- Post `update` never writes the image, because the repository passes only title and text.

## Model

| member | source | states |
|---|---|---|
| Arrays.Find | src/medias/medias.service.ts:67-71 | `find` returns a value iff some element satisfies the predicate, and then it returns the first such element |
| Arrays.Filter | src/publications/publications.service.ts:48-49 | `filter` keeps exactly the elements satisfying the predicate, each as many times as it occurs, as a subsequence in their original order |
| Tables.Lookup | src/medias/medias.repository.ts:23-29 | `findFirst` by id finds a row iff the key is stored, and returns the record stored under it |
| Tables.Insert | src/medias/medias.repository.ts:10-17 | `create` stores the record under the next autoincrement key and appends it to the listing; the view gains exactly that key, and keys stay unique and below the new next key |
| Tables.ViewAppend | src/medias/medias.repository.ts:10-17 | appending a row with a fresh key adds exactly that key to the view and keeps keys distinct |
| Tables.Replace | src/medias/medias.repository.ts:31-41 | `update` changes only the record under that key; listing order and keys are kept; the view is updated at that key and nowhere else |
| Tables.Delete | src/medias/medias.repository.ts:43-49 | `delete` removes only the row under that key; the rest keep their order; the view loses exactly that key |
| Medias.FindDuplicateMedia | src/medias/medias.service.ts:65-78 | a duplicate is found iff some stored media has the same title and the same username (case-sensitive equality), and what is found has that pair |
| Medias.RegisterNotFound | src/medias/medias.service.ts:55-63 | NotFound(media) iff the id is absent, otherwise the stored record |
| Medias.UnchangedPairConflicts | src/medias/medias.service.ts:33-39 | when the merged pair equals the media's own stored pair, the duplicate search finds a match, namely the media itself |
| Medias.InsertKeepsUniquePairs | src/medias/medias.service.ts:16-21 | adding a media whose pair is not yet stored keeps all (title, username) pairs unique |
| Medias.ReplaceKeepsUniquePairs | src/medias/medias.service.ts:36-41 | overwriting one media with a pair not yet stored keeps all pairs unique |
| Medias.DeleteKeepsUniquePairs | src/medias/medias.service.ts:52 | deleting a media keeps all pairs unique |
| Medias.MediasService.Create | src/medias/medias.service.ts:16-21 | Conflict iff the pair is already stored, with the store unchanged; otherwise exactly one media with that pair is added under the next key; pair uniqueness is preserved |
| Medias.MediasService.FindAll | src/medias/medias.service.ts:23-26 | returns every stored media in listing order |
| Medias.MediasService.FindOne | src/medias/medias.service.ts:28-31 | NotFound(media) for an absent id, otherwise the stored record unchanged |
| Medias.MediasService.Update | src/medias/medias.service.ts:33-42 | NotFound before any duplicate check; omitted fields keep their stored values; Conflict iff the merged pair is stored anywhere (the media itself included), so an unchanged pair always conflicts; on success only that media changes, keys and order are kept, and pairs stay unique |
| Medias.MediasService.Remove | src/medias/medias.service.ts:44-53 | as written: always Forbidden, with no NotFound check and nothing deleted |
| Medias.MediasService.RemoveUnreferenced | src/medias/medias.service.ts:44-53 | as intended: NotFound(media) for an absent id; Forbidden iff a publication references the media; otherwise exactly that media is deleted, the others keep their listing order, and no publication's media reference is broken |
| Medias.RemoveUnpublishedMedia | src/medias/medias.service.ts:44-53 | removing the only media of a store with no publications: Forbidden as written, success as intended |
| Posts.FindReferencing | src/posts/posts.service.ts:37-39 | a publication is found iff some publication of the listing has this post id |
| Posts.FindRegisterOrNotFound | src/posts/posts.service.ts:47-55 | NotFound(post) iff the id is absent, otherwise the stored record |
| Posts.DeleteUnreferencedKeepsRefs | src/posts/posts.service.ts:35-44 | deleting a post that no publication references leaves every publication's post reference resolvable |
| Posts.PostsService.Create | src/posts/posts.service.ts:16-19 | always succeeds: exactly one post with the given title, text and image is added under the next key |
| Posts.PostsService.FindAll | src/posts/posts.service.ts:21-23 | returns every stored post in listing order |
| Posts.PostsService.FindOne | src/posts/posts.service.ts:25-28 | NotFound(post) for an absent id, otherwise the stored post |
| Posts.PostsService.Update | src/posts/posts.service.ts:30-33 | NotFound(post) for an absent id; otherwise only that post changes, supplied title/text replace the stored ones, and the image is never changed |
| Posts.PostsService.Remove | src/posts/posts.service.ts:35-45 | NotFound before the reference check; Forbidden iff some publication has this post id, with the store unchanged; otherwise exactly that post is deleted and no publication's post reference is broken |
| Publications.Select | src/publications/publications.service.ts:26-65 | no truthy filter: the whole listing, unvalidated; BadRequest iff `published` is not a boolean string or `after` is not ISO-8601; `false`: exactly date > now; `true`: exactly date < now; `true`+after or after alone: exactly after < date < now (each listing keeps every matching row as often as stored); undefined iff `published` is "1"/"0" or `false` comes with `after` (after passing validation); every listing is a subsequence of the store |
| Publications.ScheduledAndPublishedPartition | src/publications/publications.service.ts:47-53 | the `false` and `true` listings are disjoint; neither holds a publication dated exactly now; together they hold every other publication |
| Publications.PublishedAfterIsAfter | src/publications/publications.service.ts:54-62 | `published=true` with `after` and `after` alone give the same result |
| Publications.FindRegisterOrNotFoundError | src/publications/publications.service.ts:94-102 | NotFound(publication) iff the id is absent, otherwise the stored record |
| Publications.PublicationsService.FindMediaAndPostRegister | src/publications/publications.service.ts:89-92 | NotFound(media) if the media is absent, checked first; then NotFound(post) if the post is absent; otherwise success |
| Publications.PublicationsService.Create | src/publications/publications.service.ts:20-24 | NotFound(media), then NotFound(post), with the store unchanged; otherwise exactly one publication with the given media, post and date is added; the date is not compared with now; the media and post stores are unchanged; references stay resolvable |
| Publications.PublicationsService.FindAll | src/publications/publications.service.ts:26-31 | the stored listing filtered by `Select` |
| Publications.PublicationsService.FindOne | src/publications/publications.service.ts:67-70 | NotFound(publication) for an absent id, otherwise the stored publication |
| Publications.PublicationsService.Update | src/publications/publications.service.ts:72-82 | NotFound for the publication, then the media, then the post; then Forbidden iff the stored date is before now, and success whenever all three exist and the stored date is not before now; the store is unchanged on every error; on success all three fields are replaced (not merged), only that publication changes, and references stay resolvable |
| Publications.PublicationsService.Remove | src/publications/publications.service.ts:84-87 | NotFound(publication) for an absent id; otherwise exactly that publication is deleted and the others keep their order |

## Left out

- Controllers, NestJS modules and dependency injection are not modelled. The `forwardRef` cycle between the services becomes method parameters.
- Prisma itself is not modelled. This covers the `createdAt`/`updatedAt` timestamps, its treatment of an `undefined` id in `findFirst`, and its exceptions.
- The repository is reduced to the four table functions of `Tables`. Listing order is insertion order.
- The request-body validators (the DTO decorators) are not modelled. Requests are assumed well-formed: non-empty strings, URL images, integer ids, ISO dates. Publication `update` is modelled with all three fields supplied. Post and media updates take each field as optional.
- ISO-8601 checking and date parsing are the parameters `isIso8601` and `parseTime`, and are not modelled further.
- Wall-clock time is the single parameter `now`. The code reads the clock once per filtered element.
- Promise semantics are not modelled. There is one exception, media `remove`: there the missing `await` decides the outcome. The later rejection of that un-awaited lookup is an unhandled rejection with no effect on the stores, and it is not modelled.
- Error messages and HTTP status codes are not modelled. `NotFound` keeps only which entity was missing.
- Check-then-act races between concurrent requests are not modelled. Each method runs to completion alone.
- Medias.MediasService.Remove: the awaited `getMediaById` on line 45 is not modelled, because its result is discarded.

## Findings

| source | as written | input that shows it | evidently intended | confidence | as-written member | corrected member |
|---|---|---|---|---|---|---|
| src/medias/medias.service.ts:44-53 | `publicationsService.findOne(id)` is called without `await`. The Promise it returns is always truthy, so every call throws Forbidden and the delete on line 52 is unreachable. Even with `await`, the call would look up a *publication* by the media's id. | A store holding only media 1 ("A", "u") and no publications: DELETE /medias/1 gives Forbidden, and the media stays stored. The end-to-end test at test/medias.e2e-spec.ts:115-125 expects 204. | NotFound for an absent media. Forbidden only while some publication references the media. Otherwise the media is deleted. | high (not executed) | Medias.MediasService.Remove, Medias.RemoveUnpublishedMedia | Medias.MediasService.RemoveUnreferenced |
