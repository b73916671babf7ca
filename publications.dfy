/** The publication service: binds a post to a media account at an instant,
    checks that both exist, refuses to edit a publication whose date has
    passed, and lists publications by state and time window. */
module Publications {
  import opened Results
  import opened Arrays
  import opened Tables
  import opened Entities
  import opened Medias
  import opened Posts

  /** The body of POST and PUT /publications (all three fields supplied). */
  datatype PublicationDto = PublicationDto(mediaId: int, postId: int, date: int)

  /** What `findAll` yields: a listing, or undefined (None) when no branch
      of the filter matches. */
  type Listing = Result<Option<seq<Row<Publication>>>>

  /** JavaScript truthiness of an optional query parameter: present and
      not the empty string. */
  predicate Truthy(q: Option<string>)
  {
    q.Some? && q.value != ""
  }

  /** `isBooleanString` of class-validator. */
  predicate IsBooleanString(s: string)
  {
    s == "true" || s == "false" || s == "1" || s == "0"
  }

  /** The date lies strictly above `lo` and strictly below `hi`, each bound
      applying only when present. */
  ghost predicate InWindow(date: int, lo: Option<int>, hi: Option<int>)
  {
    (lo.Some? ==> lo.value < date) && (hi.Some? ==> date < hi.value)
  }

  /** r lists exactly the publications of `all` dated inside the window,
      each as often as in `all`, in their order in `all`. */
  ghost predicate ListsWindow(r: Listing, all: seq<Row<Publication>>, lo: Option<int>, hi: Option<int>)
  {
    && r.Ok? && r.value.Some?
    && IsSubsequence(r.value.value, all)
    && (forall i :: 0 <= i < |r.value.value| ==>
          r.value.value[i] in all && InWindow(r.value.value[i].data.date, lo, hi))
    && (forall i :: 0 <= i < |all| && InWindow(all[i].data.date, lo, hi) ==> all[i] in r.value.value)
    && (forall x :: multiset(r.value.value)[x] == (if InWindow(x.data.date, lo, hi) then multiset(all)[x] else 0))
  }

  /** Filtering by a predicate that tests exactly the window lists the window. */
  lemma FilterListsWindow(all: seq<Row<Publication>>, keep: Row<Publication> -> bool, lo: Option<int>, hi: Option<int>)
    requires forall x :: keep(x) == InWindow(x.data.date, lo, hi)
    ensures ListsWindow(Ok(Some(Filter(all, keep))), all, lo, hi)
  {
  }

  /** The filtering of `findAll` over the stored listing `all`. `now` is the
      current instant; `isIso8601` and `parseTime` stand for class-validator's
      `isISO8601` and `new Date(after)`. */
  function Select(all: seq<Row<Publication>>, published: Option<string>, after: Option<string>,
                  now: int, isIso8601: string -> bool, parseTime: string -> int): (r: Listing)
    ensures !Truthy(published) && !Truthy(after) ==> r == Ok(Some(all))
    ensures r == BadRequest <==>
      (Truthy(published) && !IsBooleanString(published.value)) || (Truthy(after) && !isIso8601(after.value))
    ensures published == Some("false") && !Truthy(after) ==> ListsWindow(r, all, Some(now), None)
    ensures published == Some("true") && !Truthy(after) ==> ListsWindow(r, all, None, Some(now))
    ensures (published == Some("true") || !Truthy(published)) && Truthy(after) && isIso8601(after.value)
            ==> ListsWindow(r, all, Some(parseTime(after.value)), Some(now))
    ensures r == Ok(None) <==>
      && (published == Some("1") || published == Some("0") || (published == Some("false") && Truthy(after)))
      && (Truthy(after) ==> isIso8601(after.value))
  {
    if !Truthy(published) && !Truthy(after) then
      Ok(Some(all))
    else if Truthy(published) && !IsBooleanString(published.value) then
      BadRequest
    else if Truthy(after) && !isIso8601(after.value) then
      BadRequest
    else if published == Some("false") && !Truthy(after) then
      var notPublishedYet := (p: Row<Publication>) => p.data.date > now;
      FilterListsWindow(all, notPublishedYet, Some(now), None);
      Ok(Some(Filter(all, notPublishedYet)))
    else if published == Some("true") then
      if !Truthy(after) then
        var alreadyPublished := (p: Row<Publication>) => p.data.date < now;
        FilterListsWindow(all, alreadyPublished, None, Some(now));
        Ok(Some(Filter(all, alreadyPublished)))
      else
        var alreadyPublishedAfter := (p: Row<Publication>) => p.data.date > parseTime(after.value) && p.data.date < now;
        FilterListsWindow(all, alreadyPublishedAfter, Some(parseTime(after.value)), Some(now));
        Ok(Some(Filter(all, alreadyPublishedAfter)))
    else if !Truthy(published) && Truthy(after) then
      var publishedAfter := (p: Row<Publication>) => p.data.date > parseTime(after.value) && p.data.date < now;
      FilterListsWindow(all, publishedAfter, Some(parseTime(after.value)), Some(now));
      Ok(Some(Filter(all, publishedAfter)))
    else
      Ok(None)
  }

  /** Scheduled (published=false) and published (published=true) listings
      are disjoint, and together hold every publication not dated exactly
      `now`. */
  lemma ScheduledAndPublishedPartition(all: seq<Row<Publication>>, now: int,
                                       isIso8601: string -> bool, parseTime: string -> int)
    ensures
      var scheduled := Select(all, Some("false"), None, now, isIso8601, parseTime).value.value;
      var published := Select(all, Some("true"), None, now, isIso8601, parseTime).value.value;
      && (forall i :: 0 <= i < |scheduled| ==> scheduled[i] !in published && scheduled[i].data.date != now)
      && (forall i :: 0 <= i < |published| ==> published[i].data.date != now)
      && (forall i :: 0 <= i < |all| && all[i].data.date != now ==> all[i] in scheduled || all[i] in published)
  {
  }

  /** `published=true` with `after` and `after` alone list the same
      publications. */
  lemma PublishedAfterIsAfter(all: seq<Row<Publication>>, after: Option<string>, now: int,
                              isIso8601: string -> bool, parseTime: string -> int)
    requires Truthy(after)
    ensures Select(all, Some("true"), after, now, isIso8601, parseTime)
         == Select(all, None, after, now, isIso8601, parseTime)
  {
  }

  /** `findRegisterOrNotFoundError`: the stored publication, or NotFound. */
  function FindRegisterOrNotFoundError(rows: seq<Row<Publication>>, id: int): (r: Result<Row<Publication>>)
    ensures r.Ok? <==> id in View(rows)
    ensures r.Ok? ==> r.value == Row(id, View(rows)[id])
    ensures !r.Ok? ==> r == NotFound(PublicationEntity)
  {
    var found := Lookup(rows, id);
    if found.None? then NotFound(PublicationEntity) else Ok(found.value)
  }

  class PublicationsService {
    var rows: seq<Row<Publication>>
    var nextId: int

    ghost predicate Valid()
      reads this
    {
      WellFormed(rows, nextId)
    }

    constructor ()
      ensures Valid() && rows == [] && nextId == 1
    {
      rows := [];
      nextId := 1;
    }

    /** `findMediaAndPostRegister`: the media is looked up first, then the post. */
    method FindMediaAndPostRegister(mediaId: int, postId: int, medias: MediasService, posts: PostsService)
      returns (r: Result<()>)
      ensures mediaId !in View(medias.rows) ==> r == NotFound(MediaEntity)
      ensures mediaId in View(medias.rows) && postId !in View(posts.rows) ==> r == NotFound(PostEntity)
      ensures mediaId in View(medias.rows) && postId in View(posts.rows) ==> r == Ok(())
    {
      var media := medias.FindOne(mediaId);
      if !media.Ok? {
        return NotFound(MediaEntity);
      }
      var post := posts.FindOne(postId);
      if !post.Ok? {
        return NotFound(PostEntity);
      }
      r := Ok(());
    }

    /** POST /publications: NotFound for a missing media, then for a missing
        post; otherwise the publication is stored under the next key. The
        date is not compared with the current instant. */
    method Create(dto: PublicationDto, medias: MediasService, posts: PostsService)
      returns (r: Result<Row<Publication>>)
      requires Valid()
      modifies this
      ensures Valid()
      ensures medias.rows == old(medias.rows) && posts.rows == old(posts.rows)
      ensures dto.mediaId !in View(medias.rows) ==>
        r == NotFound(MediaEntity) && rows == old(rows) && nextId == old(nextId)
      ensures dto.mediaId in View(medias.rows) && dto.postId !in View(posts.rows) ==>
        r == NotFound(PostEntity) && rows == old(rows) && nextId == old(nextId)
      ensures dto.mediaId in View(medias.rows) && dto.postId in View(posts.rows) ==>
        && r == Ok(Row(old(nextId), Publication(dto.mediaId, dto.postId, dto.date)))
        && rows == old(rows) + [r.value]
        && nextId == old(nextId) + 1
        && View(rows) == View(old(rows))[old(nextId) := Publication(dto.mediaId, dto.postId, dto.date)]
      ensures MediaRefsResolve(old(rows), medias.rows) ==> MediaRefsResolve(rows, medias.rows)
      ensures PostRefsResolve(old(rows), posts.rows) ==> PostRefsResolve(rows, posts.rows)
    {
      var found := FindMediaAndPostRegister(dto.mediaId, dto.postId, medias, posts);
      if !found.Ok? {
        return NotFound(found.entity);
      }
      var p := Publication(dto.mediaId, dto.postId, dto.date);
      rows := Insert(rows, nextId, p);
      r := Ok(Row(nextId, p));
      nextId := nextId + 1;
    }

    /** GET /publications?published=&after=: the stored listing filtered by
        `Select`. */
    method FindAll(published: Option<string>, after: Option<string>, now: int,
                   isIso8601: string -> bool, parseTime: string -> int) returns (r: Listing)
      ensures r == Select(rows, published, after, now, isIso8601, parseTime)
    {
      r := Select(rows, published, after, now, isIso8601, parseTime);
    }

    /** GET /publications/:id: the stored publication under id, or NotFound. */
    method FindOne(id: int) returns (r: Result<Row<Publication>>)
      ensures id in View(rows) ==> r == Ok(Row(id, View(rows)[id]))
      ensures id !in View(rows) ==> r == NotFound(PublicationEntity)
    {
      var stored := FindRegisterOrNotFoundError(rows, id);
      if !stored.Ok? {
        return stored;
      }
      var found := Lookup(rows, id);
      r := Ok(found.value);
    }

    /** PUT /publications/:id: NotFound for a missing publication, media or
        post, in that order; Forbidden when the stored date has passed;
        otherwise all three fields are replaced. */
    method Update(id: int, dto: PublicationDto, now: int, medias: MediasService, posts: PostsService)
      returns (r: Result<Row<Publication>>)
      requires Valid()
      modifies this
      ensures Valid() && nextId == old(nextId)
      ensures medias.rows == old(medias.rows) && posts.rows == old(posts.rows)
      ensures !r.Ok? ==> rows == old(rows)
      ensures id !in View(old(rows)) ==> r == NotFound(PublicationEntity)
      ensures id in View(old(rows)) && dto.mediaId !in View(medias.rows) ==> r == NotFound(MediaEntity)
      ensures id in View(old(rows)) && dto.mediaId in View(medias.rows) && dto.postId !in View(posts.rows)
              ==> r == NotFound(PostEntity)
      ensures id in View(old(rows)) && dto.mediaId in View(medias.rows) && dto.postId in View(posts.rows) ==>
        (r == Forbidden <==> View(old(rows))[id].date < now)
      ensures (id in View(old(rows)) && dto.mediaId in View(medias.rows) && dto.postId in View(posts.rows) &&
               View(old(rows))[id].date >= now) ==> r.Ok?
      ensures r.Ok? ==>
        && r == Ok(Row(id, Publication(dto.mediaId, dto.postId, dto.date)))
        && View(rows) == View(old(rows))[id := r.value.data]
        && |rows| == |old(rows)|
        && forall i :: 0 <= i < |rows| ==> rows[i].id == old(rows)[i].id
      ensures MediaRefsResolve(old(rows), medias.rows) ==> MediaRefsResolve(rows, medias.rows)
      ensures PostRefsResolve(old(rows), posts.rows) ==> PostRefsResolve(rows, posts.rows)
    {
      var stored := FindRegisterOrNotFoundError(rows, id);
      if !stored.Ok? {
        return stored;
      }
      var found := FindMediaAndPostRegister(dto.mediaId, dto.postId, medias, posts);
      if !found.Ok? {
        return NotFound(found.entity);
      }
      var publication := Lookup(rows, id);
      if publication.value.data.date < now {
        return Forbidden;
      }
      var updated := Publication(dto.mediaId, dto.postId, dto.date);
      rows := Replace(rows, id, updated);
      r := Ok(Row(id, updated));
    }

    /** DELETE /publications/:id: NotFound for a missing publication;
        otherwise only that publication is deleted. */
    method Remove(id: int) returns (r: Result<Row<Publication>>)
      requires Valid()
      modifies this
      ensures Valid() && nextId == old(nextId)
      ensures id !in View(old(rows)) ==> r == NotFound(PublicationEntity) && rows == old(rows)
      ensures id in View(old(rows)) ==>
        && r == Ok(Row(id, View(old(rows))[id]))
        && View(rows) == View(old(rows)) - {id}
        && IsSubsequence(rows, old(rows))
    {
      var stored := FindRegisterOrNotFoundError(rows, id);
      if !stored.Ok? {
        return stored;
      }
      rows := Delete(rows, id);
      r := stored;
    }
  }
}
