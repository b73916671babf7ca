/** The post service: posts that cannot be deleted while a publication
    references them. */
module Posts {
  import opened Results
  import opened Arrays
  import opened Tables
  import opened Entities

  /** The body of PUT /posts/:id. The image may be sent but is never written. */
  datatype UpdatePostDto = UpdatePostDto(title: Option<string>, text: Option<string>, image: Option<string>)

  /** The record the repository's update leaves behind: title and text when
      supplied, the stored image always. */
  function Merge(stored: Post, dto: UpdatePostDto): Post
  {
    Post(if dto.title.Some? then dto.title.value else stored.title,
         if dto.text.Some? then dto.text.value else stored.text,
         stored.image)
  }

  /** Some publication, scheduled or published, references the post. */
  ghost predicate Referenced(publications: seq<Row<Publication>>, id: int)
  {
    exists i :: 0 <= i < |publications| && publications[i].data.postId == id
  }

  /** The reference check of `remove`: the first publication of the listing
      whose post is `id`. */
  function FindReferencing(publications: seq<Row<Publication>>, id: int): (r: Option<Row<Publication>>)
    ensures r.Some? <==> Referenced(publications, id)
    ensures r.Some? ==> r.value.data.postId == id
  {
    Find(publications, (p: Row<Publication>) => p.data.postId == id)
  }

  /** `findRegisterOrNotFound`: the stored post, or NotFound. */
  function FindRegisterOrNotFound(rows: seq<Row<Post>>, id: int): (r: Result<Row<Post>>)
    ensures r.Ok? <==> id in View(rows)
    ensures r.Ok? ==> r.value == Row(id, View(rows)[id])
    ensures !r.Ok? ==> r == NotFound(PostEntity)
  {
    var found := Lookup(rows, id);
    if found.None? then NotFound(PostEntity) else Ok(found.value)
  }

  /** Deleting a post no publication references leaves every reference
      resolvable. */
  lemma DeleteUnreferencedKeepsRefs(publications: seq<Row<Publication>>, rows: seq<Row<Post>>, id: int)
    requires PostRefsResolve(publications, rows)
    requires !Referenced(publications, id)
    ensures PostRefsResolve(publications, Delete(rows, id))
  {
  }

  class PostsService {
    var rows: seq<Row<Post>>
    var nextId: int

    ghost predicate Valid()
      reads this
    {
      WellFormed(rows, nextId)
    }

    constructor ()
      ensures Valid() && rows == [] && nextId == 1
    {
      rows := [];
      nextId := 1;
    }

    /** POST /posts: always stored, under the next key. */
    method Create(title: string, text: string, image: Option<string>) returns (r: Row<Post>)
      requires Valid()
      modifies this
      ensures Valid()
      ensures r == Row(old(nextId), Post(title, text, image))
      ensures rows == old(rows) + [r] && nextId == old(nextId) + 1
      ensures View(rows) == View(old(rows))[r.id := r.data]
    {
      var p := Post(title, text, image);
      rows := Insert(rows, nextId, p);
      r := Row(nextId, p);
      nextId := nextId + 1;
    }

    /** GET /posts: every stored post, in listing order. */
    method FindAll() returns (all: seq<Row<Post>>)
      ensures all == rows
    {
      all := rows;
    }

    /** GET /posts/:id: the stored post under id, or NotFound. */
    method FindOne(id: int) returns (r: Result<Row<Post>>)
      ensures id in View(rows) ==> r == Ok(Row(id, View(rows)[id]))
      ensures id !in View(rows) ==> r == NotFound(PostEntity)
    {
      var stored := FindRegisterOrNotFound(rows, id);
      if !stored.Ok? {
        return stored;
      }
      var found := Lookup(rows, id);
      r := Ok(found.value);
    }

    /** PUT /posts/:id: NotFound for an absent post; otherwise only that post
        changes, and only in its title and text. */
    method Update(id: int, dto: UpdatePostDto) returns (r: Result<Row<Post>>)
      requires Valid()
      modifies this
      ensures Valid() && nextId == old(nextId)
      ensures id !in View(old(rows)) ==> r == NotFound(PostEntity) && rows == old(rows)
      ensures id in View(old(rows)) ==>
        var merged := Merge(View(old(rows))[id], dto);
        && r == Ok(Row(id, merged))
        && merged.image == View(old(rows))[id].image
        && View(rows) == View(old(rows))[id := merged]
        && |rows| == |old(rows)|
        && forall i :: 0 <= i < |rows| ==> rows[i].id == old(rows)[i].id
    {
      var stored := FindRegisterOrNotFound(rows, id);
      if !stored.Ok? {
        return stored;
      }
      var merged := Merge(stored.value.data, dto);
      rows := Replace(rows, id, merged);
      r := Ok(Row(id, merged));
    }

    /** DELETE /posts/:id: NotFound for an absent post, then Forbidden while
        any publication of the listing references it; otherwise only that
        post is deleted. `publications` is the publication service's
        unfiltered listing. */
    method Remove(id: int, publications: seq<Row<Publication>>) returns (r: Result<Row<Post>>)
      requires Valid()
      modifies this
      ensures Valid() && nextId == old(nextId)
      ensures id !in View(old(rows)) ==> r == NotFound(PostEntity) && rows == old(rows)
      ensures id in View(old(rows)) && Referenced(publications, id) ==> r == Forbidden && rows == old(rows)
      ensures id in View(old(rows)) && !Referenced(publications, id) ==>
        && r == Ok(Row(id, View(old(rows))[id]))
        && View(rows) == View(old(rows)) - {id}
        && IsSubsequence(rows, old(rows))
      ensures PostRefsResolve(publications, old(rows)) ==> PostRefsResolve(publications, rows)
    {
      var stored := FindRegisterOrNotFound(rows, id);
      if !stored.Ok? {
        return stored;
      }
      var publishedOrScheduled := FindReferencing(publications, id);
      if publishedOrScheduled.Some? {
        return Forbidden;
      }
      if PostRefsResolve(publications, rows) {
        DeleteUnreferencedKeepsRefs(publications, rows, id);
      }
      rows := Delete(rows, id);
      r := stored;
    }
  }
}
