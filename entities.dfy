/** The three records the stores hold (the `Media`, `Post` and `Publication`
    entity classes), without the createdAt / updatedAt timestamps the
    database fills in. Dates are instants on an integer time line. */
module Entities {
  import opened Results
  import opened Tables

  /** A social-media account. */
  datatype Media = Media(title: string, username: string)

  /** Content that can be published; `image` is optional. */
  datatype Post = Post(title: string, text: string, image: Option<string>)

  /** A post bound to a media account at an instant. */
  datatype Publication = Publication(mediaId: int, postId: int, date: int)

  /** Every publication's media is a stored media. */
  ghost predicate MediaRefsResolve(publications: seq<Row<Publication>>, medias: seq<Row<Media>>)
  {
    forall i :: 0 <= i < |publications| ==> publications[i].data.mediaId in View(medias)
  }

  /** Every publication's post is a stored post. */
  ghost predicate PostRefsResolve(publications: seq<Row<Publication>>, posts: seq<Row<Post>>)
  {
    forall i :: 0 <= i < |publications| ==> publications[i].data.postId in View(posts)
  }
}
