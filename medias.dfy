/** The media service: media accounts whose (title, username) pairs are
    unique. */
module Medias {
  import opened Results
  import opened Arrays
  import opened Tables
  import opened Entities

  /** The body of PUT /medias/:id: either field may be omitted. */
  datatype UpdateMediaDto = UpdateMediaDto(title: Option<string>, username: Option<string>)

  /** The pair `update` checks and stores: an omitted field keeps its stored value. */
  function Merge(stored: Media, dto: UpdateMediaDto): Media
  {
    Media(if dto.title.Some? then dto.title.value else stored.title,
          if dto.username.Some? then dto.username.value else stored.username)
  }

  /** Some stored media has exactly this title and username. */
  ghost predicate HasPair(rows: seq<Row<Media>>, m: Media)
  {
    exists i :: 0 <= i < |rows| && rows[i].data == m
  }

  /** No two stored media share a (title, username) pair. */
  ghost predicate UniquePairs(rows: seq<Row<Media>>)
  {
    forall i, j :: 0 <= i < j < |rows| ==> rows[i].data != rows[j].data
  }

  /** `findDuplicateMedia`: the first stored media whose title and username
      are both equal (case-sensitively) to the given ones. */
  function FindDuplicateMedia(rows: seq<Row<Media>>, title: string, username: string): (r: Option<Row<Media>>)
    ensures r.Some? <==> HasPair(rows, Media(title, username))
    ensures r.Some? ==> r.value.data == Media(title, username)
  {
    Find(rows, (m: Row<Media>) => m.data.title == title && m.data.username == username)
  }

  /** `registerNotFound`: the stored media, or NotFound. */
  function RegisterNotFound(rows: seq<Row<Media>>, id: int): (r: Result<Row<Media>>)
    ensures r.Ok? <==> id in View(rows)
    ensures r.Ok? ==> r.value == Row(id, View(rows)[id])
    ensures !r.Ok? ==> r == NotFound(MediaEntity)
  {
    var found := Lookup(rows, id);
    if found.None? then NotFound(MediaEntity) else Ok(found.value)
  }

  /** The duplicate check on `update` also sees the media being updated: when
      the merged pair equals its stored pair, a duplicate is always found. */
  lemma UnchangedPairConflicts(rows: seq<Row<Media>>, id: int, dto: UpdateMediaDto)
    requires id in View(rows)
    requires Merge(View(rows)[id], dto) == View(rows)[id]
    ensures FindDuplicateMedia(rows, View(rows)[id].title, View(rows)[id].username).Some?
  {
  }

  /** Adding a media whose pair is not yet stored keeps the pairs unique. */
  lemma {:induction false} InsertKeepsUniquePairs(rows: seq<Row<Media>>, nextId: int, m: Media)
    requires WellFormed(rows, nextId) && UniquePairs(rows) && !HasPair(rows, m)
    ensures UniquePairs(Insert(rows, nextId, m))
  {
  }

  /** Overwriting one media with a pair that is not yet stored keeps the pairs
      unique. */
  lemma {:induction false} ReplaceKeepsUniquePairs(rows: seq<Row<Media>>, id: int, m: Media)
    requires Distinct(rows) && UniquePairs(rows) && !HasPair(rows, m)
    ensures UniquePairs(Replace(rows, id, m))
  {
    var r := Replace(rows, id, m);
    forall i, j | 0 <= i < j < |r| ensures r[i].data != r[j].data {
      DistinctIds(rows, i, j);
    }
  }

  /** Deleting a media keeps the pairs unique. */
  lemma {:induction false} DeleteKeepsUniquePairs(rows: seq<Row<Media>>, id: int)
    requires UniquePairs(rows)
    ensures UniquePairs(Delete(rows, id))
  {
    if rows != [] {
      DeleteKeepsUniquePairs(rows[1..], id);
      var rest := Delete(rows[1..], id);
      if rows[0].id != id {
        var r := Delete(rows, id);
        assert r == [rows[0]] + rest;
        forall i, j | 0 <= i < j < |r| ensures r[i].data != r[j].data {
          if i == 0 {
            var k :| 0 <= k < |rows[1..]| && rows[1..][k] == rest[j - 1];
            assert rows[k + 1] == r[j];
          }
        }
      }
    }
  }

  class MediasService {
    var rows: seq<Row<Media>>
    var nextId: int

    ghost predicate Valid()
      reads this
    {
      WellFormed(rows, nextId) && UniquePairs(rows)
    }

    constructor ()
      ensures Valid() && rows == [] && nextId == 1
    {
      rows := [];
      nextId := 1;
    }

    /** POST /medias: Conflict when the pair is already stored, otherwise the
        new media is stored under the next key. */
    method Create(title: string, username: string) returns (r: Result<Row<Media>>)
      requires Valid()
      modifies this
      ensures Valid()
      ensures r == Conflict <==> HasPair(old(rows), Media(title, username))
      ensures r == Conflict ==> rows == old(rows) && nextId == old(nextId)
      ensures r != Conflict ==>
        && r == Ok(Row(old(nextId), Media(title, username)))
        && rows == old(rows) + [r.value]
        && nextId == old(nextId) + 1
        && View(rows) == View(old(rows))[old(nextId) := Media(title, username)]
    {
      var duplicate := FindDuplicateMedia(rows, title, username);
      if duplicate.Some? {
        return Conflict;
      }
      var m := Media(title, username);
      InsertKeepsUniquePairs(rows, nextId, m);
      rows := Insert(rows, nextId, m);
      r := Ok(Row(nextId, m));
      nextId := nextId + 1;
    }

    /** GET /medias: every stored media, in listing order. */
    method FindAll() returns (all: seq<Row<Media>>)
      ensures all == rows
    {
      all := rows;
    }

    /** GET /medias/:id: the stored media under id, or NotFound. */
    method FindOne(id: int) returns (r: Result<Row<Media>>)
      ensures id in View(rows) ==> r == Ok(Row(id, View(rows)[id]))
      ensures id !in View(rows) ==> r == NotFound(MediaEntity)
    {
      r := RegisterNotFound(rows, id);
    }

    /** PUT /medias/:id: NotFound first; then the merged pair is checked
        against every stored media, the updated one included; otherwise only
        that media changes. */
    method Update(id: int, dto: UpdateMediaDto) returns (r: Result<Row<Media>>)
      requires Valid()
      modifies this
      ensures Valid() && nextId == old(nextId)
      ensures id !in View(old(rows)) ==> r == NotFound(MediaEntity) && rows == old(rows)
      ensures id in View(old(rows)) ==>
        var merged := Merge(View(old(rows))[id], dto);
        if HasPair(old(rows), merged) then r == Conflict && rows == old(rows)
        else && r == Ok(Row(id, merged))
             && View(rows) == View(old(rows))[id := merged]
             && |rows| == |old(rows)|
             && forall i :: 0 <= i < |rows| ==> rows[i].id == old(rows)[i].id
      ensures id in View(old(rows)) && Merge(View(old(rows))[id], dto) == View(old(rows))[id]
              ==> r == Conflict
    {
      var stored := RegisterNotFound(rows, id);
      if !stored.Ok? {
        return stored;
      }
      var merged := Merge(stored.value.data, dto);
      if merged == stored.value.data {
        UnchangedPairConflicts(rows, id, dto);
      }
      var duplicate := FindDuplicateMedia(rows, merged.title, merged.username);
      if duplicate.Some? {
        return Conflict;
      }
      ReplaceKeepsUniquePairs(rows, id, merged);
      rows := Replace(rows, id, merged);
      r := Ok(Row(id, merged));
    }

    /** DELETE /medias/:id as written: the publication lookup is not awaited,
        so the condition checked is a Promise, which is always truthy. Every
        call is Forbidden and nothing is deleted, whether or not the media
        exists or is referenced. */
    method Remove(id: int) returns (r: Result<Row<Media>>)
      ensures r == Forbidden
    {
      r := Forbidden;
    }

    /** DELETE /medias/:id as intended: NotFound for an absent media,
        Forbidden while some publication references it, otherwise only that
        media is deleted. */
    method RemoveUnreferenced(id: int, publications: seq<Row<Publication>>) returns (r: Result<Row<Media>>)
      requires Valid()
      modifies this
      ensures Valid() && nextId == old(nextId)
      ensures id !in View(old(rows)) ==> r == NotFound(MediaEntity) && rows == old(rows)
      ensures id in View(old(rows)) ==>
        if exists i :: 0 <= i < |publications| && publications[i].data.mediaId == id
        then r == Forbidden && rows == old(rows)
        else && r == Ok(Row(id, View(old(rows))[id]))
             && View(rows) == View(old(rows)) - {id}
             && IsSubsequence(rows, old(rows))
      ensures MediaRefsResolve(publications, old(rows)) ==> MediaRefsResolve(publications, rows)
    {
      var stored := RegisterNotFound(rows, id);
      if !stored.Ok? {
        return stored;
      }
      var reference := Find(publications, (p: Row<Publication>) => p.data.mediaId == id);
      if reference.Some? {
        return Forbidden;
      }
      DeleteKeepsUniquePairs(rows, id);
      rows := Delete(rows, id);
      r := stored;
    }
  }

  /** Deleting the one media nothing references: as written the call is
      Forbidden, as intended it succeeds. */
  method RemoveUnpublishedMedia() returns (asWritten: Result<Row<Media>>, intended: Result<Row<Media>>)
    ensures asWritten == Forbidden
    ensures intended == Ok(Row(1, Media("A", "u")))
  {
    var written := new MediasService();
    var created := written.Create("A", "u");
    asWritten := written.Remove(created.value.id);
    var corrected := new MediasService();
    created := corrected.Create("A", "u");
    assert corrected.rows == [Row(1, Media("A", "u"))];
    assert View(corrected.rows) == map[1 := Media("A", "u")];
    intended := corrected.RemoveUnreferenced(created.value.id, []);
  }
}
