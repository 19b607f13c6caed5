/**
 * The toy handlers: idempotent creation, editing, setting the status,
 * listing, and the placeholder delete. What `saveFile` produced and the id
 * the handler generates arrive as parameters.
 */
module ToyHandlers {
  import opened Wrappers
  import opened ByteStrings
  import opened Models
  import opened Http
  import Paging
  import Cursor
  import Storage

  /** What `saveFile` produced: no file was sent, a file was stored at `url`, or storing it failed. */
  datatype Upload = NoFile | Saved(url: string) | SaveFailed
  {
    /** The photo url the handler puts on the toy: set only for a stored file. */
    function PhotoUrl(): Option<string>
    {
      if Saved? then Some(url) else None
    }
  }

  /** No toy has this id. */
  predicate IdFree(toys: seq<Toy>, toyId: Bytes)
  {
    forall i :: 0 <= i < |toys| ==> toys[i].toyId != toyId
  }

  /** The toy `CreateToy` inserts: owned by the requester, under the request's token, with status `created`. */
  function NewToy(req: ToyPost, toyId: Bytes, photoUrl: Option<string>, now: int): Toy
  {
    Toy(toyId, req.userId, req.name, req.idempotencyToken, req.description, photoUrl, ToyCreated, now, now)
  }

  /**
   * `CreateToy`: a toy already holding the request's token is returned as
   * it is; otherwise the file is saved and a new toy inserted.
   */
  method CreateToy(db: Storage.Postgres, lookup: Storage.Conn, insert: Storage.Conn, req: ToyPost,
                   newId: Bytes, upload: Upload, now: int)
    returns (resp: Response<Toy>)
    requires db.Valid()
    modifies db
    ensures db.Valid()
    ensures db.exchanges == old(db.exchanges) && db.details == old(db.details) && db.users == old(db.users)
    ensures !resp.Reply? || resp.body in old(db.toys) ==> db.toys == old(db.toys)
    ensures !ValidToyPost(req) ==> resp == Refuse(StatusBadRequest, InvalidArgument)
    ensures ValidToyPost(req) && !lookup.Runs(0) ==> resp == Refuse(StatusInternalServerError, InvalidCreateToy)
    ensures ValidToyPost(req) && lookup.Runs(0) ==>
              var existing := Storage.RowWhere(old(db.toys), Storage.WithToken(req.idempotencyToken));
              var toy := NewToy(req, newId, upload.PhotoUrl(), now);
              && (existing.Some? ==> resp == Reply(StatusCreated, existing.value))
              && (existing.None? && upload.SaveFailed? ==> resp == Refuse(StatusBadRequest, ErrorSaveFile))
              && (existing.None? && !upload.SaveFailed? && insert.Runs(0) && IdFree(old(db.toys), newId) ==>
                    resp == Reply(StatusCreated, toy) && db.toys == old(db.toys) + [toy])
              && (existing.None? && !upload.SaveFailed? && !(insert.Runs(0) && IdFree(old(db.toys), newId)) ==>
                    resp == Refuse(StatusBadRequest, InvalidCreateToy))
    ensures resp.Reply? ==>
              && resp.status == StatusCreated
              && resp.body in db.toys && resp.body.idempotencyToken == req.idempotencyToken
  {
    if !ValidToyPost(req) {
      return Refuse(StatusBadRequest, InvalidArgument);
    }
    var found := db.SelectToyByToken(lookup, req.idempotencyToken);
    if found.Err? {
      return Refuse(StatusInternalServerError, InvalidCreateToy);
    }
    if found.value.Some? {
      return Reply(StatusCreated, found.value.value);
    }
    if upload.SaveFailed? {
      return Refuse(StatusBadRequest, ErrorSaveFile);
    }
    var toy := NewToy(req, newId, upload.PhotoUrl(), now);
    var inserted := db.InsertToy(insert, toy);
    if inserted.Err? {
      return Refuse(StatusBadRequest, InvalidCreateToy);
    }
    resp := Reply(StatusCreated, inserted.value);
  }

  /**
   * Idempotent creation: once a creation succeeded, sending the same request
   * again, whatever the second id and file, returns the same toy without
   * inserting, and the store holds exactly one toy with that token.
   */
  method CreateToyTwice(db: Storage.Postgres, lookup1: Storage.Conn, insert1: Storage.Conn,
                        lookup2: Storage.Conn, insert2: Storage.Conn, req: ToyPost,
                        newId1: Bytes, newId2: Bytes, upload1: Upload, upload2: Upload, now1: int, now2: int)
    returns (first: Response<Toy>, second: Response<Toy>)
    requires db.Valid()
    modifies db
    ensures db.Valid()
    ensures first.Reply? && lookup2.Runs(0) ==> second == first
    ensures first.Reply? ==>
              exists i :: && 0 <= i < |db.toys| && db.toys[i].idempotencyToken == req.idempotencyToken
                          && db.toys[i].toyId == first.body.toyId
                          && forall j :: 0 <= j < |db.toys| && db.toys[j].idempotencyToken == req.idempotencyToken ==> j == i
  {
    first := CreateToy(db, lookup1, insert1, req, newId1, upload1, now1);
    if !first.Reply? {
      second := CreateToy(db, lookup2, insert2, req, newId2, upload2, now2);
      return;
    }
    ghost var afterFirst := db.toys;
    ghost var i :| 0 <= i < |afterFirst| && afterFirst[i] == first.body;
    Storage.TokenFindsToy(afterFirst, i);
    second := CreateToy(db, lookup2, insert2, req, newId2, upload2, now2);
    assert db.toys == afterFirst;
    forall j | 0 <= j < |db.toys| && db.toys[j].idempotencyToken == req.idempotencyToken
      ensures j == i
    {
      Storage.SameKeySameRow(db.toys, Storage.ToyToken, i, j);
    }
  }

  /**
   * The changes `UpdateToy` hands to storage: id, owner, name, description,
   * and a photo only when a new file was stored. The fields storage does not
   * read are left at fixed values.
   */
  function ToyChanges(req: ToyPut, upload: Upload): (t: Toy)
    ensures t.toyId == req.toyId && t.userId == req.userId
    ensures t.photoUrl.Some? <==> upload.Saved?
    ensures upload.Saved? ==> t.photoUrl == Some(upload.url)
  {
    Toy(req.toyId, req.userId, req.name, [], req.description, upload.PhotoUrl(), ToyCreated, 0, 0)
  }

  /** A storage answer about one toy as a reply: an error is a 500 with `failure`, no toy a 404. */
  function ToyReply(r: Result<Option<Toy>>, failure: ErrorCode): (resp: Response<Toy>)
    ensures r.Err? <==> resp == Refuse(StatusInternalServerError, failure)
    ensures r == Ok(None) <==> resp == Refuse(StatusNotFound, ToyNotFound)
    ensures resp.Reply? <==> r.Ok? && r.value.Some?
    ensures resp.Reply? ==> resp == Reply(StatusOK, r.value.value)
  {
    match r
    case Err => Refuse(StatusInternalServerError, failure)
    case Ok(None) => Refuse(StatusNotFound, ToyNotFound)
    case Ok(Some(t)) => Reply(StatusOK, t)
  }

  /**
   * `UpdateToy`: the requester's toy gets the new name and description, and
   * the new photo if one was stored; with no new file it keeps its photo.
   */
  method UpdateToy(db: Storage.Postgres, conn: Storage.Conn, req: ToyPut, upload: Upload) returns (resp: Response<Toy>)
    requires db.Valid()
    modifies db
    ensures db.Valid()
    ensures db.exchanges == old(db.exchanges) && db.details == old(db.details) && db.users == old(db.users)
    ensures !resp.Reply? ==> db.toys == old(db.toys)
    ensures !ValidToyPut(req) ==> resp == Refuse(StatusBadRequest, InvalidArgument)
    ensures ValidToyPut(req) && upload.SaveFailed? ==> resp == Refuse(StatusBadRequest, ErrorSaveFile)
    ensures ValidToyPut(req) && !upload.SaveFailed? && !conn.Runs(0) ==> resp == Refuse(StatusInternalServerError, InvalidUpdateToy)
    ensures ValidToyPut(req) && !upload.SaveFailed? && conn.Runs(0) ==>
              (resp == Refuse(StatusNotFound, ToyNotFound) <==>
                 forall i :: 0 <= i < |old(db.toys)| ==> !Storage.OwnedToy(req.toyId, req.userId)(old(db.toys)[i]))
    ensures resp.Reply? ==>
              exists i :: && 0 <= i < |old(db.toys)| && Storage.OwnedToy(req.toyId, req.userId)(old(db.toys)[i])
                          && resp == Reply(StatusOK, Storage.Revised(old(db.toys)[i], ToyChanges(req, upload)))
                          && db.toys == old(db.toys)[i := resp.body]
                          && resp.body.name == req.name && resp.body.description == req.description
                          && resp.body.photoUrl == if upload.Saved? then Some(upload.url) else old(db.toys)[i].photoUrl
  {
    if !ValidToyPut(req) {
      return Refuse(StatusBadRequest, InvalidArgument);
    }
    if upload.SaveFailed? {
      return Refuse(StatusBadRequest, ErrorSaveFile);
    }
    var updated := db.UpdateToy(conn, ToyChanges(req, upload));
    resp := ToyReply(updated, InvalidUpdateToy);
  }

  /** The toy status a valid PATCH asks for. */
  function RequestedStatus(req: ToyPatch): ToyStatus
    requires ValidToyPatch(req)
  {
    ToyStatusNamed(req.status).value
  }

  /** `UpdateToyStatus`: the requester's toy gets the requested status; a toy that is not theirs is not found. */
  method UpdateToyStatus(db: Storage.Postgres, conn: Storage.Conn, req: ToyPatch) returns (resp: Response<Toy>)
    requires db.Valid()
    modifies db
    ensures db.Valid()
    ensures db.exchanges == old(db.exchanges) && db.details == old(db.details) && db.users == old(db.users)
    ensures !ValidToyPatch(req) ==> resp == Refuse(StatusBadRequest, InvalidArgument) && db.toys == old(db.toys)
    ensures ValidToyPatch(req) ==>
              resp == ToyReply(if conn.Runs(0) then Storage.ToyStatusOutcome(old(db.toys), req.toyId, req.userId, RequestedStatus(req))
                               else Err, InvalidUpdateToyStatus)
    ensures resp.Reply? ==>
              exists i :: && 0 <= i < |old(db.toys)| && Storage.OwnedToy(req.toyId, req.userId)(old(db.toys)[i])
                          && resp.body == old(db.toys)[i].(status := RequestedStatus(req))
                          && db.toys == old(db.toys)[i := resp.body]
    ensures !resp.Reply? ==> db.toys == old(db.toys)
  {
    if !ValidToyPatch(req) {
      return Refuse(StatusBadRequest, InvalidArgument);
    }
    var updated := db.UpdateToyStatus(conn, req.toyId, req.userId, RequestedStatus(req));
    resp := ToyReply(updated, InvalidUpdateToyStatus);
  }

  /**
   * A status change for a toy that is not the requester's: the storage
   * call as written fails, so the handler answers 500; read as not found
   * it answers the intended 404.
   */
  lemma MissingToyStatus(toys: seq<Toy>, toyId: Bytes, userId: Bytes, status: ToyStatus)
    requires forall i :: 0 <= i < |toys| ==> !Storage.OwnedToy(toyId, userId)(toys[i])
    ensures ToyReply(Storage.ToyStatusOutcomeAsWritten(toys, toyId, userId, status), InvalidUpdateToyStatus) ==
            Refuse(StatusInternalServerError, InvalidUpdateToyStatus)
    ensures ToyReply(Storage.ToyStatusOutcome(toys, toyId, userId, status), InvalidUpdateToyStatus) ==
            Refuse(StatusNotFound, ToyNotFound)
  {
  }

  /** The body of the list reply: the page of toys and the encoded cursor of the next. */
  datatype ToysListReply = ToysListReply(toys: seq<Toy>, cursor: Option<Bytes>)

  /**
   * `GetToysList`: decode the cursor before touching storage, read the page,
   * and hand its next cursor out encoded.
   */
  method GetToysList(db: Storage.Postgres, conn: Storage.Conn, req: ToysList) returns (resp: Response<ToysListReply>)
    ensures !ValidToysList(req) ==> resp == Refuse(StatusBadRequest, InvalidArgument)
    ensures ValidToysList(req) && Cursor.Decode(req.body.cursor).Err? ==> resp == Refuse(StatusBadRequest, InvalidCursor)
    ensures ValidToysList(req) && Cursor.Decode(req.body.cursor).Ok? ==>
              (resp.Reply? <==> conn.Runs(0)) &&
              (!conn.Runs(0) ==> resp == Refuse(StatusInternalServerError, InvalidToysList))
    ensures resp.Reply? ==>
              var limit := LimitOrDefault(req.body.limit);
              && 1 <= limit <= 100
              && var page := Paging.ListPage(db.toys, Storage.ToyFilter(req.body.query), Storage.ToyKey,
                                             Cursor.Decode(req.body.cursor).value, limit);
                 && resp == Reply(StatusOK, ToysListReply(page.items, Cursor.Encode(page.next)))
                 && |resp.body.toys| <= limit
                 && Cursor.Decode(resp.body.cursor) == Ok(page.next)
  {
    if !ValidToysList(req) {
      return Refuse(StatusBadRequest, InvalidArgument);
    }
    var cursor := Cursor.Decode(req.body.cursor);
    if cursor.Err? {
      return Refuse(StatusBadRequest, InvalidCursor);
    }
    ListLimitRange(req.body.limit, req.body.cursor);
    var page := db.SelectToysList(conn, req.body.query, cursor.value, LimitOrDefault(req.body.limit));
    if page.Err? {
      return Refuse(StatusInternalServerError, InvalidToysList);
    }
    Cursor.DecodeEncode(page.value.next);
    resp := Reply(StatusOK, ToysListReply(page.value.items, Cursor.Encode(page.value.next)));
  }

  /** `DeleteToy`: a valid request is answered 200, and nothing is read or changed. */
  method DeleteToy(db: Storage.Postgres, req: ToyDelete) returns (resp: Response<()>)
    ensures ValidToyDelete(req) <==> resp == Reply(StatusOK, ())
    ensures !ValidToyDelete(req) ==> resp == Refuse(StatusBadRequest, InvalidArgument)
  {
    if !ValidToyDelete(req) {
      return Refuse(StatusBadRequest, InvalidArgument);
    }
    resp := Reply(StatusOK, ());
  }
}
