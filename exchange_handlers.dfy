/**
 * The exchange handlers: proposing an exchange, reading it, a participant
 * setting their status, and listing the exchanges a user takes part in.
 * Request parsing is the validity predicate of each request type; every
 * storage call gets its own `Conn`.
 */
module ExchangeHandlers {
  import opened Wrappers
  import opened ByteStrings
  import opened Models
  import opened Http
  import Paging
  import Cursor
  import Storage

  // ---------------------------------------------------------------------------
  // Proposal validity

  /** Some toy with this id belongs to this user. */
  predicate PairExists(toys: seq<Toy>, pair: UserIdToyId)
  {
    exists i :: 0 <= i < |toys| && toys[i].toyId == pair.toyId && toys[i].userId == pair.userId
  }

  /** `isValidToyUser`: the lookup by (toy, owner) succeeded and found a row; a failed lookup counts as no toy. */
  method IsValidToyUser(db: Storage.Postgres, conn: Storage.Conn, pair: UserIdToyId) returns (valid: bool)
    ensures valid <==> conn.Runs(0) && PairExists(db.toys, pair)
  {
    var toy := db.SelectToyByUserId(conn, pair.toyId, pair.userId);
    valid := toy.Ok? && toy.value.Some?;
    if valid {
      var i :| 0 <= i < |db.toys| && db.toys[i] == toy.value.value;
      assert db.toys[i].toyId == pair.toyId && db.toys[i].userId == pair.userId;
    }
  }

  predicate HasUserExchange(userId: Bytes, expectedUserId: Bytes)
  {
    userId == expectedUserId
  }

  predicate IsOtherUsers(userId1: Bytes, userId2: Bytes)
  {
    userId1 != userId2
  }

  /** The test of `CreateExchange`, given whether each pair's lookup found its toy. */
  predicate Acceptable(found1: bool, found2: bool, req: ExchangePost)
  {
    && found1
    && found2
    && (HasUserExchange(req.userId, req.body.userToy1.userId) || HasUserExchange(req.userId, req.body.userToy2.userId))
    && IsOtherUsers(req.body.userToy1.userId, req.body.userToy2.userId)
  }

  /** The proposal passes with these lookups against these toys. */
  predicate Accepted(toys: seq<Toy>, lookup1: Storage.Conn, lookup2: Storage.Conn, req: ExchangePost)
  {
    Acceptable(lookup1.Runs(0) && PairExists(toys, req.body.userToy1),
               lookup2.Runs(0) && PairExists(toys, req.body.userToy2), req)
  }

  /**
   * Whatever the lookups find, a user cannot exchange with themselves and a
   * user who is neither party cannot propose; and an accepted proposal names
   * two existing (user, toy) pairs, one of them the requester's.
   */
  lemma ProposalRules(toys: seq<Toy>, lookup1: Storage.Conn, lookup2: Storage.Conn, req: ExchangePost)
    ensures req.body.userToy1.userId == req.body.userToy2.userId ==> !Accepted(toys, lookup1, lookup2, req)
    ensures req.userId != req.body.userToy1.userId && req.userId != req.body.userToy2.userId ==>
              !Accepted(toys, lookup1, lookup2, req)
    ensures Accepted(toys, lookup1, lookup2, req) ==>
              && PairExists(toys, req.body.userToy1) && PairExists(toys, req.body.userToy2)
              && (req.userId == req.body.userToy1.userId || req.userId == req.body.userToy2.userId)
              && req.body.userToy1.userId != req.body.userToy2.userId
  {
  }

  // ---------------------------------------------------------------------------
  // Building the proposal

  /** The exchange handed to storage: the first pair's toy is the source, the second's the destination. */
  function ProposedExchange(req: ExchangePost): Exchange
  {
    Exchange([], req.body.userToy1.toyId, req.body.userToy2.toyId, req.idempotencyToken, ExchangeCreated, 0, 0)
  }

  /** A participant record drafted from one (user, toy) pair, before it has an exchange id. */
  function Draft(pair: UserIdToyId): ExchangeDetails
  {
    ExchangeDetails([], pair.toyId, pair.userId, DetailsCreated, 0, 0)
  }

  /** The two participant rows an accepted proposal stores for exchange `id`, first pair first. */
  function StoredPair(req: ExchangePost, id: Bytes, now: int): (ds: seq<ExchangeDetails>)
    ensures |ds| == 2
    ensures ds[0].exchangeId == id && ds[0].toyId == req.body.userToy1.toyId && ds[0].userId == req.body.userToy1.userId
    ensures ds[1].exchangeId == id && ds[1].toyId == req.body.userToy2.toyId && ds[1].userId == req.body.userToy2.userId
    ensures forall i :: 0 <= i < 2 ==> ds[i].status == DetailsCreated && ds[i].createdAt == now && ds[i].updatedAt == now
  {
    [ExchangeDetails(id, req.body.userToy1.toyId, req.body.userToy1.userId, DetailsCreated, now, now),
     ExchangeDetails(id, req.body.userToy2.toyId, req.body.userToy2.userId, DetailsCreated, now, now)]
  }

  /** Inserting the first `k` drafts, once stamped with the exchange id, stores the first `k` rows of the pair. */
  lemma StampedDrafts(req: ExchangePost, ds: seq<ExchangeDetails>, id: Bytes, now: int, k: nat)
    requires |ds| == 2 && k <= 2
    requires ds[0] == Draft(req.body.userToy1).(exchangeId := id) && ds[1] == Draft(req.body.userToy2).(exchangeId := id)
    ensures Storage.NewDetails(ds[..k], now) == StoredPair(req, id, now)[..k]
  {
    var stored, pair := Storage.NewDetails(ds[..k], now), StoredPair(req, id, now)[..k];
    assert |stored| == |pair|;
    forall i | 0 <= i < k ensures stored[i] == pair[i] {
      assert ds[..k][i] == ds[i];
    }
  }

  /**
   * `CreateExchange`: check both pairs and the participants, then insert the
   * exchange and one participant record per pair. A rejected proposal
   * writes nothing.
   */
  method CreateExchange(db: Storage.Postgres, lookup1: Storage.Conn, lookup2: Storage.Conn, insert: Storage.Conn,
                        req: ExchangePost, now: int)
    returns (resp: Response<Exchange>)
    requires db.Valid()
    modifies db
    ensures db.Valid()
    ensures db.toys == old(db.toys) && db.users == old(db.users)
    ensures !ValidExchangePost(req) || !Accepted(old(db.toys), lookup1, lookup2, req) ==>
              && resp == Refuse(StatusBadRequest, InvalidArgument)
              && db.exchanges == old(db.exchanges) && db.details == old(db.details)
    ensures ValidExchangePost(req) && Accepted(old(db.toys), lookup1, lookup2, req) ==>
              resp.Reply? || resp == Refuse(StatusInternalServerError, InvalidUpdateToy)
    ensures resp.Reply? ==>
              var e := Storage.NewExchange(ProposedExchange(req), Storage.FreshKey(Storage.ExchangeIds(old(db.exchanges))), now);
              var n := |old(db.details)|;
              && ValidExchangePost(req) && Accepted(old(db.toys), lookup1, lookup2, req)
              && resp == Reply(StatusCreated, e)
              && e.srcToyId == req.body.userToy1.toyId && e.dstToyId == req.body.userToy2.toyId
              && db.exchanges == old(db.exchanges) + [e]
              && |db.details| == n + 2 && db.details[..n] == old(db.details)
              && db.details[n] == ExchangeDetails(e.exchangeId, req.body.userToy1.toyId, req.body.userToy1.userId,
                                                  DetailsCreated, now, now)
              && db.details[n + 1] == ExchangeDetails(e.exchangeId, req.body.userToy2.toyId, req.body.userToy2.userId,
                                                      DetailsCreated, now, now)
    ensures (&& ValidExchangePost(req) && Accepted(old(db.toys), lookup1, lookup2, req)
             && insert.begins && insert.Runs(0) && insert.Runs(1) && insert.Runs(2) && insert.commits) ==> resp.Reply?
    ensures resp == Refuse(StatusInternalServerError, InvalidUpdateToy) ==>
              var e := Storage.NewExchange(ProposedExchange(req), Storage.FreshKey(Storage.ExchangeIds(old(db.exchanges))), now);
              && ValidExchangePost(req) && Accepted(old(db.toys), lookup1, lookup2, req)
              && if insert.begins && insert.Runs(0)
                 then && db.exchanges == old(db.exchanges) + [e]
                      && db.details == old(db.details) + StoredPair(req, e.exchangeId, now)[..Storage.Inserted(insert, 2)]
                 else db.exchanges == old(db.exchanges) && db.details == old(db.details)
  {
    if !ValidExchangePost(req) {
      return Refuse(StatusBadRequest, InvalidArgument);
    }
    var found1 := IsValidToyUser(db, lookup1, req.body.userToy1);
    var found2 := false;
    if found1 {
      found2 := IsValidToyUser(db, lookup2, req.body.userToy2);
    }
    if !Acceptable(found1, found2, req) {
      return Refuse(StatusBadRequest, InvalidArgument);
    }

    var drafts := new ExchangeDetails[2];
    drafts[0] := Draft(req.body.userToy1);
    drafts[1] := Draft(req.body.userToy2);
    var inserted := db.InsertExchange(insert, ProposedExchange(req), drafts, now);
    if inserted.Err? {
      if insert.begins && insert.Runs(0) {
        var e := Storage.NewExchange(ProposedExchange(req), Storage.FreshKey(Storage.ExchangeIds(old(db.exchanges))), now);
        StampedDrafts(req, drafts[..], e.exchangeId, now, Storage.Inserted(insert, 2));
      }
      return Refuse(StatusInternalServerError, InvalidUpdateToy);
    }
    assert Storage.Inserted(insert, 2) == 2;
    assert drafts[..][..2] == drafts[..];
    resp := Reply(StatusCreated, inserted.value);
  }

  // ---------------------------------------------------------------------------
  // The exchange view

  /** `getDetailsInfo`: the toy, the participant's name and status of one joined row. */
  function DetailsInfo(row: ExchangeParticipant): ExchangeDetailsInfo
  {
    ExchangeDetailsInfo(
      ToyInfo(row.toyId, row.userId, row.toyName, row.toyDescription, row.toyPhotoUrl),
      UserName(row.firstName, row.lastName, row.middleName),
      row.userExchangeStatus)
  }

  /**
   * The detail of a joined row shows the toy's own name, description and
   * photo, the participant's own name parts and their status in the exchange.
   */
  lemma DetailsOfParticipant(e: Exchange, d: ExchangeDetails, t: Toy, u: User)
    ensures DetailsInfo(Storage.Participant(e, d, t, u)) ==
            ExchangeDetailsInfo(ToyInfo(t.toyId, u.userId, t.name, t.description, t.photoUrl), u.userName, d.status)
  {
  }

  /** The exchange as `getExchange` presents its joined rows. */
  function ExchangeView(rows: seq<ExchangeParticipant>): (info: ExchangeInfo)
    requires |rows| > 0
    ensures |info.details| == |rows|
    ensures forall i :: 0 <= i < |rows| ==> info.details[i] == DetailsInfo(rows[i])
    ensures info.exchangeId == rows[0].exchangeId && info.status == rows[0].exchangeStatus
    ensures info.idempotencyToken == rows[0].idempotencyToken
    ensures info.createdAt == rows[0].exchangeCreatedAt && info.updatedAt == rows[0].exchangeUpdatedAt
  {
    ExchangeInfo(rows[0].exchangeId, DetailsOf(rows),
                 rows[0].idempotencyToken, rows[0].exchangeStatus, rows[0].exchangeCreatedAt, rows[0].exchangeUpdatedAt)
  }

  /** The details of the rows, one per row, in order. */
  function DetailsOf(rows: seq<ExchangeParticipant>): (ds: seq<ExchangeDetailsInfo>)
    ensures |ds| == |rows|
    ensures forall i :: 0 <= i < |rows| ==> ds[i] == DetailsInfo(rows[i])
  {
    if |rows| == 0 then [] else [DetailsInfo(rows[0])] + DetailsOf(rows[1..])
  }

  /** `getExchange`: one detail per row, in row order; the exchange's own fields come from the first row. */
  method GetExchangeView(rows: seq<ExchangeParticipant>) returns (info: ExchangeInfo)
    requires |rows| > 0
    ensures info == ExchangeView(rows)
  {
    var details: seq<ExchangeDetailsInfo> := [];
    var k := 0;
    while k < |rows|
      invariant 0 <= k <= |rows|
      invariant |details| == k
      invariant forall j :: 0 <= j < k ==> details[j] == DetailsInfo(rows[j])
    {
      details := details + [DetailsInfo(rows[k])];
      k := k + 1;
    }
    info := ExchangeInfo(rows[0].exchangeId, details, rows[0].idempotencyToken, rows[0].exchangeStatus,
                         rows[0].exchangeCreatedAt, rows[0].exchangeUpdatedAt);
  }

  /**
   * The view of a stored exchange is that exchange: it carries the id that
   * was read, and every detail is the toy, user and status of one of its
   * participant records.
   */
  lemma ViewOfStoredExchange(ds: seq<ExchangeDetails>, id: Bytes, exchanges: seq<Exchange>, toys: seq<Toy>, users: seq<User>)
    requires |Storage.JoinRows(ds, id, exchanges, toys, users)| > 0
    ensures var info := ExchangeView(Storage.JoinRows(ds, id, exchanges, toys, users));
            && info.exchangeId == id
            && |info.details| <= |ds|
            && forall i :: 0 <= i < |info.details| ==>
                 exists j :: && 0 <= j < |ds| && ds[j].exchangeId == id
                             && ds[j].toyId == info.details[i].toy.toyId && ds[j].userId == info.details[i].toy.userId
                             && ds[j].status == info.details[i].status
  {
    var rows := Storage.JoinRows(ds, id, exchanges, toys, users);
    var info := ExchangeView(rows);
    forall i | 0 <= i < |info.details|
      ensures exists j :: && 0 <= j < |ds| && ds[j].exchangeId == id
                          && ds[j].toyId == info.details[i].toy.toyId && ds[j].userId == info.details[i].toy.userId
                          && ds[j].status == info.details[i].status
    {
      assert Storage.TracedTo(ds, rows[i]);
      var j :| 0 <= j < |ds| && Storage.JoinedFrom(ds[j], rows[i]);
      assert ds[j].exchangeId == id;
    }
  }

  /**
   * After a participant sets their status, the view differs from the one
   * before only in that participant's details, which show the new status.
   */
  lemma PatchedView(rows: seq<ExchangeParticipant>, userId: Bytes, status: DetailsStatus)
    requires |rows| > 0
    ensures var before := ExchangeView(rows);
            var after := ExchangeView(Storage.Restatus(rows, userId, status));
            && after.exchangeId == before.exchangeId && after.status == before.status
            && after.idempotencyToken == before.idempotencyToken
            && after.createdAt == before.createdAt && after.updatedAt == before.updatedAt
            && |after.details| == |before.details|
            && forall i :: 0 <= i < |before.details| ==>
                 after.details[i] == if before.details[i].toy.userId == userId then before.details[i].(status := status)
                                     else before.details[i]
  {
  }

  // ---------------------------------------------------------------------------
  // Reading one exchange

  /**
   * The reply to a read of an exchange's rows as the handlers are written:
   * storage answers an exchange without rows with an empty list, never with
   * none, so the not-found branch is never taken and the first row is read
   * from an empty list.
   */
  function ViewReplyAsWritten(read: Result<seq<ExchangeParticipant>>, failure: ErrorCode): (resp: Response<ExchangeInfo>)
    ensures read.Err? ==> resp == Refuse(StatusInternalServerError, failure)
    ensures read.Ok? && |read.value| == 0 ==> resp == Crash
    ensures resp != Refuse(StatusNotFound, ExchangeNotFound) || failure == ExchangeNotFound
  {
    match read
    case Err => Refuse(StatusInternalServerError, failure)
    case Ok(rows) => if |rows| == 0 then Crash else Reply(StatusOK, ExchangeView(rows))
  }

  /** The reply with an exchange without rows reported as not found. */
  function ViewReply(read: Result<seq<ExchangeParticipant>>, failure: ErrorCode): (resp: Response<ExchangeInfo>)
    ensures read.Err? ==> resp == Refuse(StatusInternalServerError, failure)
    ensures read.Ok? && |read.value| == 0 ==> resp == Refuse(StatusNotFound, ExchangeNotFound)
    ensures read.Ok? && |read.value| > 0 ==> resp == Reply(StatusOK, ExchangeView(read.value))
    ensures !resp.Crash?
  {
    match read
    case Err => Refuse(StatusInternalServerError, failure)
    case Ok(rows) => if |rows| == 0 then Refuse(StatusNotFound, ExchangeNotFound) else Reply(StatusOK, ExchangeView(rows))
  }

  /**
   * An exchange id nobody takes part in: as written the handler panics, and
   * the corrected reply is the 404 the handler means to send.
   */
  lemma {:induction false} UnknownExchange(ds: seq<ExchangeDetails>, id: Bytes, exchanges: seq<Exchange>,
                                           toys: seq<Toy>, users: seq<User>, failure: ErrorCode)
    requires forall i :: 0 <= i < |ds| ==> ds[i].exchangeId != id
    ensures ViewReplyAsWritten(Ok(Storage.JoinRows(ds, id, exchanges, toys, users)), failure) == Crash
    ensures ViewReply(Ok(Storage.JoinRows(ds, id, exchanges, toys, users)), failure) == Refuse(StatusNotFound, ExchangeNotFound)
  {
    Storage.NoParticipantsNoRows(ds, id, exchanges, toys, users);
  }

  /**
   * A status change for an exchange id nobody takes part in: the update
   * touches no row, the re-read is empty, and as written the handler panics
   * where the corrected reply is 404.
   */
  lemma {:induction false} UnknownExchangePatched(ds: seq<ExchangeDetails>, id: Bytes, userId: Bytes, status: DetailsStatus,
                                                  exchanges: seq<Exchange>, toys: seq<Toy>, users: seq<User>)
    requires forall i :: 0 <= i < |ds| ==> ds[i].exchangeId != id
    ensures var reread := Storage.Restatus(Storage.JoinRows(ds, id, exchanges, toys, users), userId, status);
            && PatchReplyAsWritten(Ok(reread)).resp == Crash
            && PatchReply(Ok(reread)).resp == Refuse(StatusNotFound, ExchangeNotFound)
  {
    Storage.NoParticipantsNoRows(ds, id, exchanges, toys, users);
  }

  /** `GetExchange`: read the joined rows of the exchange and present them. */
  method GetExchange(db: Storage.Postgres, conn: Storage.Conn, req: ExchangeGet) returns (resp: Response<ExchangeInfo>)
    ensures !ValidExchangeGet(req) ==> resp == Refuse(StatusBadRequest, InvalidArgument)
    ensures ValidExchangeGet(req) ==>
      resp == ViewReply(if conn.Runs(0) then Ok(Storage.JoinRows(db.details, req.exchangeId, db.exchanges, db.toys, db.users))
                        else Err, InvalidGetExchange)
  {
    if !ValidExchangeGet(req) {
      return Refuse(StatusBadRequest, InvalidArgument);
    }
    var read := db.SelectExchangeWithParticipants(conn, req.exchangeId);
    if read.Err? {
      return Refuse(StatusInternalServerError, InvalidGetExchange);
    }
    if |read.value| == 0 {
      return Refuse(StatusNotFound, ExchangeNotFound);
    }
    var info := GetExchangeView(read.value);
    resp := Reply(StatusOK, info);
  }

  // ---------------------------------------------------------------------------
  // A participant setting their status

  /** `SendEmailToSingleParticipant`: `recipient` is told how to reach `partner`. */
  datatype Notice = Notice(recipient: Bytes, partner: Bytes)

  /**
   * The notices `PatchExchange` dispatches: none unless the exchange is
   * confirmed, and then one to each of the first two participants about the
   * other.
   */
  function Notices(info: ExchangeInfo): (ns: seq<Notice>)
    requires info.status == ExchangeConfirm ==> |info.details| >= 2
    ensures info.status != ExchangeConfirm <==> ns == []
    ensures info.status == ExchangeConfirm ==>
              && |ns| == 2
              && ns[0].recipient == ns[1].partner && ns[1].recipient == ns[0].partner
              && ns[0].recipient == info.details[0].toy.userId && ns[1].recipient == info.details[1].toy.userId
  {
    if info.status == ExchangeConfirm then
      var a := info.details[0].toy.userId;
      var b := info.details[1].toy.userId;
      [Notice(a, b), Notice(b, a)]
    else []
  }

  /** The participant status a valid PATCH asks for. */
  function PatchStatus(req: ExchangePatch): DetailsStatus
    requires ValidExchangePatch(req)
  {
    DetailsStatusNamed(req.status).value
  }

  /** The update and its re-read both ran and the transaction committed. */
  predicate Committed(conn: Storage.Conn)
  {
    conn.begins && conn.Runs(0) && conn.Runs(1) && conn.commits
  }

  /** What `PatchExchange` answers, with the notices it dispatches. */
  datatype Patched = Patched(resp: Response<ExchangeInfo>, notices: seq<Notice>)

  /**
   * The reply to a non-empty re-read: the view, and the notices when it is
   * confirmed; a confirmed exchange with one row makes the handler read a
   * second detail that is not there.
   */
  function ConfirmedReply(rows: seq<ExchangeParticipant>): (p: Patched)
    requires |rows| > 0
    ensures ExchangeView(rows).status == ExchangeConfirm && |rows| < 2 ==> p == Patched(Crash, [])
    ensures ExchangeView(rows).status != ExchangeConfirm || |rows| >= 2 ==>
              p == Patched(Reply(StatusOK, ExchangeView(rows)), Notices(ExchangeView(rows)))
  {
    var info := ExchangeView(rows);
    if info.status == ExchangeConfirm && |info.details| < 2 then Patched(Crash, [])
    else Patched(Reply(StatusOK, info), Notices(info))
  }

  /**
   * The reply to the update's re-read as the handler is written: the update
   * answers an exchange without rows with an empty list, never with none, so
   * the not-found branch is never taken and the first row is read from an
   * empty list.
   */
  function PatchReplyAsWritten(read: Result<seq<ExchangeParticipant>>): (p: Patched)
    ensures read.Err? ==> p == Patched(Refuse(StatusInternalServerError, InvalidUpdateExchangeStatus), [])
    ensures read.Ok? && |read.value| == 0 ==> p == Patched(Crash, [])
    ensures read.Ok? && |read.value| > 0 ==> p == ConfirmedReply(read.value)
    ensures p.resp != Refuse(StatusNotFound, ExchangeNotFound)
  {
    match read
    case Err => Patched(Refuse(StatusInternalServerError, InvalidUpdateExchangeStatus), [])
    case Ok(rows) => if |rows| == 0 then Patched(Crash, []) else ConfirmedReply(rows)
  }

  /** The reply to the update's re-read with an exchange without rows reported as not found. */
  function PatchReply(read: Result<seq<ExchangeParticipant>>): (p: Patched)
    ensures read.Err? ==> p == Patched(Refuse(StatusInternalServerError, InvalidUpdateExchangeStatus), [])
    ensures read.Ok? && |read.value| == 0 ==> p == Patched(Refuse(StatusNotFound, ExchangeNotFound), [])
    ensures read.Ok? && |read.value| > 0 ==> p == ConfirmedReply(read.value)
  {
    match read
    case Err => Patched(Refuse(StatusInternalServerError, InvalidUpdateExchangeStatus), [])
    case Ok(rows) => if |rows| == 0 then Patched(Refuse(StatusNotFound, ExchangeNotFound), []) else ConfirmedReply(rows)
  }

  /**
   * `PatchExchange`: set the requester's status in the exchange, present the
   * re-read exchange and, when it is confirmed, notify both participants.
   * An empty re-read is answered 404, as `PatchReply` corrects it.
   */
  method PatchExchange(db: Storage.Postgres, conn: Storage.Conn, req: ExchangePatch)
    returns (resp: Response<ExchangeInfo>, notices: seq<Notice>)
    requires db.Valid()
    modifies db
    ensures db.Valid()
    ensures db.toys == old(db.toys) && db.users == old(db.users) && db.exchanges == old(db.exchanges)
    ensures !ValidExchangePatch(req) ==>
              resp == Refuse(StatusBadRequest, InvalidArgument) && notices == [] && db.details == old(db.details)
    ensures ValidExchangePatch(req) ==>
              db.details == if conn.begins && conn.Runs(0) then Storage.SetStatus(old(db.details), req.exchangeId, req.userId, PatchStatus(req))
                            else old(db.details)
    ensures ValidExchangePatch(req) ==>
              Patched(resp, notices) ==
              PatchReply(if Committed(conn)
                         then Ok(Storage.Restatus(Storage.JoinRows(old(db.details), req.exchangeId, db.exchanges, db.toys, db.users),
                                                  req.userId, PatchStatus(req)))
                         else Err)
  {
    if !ValidExchangePatch(req) {
      return Refuse(StatusBadRequest, InvalidArgument), [];
    }
    var read := db.UpdateExchangeWithParticipants(conn, req.exchangeId, req.userId, PatchStatus(req));
    if read.Err? {
      return Refuse(StatusInternalServerError, InvalidUpdateExchangeStatus), [];
    }
    if |read.value| == 0 {
      return Refuse(StatusNotFound, ExchangeNotFound), [];
    }
    var info := GetExchangeView(read.value);
    if info.status == ExchangeConfirm && |info.details| < 2 {
      return Crash, [];
    }
    notices := Notices(info);
    resp := Reply(StatusOK, info);
  }

  // ---------------------------------------------------------------------------
  // Listing: grouping the participant rows by exchange

  /** The exchange ids the rows mention. */
  function IdsOf(rows: seq<ExchangeParticipant>): set<Bytes>
  {
    set i | 0 <= i < |rows| :: rows[i].exchangeId
  }

  /** The rows of exchange `id`, in list order. */
  function RowsOf(rows: seq<ExchangeParticipant>, id: Bytes): (r: seq<ExchangeParticipant>)
    ensures |r| <= |rows|
    ensures forall j :: 0 <= j < |r| ==> r[j].exchangeId == id
    ensures id in IdsOf(rows) <==> |r| > 0
  {
    if |rows| == 0 then []
    else
      var rest := RowsOf(rows[1..], id);
      assert IdsOf(rows) == {rows[0].exchangeId} + IdsOf(rows[1..]) by {
        forall x | x in IdsOf(rows) ensures x in {rows[0].exchangeId} + IdsOf(rows[1..]) {
          var i :| 0 <= i < |rows| && rows[i].exchangeId == x;
          if i > 0 {
            assert rows[1..][i - 1] == rows[i];
          }
        }
        forall x | x in IdsOf(rows[1..]) ensures x in IdsOf(rows) {
          var i :| 0 <= i < |rows[1..]| && rows[1..][i].exchangeId == x;
          assert rows[i + 1] == rows[1..][i];
        }
      }
      if rows[0].exchangeId == id then [rows[0]] + rest else rest
  }

  lemma RowsOfAppend(rows: seq<ExchangeParticipant>, row: ExchangeParticipant, id: Bytes)
    ensures RowsOf(rows + [row], id) == RowsOf(rows, id) + (if row.exchangeId == id then [row] else [])
  {
    if |rows| > 0 {
      assert (rows + [row])[1..] == rows[1..] + [row];
      RowsOfAppend(rows[1..], row, id);
    }
  }

  /**
   * Grouping as a partition: every row lands in the group of its own
   * exchange and in no other, and there is one group per distinct id.
   */
  lemma {:induction false} RowsPartition(rows: seq<ExchangeParticipant>)
    ensures forall id, i :: 0 <= i < |rows| ==> (rows[i] in RowsOf(rows, id) <==> rows[i].exchangeId == id)
  {
    if |rows| > 0 {
      RowsPartition(rows[1..]);
      forall id, i | 0 <= i < |rows| ensures rows[i] in RowsOf(rows, id) <==> rows[i].exchangeId == id {
        if i > 0 {
          assert rows[i] == rows[1..][i - 1];
        }
      }
    }
  }

  /** The groups map of `GetExchangeList`: one entry per exchange id, holding that exchange's rows in order. */
  predicate Grouped(rows: seq<ExchangeParticipant>, groups: map<Bytes, seq<ExchangeParticipant>>)
  {
    groups.Keys == IdsOf(rows) && forall id :: id in groups ==> groups[id] == RowsOf(rows, id)
  }

  /** Appending a row to the group of its exchange keeps the map a grouping of the longer list. */
  lemma GroupedSnoc(rows: seq<ExchangeParticipant>, row: ExchangeParticipant, groups: map<Bytes, seq<ExchangeParticipant>>)
    requires Grouped(rows, groups)
    ensures Grouped(rows + [row], groups[row.exchangeId := AddTo(groups, row)])
  {
    var id := row.exchangeId;
    var groups' := groups[id := AddTo(groups, row)];
    assert IdsOf(rows + [row]) == IdsOf(rows) + {id} by {
      forall x | x in IdsOf(rows + [row]) ensures x in IdsOf(rows) + {id} {
        var i :| 0 <= i < |rows| + 1 && (rows + [row])[i].exchangeId == x;
        if i < |rows| {
          assert rows[i] == (rows + [row])[i];
        }
      }
      forall x | x in IdsOf(rows) ensures x in IdsOf(rows + [row]) {
        var i :| 0 <= i < |rows| && rows[i].exchangeId == x;
        assert (rows + [row])[i] == rows[i];
      }
      assert (rows + [row])[|rows|].exchangeId == id;
    }
    forall x | x in groups' ensures groups'[x] == RowsOf(rows + [row], x) {
      RowsOfAppend(rows, row, x);
    }
  }

  /** The group of `row`'s exchange with `row` appended, starting a new group when there is none. */
  function AddTo(groups: map<Bytes, seq<ExchangeParticipant>>, row: ExchangeParticipant): seq<ExchangeParticipant>
  {
    (if row.exchangeId in groups then groups[row.exchangeId] else []) + [row]
  }

  /** The grouping loop of `GetExchangeList`: append each row to its exchange's group, creating it when new. */
  method GroupByExchange(rows: seq<ExchangeParticipant>) returns (groups: map<Bytes, seq<ExchangeParticipant>>)
    ensures groups.Keys == IdsOf(rows)
    ensures forall id :: id in groups ==> groups[id] == RowsOf(rows, id)
  {
    groups := map[];
    var k := 0;
    while k < |rows|
      invariant 0 <= k <= |rows|
      invariant Grouped(rows[..k], groups)
    {
      var id := rows[k].exchangeId;
      assert rows[..k + 1] == rows[..k] + [rows[k]];
      GroupedSnoc(rows[..k], rows[k], groups);
      if id !in groups {
        groups := groups[id := []];
      }
      groups := groups[id := groups[id] + [rows[k]]];
      k := k + 1;
    }
    assert rows[..k] == rows;
  }

  /**
   * The collecting loop of `GetExchangeList`: one exchange view per group,
   * taken in whatever order the map yields its keys.
   */
  method CollectExchanges(groups: map<Bytes, seq<ExchangeParticipant>>) returns (infos: seq<ExchangeInfo>, order: seq<Bytes>)
    requires forall id :: id in groups ==> |groups[id]| > 0
    ensures |order| == |groups| && forall id :: id in order <==> id in groups
    ensures |infos| == |order|
    ensures forall i :: 0 <= i < |order| ==> order[i] in groups && infos[i] == ExchangeView(groups[order[i]])
  {
    order := IterationOrder(groups);
    infos := [];
    var k := 0;
    while k < |order|
      invariant 0 <= k <= |order|
      invariant |infos| == k
      invariant forall j :: 0 <= j < k ==> order[j] in groups && infos[j] == ExchangeView(groups[order[j]])
    {
      var info := GetExchangeView(groups[order[k]]);
      infos := infos + [info];
      k := k + 1;
    }
  }

  /** The keys of a map, each once, in an order the caller may not rely on (Go's `range` over a map). */
  method IterationOrder<V>(m: map<Bytes, V>) returns (order: seq<Bytes>)
    ensures |order| == |m|
    ensures forall id :: id in order <==> id in m
  {
    var left := m.Keys;
    order := [];
    while left != {}
      invariant left <= m.Keys
      invariant |order| + |left| == |m.Keys|
      invariant forall id :: id in order <==> id in m && id !in left
      decreases |left|
    {
      var id :| id in left;
      order := order + [id];
      left := left - {id};
    }
  }

  /** Every exchange of `rows` is viewed somewhere in the iteration order of its groups. */
  lemma ViewsCover(rows: seq<ExchangeParticipant>, groups: map<Bytes, seq<ExchangeParticipant>>,
                   order: seq<Bytes>, infos: seq<ExchangeInfo>)
    requires groups.Keys == IdsOf(rows)
    requires forall id :: id in groups ==> groups[id] == RowsOf(rows, id) && |groups[id]| > 0
    requires forall id :: id in groups ==> id in order
    requires |infos| == |order|
    requires forall i :: 0 <= i < |order| ==> order[i] in groups && infos[i] == ExchangeView(groups[order[i]])
    ensures forall id :: id in IdsOf(rows) ==> ExchangeView(RowsOf(rows, id)) in infos
  {
    forall id | id in IdsOf(rows) ensures ExchangeView(RowsOf(rows, id)) in infos {
      var i :| 0 <= i < |order| && order[i] == id;
      assert infos[i] == ExchangeView(groups[order[i]]);
    }
  }

  /** Each view in the iteration order of the groups of `rows` is the view of one of its exchanges. */
  lemma ViewsOnly(rows: seq<ExchangeParticipant>, groups: map<Bytes, seq<ExchangeParticipant>>,
                  order: seq<Bytes>, infos: seq<ExchangeInfo>)
    requires groups.Keys == IdsOf(rows)
    requires forall id :: id in groups ==> groups[id] == RowsOf(rows, id) && |groups[id]| > 0
    requires |infos| == |order|
    requires forall i :: 0 <= i < |order| ==> order[i] in groups && infos[i] == ExchangeView(groups[order[i]])
    ensures forall info :: info in infos ==> exists id :: id in IdsOf(rows) && info == ExchangeView(RowsOf(rows, id))
  {
    forall info | info in infos ensures exists id :: id in IdsOf(rows) && info == ExchangeView(RowsOf(rows, id)) {
      var i :| 0 <= i < |infos| && infos[i] == info;
      var id := order[i];
      assert id in IdsOf(rows) && info == ExchangeView(RowsOf(rows, id));
    }
  }

  /** The body of the list reply: the exchanges of the page and the encoded cursor of the next. */
  datatype ExchangeListReply = ExchangeListReply(exchanges: seq<ExchangeInfo>, cursor: Option<Bytes>)

  /**
   * `infos` presents the joined `rows` as exchanges: one view per exchange id
   * occurring in them, and no view that is not the view of one of those ids.
   */
  ghost predicate ViewsOfRows(rows: seq<ExchangeParticipant>, infos: seq<ExchangeInfo>)
  {
    && |infos| == |IdsOf(rows)|
    && (forall id :: id in IdsOf(rows) ==> ExchangeView(RowsOf(rows, id)) in infos)
    && (forall info :: info in infos ==> exists id :: id in IdsOf(rows) && info == ExchangeView(RowsOf(rows, id)))
  }

  /** Group the joined rows by exchange id and view each group, as the list handler does. */
  method ListViews(rows: seq<ExchangeParticipant>) returns (infos: seq<ExchangeInfo>)
    ensures ViewsOfRows(rows, infos)
  {
    var groups := GroupByExchange(rows);
    var order;
    infos, order := CollectExchanges(groups);
    assert |groups| == |groups.Keys|;
    ViewsCover(rows, groups, order, infos);
    ViewsOnly(rows, groups, order, infos);
  }

  /** The page of exchanges a list request asks for, before the cursor is encoded. */
  function ListedPage(db: Storage.Postgres, req: ExchangeList, cursor: Option<Bytes>): Paging.Page<Exchange>
    reads db
  {
    Paging.ListPage(db.exchanges, Storage.ExchangeFilter(db.details, req.userId, req.body.query), Storage.ExchangeKey,
                    cursor, if LimitOrDefault(req.body.limit) >= 0 then LimitOrDefault(req.body.limit) else 0)
  }

  /**
   * `GetExchangeList`: decode the cursor before touching storage, read the
   * page, encode its next cursor, and present its rows as one exchange per id.
   */
  method GetExchangeList(db: Storage.Postgres, conn: Storage.Conn, req: ExchangeList)
    returns (resp: Response<ExchangeListReply>)
    ensures !ValidExchangeList(req) ==> resp == Refuse(StatusBadRequest, InvalidArgument)
    ensures ValidExchangeList(req) && Cursor.Decode(req.body.cursor).Err? ==> resp == Refuse(StatusBadRequest, InvalidCursor)
    ensures ValidExchangeList(req) && Cursor.Decode(req.body.cursor).Ok? && !(conn.Runs(0) && conn.Runs(1)) ==>
              resp == Refuse(StatusInternalServerError, InvalidExchangeList)
    ensures ValidExchangeList(req) && Cursor.Decode(req.body.cursor).Ok? && conn.Runs(0) && conn.Runs(1) ==> resp.Reply?
    ensures resp.Reply? ==>
              var page := ListedPage(db, req, Cursor.Decode(req.body.cursor).value);
              var rows := Storage.JoinAll(Storage.ExchangeIds(page.items), db.details, db.exchanges, db.toys, db.users);
              && resp.status == StatusOK
              && resp.body.cursor == Cursor.Encode(page.next)
              && Cursor.Decode(resp.body.cursor) == Ok(page.next)
              && ViewsOfRows(rows, resp.body.exchanges)
  {
    if !ValidExchangeList(req) {
      return Refuse(StatusBadRequest, InvalidArgument);
    }
    var cursor := Cursor.Decode(req.body.cursor);
    if cursor.Err? {
      return Refuse(StatusBadRequest, InvalidCursor);
    }
    ListLimitRange(req.body.limit, req.body.cursor);
    var page := db.SelectExchangeList(conn, req.body.query, req.userId, cursor.value, LimitOrDefault(req.body.limit));
    if page.Err? {
      return Refuse(StatusInternalServerError, InvalidExchangeList);
    }
    var next := Cursor.Encode(page.value.next);
    Cursor.DecodeEncode(page.value.next);
    var exchanges := ListViews(page.value.items);
    resp := Reply(StatusOK, ExchangeListReply(exchanges, next));
  }
}
