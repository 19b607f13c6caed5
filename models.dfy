/**
 * The records the service stores and exchanges, their status domains and
 * the constraints its request types declare.
 *
 * Identifiers, idempotency tokens and user ids are byte strings (they are
 * compared and paged over byte by byte); names, descriptions, photo URLs
 * and e-mail addresses are `string`. Timestamps are opaque integers.
 */
module Models {
  import opened Wrappers
  import opened ByteStrings

  // ---------------------------------------------------------------------------
  // Status domains

  /** The status of an exchange as a whole. */
  datatype ExchangeStatus = ExchangeCreated | ExchangeConfirm | ExchangeSuccess | ExchangeFailed
  {
    /** The wire and column spelling. */
    function Name(): string
    {
      match this
      case ExchangeCreated => "created"
      case ExchangeConfirm => "confirm"
      case ExchangeSuccess => "success"
      case ExchangeFailed => "failed"
    }
  }

  /** The status one participant has given an exchange. */
  datatype DetailsStatus = DetailsCreated | Confirm1 | Confirm2 | DetailsSuccess | DetailsFailed
  {
    function Name(): string
    {
      match this
      case DetailsCreated => "created"
      case Confirm1 => "confirm_1"
      case Confirm2 => "confirm_2"
      case DetailsSuccess => "success"
      case DetailsFailed => "failed"
    }
  }

  /** The status of a toy. */
  datatype ToyStatus = ToyCreated | ToyExchanging | ToyRemoved
  {
    function Name(): string
    {
      match this
      case ToyCreated => "created"
      case ToyExchanging => "exchanging"
      case ToyRemoved => "removed"
    }
  }

  /** Reading an exchange status from its spelling; exactly the four names are accepted. */
  function ExchangeStatusNamed(s: string): (r: Option<ExchangeStatus>)
    ensures forall st: ExchangeStatus :: r == Some(st) <==> st.Name() == s
    ensures r.Some? <==> s in {"created", "confirm", "success", "failed"}
  {
    if s == "created" then Some(ExchangeCreated)
    else if s == "confirm" then Some(ExchangeConfirm)
    else if s == "success" then Some(ExchangeSuccess)
    else if s == "failed" then Some(ExchangeFailed)
    else None
  }

  /** Reading a participant status from its spelling; exactly the five names are accepted. */
  function DetailsStatusNamed(s: string): (r: Option<DetailsStatus>)
    ensures forall st: DetailsStatus :: r == Some(st) <==> st.Name() == s
    ensures r.Some? <==> s in {"created", "confirm_1", "confirm_2", "success", "failed"}
  {
    if s == "created" then Some(DetailsCreated)
    else if s == "confirm_1" then Some(Confirm1)
    else if s == "confirm_2" then Some(Confirm2)
    else if s == "success" then Some(DetailsSuccess)
    else if s == "failed" then Some(DetailsFailed)
    else None
  }

  /** Reading a toy status from its spelling. */
  function ToyStatusNamed(s: string): (r: Option<ToyStatus>)
    ensures forall st: ToyStatus :: r == Some(st) <==> st.Name() == s
    ensures r.Some? <==> s in {"created", "exchanging", "removed"}
  {
    if s == "created" then Some(ToyCreated)
    else if s == "exchanging" then Some(ToyExchanging)
    else if s == "removed" then Some(ToyRemoved)
    else None
  }

  // ---------------------------------------------------------------------------
  // Stored records

  datatype Toy = Toy(
    toyId: Bytes,
    userId: Bytes,
    name: string,
    idempotencyToken: Bytes,
    description: Option<string>,
    photoUrl: Option<string>,
    status: ToyStatus,
    createdAt: int,
    updatedAt: int)

  datatype Exchange = Exchange(
    exchangeId: Bytes,
    srcToyId: Bytes,
    dstToyId: Bytes,
    idempotencyToken: Bytes,
    status: ExchangeStatus,
    createdAt: int,
    updatedAt: int)

  /** One participant's side of an exchange: the toy they give and their status. */
  datatype ExchangeDetails = ExchangeDetails(
    exchangeId: Bytes,
    toyId: Bytes,
    userId: Bytes,
    status: DetailsStatus,
    createdAt: int,
    updatedAt: int)

  datatype UserName = UserName(firstName: string, lastName: string, middleName: Option<string>)

  datatype User = User(
    userId: Bytes,
    userName: UserName,
    hashPassword: string,
    email: string,
    createdAt: int,
    updatedAt: int)
  {
    /** The display name: last name, first name and, when there is one, the middle name, separated by spaces. */
    function FullName(): (r: string)
      ensures userName.middleName.None? ==> r == userName.lastName + " " + userName.firstName
      ensures userName.middleName.Some? ==>
        r == userName.lastName + " " + userName.firstName + " " + userName.middleName.value
      ensures |r| == |userName.lastName| + 1 + |userName.firstName| +
        (if userName.middleName.Some? then |userName.middleName.value| + 1 else 0)
    {
      var parts := [userName.lastName, userName.firstName] +
        (if userName.middleName.Some? then [userName.middleName.value] else []);
      JoinList(parts[1..], " ");
      JoinList(parts[2..], " ");
      Join(parts, " ")
    }
  }

  /** `strings.Join`: the parts with `sep` between each two neighbours. */
  function Join(parts: seq<string>, sep: string): string
  {
    if |parts| == 0 then ""
    else if |parts| == 1 then parts[0]
    else parts[0] + sep + Join(parts[1..], sep)
  }

  /** The joined length is the parts' lengths plus one separator per gap. */
  lemma {:induction false} JoinList(parts: seq<string>, sep: string)
    ensures |parts| == 1 ==> Join(parts, sep) == parts[0]
    ensures |parts| >= 2 ==> Join(parts, sep) == parts[0] + sep + Join(parts[1..], sep)
    ensures |parts| > 0 ==> |Join(parts, sep)| == SumLengths(parts) + (|parts| - 1) * |sep|
  {
    if |parts| >= 2 {
      JoinList(parts[1..], sep);
    }
  }

  function SumLengths(parts: seq<string>): nat
  {
    if |parts| == 0 then 0 else |parts[0]| + SumLengths(parts[1..])
  }

  // ---------------------------------------------------------------------------
  // Joined rows and the views built from them

  /** One row of the exchange, participant, toy and user join. */
  datatype ExchangeParticipant = ExchangeParticipant(
    exchangeId: Bytes,
    exchangeStatus: ExchangeStatus,
    idempotencyToken: Bytes,
    exchangeCreatedAt: int,
    exchangeUpdatedAt: int,
    toyId: Bytes,
    toyName: string,
    toyDescription: Option<string>,
    toyPhotoUrl: Option<string>,
    userId: Bytes,
    firstName: string,
    middleName: Option<string>,
    lastName: string,
    userExchangeStatus: DetailsStatus)

  datatype ToyInfo = ToyInfo(
    toyId: Bytes,
    userId: Bytes,
    name: string,
    description: Option<string>,
    photoUrl: Option<string>)

  datatype ExchangeDetailsInfo = ExchangeDetailsInfo(toy: ToyInfo, user: UserName, status: DetailsStatus)

  datatype ExchangeInfo = ExchangeInfo(
    exchangeId: Bytes,
    details: seq<ExchangeDetailsInfo>,
    idempotencyToken: Bytes,
    status: ExchangeStatus,
    createdAt: int,
    updatedAt: int)

  // ---------------------------------------------------------------------------
  // Requests and the constraints their declarations put on them

  datatype UserIdToyId = UserIdToyId(userId: Bytes, toyId: Bytes)

  datatype ExchangePostBody = ExchangePostBody(userToy1: UserIdToyId, userToy2: UserIdToyId)

  datatype ExchangePost = ExchangePost(userId: Bytes, idempotencyToken: Bytes, body: ExchangePostBody)

  datatype ExchangeGet = ExchangeGet(userId: Bytes, exchangeId: Bytes)

  /** The participant status arrives as text and is checked against the allowed names. */
  datatype ExchangePatch = ExchangePatch(userId: Bytes, exchangeId: Bytes, status: string)

  /** Status names to keep, as the request spells them. */
  datatype QueryExchanges = QueryExchanges(statuses: Option<seq<string>>)

  datatype ExchangeListBody = ExchangeListBody(query: QueryExchanges, limit: Option<int>, cursor: Option<Bytes>)

  datatype ExchangeList = ExchangeList(userId: Bytes, body: ExchangeListBody)

  predicate ValidUserToy(p: UserIdToyId)
  {
    |p.userId| >= 1 && |p.toyId| >= 1
  }

  /** `RequestExchangePost`: the requester, the token and both pairs are non-empty. */
  predicate ValidExchangePost(req: ExchangePost)
  {
    && |req.userId| >= 1
    && |req.idempotencyToken| >= 1
    && ValidUserToy(req.body.userToy1)
    && ValidUserToy(req.body.userToy2)
  }

  predicate ValidExchangeGet(req: ExchangeGet)
  {
    |req.userId| >= 1 && |req.exchangeId| >= 1
  }

  /** The statuses a participant may ask for. */
  predicate PatchableStatus(st: DetailsStatus)
  {
    st == Confirm1 || st == Confirm2 || st == DetailsFailed
  }

  /** `RequestExchangePatch`: ids present and a status named `confirm_1`, `confirm_2` or `failed`. */
  predicate ValidExchangePatch(req: ExchangePatch)
  {
    && |req.userId| >= 1
    && |req.exchangeId| >= 1
    && DetailsStatusNamed(req.status).Some?
    && PatchableStatus(DetailsStatusNamed(req.status).value)
  }

  /** The only participant statuses a PATCH can carry: never `created` nor `success`. */
  lemma PatchStatusDomain(req: ExchangePatch)
    ensures ValidExchangePatch(req) ==> req.status in {"confirm_1", "confirm_2", "failed"}
    ensures ValidExchangePatch(req) ==>
      DetailsStatusNamed(req.status).value != DetailsCreated &&
      DetailsStatusNamed(req.status).value != DetailsSuccess
    ensures |req.userId| >= 1 && |req.exchangeId| >= 1 && req.status in {"confirm_1", "confirm_2", "failed"} ==>
      ValidExchangePatch(req)
  {
  }

  /** A page size, when given, is 1..100; a cursor, when given, is non-empty. */
  predicate ValidPaging(limit: Option<int>, cursor: Option<Bytes>)
  {
    && (limit.Some? ==> 1 <= limit.value <= 100)
    && (cursor.Some? ==> |cursor.value| >= 1)
  }

  /**
   * `omitempty,min=1,dive,oneof=created confirm success failed`: a status
   * filter that is present (a non-nil slice) is non-empty and names exchange
   * statuses only.
   */
  predicate ValidExchangeQuery(q: QueryExchanges)
  {
    q.statuses.Some? ==>
      |q.statuses.value| >= 1 && forall i :: 0 <= i < |q.statuses.value| ==> ExchangeStatusNamed(q.statuses.value[i]).Some?
  }

  predicate ValidExchangeList(req: ExchangeList)
  {
    |req.userId| >= 1 && ValidExchangeQuery(req.body.query) && ValidPaging(req.body.limit, req.body.cursor)
  }

  /** Every status a valid exchange query lists is the name of an exchange status, so the filter can match. */
  lemma ExchangeQueryNamesStatuses(q: QueryExchanges)
    requires ValidExchangeQuery(q) && q.statuses.Some?
    ensures |q.statuses.value| >= 1
    ensures forall i :: 0 <= i < |q.statuses.value| ==>
              ExchangeStatusNamed(q.statuses.value[i]).Some? && ExchangeStatusNamed(q.statuses.value[i]).value.Name() == q.statuses.value[i]
  {
  }

  /** The page size used when a list request gives none. */
  const DefaultLimit: int := 40

  /** The limit the parser leaves in a list request. */
  function LimitOrDefault(limit: Option<int>): (n: int)
    ensures limit.Some? ==> n == limit.value
    ensures limit.None? ==> n == DefaultLimit
  {
    if limit.Some? then limit.value else DefaultLimit
  }

  /** After validation and the default, the page size is always 1..100. */
  lemma ListLimitRange(limit: Option<int>, cursor: Option<Bytes>)
    requires ValidPaging(limit, cursor)
    ensures 1 <= LimitOrDefault(limit) <= 100
  {
  }

  // Toy requests

  datatype QueryToys = QueryToys(
    statuses: Option<seq<string>>,
    userIds: Option<seq<Bytes>>,
    excludeUserIds: Option<seq<Bytes>>)

  datatype ToysListBody = ToysListBody(query: QueryToys, limit: Option<int>, cursor: Option<Bytes>)

  datatype ToysList = ToysList(userId: Bytes, body: ToysListBody)

  datatype ToyPost = ToyPost(userId: Bytes, name: string, description: Option<string>, idempotencyToken: Bytes)

  datatype ToyPut = ToyPut(userId: Bytes, toyId: Bytes, name: string, description: Option<string>)

  /** The toy status arrives as text; only `created` and `exchanging` may be requested. */
  datatype ToyPatch = ToyPatch(toyId: Bytes, userId: Bytes, status: string)

  datatype ToyDelete = ToyDelete(toyId: Bytes, userId: Bytes)

  predicate ValidToyPost(req: ToyPost)
  {
    |req.userId| >= 1 && |req.name| >= 1 && |req.idempotencyToken| >= 1
  }

  predicate ValidToyPut(req: ToyPut)
  {
    |req.userId| >= 1 && |req.toyId| >= 1 && |req.name| >= 1
  }

  predicate ValidToyPatch(req: ToyPatch)
  {
    |req.toyId| >= 1 && |req.userId| >= 1 && req.status in {"created", "exchanging"}
  }

  predicate ValidToyDelete(req: ToyDelete)
  {
    |req.toyId| >= 1 && |req.userId| >= 1
  }

  /** `omitempty,min=1,dive,min=1`: a user id list that is present is non-empty and holds no empty id. */
  predicate ValidIdList(ids: Option<seq<Bytes>>)
  {
    ids.Some? ==> |ids.value| >= 1 && forall i :: 0 <= i < |ids.value| ==> |ids.value[i]| >= 1
  }

  /**
   * The tags of the toy query: a present status filter is non-empty and
   * names toy statuses only; present user id filters are non-empty lists of
   * non-empty ids. An absent (nil) filter passes.
   */
  predicate ValidToyQuery(q: QueryToys)
  {
    && (q.statuses.Some? ==>
          |q.statuses.value| >= 1 && forall i :: 0 <= i < |q.statuses.value| ==> ToyStatusNamed(q.statuses.value[i]).Some?)
    && ValidIdList(q.userIds)
    && ValidIdList(q.excludeUserIds)
  }

  predicate ValidToysList(req: ToysList)
  {
    |req.userId| >= 1 && ValidToyQuery(req.body.query) && ValidPaging(req.body.limit, req.body.cursor)
  }

  /** Every status a valid toy query lists is the name of a toy status, so the filter can match. */
  lemma ToyQueryNamesStatuses(q: QueryToys)
    requires ValidToyQuery(q) && q.statuses.Some?
    ensures |q.statuses.value| >= 1
    ensures forall i :: 0 <= i < |q.statuses.value| ==>
              ToyStatusNamed(q.statuses.value[i]).Some? && ToyStatusNamed(q.statuses.value[i]).value.Name() == q.statuses.value[i]
  {
  }

  /** An empty filter list is refused rather than read as "match nothing" or "exclude nobody". */
  lemma EmptyFiltersRefused(q: QueryToys, e: QueryExchanges)
    ensures q.statuses == Some([]) || q.userIds == Some([]) || q.excludeUserIds == Some([]) ==> !ValidToyQuery(q)
    ensures e.statuses == Some([]) ==> !ValidExchangeQuery(e)
  {
  }
}
