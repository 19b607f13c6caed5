/**
 * The PostgreSQL storage layer, with the database as four in-memory tables.
 *
 * Each storage call opens one or more round trips to the database; whether
 * they succeed is not the service's to decide, so every call takes a `Conn`
 * saying which of its round trips go through. The list queries are assembled
 * from clauses and numbered placeholders exactly as the service assembles
 * them, and a small query engine (`RunToysQuery`, `RunExchangeIdQuery`)
 * refuses a query whose placeholders are not bound one to one, the way the
 * driver does.
 */
module Storage {
  import opened Wrappers
  import opened ByteStrings
  import opened Models
  import Paging

  // ---------------------------------------------------------------------------
  // Faults and transactions

  /**
   * The fate of one storage call's round trips: whether `BEGIN` succeeds, how
   * many of its statements succeed before the first failure, and whether
   * `COMMIT` succeeds.
   */
  datatype Conn = Conn(begins: bool, okStatements: nat, commits: bool)
  {
    /** Statement `k` of the call (counting from 0) succeeds. */
    predicate Runs(k: nat)
    {
      k < okStatements
    }
  }

  /**
   * `runInTx`: the body's value is returned only when the transaction began,
   * the body succeeded and the commit succeeded; otherwise it is an error.
   */
  function RunInTx<T>(begins: bool, body: Result<T>, commits: bool): (r: Result<T>)
    ensures r.Ok? <==> begins && body.Ok? && commits
    ensures r.Ok? ==> r == body
  {
    if !begins then Err
    else if body.Err? then Err
    else if !commits then Err
    else body
  }

  // ---------------------------------------------------------------------------
  // Keys, lookups and table invariants

  function ToyKey(t: Toy): Bytes { t.toyId }

  function ToyToken(t: Toy): Bytes { t.idempotencyToken }

  function ExchangeKey(e: Exchange): Bytes { e.exchangeId }

  /** The position of the first row satisfying `p`. */
  function IndexWhere<T>(xs: seq<T>, p: T -> bool): (r: Option<nat>)
    ensures r.Some? ==> r.value < |xs| && p(xs[r.value])
    ensures r.None? ==> forall i :: 0 <= i < |xs| ==> !p(xs[i])
  {
    if |xs| == 0 then None
    else if p(xs[0]) then Some(0)
    else match IndexWhere(xs[1..], p)
      case None => None
      case Some(i) => Some(i + 1)
  }

  /**
   * PostgreSQL runs a prepared statement only when the bind message carries
   * one argument per placeholder; lib/pq returns any other count as an error.
   */
  predicate Binds(placeholders: nat, arguments: nat)
  {
    arguments == placeholders
  }

  /** `kSelectToyById` filters on `toy_id = $1 AND user_id = $2`. */
  const SelectToyByIdPlaceholders: nat := 2

  /** `kInsertToy` inserts `VALUES ($1, ..., $9)`, one placeholder per column. */
  const InsertToyPlaceholders: nat := 9

  /** A point select: the row satisfying `p`, or none (the `(nil, nil)` of the service). */
  function RowWhere<T>(xs: seq<T>, p: T -> bool): (r: Option<T>)
    ensures r.Some? ==> r.value in xs && p(r.value)
    ensures r.None? ==> forall i :: 0 <= i < |xs| ==> !p(xs[i])
  {
    match IndexWhere(xs, p)
    case None => None
    case Some(i) => Some(xs[i])
  }

  function WithToken(token: Bytes): Toy -> bool
  {
    (t: Toy) => t.idempotencyToken == token
  }

  function WithToyId(toyId: Bytes): Toy -> bool
  {
    (t: Toy) => t.toyId == toyId
  }

  function OwnedToy(toyId: Bytes, userId: Bytes): Toy -> bool
  {
    (t: Toy) => t.toyId == toyId && t.userId == userId
  }

  function WithExchangeId(exchangeId: Bytes): Exchange -> bool
  {
    (e: Exchange) => e.exchangeId == exchangeId
  }

  function WithUserId(userId: Bytes): User -> bool
  {
    (u: User) => u.userId == userId
  }

  /** The primary key of toys and the unique index on their idempotency tokens. */
  predicate ToysKeyed(toys: seq<Toy>)
  {
    Paging.DistinctKeys(toys, ToyKey) && Paging.DistinctKeys(toys, ToyToken)
  }

  /** With unique tokens, the token lookup finds the one toy holding it. */
  lemma TokenFindsToy(toys: seq<Toy>, i: nat)
    requires ToysKeyed(toys) && i < |toys|
    ensures RowWhere(toys, WithToken(toys[i].idempotencyToken)) == Some(toys[i])
  {
    var r := RowWhere(toys, WithToken(toys[i].idempotencyToken));
    var j :| 0 <= j < |toys| && toys[j] == r.value;
    SameKeySameRow(toys, ToyToken, i, j);
  }

  /** Under a unique key, rows with the same key are the same row. */
  lemma SameKeySameRow<T>(xs: seq<T>, key: T -> Bytes, i: nat, j: nat)
    requires Paging.DistinctKeys(xs, key) && i < |xs| && j < |xs|
    requires key(xs[i]) == key(xs[j])
    ensures i == j
  {
  }

  /** A key nobody holds yet: the identifier the database generates for a new row. */
  function FreshKey(used: seq<Bytes>): (k: Bytes)
    ensures forall i :: 0 <= i < |used| ==> used[i] != k
  {
    var n := LongestLength(used);
    seq(n + 1, _ => 0)
  }

  function LongestLength(used: seq<Bytes>): (n: nat)
    ensures forall i :: 0 <= i < |used| ==> |used[i]| <= n
  {
    if |used| == 0 then 0
    else
      var m := LongestLength(used[1..]);
      if |used[0]| > m then |used[0]| else m
  }

  function ExchangeIds(es: seq<Exchange>): (ids: seq<Bytes>)
    ensures |ids| == |es|
    ensures forall i :: 0 <= i < |es| ==> ids[i] == es[i].exchangeId
  {
    seq(|es|, i requires 0 <= i < |es| => es[i].exchangeId)
  }

  // ---------------------------------------------------------------------------
  // Assembling the list queries

  /** A bound parameter of a query. */
  datatype Param = Names(names: seq<string>) | Ids(ids: seq<Bytes>) | Text(text: Bytes) | Count(count: int)

  /** The clauses a list query appends to its base text; `n` is the placeholder `$n`. */
  datatype Clause =
    | StatusIn(n: nat)      // `status = ANY($n)`
    | UserNotIn(n: nat)     // `user_id != ALL($n)`
    | UserIn(n: nat)        // `user_id = ANY($n)`
    | KeyAtLeast(n: nat)    // `<primary key> >= $n`
    | OrderByKey            // `ORDER BY <primary key>, updated_at DESC`
    | LimitTo(n: nat)       // `LIMIT $n`
  {
    function Placeholders(): seq<nat>
    {
      match this
      case OrderByKey => []
      case StatusIn(n) => [n]
      case UserNotIn(n) => [n]
      case UserIn(n) => [n]
      case KeyAtLeast(n) => [n]
      case LimitTo(n) => [n]
    }
  }

  /** The placeholders of a clause list, in the order they appear. */
  function PlaceholdersOf(cs: seq<Clause>): seq<nat>
  {
    if |cs| == 0 then [] else PlaceholdersOf(cs[..|cs| - 1]) + cs[|cs| - 1].Placeholders()
  }

  /** `lo, lo + 1, ..., hi - 1`. */
  function Range(lo: nat, hi: nat): (r: seq<nat>)
    ensures |r| == if lo <= hi then hi - lo else 0
    ensures forall i :: 0 <= i < |r| ==> r[i] == lo + i
    decreases hi
  {
    if hi <= lo then [] else Range(lo, hi - 1) + [hi - 1]
  }

  /** The parameter a clause refers to exists and has the kind the clause needs. */
  predicate Fits(c: Clause, params: seq<Param>)
  {
    match c
    case OrderByKey => true
    case StatusIn(n) => 1 <= n <= |params| && params[n - 1].Names?
    case UserNotIn(n) => 1 <= n <= |params| && params[n - 1].Ids?
    case UserIn(n) => 1 <= n <= |params| && params[n - 1].Ids?
    case KeyAtLeast(n) => 1 <= n <= |params| && params[n - 1].Text?
    case LimitTo(n) => 1 <= n <= |params| && params[n - 1].Count?
  }

  /**
   * The placeholders are `$first`, `$first+1`, ..., `$|params|`, each once and in
   * order, and each clause's parameter has the right kind; parameters before
   * `$first` belong to the base text.
   */
  predicate Bound(cs: seq<Clause>, params: seq<Param>, first: nat)
  {
    && PlaceholdersOf(cs) == Range(first, |params| + 1)
    && forall i :: 0 <= i < |cs| ==> Fits(cs[i], params)
  }

  /** A clause of the `WHERE` part, as opposed to the ordering and the limit. */
  predicate IsCondition(c: Clause)
  {
    !c.OrderByKey? && !c.LimitTo?
  }

  /** Conditions, then the ordering, then the limit. */
  predicate ListShape(cs: seq<Clause>)
  {
    && |cs| >= 2
    && cs[|cs| - 2] == OrderByKey
    && cs[|cs| - 1].LimitTo?
    && forall i :: 0 <= i < |cs| - 2 ==> IsCondition(cs[i])
  }

  /** Appending a clause that uses the next placeholder keeps the numbering contiguous. */
  lemma PlaceholdersSnoc(cs: seq<Clause>, c: Clause, first: nat, next: nat)
    requires PlaceholdersOf(cs) == Range(first, next) && first <= next
    requires c.Placeholders() == [next] || c.Placeholders() == []
    ensures c.Placeholders() == [next] ==> PlaceholdersOf(cs + [c]) == Range(first, next + 1)
    ensures c.Placeholders() == [] ==> PlaceholdersOf(cs + [c]) == Range(first, next)
  {
    assert (cs + [c])[..|cs + [c]| - 1] == cs;
  }

  /** A clause's own parameter is untouched by appending another parameter. */
  lemma ParamKept(c: Clause, params: seq<Param>, x: Param)
    requires Fits(c, params)
    ensures Fits(c, params + [x])
    ensures forall t :: ToyHolds(c, params + [x], t) == ToyHolds(c, params, t)
    ensures forall e :: ExchangeHolds(c, params + [x], e) == ExchangeHolds(c, params, e)
  {
    if !c.OrderByKey? {
      assert (params + [x])[c.n - 1] == params[c.n - 1];
    }
  }

  /** Binding clause `c` to the next placeholder, with parameter `x`, keeps the query bound. */
  lemma BindNext(cs: seq<Clause>, params: seq<Param>, first: nat, c: Clause, x: Param)
    requires Bound(cs, params, first) && first <= |params| + 1
    requires c.Placeholders() == [|params| + 1] && Fits(c, params + [x])
    ensures Bound(cs + [c], params + [x], first)
  {
    PlaceholdersSnoc(cs, c, first, |params| + 1);
    forall i | 0 <= i < |cs| + 1 ensures Fits((cs + [c])[i], params + [x]) {
      if i < |cs| {
        assert (cs + [c])[i] == cs[i];
        ParamKept(cs[i], params, x);
      }
    }
  }

  /** Appending `ORDER BY` and `LIMIT` on the next placeholder completes a list query. */
  lemma CloseList(cs: seq<Clause>, params: seq<Param>, first: nat, count: int)
    requires Bound(cs, params, first) && first <= |params| + 1
    requires forall i :: 0 <= i < |cs| ==> IsCondition(cs[i])
    ensures Bound(cs + [OrderByKey] + [LimitTo(|params| + 1)], params + [Count(count)], first)
    ensures ListShape(cs + [OrderByKey] + [LimitTo(|params| + 1)])
    ensures (cs + [OrderByKey] + [LimitTo(|params| + 1)])[..|cs|] == cs
  {
    OrderKeepsBound(cs, params, first);
    BindNext(cs + [OrderByKey], params, first, LimitTo(|params| + 1), Count(count));
    ClosedShape(cs, |params| + 1);
  }

  /** `ORDER BY` uses no placeholder, so appending it keeps the query bound. */
  lemma OrderKeepsBound(cs: seq<Clause>, params: seq<Param>, first: nat)
    requires Bound(cs, params, first) && first <= |params| + 1
    ensures Bound(cs + [OrderByKey], params, first)
  {
    PlaceholdersSnoc(cs, OrderByKey, first, |params| + 1);
    forall i | 0 <= i < |cs| + 1 ensures Fits((cs + [OrderByKey])[i], params) {
      if i < |cs| {
        assert (cs + [OrderByKey])[i] == cs[i];
      }
    }
  }

  /** Conditions followed by `ORDER BY` and a `LIMIT` have the shape of a list query. */
  lemma ClosedShape(cs: seq<Clause>, n: nat)
    requires forall i :: 0 <= i < |cs| ==> IsCondition(cs[i])
    ensures ListShape(cs + [OrderByKey] + [LimitTo(n)])
    ensures (cs + [OrderByKey] + [LimitTo(n)])[..|cs|] == cs
  {
    var closed := cs + [OrderByKey] + [LimitTo(n)];
    assert forall i :: 0 <= i < |closed| - 2 ==> closed[i] == cs[i];
  }

  // ---------------------------------------------------------------------------
  // The toy listing

  /** `status = ANY(statuses)`, when a status filter is given. */
  predicate StatusWanted(statuses: Option<seq<string>>, name: string)
  {
    statuses.None? || name in statuses.value
  }

  /**
   * A toy the listing asks for: each filter that is present must hold and an
   * absent one imposes nothing; all of them are AND-ed.
   */
  predicate ToyWanted(q: QueryToys, t: Toy)
  {
    && StatusWanted(q.statuses, t.status.Name())
    && (q.excludeUserIds.None? || t.userId !in q.excludeUserIds.value)
    && (q.userIds.None? || t.userId in q.userIds.value)
  }

  function ToyFilter(q: QueryToys): Toy -> bool
  {
    (t: Toy) => ToyWanted(q, t)
  }

  /** What one clause of the toy query says about a row. */
  predicate ToyHolds(c: Clause, params: seq<Param>, t: Toy)
  {
    Fits(c, params) &&
    match c
    case StatusIn(n) => t.status.Name() in params[n - 1].names
    case UserNotIn(n) => t.userId !in params[n - 1].ids
    case UserIn(n) => t.userId in params[n - 1].ids
    case KeyAtLeast(n) => AtLeast(t.toyId, params[n - 1].text)
    case OrderByKey => true
    case LimitTo(_) => true
  }

  /** The toy query's `WHERE`: every clause holds. */
  predicate ToyWhereHolds(cs: seq<Clause>, params: seq<Param>, t: Toy)
  {
    forall i :: 0 <= i < |cs| ==> ToyHolds(cs[i], params, t)
  }

  function ToyWhere(cs: seq<Clause>, params: seq<Param>): Toy -> bool
  {
    (t: Toy) => ToyWhereHolds(cs, params, t)
  }

  /** The database's answer to an assembled toy query. */
  function RunToysQuery(toys: seq<Toy>, cs: seq<Clause>, params: seq<Param>): (r: Result<seq<Toy>>)
    ensures r.Ok? ==> Bound(cs, params, 1) && ListShape(cs)
  {
    if !Bound(cs, params, 1) || !ListShape(cs) then Err
    else
      var count := params[cs[|cs| - 1].n - 1].count;
      if count < 0 then Err
      else Ok(Paging.Take(Paging.SortBy(Paging.Filter(toys, ToyWhere(cs[..|cs| - 2], params)), ToyKey), count))
  }

  /** Adding a clause and its parameter conjoins the clause's condition. */
  lemma ToyWhereSnoc(cs: seq<Clause>, params: seq<Param>, c: Clause, x: Param)
    requires forall i :: 0 <= i < |cs| ==> Fits(cs[i], params)
    ensures forall t :: ToyWhereHolds(cs + [c], params + [x], t) ==
                        (ToyWhereHolds(cs, params, t) && ToyHolds(c, params + [x], t))
  {
    forall i | 0 <= i < |cs| {
      ParamKept(cs[i], params, x);
    }
    assert (cs + [c])[|cs|] == c;
    assert forall i :: 0 <= i < |cs| ==> (cs + [c])[i] == cs[i];
  }

  /** A parameter appended after the clauses' own does not change what they select. */
  lemma ToyWhereExtend(cs: seq<Clause>, params: seq<Param>, x: Param)
    requires forall i :: 0 <= i < |cs| ==> Fits(cs[i], params)
    ensures forall t :: ToyWhereHolds(cs, params + [x], t) == ToyWhereHolds(cs, params, t)
  {
    forall i | 0 <= i < |cs| {
      ParamKept(cs[i], params, x);
    }
  }

  // ---------------------------------------------------------------------------
  // The exchange listing

  /** Some participant row of exchange `exchangeId` belongs to `userId`. */
  predicate Participates(details: seq<ExchangeDetails>, exchangeId: Bytes, userId: Bytes)
  {
    exists i :: 0 <= i < |details| && details[i].exchangeId == exchangeId && details[i].userId == userId
  }

  /** An exchange listed to `userId`: one they take part in, with a wanted status. */
  predicate ExchangeWanted(details: seq<ExchangeDetails>, userId: Bytes, q: QueryExchanges, e: Exchange)
  {
    Participates(details, e.exchangeId, userId) && StatusWanted(q.statuses, e.status.Name())
  }

  function ExchangeFilter(details: seq<ExchangeDetails>, userId: Bytes, q: QueryExchanges): Exchange -> bool
  {
    (e: Exchange) => ExchangeWanted(details, userId, q, e)
  }

  /** What one clause of the exchange query says about a row; it has no user filters. */
  predicate ExchangeHolds(c: Clause, params: seq<Param>, e: Exchange)
  {
    Fits(c, params) &&
    match c
    case StatusIn(n) => e.status.Name() in params[n - 1].names
    case KeyAtLeast(n) => AtLeast(e.exchangeId, params[n - 1].text)
    case OrderByKey => true
    case _ => false
  }

  /** The exchange query's `WHERE`: the base text scopes to the user bound as `$1`, then every clause holds. */
  predicate ExchangeWhereHolds(details: seq<ExchangeDetails>, cs: seq<Clause>, params: seq<Param>, e: Exchange)
  {
    && |params| >= 1 && params[0].Text?
    && Participates(details, e.exchangeId, params[0].text)
    && forall i :: 0 <= i < |cs| ==> ExchangeHolds(cs[i], params, e)
  }

  function ExchangeWhere(details: seq<ExchangeDetails>, cs: seq<Clause>, params: seq<Param>): Exchange -> bool
  {
    (e: Exchange) => ExchangeWhereHolds(details, cs, params, e)
  }

  /** The database's answer to the assembled exchange-id query. */
  function RunExchangeIdQuery(exchanges: seq<Exchange>, details: seq<ExchangeDetails>, cs: seq<Clause>, params: seq<Param>)
    : (r: Result<seq<Bytes>>)
    ensures r.Ok? ==> Bound(cs, params, 2) && ListShape(cs) && |params| >= 1 && params[0].Text?
  {
    if !Bound(cs, params, 2) || !ListShape(cs) || |params| < 1 || !params[0].Text? then Err
    else
      var count := params[cs[|cs| - 1].n - 1].count;
      if count < 0 then Err
      else Ok(ExchangeIds(Paging.Take(Paging.SortBy(
             Paging.Filter(exchanges, ExchangeWhere(details, cs[..|cs| - 2], params)), ExchangeKey), count)))
  }

  lemma ExchangeWhereSnoc(details: seq<ExchangeDetails>, cs: seq<Clause>, params: seq<Param>, c: Clause, x: Param)
    requires forall i :: 0 <= i < |cs| ==> Fits(cs[i], params)
    requires |params| >= 1
    ensures forall e :: ExchangeWhereHolds(details, cs + [c], params + [x], e) ==
                        (ExchangeWhereHolds(details, cs, params, e) && ExchangeHolds(c, params + [x], e))
  {
    forall i | 0 <= i < |cs| {
      ParamKept(cs[i], params, x);
    }
    assert (cs + [c])[|cs|] == c;
    assert forall i :: 0 <= i < |cs| ==> (cs + [c])[i] == cs[i];
    assert (params + [x])[0] == params[0];
  }

  lemma ExchangeWhereExtend(details: seq<ExchangeDetails>, cs: seq<Clause>, params: seq<Param>, x: Param)
    requires forall i :: 0 <= i < |cs| ==> Fits(cs[i], params)
    requires |params| >= 1
    ensures forall e :: ExchangeWhereHolds(details, cs, params + [x], e) == ExchangeWhereHolds(details, cs, params, e)
  {
    forall i | 0 <= i < |cs| {
      ParamKept(cs[i], params, x);
    }
    assert (params + [x])[0] == params[0];
  }

  // ---------------------------------------------------------------------------
  // Joined participant rows

  /** The join of one participant row with its exchange, toy and user. */
  function Participant(e: Exchange, d: ExchangeDetails, t: Toy, u: User): ExchangeParticipant
  {
    ExchangeParticipant(
      e.exchangeId, e.status, e.idempotencyToken, e.createdAt, e.updatedAt,
      t.toyId, t.name, t.description, t.photoUrl,
      u.userId, u.userName.firstName, u.userName.middleName, u.userName.lastName,
      d.status)
  }

  /** The joined row carries the participant record's exchange, toy, user and status. */
  predicate JoinedFrom(d: ExchangeDetails, row: ExchangeParticipant)
  {
    && row.exchangeId == d.exchangeId && row.toyId == d.toyId
    && row.userId == d.userId && row.userExchangeStatus == d.status
  }

  /** One participant record of exchange `id`, joined when its exchange, toy and user exist. */
  function JoinOne(d: ExchangeDetails, id: Bytes, exchanges: seq<Exchange>, toys: seq<Toy>, users: seq<User>)
    : (row: Option<ExchangeParticipant>)
    ensures row.Some? ==> d.exchangeId == id && JoinedFrom(d, row.value)
  {
    var e := RowWhere(exchanges, WithExchangeId(id));
    var t := RowWhere(toys, WithToyId(d.toyId));
    var u := RowWhere(users, WithUserId(d.userId));
    if d.exchangeId == id && e.Some? && t.Some? && u.Some? then Some(Participant(e.value, d, t.value, u.value))
    else None
  }

  /**
   * The joined rows of exchange `id`, one per participant record whose
   * exchange, toy and user all exist, in participant-table order.
   */
  function JoinRows(ds: seq<ExchangeDetails>, id: Bytes, exchanges: seq<Exchange>, toys: seq<Toy>, users: seq<User>)
    : (rows: seq<ExchangeParticipant>)
    ensures |rows| <= |ds|
    ensures forall i :: 0 <= i < |rows| ==> rows[i].exchangeId == id
    ensures forall i :: 0 <= i < |rows| ==> TracedTo(ds, rows[i])
  {
    if |ds| == 0 then []
    else
      var rest := JoinRows(ds[1..], id, exchanges, toys, users);
      JoinedFromTail(ds, rest);
      match JoinOne(ds[0], id, exchanges, toys, users)
      case None => rest
      case Some(row) =>
        assert JoinedFrom(ds[0], row);
        [row] + rest
  }

  /** Some record of `ds` is the one `row` was joined from. */
  predicate TracedTo(ds: seq<ExchangeDetails>, row: ExchangeParticipant)
  {
    exists j :: 0 <= j < |ds| && JoinedFrom(ds[j], row)
  }

  lemma JoinedFromTail(ds: seq<ExchangeDetails>, rows: seq<ExchangeParticipant>)
    requires |ds| > 0
    requires forall i :: 0 <= i < |rows| ==> TracedTo(ds[1..], rows[i])
    ensures forall i :: 0 <= i < |rows| ==> TracedTo(ds, rows[i])
  {
    forall i | 0 <= i < |rows| ensures TracedTo(ds, rows[i]) {
      var j :| 0 <= j < |ds| - 1 && JoinedFrom(ds[1..][j], rows[i]);
      assert ds[j + 1] == ds[1..][j];
    }
  }

  /** The joined rows of every exchange in `ids`, exchange by exchange. */
  function JoinAll(ids: seq<Bytes>, details: seq<ExchangeDetails>, exchanges: seq<Exchange>, toys: seq<Toy>, users: seq<User>)
    : (rows: seq<ExchangeParticipant>)
    ensures forall i :: 0 <= i < |rows| ==> rows[i].exchangeId in ids
  {
    if |ids| == 0 then []
    else JoinRows(details, ids[0], exchanges, toys, users) + JoinAll(ids[1..], details, exchanges, toys, users)
  }

  /** One record after `UPDATE ... SET status WHERE exchange_id AND user_id`. */
  function Stamp(d: ExchangeDetails, exchangeId: Bytes, userId: Bytes, status: DetailsStatus): ExchangeDetails
  {
    if d.exchangeId == exchangeId && d.userId == userId then d.(status := status) else d
  }

  /** The participant table after the update: exactly that participant's records change. */
  function SetStatus(ds: seq<ExchangeDetails>, exchangeId: Bytes, userId: Bytes, status: DetailsStatus)
    : (r: seq<ExchangeDetails>)
    ensures |r| == |ds|
    ensures forall i :: 0 <= i < |ds| && ds[i].exchangeId == exchangeId && ds[i].userId == userId ==>
      r[i] == ds[i].(status := status)
    ensures forall i :: 0 <= i < |ds| && !(ds[i].exchangeId == exchangeId && ds[i].userId == userId) ==>
      r[i] == ds[i]
  {
    seq(|ds|, i requires 0 <= i < |ds| => Stamp(ds[i], exchangeId, userId, status))
  }

  /** One joined row as it reads once `userId`'s status is `status`. */
  function Restamp(row: ExchangeParticipant, userId: Bytes, status: DetailsStatus): ExchangeParticipant
  {
    if row.userId == userId then row.(userExchangeStatus := status) else row
  }

  /** A joined view with the rows of `userId` showing `status`. */
  function Restatus(rows: seq<ExchangeParticipant>, userId: Bytes, status: DetailsStatus): (r: seq<ExchangeParticipant>)
    ensures |r| == |rows|
    ensures forall i :: 0 <= i < |rows| && rows[i].userId != userId ==> r[i] == rows[i]
    ensures forall i :: 0 <= i < |rows| && rows[i].userId == userId ==> r[i] == rows[i].(userExchangeStatus := status)
  {
    if |rows| == 0 then []
    else [Restamp(rows[0], userId, status)] + Restatus(rows[1..], userId, status)
  }

  /** Joining a stamped record is stamping the joined row. */
  lemma JoinStamped(d: ExchangeDetails, id: Bytes, userId: Bytes, status: DetailsStatus,
                    exchanges: seq<Exchange>, toys: seq<Toy>, users: seq<User>)
    ensures JoinOne(Stamp(d, id, userId, status), id, exchanges, toys, users) ==
            match JoinOne(d, id, exchanges, toys, users)
            case None => None
            case Some(row) => Some(Restamp(row, userId, status))
  {
  }

  /**
   * The transition round trip: after the participant update, the re-read view
   * is the old view with that participant's rows showing the new status and
   * every other row unchanged.
   */
  lemma {:induction false} ViewAfterUpdate(ds: seq<ExchangeDetails>, id: Bytes, userId: Bytes, status: DetailsStatus,
                                           exchanges: seq<Exchange>, toys: seq<Toy>, users: seq<User>)
    ensures JoinRows(SetStatus(ds, id, userId, status), id, exchanges, toys, users) ==
            Restatus(JoinRows(ds, id, exchanges, toys, users), userId, status)
  {
    if |ds| > 0 {
      var ds' := SetStatus(ds, id, userId, status);
      assert ds'[0] == Stamp(ds[0], id, userId, status);
      assert ds'[1..] == SetStatus(ds[1..], id, userId, status);
      ViewAfterUpdate(ds[1..], id, userId, status, exchanges, toys, users);
      JoinStamped(ds[0], id, userId, status, exchanges, toys, users);
      var rest := JoinRows(ds[1..], id, exchanges, toys, users);
      match JoinOne(ds[0], id, exchanges, toys, users)
      case None =>
      case Some(row) =>
        assert ([row] + rest)[1..] == rest;
    }
  }

  /** An exchange nobody takes part in reads back as no rows, not as an error. */
  lemma {:induction false} NoParticipantsNoRows(ds: seq<ExchangeDetails>, id: Bytes, exchanges: seq<Exchange>,
                                                toys: seq<Toy>, users: seq<User>)
    requires forall i :: 0 <= i < |ds| ==> ds[i].exchangeId != id
    ensures JoinRows(ds, id, exchanges, toys, users) == []
  {
    if |ds| > 0 {
      NoParticipantsNoRows(ds[1..], id, exchanges, toys, users);
    }
  }

  // ---------------------------------------------------------------------------
  // Toy updates

  /** `UpdateToy`: name and description are replaced; the photo only when a new one is given. */
  function Revised(old_: Toy, changes: Toy): (t: Toy)
    ensures t.toyId == old_.toyId && t.userId == old_.userId && t.idempotencyToken == old_.idempotencyToken
    ensures t.status == old_.status && t.createdAt == old_.createdAt
    ensures t.name == changes.name && t.description == changes.description
    ensures changes.photoUrl.Some? ==> t.photoUrl == changes.photoUrl
    ensures changes.photoUrl.None? ==> t.photoUrl == old_.photoUrl
  {
    old_.(name := changes.name, description := changes.description,
          photoUrl := if changes.photoUrl.Some? then changes.photoUrl else old_.photoUrl)
  }

  /**
   * What `UpdateToyStatus` returns as written: the row is read back with
   * `Scan`, and a missing row is the driver's "no rows" error, which nothing
   * turns into `(nil, nil)`.
   */
  function ToyStatusOutcomeAsWritten(toys: seq<Toy>, toyId: Bytes, userId: Bytes, status: ToyStatus): (r: Result<Option<Toy>>)
    ensures r.Err? <==> forall i :: 0 <= i < |toys| ==> !OwnedToy(toyId, userId)(toys[i])
    ensures r.Ok? ==> r.value.Some? && r.value.value.status == status
  {
    match IndexWhere(toys, OwnedToy(toyId, userId))
    case None => Err
    case Some(i) => Ok(Some(toys[i].(status := status)))
  }

  /** The same update with "no rows" read as not found, as `UpdateToy` and the point selects do. */
  function ToyStatusOutcome(toys: seq<Toy>, toyId: Bytes, userId: Bytes, status: ToyStatus): (r: Result<Option<Toy>>)
    ensures r.Ok?
    ensures r.value.None? <==> forall i :: 0 <= i < |toys| ==> !OwnedToy(toyId, userId)(toys[i])
    ensures r.value.Some? ==> r.value.value.status == status
  {
    match IndexWhere(toys, OwnedToy(toyId, userId))
    case None => Ok(None)
    case Some(i) => Ok(Some(toys[i].(status := status)))
  }

  // ---------------------------------------------------------------------------
  // The storage object

  class Postgres
  {
    var toys: seq<Toy>
    var exchanges: seq<Exchange>
    var details: seq<ExchangeDetails>
    var users: seq<User>

    /** The keys and unique indexes the tables rely on. */
    ghost predicate Valid()
      reads this
    {
      ToysKeyed(toys) && Paging.DistinctKeys(exchanges, ExchangeKey)
    }

    constructor (toys: seq<Toy>, exchanges: seq<Exchange>, details: seq<ExchangeDetails>, users: seq<User>)
      requires ToysKeyed(toys) && Paging.DistinctKeys(exchanges, ExchangeKey)
      ensures Valid()
      ensures this.toys == toys && this.exchanges == exchanges && this.details == details && this.users == users
    {
      this.toys := toys;
      this.exchanges := exchanges;
      this.details := details;
      this.users := users;
    }

    // Point selects: a missing row is `Ok(None)`, distinct from an error.

    /** A point read of `toys` by a prepared statement given `arguments` arguments. */
    method ReadToy(conn: Conn, placeholders: nat, arguments: nat, p: Toy -> bool) returns (r: Result<Option<Toy>>)
      ensures r.Ok? <==> conn.Runs(0) && Binds(placeholders, arguments)
      ensures r.Ok? ==> r.value == RowWhere(toys, p)
    {
      if !conn.Runs(0) || !Binds(placeholders, arguments) {
        return Err;
      }
      r := Ok(RowWhere(toys, p));
    }

    /** `SelectToyById` as written: the id alone is bound to a statement with two placeholders. */
    method SelectToyByIdAsWritten(conn: Conn, toyId: Bytes) returns (r: Result<Option<Toy>>)
      ensures r == Err
    {
      r := ReadToy(conn, SelectToyByIdPlaceholders, 1, WithToyId(toyId));
    }

    /**
     * `SelectToyById` with both placeholders bound, as its statement and the
     * storage interface (`SelectToyById(toyId, userId)`) mean it: the toy with
     * that id owned by that user, or none.
     */
    method SelectToyById(conn: Conn, toyId: Bytes, userId: Bytes) returns (r: Result<Option<Toy>>)
      ensures r.Ok? <==> conn.Runs(0)
      ensures r.Ok? && r.value.Some? ==>
        r.value.value in toys && r.value.value.toyId == toyId && r.value.value.userId == userId
      ensures r.Ok? && r.value.None? ==>
        forall i :: 0 <= i < |toys| ==> !(toys[i].toyId == toyId && toys[i].userId == userId)
    {
      r := ReadToy(conn, SelectToyByIdPlaceholders, 2, OwnedToy(toyId, userId));
    }

    method SelectToyByUserId(conn: Conn, toyId: Bytes, userId: Bytes) returns (r: Result<Option<Toy>>)
      ensures r.Ok? <==> conn.Runs(0)
      ensures r.Ok? && r.value.Some? ==>
        r.value.value in toys && r.value.value.toyId == toyId && r.value.value.userId == userId
      ensures r.Ok? && r.value.None? ==>
        forall i :: 0 <= i < |toys| ==> !(toys[i].toyId == toyId && toys[i].userId == userId)
    {
      if !conn.Runs(0) {
        return Err;
      }
      r := Ok(RowWhere(toys, OwnedToy(toyId, userId)));
    }

    method SelectToyByToken(conn: Conn, token: Bytes) returns (r: Result<Option<Toy>>)
      ensures r.Ok? <==> conn.Runs(0)
      ensures r.Ok? ==> r.value == RowWhere(toys, WithToken(token))
      ensures r.Ok? && r.value.Some? ==> r.value.value in toys && r.value.value.idempotencyToken == token
      ensures r.Ok? && r.value.None? ==> forall i :: 0 <= i < |toys| ==> toys[i].idempotencyToken != token
    {
      if !conn.Runs(0) {
        return Err;
      }
      r := Ok(RowWhere(toys, WithToken(token)));
    }

    /**
     * The insert of `InsertToy` given `arguments` arguments: the row is added
     * unless its id or its token is already taken, in which case the statement
     * returns no row and the call fails.
     */
    method InsertToyRow(conn: Conn, arguments: nat, toy: Toy) returns (r: Result<Toy>)
      requires Valid()
      modifies this
      ensures Valid()
      ensures exchanges == old(exchanges) && details == old(details) && users == old(users)
      ensures r.Ok? <==> && conn.Runs(0) && Binds(InsertToyPlaceholders, arguments)
                         && forall i :: 0 <= i < |old(toys)| ==>
                              old(toys)[i].toyId != toy.toyId && old(toys)[i].idempotencyToken != toy.idempotencyToken
      ensures r.Ok? ==> r.value == toy && toys == old(toys) + [toy]
      ensures r.Err? ==> toys == old(toys)
    {
      if !conn.Runs(0) || !Binds(InsertToyPlaceholders, arguments) {
        return Err;
      }
      if exists i :: 0 <= i < |toys| && (toys[i].toyId == toy.toyId || toys[i].idempotencyToken == toy.idempotencyToken) {
        return Err;
      }
      toys := toys + [toy];
      r := Ok(toy);
    }

    /**
     * `InsertToy` as written: six arguments (no id, no timestamps) for the
     * nine placeholders of its statement, so no toy is ever stored.
     */
    method InsertToyAsWritten(conn: Conn, toy: Toy) returns (r: Result<Toy>)
      requires Valid()
      modifies this
      ensures Valid()
      ensures r == Err && toys == old(toys)
      ensures exchanges == old(exchanges) && details == old(details) && users == old(users)
    {
      r := InsertToyRow(conn, 6, toy);
    }

    /** `InsertToy` with all nine columns bound in order: the toy is stored unless its id or token is taken. */
    method InsertToy(conn: Conn, toy: Toy) returns (r: Result<Toy>)
      requires Valid()
      modifies this
      ensures Valid()
      ensures exchanges == old(exchanges) && details == old(details) && users == old(users)
      ensures r.Ok? <==> conn.Runs(0) && forall i :: 0 <= i < |old(toys)| ==>
                                              old(toys)[i].toyId != toy.toyId && old(toys)[i].idempotencyToken != toy.idempotencyToken
      ensures r.Ok? ==> r.value == toy && toys == old(toys) + [toy]
      ensures r.Err? ==> toys == old(toys)
    {
      r := InsertToyRow(conn, InsertToyPlaceholders, toy);
    }

    /** `UpdateToy`: the toy must match both id and owner; none matching is `Ok(None)`. */
    method UpdateToy(conn: Conn, changes: Toy) returns (r: Result<Option<Toy>>)
      requires Valid()
      modifies this
      ensures Valid()
      ensures exchanges == old(exchanges) && details == old(details) && users == old(users)
      ensures r.Ok? <==> conn.Runs(0)
      ensures r.Ok? && r.value.None? ==>
                toys == old(toys) && forall i :: 0 <= i < |toys| ==> !OwnedToy(changes.toyId, changes.userId)(toys[i])
      ensures r.Ok? && r.value.Some? ==>
                exists i :: && 0 <= i < |old(toys)| && OwnedToy(changes.toyId, changes.userId)(old(toys)[i])
                            && r.value.value == Revised(old(toys)[i], changes) && toys == old(toys)[i := r.value.value]
      ensures r.Err? ==> toys == old(toys)
    {
      if !conn.Runs(0) {
        return Err;
      }
      var found := IndexWhere(toys, OwnedToy(changes.toyId, changes.userId));
      if found.None? {
        return Ok(None);
      }
      var i := found.value;
      var t := Revised(toys[i], changes);
      KeysKept(toys, i, t);
      toys := toys[i := t];
      r := Ok(Some(t));
    }

    /** `UpdateToyStatus` as the source writes it: a toy that does not match is an error. */
    method UpdateToyStatusAsWritten(conn: Conn, toyId: Bytes, userId: Bytes, status: ToyStatus) returns (r: Result<Option<Toy>>)
      requires Valid()
      modifies this
      ensures Valid()
      ensures exchanges == old(exchanges) && details == old(details) && users == old(users)
      ensures r == if conn.Runs(0) then ToyStatusOutcomeAsWritten(old(toys), toyId, userId, status) else Err
      ensures r.Ok? ==>
                exists i :: 0 <= i < |old(toys)| && OwnedToy(toyId, userId)(old(toys)[i]) && toys == old(toys)[i := r.value.value]
      ensures r.Err? ==> toys == old(toys)
    {
      if !conn.Runs(0) {
        return Err;
      }
      var found := IndexWhere(toys, OwnedToy(toyId, userId));
      if found.None? {
        return Err;
      }
      var i := found.value;
      var t := toys[i].(status := status);
      KeysKept(toys, i, t);
      toys := toys[i := t];
      r := Ok(Some(t));
    }

    /** `UpdateToyStatus` with a missing toy reported as `Ok(None)`. */
    method UpdateToyStatus(conn: Conn, toyId: Bytes, userId: Bytes, status: ToyStatus) returns (r: Result<Option<Toy>>)
      requires Valid()
      modifies this
      ensures Valid()
      ensures exchanges == old(exchanges) && details == old(details) && users == old(users)
      ensures r == if conn.Runs(0) then ToyStatusOutcome(old(toys), toyId, userId, status) else Err
      ensures r.Ok? && r.value.Some? ==>
                exists i :: 0 <= i < |old(toys)| && OwnedToy(toyId, userId)(old(toys)[i]) && toys == old(toys)[i := r.value.value]
      ensures r.Err? || r.value.None? ==> toys == old(toys)
    {
      if !conn.Runs(0) {
        return Err;
      }
      var found := IndexWhere(toys, OwnedToy(toyId, userId));
      if found.None? {
        return Ok(None);
      }
      var i := found.value;
      var t := toys[i].(status := status);
      KeysKept(toys, i, t);
      toys := toys[i := t];
      r := Ok(Some(t));
    }

    /**
     * `SelectToysList`: run the assembled query, read the rows one by one,
     * and when `limit + 1` came back drop the last and hand its id out as the
     * next cursor.
     */
    method SelectToysList(conn: Conn, query: QueryToys, cursor: Option<Bytes>, limit: int)
      returns (r: Result<Paging.Page<Toy>>)
      requires limit >= 0
      ensures r.Ok? <==> conn.Runs(0)
      ensures r.Ok? ==> r.value == Paging.ListPage(toys, ToyFilter(query), ToyKey, cursor, limit)
    {
      var clauses, params := ToysListQuery(query, cursor, limit);
      if !conn.Runs(0) {
        return Err;
      }
      var result := RunToysQuery(toys, clauses, params);
      if result.Err? {
        return Err;
      }
      ToysQueryAnswers(toys, clauses, params, query, cursor, limit);
      var page := CutToys(result.value, limit);
      r := Ok(page);
    }

    /**
     * `InsertExchange`: insert the exchange, stamp the first two participant
     * records in place with its new id, then insert every record in turn.
     * The inserts do not go through the transaction, so rows inserted before
     * a failure stay.
     */
    method InsertExchange(conn: Conn, exchange: Exchange, drafts: array<ExchangeDetails>, now: int)
      returns (r: Result<Exchange>)
      requires Valid()
      requires drafts.Length >= 2
      modifies this, drafts
      ensures Valid()
      ensures toys == old(toys) && users == old(users)
      ensures !(conn.begins && conn.Runs(0)) ==>
        r.Err? && exchanges == old(exchanges) && details == old(details) && drafts[..] == old(drafts[..])
      ensures conn.begins && conn.Runs(0) ==>
        var e := NewExchange(exchange, FreshKey(ExchangeIds(old(exchanges))), now);
        && exchanges == old(exchanges) + [e]
        && drafts[..] == old(drafts[..])[0 := old(drafts[0]).(exchangeId := e.exchangeId)]
                                        [1 := old(drafts[1]).(exchangeId := e.exchangeId)]
        && details == old(details) + NewDetails(drafts[..][..Inserted(conn, drafts.Length)], now)
        && r == RunInTx(true, if Inserted(conn, drafts.Length) == drafts.Length then Ok(e) else Err, conn.commits)
    {
      if !conn.begins {
        return Err;
      }
      if !conn.Runs(0) {
        return Err;
      }
      var id := FreshKey(ExchangeIds(exchanges));
      var e := NewExchange(exchange, id, now);
      FreshKeyKeepsKeys(exchanges, e);
      exchanges := exchanges + [e];

      drafts[0] := drafts[0].(exchangeId := id);
      drafts[1] := drafts[1].(exchangeId := id);

      var k := 0;
      ghost var before := details;
      ghost var stamped := drafts[..];
      while k < drafts.Length
        invariant 0 <= k <= drafts.Length
        invariant drafts[..] == stamped
        invariant k <= Inserted(conn, drafts.Length)
        invariant details == before + NewDetails(drafts[..][..k], now)
        invariant Valid()
        invariant toys == old(toys) && users == old(users) && exchanges == old(exchanges) + [e]
      {
        if !conn.Runs(k + 1) {
          return Err;
        }
        assert drafts[..][..k + 1] == drafts[..][..k] + [drafts[k]];
        NewDetailsAppend(drafts[..][..k], drafts[k], now);
        details := details + [Inserted1(drafts[k], now)];
        k := k + 1;
      }
      assert drafts[..][..k] == drafts[..];
      r := RunInTx(true, Ok(e), conn.commits);
    }

    /** `SelectExchangeWithParticipants`: the joined rows of one exchange; none is not an error. */
    method SelectExchangeWithParticipants(conn: Conn, exchangeId: Bytes) returns (r: Result<seq<ExchangeParticipant>>)
      ensures r.Ok? <==> conn.Runs(0)
      ensures r.Ok? ==> r.value == JoinRows(details, exchangeId, exchanges, toys, users)
      ensures r.Ok? ==> forall i :: 0 <= i < |r.value| ==> r.value[i].exchangeId == exchangeId
    {
      if !conn.Runs(0) {
        return Err;
      }
      var participants := ScanRows(JoinRows(details, exchangeId, exchanges, toys, users));
      r := Ok(participants);
    }

    /**
     * `UpdateExchangeWithParticipants`: set the status of the participant
     * rows of (`exchangeId`, `userId`), then read the exchange back.
     */
    method UpdateExchangeWithParticipants(conn: Conn, exchangeId: Bytes, userId: Bytes, status: DetailsStatus)
      returns (r: Result<seq<ExchangeParticipant>>)
      requires Valid()
      modifies this
      ensures Valid()
      ensures toys == old(toys) && users == old(users) && exchanges == old(exchanges)
      ensures details == if conn.begins && conn.Runs(0) then SetStatus(old(details), exchangeId, userId, status)
                         else old(details)
      ensures r == RunInTx(conn.begins,
        if conn.Runs(0) && conn.Runs(1) then Ok(JoinRows(details, exchangeId, exchanges, toys, users)) else Err,
        conn.commits)
      ensures r.Ok? ==> r.value == Restatus(JoinRows(old(details), exchangeId, exchanges, toys, users), userId, status)
    {
      if !conn.begins {
        return Err;
      }
      if !conn.Runs(0) {
        return RunInTx(true, Err, conn.commits);
      }
      details := SetStatus(details, exchangeId, userId, status);
      ViewAfterUpdate(old(details), exchangeId, userId, status, exchanges, toys, users);
      var reread := SelectExchangeWithParticipants(Conn(true, if conn.Runs(1) then 1 else 0, true), exchangeId);
      r := RunInTx(true, reread, conn.commits);
    }

    /**
     * `SelectExchangeList`: first the ids of the exchanges listed to `userId`,
     * paged like the toys; then the joined rows of the ids kept on the page.
     */
    method SelectExchangeList(conn: Conn, query: QueryExchanges, userId: Bytes, cursor: Option<Bytes>, limit: int)
      returns (r: Result<Paging.Page<ExchangeParticipant>>)
      requires limit >= 0
      ensures r.Ok? <==> conn.Runs(0) && conn.Runs(1)
      ensures r.Ok? ==>
        var page := Paging.ListPage(exchanges, ExchangeFilter(details, userId, query), ExchangeKey, cursor, limit);
        && r.value.next == page.next
        && r.value.items == JoinAll(ExchangeIds(page.items), details, exchanges, toys, users)
    {
      var clauses, params := ExchangeListQuery(details, query, userId, cursor, limit);
      if !conn.Runs(0) {
        return Err;
      }
      var result := RunExchangeIdQuery(exchanges, details, clauses, params);
      if result.Err? {
        return Err;
      }
      var exchangeIds, nextCursor := CutIds(result.value, limit);
      ExchangeQueryAnswers(exchanges, details, clauses, params, query, userId, cursor, limit);
      PagedIds(exchanges, ExchangeFilter(details, userId, query), cursor, limit);

      if !conn.Runs(1) {
        return Err;
      }
      var participants := ParticipantsOf(exchangeIds);
      r := Ok(Paging.Page(participants, nextCursor));
    }

    /**
     * The second query of `SelectExchangeList`: the joined rows of the
     * exchanges `exchange_id = ANY(ids)`, read one by one, exchange by exchange.
     */
    method ParticipantsOf(ids: seq<Bytes>) returns (participants: seq<ExchangeParticipant>)
      ensures participants == JoinAll(ids, details, exchanges, toys, users)
      ensures forall i :: 0 <= i < |participants| ==> participants[i].exchangeId in ids
    {
      participants := ScanRows(JoinAll(ids, details, exchanges, toys, users));
    }
  }

  // ---------------------------------------------------------------------------
  // Assembling the list queries, step by step

  /** Every clause so far is a condition. */
  predicate Conditions(cs: seq<Clause>)
  {
    forall i :: 0 <= i < |cs| ==> IsCondition(cs[i])
  }

  /** One filter step of the toy query: bind `c` to the next placeholder and conjoin it. */
  lemma ToyStep(cs: seq<Clause>, params: seq<Param>, c: Clause, x: Param)
    requires Bound(cs, params, 1) && Conditions(cs)
    requires c.Placeholders() == [|params| + 1] && Fits(c, params + [x]) && IsCondition(c)
    ensures Bound(cs + [c], params + [x], 1) && Conditions(cs + [c])
    ensures forall t :: ToyWhereHolds(cs + [c], params + [x], t) ==
                        (ToyWhereHolds(cs, params, t) && ToyHolds(c, params + [x], t))
  {
    BindNext(cs, params, 1, c, x);
    ToyWhereSnoc(cs, params, c, x);
    assert forall i :: 0 <= i < |cs| ==> (cs + [c])[i] == cs[i];
  }

  /** One filter step of the exchange query. */
  lemma ExchangeStep(details: seq<ExchangeDetails>, cs: seq<Clause>, params: seq<Param>, c: Clause, x: Param)
    requires Bound(cs, params, 2) && Conditions(cs) && |params| >= 1
    requires c.Placeholders() == [|params| + 1] && Fits(c, params + [x]) && IsCondition(c)
    ensures Bound(cs + [c], params + [x], 2) && Conditions(cs + [c])
    ensures (params + [x])[0] == params[0]
    ensures forall e :: ExchangeWhereHolds(details, cs + [c], params + [x], e) ==
                        (ExchangeWhereHolds(details, cs, params, e) && ExchangeHolds(c, params + [x], e))
  {
    BindNext(cs, params, 2, c, x);
    ExchangeWhereSnoc(details, cs, params, c, x);
    assert forall i :: 0 <= i < |cs| ==> (cs + [c])[i] == cs[i];
  }

  /** Whether the toy listing's filter number `k` (status, exclusion, owner) is given. */
  predicate ToyGiven(q: QueryToys, k: nat)
  {
    match k
    case 0 => q.statuses.Some?
    case 1 => q.excludeUserIds.Some?
    case _ => q.userIds.Some?
  }

  /** Filter number `k` of the toy listing as a condition on a row; an absent one holds. */
  predicate ToyCond(q: QueryToys, k: nat, t: Toy)
  {
    match k
    case 0 => StatusWanted(q.statuses, t.status.Name())
    case 1 => q.excludeUserIds.None? || t.userId !in q.excludeUserIds.value
    case _ => q.userIds.None? || t.userId in q.userIds.value
  }

  /** The first `k` filters of the toy listing. */
  predicate ToyStage(q: QueryToys, k: nat, t: Toy)
  {
    k == 0 || (ToyStage(q, k - 1, t) && ToyCond(q, k - 1, t))
  }

  /** The clause and parameter for filter number `k`, bound to `$n`. */
  function ToyClause(q: QueryToys, k: nat, n: nat): (Clause, Param)
    requires ToyGiven(q, k)
  {
    match k
    case 0 => (StatusIn(n), Names(q.statuses.value))
    case 1 => (UserNotIn(n), Ids(q.excludeUserIds.value))
    case _ => (UserIn(n), Ids(q.userIds.value))
  }

  /** The clauses so far are the first `k` filters, bound from `$1`. */
  ghost predicate ToyStaged(q: QueryToys, cs: seq<Clause>, params: seq<Param>, k: nat)
  {
    && Bound(cs, params, 1) && Conditions(cs)
    && forall t :: ToyWhereHolds(cs, params, t) == ToyStage(q, k, t)
  }

  /** A given filter is appended as the next clause. */
  lemma ToyAdvance(q: QueryToys, cs: seq<Clause>, params: seq<Param>, k: nat)
    requires ToyStaged(q, cs, params, k) && ToyGiven(q, k)
    ensures ToyStaged(q, cs + [ToyClause(q, k, |params| + 1).0], params + [ToyClause(q, k, |params| + 1).1], k + 1)
  {
    var (c, x) := ToyClause(q, k, |params| + 1);
    ToyStep(cs, params, c, x);
  }

  /** An absent filter appends nothing. */
  lemma ToySkip(q: QueryToys, cs: seq<Clause>, params: seq<Param>, k: nat)
    requires ToyStaged(q, cs, params, k) && !ToyGiven(q, k)
    ensures ToyStaged(q, cs, params, k + 1)
  {
  }

  lemma ToyStagesAll(q: QueryToys, cs: seq<Clause>, params: seq<Param>)
    requires ToyStaged(q, cs, params, 3)
    ensures Bound(cs, params, 1) && Conditions(cs)
    ensures forall t :: ToyWhereHolds(cs, params, t) == ToyWanted(q, t)
  {
    forall t ensures ToyStage(q, 3, t) == ToyWanted(q, t) {
      assert ToyStage(q, 1, t) == ToyCond(q, 0, t);
    }
  }

  /**
   * `if filter != nil { query += clause($paramIndex); args = append(args, filter); paramIndex++ }`
   * for the toy listing's filter number `k`.
   */
  method AddToyFilter(query: QueryToys, k: nat, clauses: seq<Clause>, params: seq<Param>, paramIndex: nat)
    returns (clauses': seq<Clause>, params': seq<Param>, paramIndex': nat)
    requires ToyStaged(query, clauses, params, k) && paramIndex == |params| + 1
    ensures ToyStaged(query, clauses', params', k + 1) && paramIndex' == |params'| + 1
  {
    if ToyGiven(query, k) {
      ToyAdvance(query, clauses, params, k);
      var (c, x) := ToyClause(query, k, paramIndex);
      clauses' := clauses + [c];
      params' := params + [x];
      paramIndex' := paramIndex + 1;
    } else {
      ToySkip(query, clauses, params, k);
      clauses', params', paramIndex' := clauses, params, paramIndex;
    }
  }

  /** The toy listing's filters (status, exclusion, owner), each when given, bound to `$1`, `$2`, ... in turn. */
  method ToyConditions(query: QueryToys) returns (clauses: seq<Clause>, params: seq<Param>)
    ensures Bound(clauses, params, 1) && Conditions(clauses)
    ensures forall t :: ToyWhereHolds(clauses, params, t) == ToyWanted(query, t)
  {
    clauses := [];
    params := [];
    var paramIndex: nat := 1;
    assert ToyStaged(query, clauses, params, 0);
    clauses, params, paramIndex := AddToyFilter(query, 0, clauses, params, paramIndex);
    clauses, params, paramIndex := AddToyFilter(query, 1, clauses, params, paramIndex);
    clauses, params, paramIndex := AddToyFilter(query, 2, clauses, params, paramIndex);
    ToyStagesAll(query, clauses, params);
  }

  /** The toy listing's filters followed by the cursor condition, when there is a cursor. */
  method ToyConditionsFrom(query: QueryToys, cursor: Option<Bytes>) returns (clauses: seq<Clause>, params: seq<Param>)
    ensures Bound(clauses, params, 1) && Conditions(clauses)
    ensures forall t :: ToyWhereHolds(clauses, params, t) == (ToyWanted(query, t) && Paging.Within(t.toyId, cursor))
  {
    clauses, params := ToyConditions(query);
    if cursor.Some? {
      ToyStep(clauses, params, KeyAtLeast(|params| + 1), Text(cursor.value));
      clauses := clauses + [KeyAtLeast(|params| + 1)];
      params := params + [Text(cursor.value)];
    }
  }

  /**
   * The toy listing query: the filters, then the cursor, then `ORDER BY`
   * and `LIMIT limit+1`, each bound to the next placeholder number.
   */
  method ToysListQuery(query: QueryToys, cursor: Option<Bytes>, limit: int) returns (clauses: seq<Clause>, params: seq<Param>)
    requires limit >= 0
    ensures Bound(clauses, params, 1) && ListShape(clauses)
    ensures params[clauses[|clauses| - 1].n - 1] == Count(limit + 1)
    ensures forall t :: ToyWhereHolds(clauses[..|clauses| - 2], params, t) ==
                        (ToyWanted(query, t) && Paging.Within(t.toyId, cursor))
  {
    clauses, params := ToyConditionsFrom(query, cursor);
    var paramIndex: nat := |params| + 1;
    ghost var where := clauses;
    CloseList(clauses, params, 1, limit + 1);
    ToyWhereExtend(where, params, Count(limit + 1));
    clauses := clauses + [OrderByKey];
    clauses := clauses + [LimitTo(paramIndex)];
    params := params + [Count(limit + 1)];
    // The last placeholder is the last parameter.
    assert |params| == paramIndex;
    assert clauses[..|clauses| - 2] == where;
  }

  /** The exchange listing's condition: `$1` is the user, then the status filter when given, as `$2`. */
  method ExchangeConditions(details: seq<ExchangeDetails>, query: QueryExchanges, userId: Bytes)
    returns (clauses: seq<Clause>, params: seq<Param>)
    ensures Bound(clauses, params, 2) && Conditions(clauses) && |params| >= 1 && params[0] == Text(userId)
    ensures forall e :: ExchangeWhereHolds(details, clauses, params, e) == ExchangeWanted(details, userId, query, e)
  {
    clauses := [];
    params := [Text(userId)];
    var paramIndex: nat := 2;
    assert Bound(clauses, params, 2);

    if query.statuses.Some? {
      ExchangeStep(details, clauses, params, StatusIn(paramIndex), Names(query.statuses.value));
      clauses := clauses + [StatusIn(paramIndex)];
      params := params + [Names(query.statuses.value)];
      paramIndex := paramIndex + 1;
    }
  }

  /** The exchange listing's condition followed by the cursor condition, when there is a cursor. */
  method ExchangeConditionsFrom(details: seq<ExchangeDetails>, query: QueryExchanges, userId: Bytes, cursor: Option<Bytes>)
    returns (clauses: seq<Clause>, params: seq<Param>)
    ensures Bound(clauses, params, 2) && Conditions(clauses) && |params| >= 1 && params[0] == Text(userId)
    ensures forall e :: ExchangeWhereHolds(details, clauses, params, e) ==
                        (ExchangeWanted(details, userId, query, e) && Paging.Within(e.exchangeId, cursor))
  {
    clauses, params := ExchangeConditions(details, query, userId);
    if cursor.Some? {
      ExchangeStep(details, clauses, params, KeyAtLeast(|params| + 1), Text(cursor.value));
      clauses := clauses + [KeyAtLeast(|params| + 1)];
      params := params + [Text(cursor.value)];
    }
  }

  /**
   * The exchange-id query: the condition, then the cursor, `ORDER BY` and
   * `LIMIT limit+1`, each bound to the next placeholder number.
   */
  method ExchangeListQuery(details: seq<ExchangeDetails>, query: QueryExchanges, userId: Bytes, cursor: Option<Bytes>, limit: int)
    returns (clauses: seq<Clause>, params: seq<Param>)
    requires limit >= 0
    ensures Bound(clauses, params, 2) && ListShape(clauses) && |params| >= 1 && params[0] == Text(userId)
    ensures params[clauses[|clauses| - 1].n - 1] == Count(limit + 1)
    ensures forall e :: ExchangeWhereHolds(details, clauses[..|clauses| - 2], params, e) ==
                        (ExchangeWanted(details, userId, query, e) && Paging.Within(e.exchangeId, cursor))
  {
    clauses, params := ExchangeConditionsFrom(details, query, userId, cursor);
    var paramIndex: nat := |params| + 1;
    ghost var where := clauses;
    CloseList(clauses, params, 2, limit + 1);
    ExchangeWhereExtend(details, where, params, Count(limit + 1));
    assert (params + [Count(limit + 1)])[0] == params[0];
    clauses := clauses + [OrderByKey];
    clauses := clauses + [LimitTo(paramIndex)];
    params := params + [Count(limit + 1)];
    assert |params| == paramIndex;
    assert clauses[..|clauses| - 2] == where;
  }

  // ---------------------------------------------------------------------------
  // Helpers of the storage methods

  /** The assembled toy query returns the first `limit + 1` rows the page is cut from. */
  lemma ToysQueryAnswers(toys: seq<Toy>, clauses: seq<Clause>, params: seq<Param>, query: QueryToys,
                         cursor: Option<Bytes>, limit: int)
    requires limit >= 0
    requires Bound(clauses, params, 1) && ListShape(clauses)
    requires params[clauses[|clauses| - 1].n - 1] == Count(limit + 1)
    requires forall t :: ToyWhereHolds(clauses[..|clauses| - 2], params, t) ==
                         (ToyWanted(query, t) && Paging.Within(t.toyId, cursor))
    ensures RunToysQuery(toys, clauses, params) ==
            Ok(Paging.Take(Paging.Ordered(toys, ToyFilter(query), ToyKey, cursor), limit + 1))
  {
    Paging.FilterExt(toys, ToyWhere(clauses[..|clauses| - 2], params), Paging.Matching(ToyFilter(query), ToyKey, cursor));
  }

  /** The assembled exchange-id query returns the ids of the first `limit + 1` rows the page is cut from. */
  lemma ExchangeQueryAnswers(exchanges: seq<Exchange>, details: seq<ExchangeDetails>, clauses: seq<Clause>,
                             params: seq<Param>, query: QueryExchanges, userId: Bytes, cursor: Option<Bytes>, limit: int)
    requires limit >= 0
    requires Bound(clauses, params, 2) && ListShape(clauses) && |params| >= 1 && params[0] == Text(userId)
    requires params[clauses[|clauses| - 1].n - 1] == Count(limit + 1)
    requires forall e :: ExchangeWhereHolds(details, clauses[..|clauses| - 2], params, e) ==
                         (ExchangeWanted(details, userId, query, e) && Paging.Within(e.exchangeId, cursor))
    ensures RunExchangeIdQuery(exchanges, details, clauses, params) ==
            Ok(ExchangeIds(Paging.Take(Paging.Ordered(exchanges, ExchangeFilter(details, userId, query), ExchangeKey, cursor), limit + 1)))
  {
    Paging.FilterExt(exchanges, ExchangeWhere(details, clauses[..|clauses| - 2], params),
      Paging.Matching(ExchangeFilter(details, userId, query), ExchangeKey, cursor));
  }

  /** `rows.Next()` and `rows.Scan` until the result set is exhausted: every row, in order. */
  method ScanRows<T>(rows: seq<T>) returns (read: seq<T>)
    ensures read == rows
  {
    read := [];
    var k := 0;
    while k < |rows|
      invariant 0 <= k <= |rows|
      invariant read == rows[..k]
    {
      assert rows[..k + 1] == rows[..k] + [rows[k]];
      read := read + [rows[k]];
      k := k + 1;
    }
    assert read == rows;
  }

  /**
   * The scan of the toy listing: copy the rows read, and when `limit + 1`
   * came back, drop the last one and take its id as the next cursor.
   */
  method CutToys(rows: seq<Toy>, limit: nat) returns (page: Paging.Page<Toy>)
    ensures |rows| == limit + 1 ==> page == Paging.Page(rows[..limit], Some(rows[limit].toyId))
    ensures |rows| != limit + 1 ==> page == Paging.Page(rows, None)
  {
    var dbToys := ScanRows(rows);
    var nextCursor: Option<Bytes> := None;
    if |dbToys| == limit + 1 {
      nextCursor := Some(dbToys[|dbToys| - 1].toyId);
      dbToys := dbToys[..|dbToys| - 1];
    }
    page := Paging.Page(dbToys, nextCursor);
  }

  /**
   * The ids the first query of `SelectExchangeList` scans, cut like the toys
   * page: when `limit + 1` came back, the last id is dropped and becomes the
   * next cursor.
   */
  method CutIds(rows: seq<Bytes>, limit: nat) returns (ids: seq<Bytes>, next: Option<Bytes>)
    ensures |rows| == limit + 1 ==> ids == rows[..limit] && next == Some(rows[limit])
    ensures |rows| != limit + 1 ==> ids == rows && next == None
  {
    ids := ScanRows(rows);
    next := None;
    if |ids| == limit + 1 {
      next := Some(ids[|ids| - 1]);
      ids := ids[..|ids| - 1];
    }
  }

  /** Cutting the ids of the first `limit + 1` ordered exchanges gives the ids and the cursor of the page. */
  lemma PagedIds(exchanges: seq<Exchange>, p: Exchange -> bool, cursor: Option<Bytes>, limit: nat)
    ensures var rows := ExchangeIds(Paging.Take(Paging.Ordered(exchanges, p, ExchangeKey, cursor), limit + 1));
            var page := Paging.ListPage(exchanges, p, ExchangeKey, cursor, limit);
            && (|rows| == limit + 1 ==> rows[..limit] == ExchangeIds(page.items) && Some(rows[limit]) == page.next)
            && (|rows| != limit + 1 ==> rows == ExchangeIds(page.items) && page.next == None)
  {
    var taken := Paging.Take(Paging.Ordered(exchanges, p, ExchangeKey, cursor), limit + 1);
    if |taken| == limit + 1 {
      assert ExchangeIds(taken)[..limit] == ExchangeIds(taken[..limit]);
    }
  }

  /** The exchange row as inserted: a generated id, status `created`, both timestamps now. */
  function NewExchange(exchange: Exchange, id: Bytes, now: int): (e: Exchange)
    ensures e.exchangeId == id && e.status == ExchangeCreated
    ensures e.srcToyId == exchange.srcToyId && e.dstToyId == exchange.dstToyId
    ensures e.idempotencyToken == exchange.idempotencyToken
  {
    Exchange(id, exchange.srcToyId, exchange.dstToyId, exchange.idempotencyToken, ExchangeCreated, now, now)
  }

  /** A participant row as inserted from its record: status `created`, both timestamps now. */
  function Inserted1(d: ExchangeDetails, now: int): (row: ExchangeDetails)
    ensures row.exchangeId == d.exchangeId && row.toyId == d.toyId && row.userId == d.userId
    ensures row.status == DetailsCreated
  {
    ExchangeDetails(d.exchangeId, d.toyId, d.userId, DetailsCreated, now, now)
  }

  function NewDetails(ds: seq<ExchangeDetails>, now: int): (rows: seq<ExchangeDetails>)
    ensures |rows| == |ds|
    ensures forall i :: 0 <= i < |ds| ==> rows[i] == Inserted1(ds[i], now)
  {
    seq(|ds|, i requires 0 <= i < |ds| => Inserted1(ds[i], now))
  }

  lemma NewDetailsAppend(ds: seq<ExchangeDetails>, d: ExchangeDetails, now: int)
    ensures NewDetails(ds + [d], now) == NewDetails(ds, now) + [Inserted1(d, now)]
  {
  }

  /** How many participant records get inserted before the first failing statement. */
  function Inserted(conn: Conn, n: nat): (k: nat)
    ensures k <= n
    ensures forall j :: 1 <= j <= k ==> conn.Runs(j)
    ensures k < n ==> !conn.Runs(k + 1)
  {
    if conn.okStatements == 0 then 0
    else if conn.okStatements - 1 < n then conn.okStatements - 1 else n
  }

  lemma FreshKeyKeepsKeys(es: seq<Exchange>, e: Exchange)
    requires Paging.DistinctKeys(es, ExchangeKey)
    requires e.exchangeId == FreshKey(ExchangeIds(es))
    ensures Paging.DistinctKeys(es + [e], ExchangeKey)
  {
    var ids := ExchangeIds(es);
    forall i, j | 0 <= i < j < |es + [e]| ensures ExchangeKey((es + [e])[i]) != ExchangeKey((es + [e])[j]) {
      if j == |es| {
        assert ids[i] != e.exchangeId;
      }
    }
  }

  /** Replacing a toy by one with the same id and token keeps both keys unique. */
  lemma KeysKept(toys: seq<Toy>, i: nat, t: Toy)
    requires ToysKeyed(toys) && i < |toys|
    requires t.toyId == toys[i].toyId && t.idempotencyToken == toys[i].idempotencyToken
    ensures ToysKeyed(toys[i := t])
  {
    var u := toys[i := t];
    forall a, b | 0 <= a < b < |u| ensures ToyKey(u[a]) != ToyKey(u[b]) && ToyToken(u[a]) != ToyToken(u[b]) {
      assert ToyKey(u[a]) == ToyKey(toys[a]) && ToyKey(u[b]) == ToyKey(toys[b]);
      assert ToyToken(u[a]) == ToyToken(toys[a]) && ToyToken(u[b]) == ToyToken(toys[b]);
    }
  }
}
