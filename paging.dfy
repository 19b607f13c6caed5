/**
 * What the list queries compute, independently of how they are assembled:
 * keep the rows that pass the filter and lie at or above the cursor, order
 * them by primary key, read `limit + 1` of them, and if the extra row came
 * back drop it and hand out its key as the next cursor.
 *
 * The central theorem, `CrawlComplete`, is that feeding the returned cursor
 * back until none is returned visits every matching row exactly once, in
 * key order.
 */
module Paging {
  import opened Wrappers
  import opened ByteStrings

  // ---------------------------------------------------------------------------
  // Relational building blocks

  /** `WHERE p`: the rows satisfying `p`, in table order. */
  function Filter<T>(xs: seq<T>, p: T -> bool): (r: seq<T>)
    ensures |r| <= |xs|
    ensures forall i :: 0 <= i < |r| ==> r[i] in xs && p(r[i])
    ensures forall i :: 0 <= i < |xs| && p(xs[i]) ==> xs[i] in r
  {
    if |xs| == 0 then []
    else (if p(xs[0]) then [xs[0]] else []) + Filter(xs[1..], p)
  }

  /** `LIMIT n`: the first `n` rows, or all of them when there are fewer. */
  function Take<T>(xs: seq<T>, n: nat): (r: seq<T>)
    ensures r <= xs
    ensures |r| == if |xs| <= n then |xs| else n
  {
    if |xs| <= n then xs else xs[..n]
  }

  /** Puts `x` before the first row whose key is not below its own. */
  function Insert<T>(x: T, xs: seq<T>, key: T -> Bytes): (r: seq<T>)
    ensures |r| == |xs| + 1
  {
    if |xs| == 0 then [x]
    else if Below(key(xs[0]), key(x)) then [xs[0]] + Insert(x, xs[1..], key)
    else [x] + xs
  }

  /** `ORDER BY key`. */
  function SortBy<T>(xs: seq<T>, key: T -> Bytes): (r: seq<T>)
    ensures |r| == |xs|
  {
    if |xs| == 0 then []
    else Insert(xs[0], SortBy(xs[1..], key), key)
  }

  /** Inserting adds exactly one row. */
  lemma {:induction false} InsertPermutes<T>(x: T, xs: seq<T>, key: T -> Bytes)
    ensures multiset(Insert(x, xs, key)) == multiset(xs) + multiset{x}
  {
    if |xs| > 0 && Below(key(xs[0]), key(x)) {
      InsertPermutes(x, xs[1..], key);
      assert xs == [xs[0]] + xs[1..];
    }
  }

  /** Sorting reorders the rows and neither drops nor duplicates one. */
  lemma {:induction false} SortPermutes<T>(xs: seq<T>, key: T -> Bytes)
    ensures multiset(SortBy(xs, key)) == multiset(xs)
  {
    if |xs| > 0 {
      SortPermutes(xs[1..], key);
      InsertPermutes(xs[0], SortBy(xs[1..], key), key);
      assert xs == [xs[0]] + xs[1..];
    }
  }

  /** No two rows share a key: what a primary key guarantees. */
  predicate DistinctKeys<T>(xs: seq<T>, key: T -> Bytes)
  {
    forall i, j :: 0 <= i < j < |xs| ==> key(xs[i]) != key(xs[j])
  }

  /** Keys strictly increase along the sequence. */
  predicate Ascending<T>(xs: seq<T>, key: T -> Bytes)
  {
    forall i, j :: 0 <= i < j < |xs| ==> Below(key(xs[i]), key(xs[j]))
  }

  /** The cursor condition `key >= cursor`; no cursor admits every row. */
  predicate Within(k: Bytes, cursor: Option<Bytes>)
  {
    cursor.None? || AtLeast(k, cursor.value)
  }

  /** The whole `WHERE` of a page: the filter and the cursor condition. */
  function Matching<T>(p: T -> bool, key: T -> Bytes, cursor: Option<Bytes>): T -> bool
  {
    x => p(x) && Within(key(x), cursor)
  }

  function CursorOnly<T>(key: T -> Bytes, cursor: Option<Bytes>): T -> bool
  {
    x => Within(key(x), cursor)
  }

  // ---------------------------------------------------------------------------
  // One page

  /** A page of rows and the cursor to continue from, if any. */
  datatype Page<T> = Page(items: seq<T>, next: Option<Bytes>)

  /** The rows a page is cut from: matching rows in key order. */
  function Ordered<T>(table: seq<T>, p: T -> bool, key: T -> Bytes, cursor: Option<Bytes>): seq<T>
  {
    SortBy(Filter(table, Matching(p, key, cursor)), key)
  }

  /**
   * A page of at most `limit` rows: `limit + 1` are read, and when all of them
   * came back the last one is dropped and its key becomes the next cursor.
   */
  function ListPage<T>(table: seq<T>, p: T -> bool, key: T -> Bytes, cursor: Option<Bytes>, limit: nat): (pg: Page<T>)
    ensures |pg.items| <= limit
    ensures pg.items <= Ordered(table, p, key, cursor)
    ensures pg.next.Some? <==> |Ordered(table, p, key, cursor)| > limit
    ensures pg.next.None? ==> pg.items == Ordered(table, p, key, cursor)
    ensures pg.next.Some? ==> |pg.items| == limit && pg.next.value == key(Ordered(table, p, key, cursor)[limit])
  {
    var rows := Take(Ordered(table, p, key, cursor), limit + 1);
    if |rows| == limit + 1 then Page(rows[..limit], Some(key(rows[limit])))
    else Page(rows, None)
  }

  // ---------------------------------------------------------------------------
  // Following the cursor

  /** The pages obtained by feeding each returned cursor back, concatenated. */
  function Crawl<T>(table: seq<T>, p: T -> bool, key: T -> Bytes, cursor: Option<Bytes>, limit: nat): seq<T>
    requires limit >= 1 && DistinctKeys(table, key)
    decreases |Filter(table, Matching(p, key, cursor))|
  {
    var page := ListPage(table, p, key, cursor, limit);
    if page.next.None? then page.items
    else
      CrawlStep(table, p, key, cursor, limit);
      page.items + Crawl(table, p, key, page.next, limit)
  }

  /**
   * Pagination terminates and is exact: starting without a cursor and
   * following cursors yields every row that passes the filter, each once,
   * in strictly ascending key order.
   */
  lemma CrawlComplete<T>(table: seq<T>, p: T -> bool, key: T -> Bytes, limit: nat)
    requires limit >= 1 && DistinctKeys(table, key)
    ensures Crawl(table, p, key, None, limit) == SortBy(Filter(table, p), key)
    ensures multiset(Crawl(table, p, key, None, limit)) == multiset(Filter(table, p))
    ensures Ascending(Crawl(table, p, key, None, limit), key)
  {
    var s := SortBy(Filter(table, p), key);
    FilterDistinct(table, p, key);
    SortAscending(Filter(table, p), key);
    SortPermutes(Filter(table, p), key);
    CrawlFrom(table, p, key, None, limit);
    OrderedSuffix(table, p, key, None);
    assert s[Start(s, key, None)..] == s;
  }

  /** From any cursor, the crawl yields exactly the rows that page draws from. */
  lemma {:induction false} CrawlFrom<T>(table: seq<T>, p: T -> bool, key: T -> Bytes, cursor: Option<Bytes>, limit: nat)
    requires limit >= 1 && DistinctKeys(table, key)
    ensures Crawl(table, p, key, cursor, limit) == Ordered(table, p, key, cursor)
    decreases |Filter(table, Matching(p, key, cursor))|
  {
    var page := ListPage(table, p, key, cursor, limit);
    if page.next.Some? {
      CrawlStep(table, p, key, cursor, limit);
      CrawlFrom(table, p, key, page.next, limit);
      var r := Ordered(table, p, key, cursor);
      assert Ordered(table, p, key, page.next) == r[limit..];
      assert page.items == r[..limit];
      assert r == r[..limit] + r[limit..];
    }
  }

  /**
   * The next cursor restarts exactly at the dropped row: the next page draws
   * from the rows of this one that come after the `limit` returned.
   */
  lemma CrawlStep<T>(table: seq<T>, p: T -> bool, key: T -> Bytes, cursor: Option<Bytes>, limit: nat)
    requires DistinctKeys(table, key)
    requires ListPage(table, p, key, cursor, limit).next.Some?
    ensures Ordered(table, p, key, ListPage(table, p, key, cursor, limit).next) ==
      Ordered(table, p, key, cursor)[limit..]
    ensures |Filter(table, Matching(p, key, ListPage(table, p, key, cursor, limit).next))| ==
      |Filter(table, Matching(p, key, cursor))| - limit
  {
    var next := ListPage(table, p, key, cursor, limit).next;
    var r := Ordered(table, p, key, cursor);
    assert next == Some(key(r[limit]));
    ResumeAt(table, p, key, cursor, limit);
  }

  /** Restarting from the key of row `n` of a page's rows gives those rows from `n` on. */
  lemma ResumeAt<T>(table: seq<T>, p: T -> bool, key: T -> Bytes, cursor: Option<Bytes>, n: nat)
    requires DistinctKeys(table, key)
    requires n < |Ordered(table, p, key, cursor)|
    ensures Ordered(table, p, key, Some(key(Ordered(table, p, key, cursor)[n]))) ==
      Ordered(table, p, key, cursor)[n..]
  {
    var s := SortBy(Filter(table, p), key);
    var r := Ordered(table, p, key, cursor);
    var resumed := Some(key(r[n]));
    OrderedSuffix(table, p, key, cursor);
    OrderedSuffix(table, p, key, resumed);
    FilterDistinct(table, p, key);
    SortAscending(Filter(table, p), key);
    SuffixFrom(s, key, cursor, n);
  }

  /** In key order, resuming at the key of row `n` of the rows from a cursor on drops the first `n` of them. */
  lemma SuffixFrom<T>(s: seq<T>, key: T -> Bytes, cursor: Option<Bytes>, n: nat)
    requires Ascending(s, key) && n < |s[Start(s, key, cursor)..]|
    ensures s[Start(s, key, Some(key(s[Start(s, key, cursor)..][n])))..] == s[Start(s, key, cursor)..][n..]
  {
    var i := Start(s, key, cursor);
    assert s[i..][n] == s[i + n];
    StartAt(s, key, i + n);
    DropDrop(s, i, n);
  }

  lemma DropDrop<T>(s: seq<T>, i: nat, n: nat)
    requires i + n <= |s|
    ensures s[i..][n..] == s[i + n..]
  {
  }

  // ---------------------------------------------------------------------------
  // The cursor cuts a suffix of the key order

  /** The number of leading rows whose key is below the cursor. */
  function Start<T>(s: seq<T>, key: T -> Bytes, cursor: Option<Bytes>): (n: nat)
    ensures n <= |s|
  {
    if |s| == 0 || Within(key(s[0]), cursor) then 0
    else 1 + Start(s[1..], key, cursor)
  }

  /** The rows of a page, with any cursor, are a suffix of all matching rows in key order. */
  lemma OrderedSuffix<T>(table: seq<T>, p: T -> bool, key: T -> Bytes, cursor: Option<Bytes>)
    requires DistinctKeys(table, key)
    ensures Ordered(table, p, key, cursor) ==
      SortBy(Filter(table, p), key)[Start(SortBy(Filter(table, p), key), key, cursor)..]
  {
    var f := Filter(table, p);
    FilterDistinct(table, p, key);
    SortAscending(f, key);
    FilterTwice(table, p, key, cursor);
    SortFilter(f, CursorOnly(key, cursor), key);
    CutSuffix(SortBy(f, key), key, cursor);
  }

  /** In key order, the rows at or above the cursor are those from `Start` on. */
  lemma {:induction false} CutSuffix<T>(s: seq<T>, key: T -> Bytes, cursor: Option<Bytes>)
    requires Ascending(s, key)
    ensures Filter(s, CursorOnly(key, cursor)) == s[Start(s, key, cursor)..]
  {
    if |s| > 0 {
      if Within(key(s[0]), cursor) {
        forall x | x in s ensures CursorOnly(key, cursor)(x) {
          var j :| 0 <= j < |s| && s[j] == x;
          if j > 0 && cursor.Some? && Below(key(x), cursor.value) {
            BelowTransitive(key(s[0]), key(x), cursor.value);
          }
        }
        FilterAll(s, CursorOnly(key, cursor));
      } else {
        CutSuffix(s[1..], key, cursor);
        assert s[1..][Start(s[1..], key, cursor)..] == s[1 + Start(s[1..], key, cursor)..];
      }
    }
  }

  /** The cursor taken from row `m` of a key order starts the next page at row `m`. */
  lemma {:induction false} StartAt<T>(s: seq<T>, key: T -> Bytes, m: nat)
    requires Ascending(s, key) && m < |s|
    ensures Start(s, key, Some(key(s[m]))) == m
  {
    if m == 0 {
      BelowIrreflexive(key(s[0]));
    } else {
      assert Below(key(s[0]), key(s[m]));
      StartAt(s[1..], key, m - 1);
      assert s[1..][m - 1] == s[m];
    }
  }

  // ---------------------------------------------------------------------------
  // Filtering

  lemma {:induction false} FilterAll<T>(xs: seq<T>, p: T -> bool)
    requires forall x :: x in xs ==> p(x)
    ensures Filter(xs, p) == xs
  {
    if |xs| > 0 {
      FilterAll(xs[1..], p);
      assert xs == [xs[0]] + xs[1..];
    }
  }

  /** Filtering by the page condition is filtering by the query's filter, then by the cursor. */
  lemma {:induction false} FilterTwice<T>(xs: seq<T>, p: T -> bool, key: T -> Bytes, cursor: Option<Bytes>)
    ensures Filter(xs, Matching(p, key, cursor)) == Filter(Filter(xs, p), CursorOnly(key, cursor))
  {
    if |xs| > 0 {
      FilterTwice(xs[1..], p, key, cursor);
      var head := if p(xs[0]) then [xs[0]] else [];
      assert Filter(xs, p) == head + Filter(xs[1..], p);
      FilterAppend(head, Filter(xs[1..], p), CursorOnly(key, cursor));
    }
  }

  lemma {:induction false} FilterAppend<T>(a: seq<T>, b: seq<T>, p: T -> bool)
    ensures Filter(a + b, p) == Filter(a, p) + Filter(b, p)
  {
    if |a| > 0 {
      FilterAppend(a[1..], b, p);
      assert a + b == [a[0]] + (a[1..] + b);
      assert a == [a[0]] + a[1..];
      FilterCons(a[0], a[1..] + b, p);
      FilterCons(a[0], a[1..], p);
    } else {
      assert a + b == b;
    }
  }

  lemma FilterCons<T>(x: T, xs: seq<T>, p: T -> bool)
    ensures Filter([x] + xs, p) == (if p(x) then [x] else []) + Filter(xs, p)
  {
    assert ([x] + xs)[1..] == xs;
  }

  /** Filters that agree on every row of the table select the same rows. */
  lemma {:induction false} FilterExt<T>(xs: seq<T>, p: T -> bool, q: T -> bool)
    requires forall i :: 0 <= i < |xs| ==> p(xs[i]) == q(xs[i])
    ensures Filter(xs, p) == Filter(xs, q)
  {
    if |xs| > 0 {
      FilterExt(xs[1..], p, q);
    }
  }

  /** Filtering keeps keys distinct. */
  lemma {:induction false} FilterDistinct<T>(xs: seq<T>, p: T -> bool, key: T -> Bytes)
    requires DistinctKeys(xs, key)
    ensures DistinctKeys(Filter(xs, p), key)
  {
    if |xs| > 0 {
      FilterDistinct(xs[1..], p, key);
      var rest := Filter(xs[1..], p);
      if p(xs[0]) {
        forall j | 0 <= j < |rest| ensures key(xs[0]) != key(rest[j]) {
          assert rest[j] in xs[1..];
          var k :| 0 <= k < |xs[1..]| && xs[1..][k] == rest[j];
          assert xs[k + 1] == rest[j];
        }
        var r := [xs[0]] + rest;
        forall i, j | 0 <= i < j < |r| ensures key(r[i]) != key(r[j]) {
          if i > 0 {
            assert r[i] == rest[i - 1] && r[j] == rest[j - 1];
          } else {
            assert r[j] == rest[j - 1];
          }
        }
      }
    }
  }

  // ---------------------------------------------------------------------------
  // Sorting

  /** With distinct keys, sorting yields strictly ascending keys. */
  lemma {:induction false} SortAscending<T>(xs: seq<T>, key: T -> Bytes)
    requires DistinctKeys(xs, key)
    ensures Ascending(SortBy(xs, key), key)
  {
    if |xs| > 0 {
      SortAscending(xs[1..], key);
      var s := SortBy(xs[1..], key);
      SortPermutes(xs[1..], key);
      forall y | y in s ensures key(y) != key(xs[0]) {
        assert y in multiset(xs[1..]);
        var k :| 0 <= k < |xs[1..]| && xs[1..][k] == y;
        assert xs[k + 1] == y;
      }
      InsertAscending(xs[0], s, key);
    }
  }

  lemma {:induction false} InsertAscending<T>(x: T, ys: seq<T>, key: T -> Bytes)
    requires Ascending(ys, key)
    requires forall y :: y in ys ==> key(y) != key(x)
    ensures Ascending(Insert(x, ys, key), key)
  {
    if |ys| > 0 {
      if Below(key(ys[0]), key(x)) {
        InsertAscending(x, ys[1..], key);
        var t := Insert(x, ys[1..], key);
        forall z | z in ys[1..] ensures Below(key(ys[0]), key(z)) {
          var k :| 0 <= k < |ys[1..]| && ys[1..][k] == z;
          assert ys[k + 1] == z;
        }
        InsertBounded(x, ys[1..], ys[0], key);
        PrependAscending(ys[0], t, key);
      } else {
        BelowTrichotomy(key(ys[0]), key(x));
        forall z | z in ys ensures Below(key(x), key(z)) {
          var k :| 0 <= k < |ys| && ys[k] == z;
          if k > 0 {
            BelowTransitive(key(x), key(ys[0]), key(ys[k]));
          }
        }
        PrependAscending(x, ys, key);
      }
    }
  }

  /** A row below every row of an ascending sequence can go in front of it. */
  lemma PrependAscending<T>(y: T, t: seq<T>, key: T -> Bytes)
    requires Ascending(t, key)
    requires forall z :: z in t ==> Below(key(y), key(z))
    ensures Ascending([y] + t, key)
  {
    var r := [y] + t;
    forall i, j | 0 <= i < j < |r| ensures Below(key(r[i]), key(r[j])) {
      if i == 0 {
        assert r[j] == t[j - 1] && r[j] in t;
      } else {
        assert r[i] == t[i - 1] && r[j] == t[j - 1];
      }
    }
  }

  /** Inserting a row above a bound into rows above that bound keeps every row above it. */
  lemma InsertBounded<T>(x: T, ys: seq<T>, y: T, key: T -> Bytes)
    requires Below(key(y), key(x))
    requires forall z :: z in ys ==> Below(key(y), key(z))
    ensures forall z :: z in Insert(x, ys, key) ==> Below(key(y), key(z))
  {
    InsertPermutes(x, ys, key);
    forall z | z in Insert(x, ys, key) ensures Below(key(y), key(z)) {
      assert z in multiset(Insert(x, ys, key));
      if z != x {
        assert z in multiset(ys);
      }
    }
  }

  /** Sorting and filtering commute, when keys are distinct. */
  lemma {:induction false} SortFilter<T>(xs: seq<T>, q: T -> bool, key: T -> Bytes)
    requires DistinctKeys(xs, key)
    ensures SortBy(Filter(xs, q), key) == Filter(SortBy(xs, key), q)
  {
    if |xs| > 0 {
      var rest := xs[1..];
      SortFilter(rest, q, key);
      var s := SortBy(rest, key);
      if q(xs[0]) {
        assert Filter(xs, q) == [xs[0]] + Filter(rest, q);
        assert ([xs[0]] + Filter(rest, q))[1..] == Filter(rest, q);
        SortAscending(rest, key);
        SortPermutes(rest, key);
        forall y | y in s ensures key(y) != key(xs[0]) {
          assert y in multiset(rest);
          var k :| 0 <= k < |rest| && rest[k] == y;
          assert xs[k + 1] == y;
        }
        FilterInsert(xs[0], s, q, key);
      } else {
        assert Filter(xs, q) == Filter(rest, q);
        FilterInsertSkip(xs[0], s, q, key);
      }
    }
  }

  lemma {:induction false} FilterInsert<T>(x: T, ys: seq<T>, q: T -> bool, key: T -> Bytes)
    requires q(x) && Ascending(ys, key)
    requires forall y :: y in ys ==> key(y) != key(x)
    ensures Filter(Insert(x, ys, key), q) == Insert(x, Filter(ys, q), key)
  {
    if |ys| == 0 {
      FilterCons(x, [], q);
    } else if Below(key(ys[0]), key(x)) {
      FilterInsert(x, ys[1..], q, key);
      assert [ys[0]] + ys[1..] == ys;
      FilterInsertPast(x, ys[0], ys[1..], q, key);
    } else {
      FilterCons(x, ys, q);
      FilterFirst(x, ys, q, key);
    }
  }

  /** The inductive step of `FilterInsert` when `x` goes past the first row `y`. */
  lemma FilterInsertPast<T>(x: T, y: T, rest: seq<T>, q: T -> bool, key: T -> Bytes)
    requires Below(key(y), key(x))
    requires Filter(Insert(x, rest, key), q) == Insert(x, Filter(rest, q), key)
    ensures Filter(Insert(x, [y] + rest, key), q) == Insert(x, Filter([y] + rest, q), key)
  {
    var f := Filter(rest, q);
    InsertBehind(y, rest, x, key);
    FilterCons(y, Insert(x, rest, key), q);
    FilterCons(y, rest, q);
    if q(y) {
      InsertBehind(y, f, x, key);
    } else {
      assert [] + f == f;
      assert [] + Insert(x, f, key) == Insert(x, f, key);
    }
  }

  lemma InsertBehind<T>(y: T, f: seq<T>, x: T, key: T -> Bytes)
    requires Below(key(y), key(x))
    ensures Insert(x, [y] + f, key) == [y] + Insert(x, f, key)
  {
    assert ([y] + f)[1..] == f;
  }

  /** A row whose key is below every key of an ascending sequence goes first, even after filtering. */
  lemma FilterFirst<T>(x: T, ys: seq<T>, q: T -> bool, key: T -> Bytes)
    requires Ascending(ys, key) && |ys| > 0 && !Below(key(ys[0]), key(x))
    requires key(ys[0]) != key(x)
    ensures Insert(x, Filter(ys, q), key) == [x] + Filter(ys, q)
  {
    BelowTrichotomy(key(ys[0]), key(x));
    var f := Filter(ys, q);
    if |f| > 0 {
      assert f[0] in ys;
      var k :| 0 <= k < |ys| && ys[k] == f[0];
      if k > 0 {
        BelowTransitive(key(x), key(ys[0]), key(ys[k]));
      }
      BelowAsymmetric(key(x), key(f[0]));
    }
  }

  lemma {:induction false} FilterInsertSkip<T>(x: T, ys: seq<T>, q: T -> bool, key: T -> Bytes)
    requires !q(x)
    ensures Filter(Insert(x, ys, key), q) == Filter(ys, q)
  {
    if |ys| > 0 {
      if Below(key(ys[0]), key(x)) {
        FilterInsertSkip(x, ys[1..], q, key);
        FilterAppend([ys[0]], Insert(x, ys[1..], key), q);
        FilterAppend([ys[0]], ys[1..], q);
        assert ys == [ys[0]] + ys[1..];
      } else {
        assert ([x] + ys)[1..] == ys;
      }
    }
  }
}
