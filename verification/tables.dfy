/**
 Table semantics shared by every repository: a table is a sequence of rows, and
 the statements the repositories run (WHERE, COUNT(*), ORDER BY ... DESC,
 LIMIT/OFFSET, INSERT under a primary key, DELETE) are functions over it.
 */
module Tables {
  import opened Wrappers
  import opened Errors
  import TextOrder

  function Min(a: int, b: int): int {
    if a <= b then a else b
  }

  // ---------------------------------------------------------------- WHERE, COUNT(*)

  /** The rows a WHERE predicate keeps, in table order. */
  function Select<R(!new)>(rows: seq<R>, keep: R -> bool): (r: seq<R>)
    ensures |r| <= |rows|
    ensures forall x :: x in r <==> x in rows && keep(x)
    ensures multiset(r) <= multiset(rows)
    decreases |rows|
  {
    if |rows| == 0 then []
    else
      assert rows == [rows[0]] + rows[1..];
      (if keep(rows[0]) then [rows[0]] else []) + Select(rows[1..], keep)
  }

  /** `SELECT COUNT(*)` under a WHERE predicate. */
  function Count<R(!new)>(rows: seq<R>, keep: R -> bool): (n: nat)
    ensures n <= |rows|
    decreases |rows|
  {
    if |rows| == 0 then 0 else (if keep(rows[0]) then 1 else 0) + Count(rows[1..], keep)
  }

  /** The negation of a WHERE predicate. */
  function Not<R(!new)>(p: R -> bool): (q: R -> bool)
    ensures forall x :: q(x) <==> !p(x)
  {
    x => !p(x)
  }

  /** The count query and the row query agree on how many rows a predicate keeps. */
  lemma {:induction false} CountIsSelectLength<R(!new)>(rows: seq<R>, keep: R -> bool)
    ensures Count(rows, keep) == |Select(rows, keep)|
    decreases |rows|
  {
    if |rows| > 0 {
      CountIsSelectLength(rows[1..], keep);
    }
  }

  /** Counting over one more row adds one exactly when the row matches. */
  lemma {:induction false} CountSnoc<R(!new)>(rows: seq<R>, x: R, p: R -> bool)
    ensures Count(rows + [x], p) == Count(rows, p) + (if p(x) then 1 else 0)
    decreases |rows|
  {
    if |rows| == 0 {
      assert rows + [x] == [x];
    } else {
      assert (rows + [x])[1..] == rows[1..] + [x];
      CountSnoc(rows[1..], x, p);
    }
  }

  /** A predicate and its negation split the table. */
  lemma {:induction false} CountComplement<R(!new)>(rows: seq<R>, p: R -> bool)
    ensures Count(rows, p) + Count(rows, Not(p)) == |rows|
    decreases |rows|
  {
    if |rows| > 0 {
      CountComplement(rows[1..], p);
    }
  }

  /** No row matches exactly when the count is zero. */
  lemma {:induction false} CountZeroIffNone<R(!new)>(rows: seq<R>, p: R -> bool)
    ensures Count(rows, p) == 0 <==> forall i :: 0 <= i < |rows| ==> !p(rows[i])
    decreases |rows|
  {
    if |rows| > 0 {
      CountZeroIffNone(rows[1..], p);
      assert forall i :: 1 <= i < |rows| ==> rows[i] == rows[1..][i - 1];
    }
  }

  /** Selecting with a predicate every row already meets changes nothing. */
  lemma {:induction false} SelectKeepsAll<R(!new)>(rows: seq<R>, keep: R -> bool)
    requires forall i :: 0 <= i < |rows| ==> keep(rows[i])
    ensures Select(rows, keep) == rows
    decreases |rows|
  {
    if |rows| > 0 {
      SelectKeepsAll(rows[1..], keep);
    }
  }

  // ---------------------------------------------------------------- lookups and keys

  /** The WHERE predicate `key = k`. */
  function KeyIs<R(!new), K(==)>(key: R -> K, k: K): (p: R -> bool)
    ensures forall x :: p(x) <==> key(x) == k
  {
    x => key(x) == k
  }

  /** Some row carries key `k`. */
  predicate KeyPresent<R(!new), K(==)>(rows: seq<R>, key: R -> K, k: K) {
    exists i :: 0 <= i < |rows| && key(rows[i]) == k
  }

  /** No two rows share a key: the primary-key constraint. */
  predicate UniqueKeys<R(!new), K(==)>(rows: seq<R>, key: R -> K) {
    forall i, j :: 0 <= i < j < |rows| ==> key(rows[i]) != key(rows[j])
  }

  /** The first row a predicate matches (what `fetch_optional` returns), if any. */
  function FindFirst<R(!new)>(rows: seq<R>, hit: R -> bool): (r: Option<R>)
    ensures r.None? <==> forall i :: 0 <= i < |rows| ==> !hit(rows[i])
    ensures r.Some? ==> r.value in rows && hit(r.value)
    decreases |rows|
  {
    if |rows| == 0 then None
    else if hit(rows[0]) then Some(rows[0])
    else
      assert forall i :: 1 <= i < |rows| ==> rows[i] == rows[1..][i - 1];
      FindFirst(rows[1..], hit)
  }

  /** Under a primary key, a lookup by key finds exactly the row that carries it. */
  lemma {:induction false} FindFirstByKey<R(!new), K>(rows: seq<R>, key: R -> K, i: int)
    requires UniqueKeys(rows, key) && 0 <= i < |rows|
    ensures FindFirst(rows, KeyIs(key, key(rows[i]))) == Some(rows[i])
    decreases |rows|
  {
    if i > 0 {
      assert key(rows[0]) != key(rows[i]);
      FindFirstByKey(rows[1..], key, i - 1);
    }
  }

  /** Dropping the first row keeps the primary key intact. */
  lemma UniqueKeysTail<R(!new), K>(rows: seq<R>, key: R -> K)
    requires |rows| > 0 && UniqueKeys(rows, key)
    ensures UniqueKeys(rows[1..], key)
    ensures forall y :: y in rows[1..] ==> key(y) != key(rows[0])
  {
    var tail := rows[1..];
    forall i, j | 0 <= i < j < |tail| ensures key(tail[i]) != key(tail[j]) {
      assert tail[i] == rows[i + 1] && tail[j] == rows[j + 1];
    }
    forall y | y in tail ensures key(y) != key(rows[0]) {
      var k :| 0 <= k < |tail| && tail[k] == y;
      assert rows[k + 1] == y;
    }
  }

  /** A row whose key no other row carries can be put in front. */
  lemma UniqueKeysCons<R(!new), K>(x: R, rest: seq<R>, key: R -> K)
    requires UniqueKeys(rest, key)
    requires forall y :: y in rest ==> key(y) != key(x)
    ensures UniqueKeys([x] + rest, key)
  {
    var s := [x] + rest;
    forall i, j | 0 <= i < j < |s| ensures key(s[i]) != key(s[j]) {
      assert s[j] == rest[j - 1];
      if i > 0 {
        assert s[i] == rest[i - 1];
      }
    }
  }

  /** Keeping a subset of the rows keeps the primary key intact. */
  lemma {:induction false} SelectKeepsKeysUnique<R(!new), K>(rows: seq<R>, keep: R -> bool, key: R -> K)
    requires UniqueKeys(rows, key)
    ensures UniqueKeys(Select(rows, keep), key)
    decreases |rows|
  {
    if |rows| > 0 {
      UniqueKeysTail(rows, key);
      SelectKeepsKeysUnique(rows[1..], keep, key);
      var rest := Select(rows[1..], keep);
      if keep(rows[0]) {
        assert Select(rows, keep) == [rows[0]] + rest;
        UniqueKeysCons(rows[0], rest, key);
      } else {
        assert Select(rows, keep) == rest;
      }
    }
  }

  /** Under a primary key, at most one row carries a given key. */
  lemma {:induction false} CountKeyAtMostOne<R(!new), K>(rows: seq<R>, key: R -> K, k: K)
    requires UniqueKeys(rows, key)
    ensures Count(rows, KeyIs(key, k)) <= 1
    decreases |rows|
  {
    if |rows| > 0 {
      var tail := rows[1..];
      UniqueKeysTail(rows, key);
      CountKeyAtMostOne(tail, key, k);
      if key(rows[0]) == k {
        forall i | 0 <= i < |tail| ensures !KeyIs(key, k)(tail[i]) {
          assert tail[i] == rows[i + 1];
        }
        CountZeroIffNone(tail, KeyIs(key, k));
      }
    }
  }

  // ---------------------------------------------------------------- ORDER BY ... DESC

  /** Rows in descending order of a text key. */
  predicate SortedDesc<R(!new)>(s: seq<R>, key: R -> string) {
    forall i, j :: 0 <= i < j < |s| ==> TextOrder.Le(key(s[j]), key(s[i]))
  }

  /** Inserts `x` into a descending sequence, ahead of the first row whose key is not greater. */
  function InsertDesc<R(!new)>(x: R, s: seq<R>, key: R -> string): (r: seq<R>)
    ensures |r| == |s| + 1
    ensures multiset(r) == multiset(s) + multiset{x}
    decreases |s|
  {
    if |s| == 0 then [x]
    else if TextOrder.Le(key(s[0]), key(x)) then [x] + s
    else
      assert s == [s[0]] + s[1..];
      [s[0]] + InsertDesc(x, s[1..], key)
  }

  lemma {:induction false} InsertDescSorted<R(!new)>(x: R, s: seq<R>, key: R -> string)
    requires SortedDesc(s, key)
    ensures SortedDesc(InsertDesc(x, s, key), key)
    decreases |s|
  {
    if |s| == 0 {
    } else if TextOrder.Le(key(s[0]), key(x)) {
      var r := [x] + s;
      forall i, j | 0 <= i < j < |r|
        ensures TextOrder.Le(key(r[j]), key(r[i]))
      {
        if i == 0 && j > 1 {
          TextOrder.LeTransitive(key(s[j - 1]), key(s[0]), key(x));
        }
      }
    } else {
      TextOrder.LeTotal(key(s[0]), key(x));
      var tail := s[1..];
      InsertDescSorted(x, tail, key);
      var rest := InsertDesc(x, tail, key);
      var r := [s[0]] + rest;
      assert r == InsertDesc(x, s, key);
      forall i, j | 0 <= i < j < |r|
        ensures TextOrder.Le(key(r[j]), key(r[i]))
      {
        if i == 0 {
          var y := rest[j - 1];
          assert y in multiset(rest);
          if y != x {
            assert y in multiset(tail);
            var k :| 0 <= k < |tail| && tail[k] == y;
            assert s[k + 1] == y;
          }
        }
      }
    }
  }

  /** Insertion sort into descending key order; rows with equal keys keep their table order. */
  function SortDesc<R(!new)>(s: seq<R>, key: R -> string): (r: seq<R>)
    ensures |r| == |s|
    ensures multiset(r) == multiset(s)
    decreases |s|
  {
    if |s| == 0 then []
    else
      assert s == [s[0]] + s[1..];
      InsertDesc(s[0], SortDesc(s[1..], key), key)
  }

  lemma {:induction false} SortDescSorted<R(!new)>(s: seq<R>, key: R -> string)
    ensures SortedDesc(SortDesc(s, key), key)
    decreases |s|
  {
    if |s| > 0 {
      SortDescSorted(s[1..], key);
      InsertDescSorted(s[0], SortDesc(s[1..], key), key);
    }
  }

  // ---------------------------------------------------------------- LIMIT / OFFSET

  /** `OFFSET offset LIMIT limit` over an ordered result. */
  function Window<R(!new)>(s: seq<R>, offset: nat, limit: nat): (w: seq<R>)
    ensures |w| <= limit && |w| <= |s|
    ensures offset < |s| ==> |w| == Min(limit, |s| - offset)
    ensures offset >= |s| ==> w == []
    ensures forall i :: 0 <= i < |w| ==> offset + i < |s| && w[i] == s[offset + i]
  {
    if offset >= |s| then [] else s[offset..offset + Min(limit, |s| - offset)]
  }

  /**
   What `ORDER BY key DESC LIMIT limit OFFSET offset` promises: the page is a
   window of SOME descending arrangement of the matching rows. Rows with equal
   keys may come in any order.
   */
  ghost predicate IsOrderedPage<R(!new)>(page: seq<R>, matching: seq<R>, key: R -> string, offset: nat, limit: nat) {
    exists order: seq<R> ::
      && multiset(order) == multiset(matching)
      && SortedDesc(order, key)
      && page == Window(order, offset, limit)
  }

  /** What `LIMIT limit OFFSET offset` without ORDER BY promises: a window of some arrangement of the matching rows. */
  ghost predicate IsUnorderedPage<R(!new)>(page: seq<R>, matching: seq<R>, offset: nat, limit: nat) {
    exists order: seq<R> ::
      && multiset(order) == multiset(matching)
      && page == Window(order, offset, limit)
  }

  // ---------------------------------------------------------------- paged queries

  /** A paged query's two answers: the page and the full count under the same filter. */
  datatype Listing<R> = Listing(items: seq<R>, totalCount: nat)

  /** PostgreSQL's `invalid_row_count_in_limit_clause`. */
  const NegativeLimit: DbError := Database(Some("2201W"), "LIMIT must not be negative")

  /** PostgreSQL's `invalid_row_count_in_result_offset_clause`. */
  const NegativeOffset: DbError := Database(Some("2201X"), "OFFSET must not be negative")

  /**
   Why a paged query fails, if it does: the store's failure first; then, as
   PostgreSQL's executor evaluates OFFSET before LIMIT, a negative offset, and
   only then a negative limit.
   */
  function PagingFailure(limit: int, offset: int, failure: Option<DbError>): (r: Option<DbError>)
    ensures r.None? <==> failure.None? && limit >= 0 && offset >= 0
    ensures failure.Some? ==> r == failure
    ensures failure.None? && offset < 0 ==> r == Some(NegativeOffset)
    ensures failure.None? && offset >= 0 && limit < 0 ==> r == Some(NegativeLimit)
  {
    if failure.Some? then failure
    else if offset < 0 then Some(NegativeOffset)
    else if limit < 0 then Some(NegativeLimit)
    else None
  }

  /**
   `SELECT COUNT(*) ... WHERE keep` followed by
   `SELECT ... WHERE keep ORDER BY sortKey DESC LIMIT limit OFFSET offset`.
   */
  function ListOrdered<R(!new)>(rows: seq<R>, keep: R -> bool, sortKey: R -> string,
                          limit: int, offset: int, failure: Option<DbError>): (r: Result<Listing<R>, DbError>)
    ensures r.Ok? <==> failure.None? && limit >= 0 && offset >= 0
    ensures r.Err? ==> Some(r.error) == PagingFailure(limit, offset, failure)
    ensures r.Ok? ==> r.value.totalCount == Count(rows, keep)
    ensures r.Ok? ==> |r.value.items| <= limit && |r.value.items| <= r.value.totalCount
    ensures r.Ok? ==> forall x :: x in r.value.items ==> x in rows && keep(x)
    ensures r.Ok? ==> IsOrderedPage(r.value.items, Select(rows, keep), sortKey, offset, limit)
  {
    match PagingFailure(limit, offset, failure)
    case Some(e) => Err(e)
    case None =>
      var matching := Select(rows, keep);
      var ordered := SortDesc(matching, sortKey);
      SortDescSorted(matching, sortKey);
      CountIsSelectLength(rows, keep);
      var page := Window(ordered, offset, limit);
      assert forall x :: x in page ==> x in multiset(ordered);
      Ok(Listing(page, Count(rows, keep)))
  }

  /** `SELECT COUNT(*) ... WHERE keep` followed by `SELECT ... WHERE keep LIMIT limit OFFSET offset`. */
  function ListUnordered<R(!new)>(rows: seq<R>, keep: R -> bool,
                            limit: int, offset: int, failure: Option<DbError>): (r: Result<Listing<R>, DbError>)
    ensures r.Ok? <==> failure.None? && limit >= 0 && offset >= 0
    ensures r.Err? ==> Some(r.error) == PagingFailure(limit, offset, failure)
    ensures r.Ok? ==> r.value.totalCount == Count(rows, keep)
    ensures r.Ok? ==> |r.value.items| <= limit && |r.value.items| <= r.value.totalCount
    ensures r.Ok? ==> forall x :: x in r.value.items ==> x in rows && keep(x)
    ensures r.Ok? ==> IsUnorderedPage(r.value.items, Select(rows, keep), offset, limit)
  {
    match PagingFailure(limit, offset, failure)
    case Some(e) => Err(e)
    case None =>
      var matching := Select(rows, keep);
      CountIsSelectLength(rows, keep);
      Ok(Listing(Window(matching, offset, limit), Count(rows, keep)))
  }

  // ---------------------------------------------------------------- walking the pages

  /** The rows of consecutive pages, one after another. */
  function Flatten<R>(pages: seq<seq<R>>): seq<R>
    decreases |pages|
  {
    if |pages| == 0 then [] else pages[0] + Flatten(pages[1..])
  }

  /**
   The pages a client receives asking for `OFFSET offset`, `offset + limit`, ...
   of an unchanging table until the offset reaches the reported total, each page
   an ordered page in its own right. Every query sorts afresh, so rows with equal
   keys may come in a different order on each page.
   */
  ghost predicate IsOrderedWalk<R(!new)>(pages: seq<seq<R>>, matching: seq<R>, key: R -> string, limit: nat, offset: nat)
    requires limit > 0
    decreases |matching| - offset
  {
    if offset >= |matching| then pages == []
    else
      && |pages| > 0
      && IsOrderedPage(pages[0], matching, key, offset, limit)
      && IsOrderedWalk(pages[1..], matching, key, limit, offset + limit)
  }

  /** The same walk when the page query has no ORDER BY at all. */
  ghost predicate IsUnorderedWalk<R(!new)>(pages: seq<seq<R>>, matching: seq<R>, limit: nat, offset: nat)
    requires limit > 0
    decreases |matching| - offset
  {
    if offset >= |matching| then pages == []
    else
      && |pages| > 0
      && IsUnorderedPage(pages[0], matching, offset, limit)
      && IsUnorderedWalk(pages[1..], matching, limit, offset + limit)
  }

  /** Whatever order the database picks, a page is as long as the window at its offset. */
  lemma UnorderedPageLength<R(!new)>(page: seq<R>, matching: seq<R>, offset: nat, limit: nat)
    requires IsUnorderedPage(page, matching, offset, limit)
    ensures |page| == |Window(matching, offset, limit)|
  {
    var order :| multiset(order) == multiset(matching) && page == Window(order, offset, limit);
    assert |order| == |multiset(order)| == |multiset(matching)| == |matching|;
  }

  /**
   Whatever tie order each query picks, the pages of a walk hold as many rows as
   match, from the starting offset on: the sum of the page sizes is the total.
   */
  lemma {:induction false} OrderedWalkLength<R(!new)>(pages: seq<seq<R>>, matching: seq<R>, key: R -> string, limit: nat, offset: nat)
    requires limit > 0 && IsOrderedWalk(pages, matching, key, limit, offset)
    ensures |Flatten(pages)| == |matching| - Min(offset, |matching|)
    decreases |matching| - offset
  {
    if offset < |matching| {
      UnorderedPageLength(pages[0], matching, offset, limit);
      OrderedWalkLength(pages[1..], matching, key, limit, offset + limit);
    }
  }

  /** Without ORDER BY too, the page sizes of a walk add up to the total. */
  lemma {:induction false} UnorderedWalkLength<R(!new)>(pages: seq<seq<R>>, matching: seq<R>, limit: nat, offset: nat)
    requires limit > 0 && IsUnorderedWalk(pages, matching, limit, offset)
    ensures |Flatten(pages)| == |matching| - Min(offset, |matching|)
    decreases |matching| - offset
  {
    if offset < |matching| {
      UnorderedPageLength(pages[0], matching, offset, limit);
      UnorderedWalkLength(pages[1..], matching, limit, offset + limit);
    }
  }

  /**
   Two rows with equal sort keys: asked one row per page, the database may sort
   `x` first for the first page and `y` first for the second, so that both pages
   hold `x`.
   */
  lemma TiedPairWalk<R(!new)>(x: R, y: R, key: R -> string)
    requires key(x) == key(y)
    ensures IsOrderedWalk([[x], [x]], [x, y], key, 1, 0)
    ensures Flatten([[x], [x]]) == [x, x]
  {
    TextOrder.LeTotal(key(x), key(x));
    TiedFirstPage(x, y, key);
    TiedSecondPage(x, y, key);
    TwoPageWalk([[x], [x]], [x, y], key);
    FlattenPair([x], [x]);
  }

  /** Sorting `[x, y]` with `x` first is allowed when their keys tie. */
  lemma TiedFirstPage<R(!new)>(x: R, y: R, key: R -> string)
    requires TextOrder.Le(key(y), key(x))
    ensures IsOrderedPage([x], [x, y], key, 0, 1)
  {
    assert SortedDesc([x, y], key);
    assert Window([x, y], 0, 1) == [x];
  }

  /** Sorting `[x, y]` with `y` first is allowed when their keys tie. */
  lemma TiedSecondPage<R(!new)>(x: R, y: R, key: R -> string)
    requires TextOrder.Le(key(x), key(y))
    ensures IsOrderedPage([x], [x, y], key, 1, 1)
  {
    assert SortedDesc([y, x], key);
    assert multiset([y, x]) == multiset([x, y]);
    assert Window([y, x], 1, 1) == [x];
  }

  /** An allowed page in front of the walk that follows it is a walk. */
  lemma ConsOrderedWalk<R(!new)>(page: seq<R>, rest: seq<seq<R>>, matching: seq<R>, key: R -> string, limit: nat, offset: nat)
    requires limit > 0 && offset < |matching|
    requires IsOrderedPage(page, matching, key, offset, limit)
    requires IsOrderedWalk(rest, matching, key, limit, offset + limit)
    ensures IsOrderedWalk([page] + rest, matching, key, limit, offset)
  {
    assert ([page] + rest)[1..] == rest;
  }

  /** Two single-row pages, each one an allowed page, walk two rows. */
  lemma TwoPageWalk<R(!new)>(pages: seq<seq<R>>, matching: seq<R>, key: R -> string)
    requires |matching| == 2 && |pages| == 2
    requires IsOrderedPage(pages[0], matching, key, 0, 1) && IsOrderedPage(pages[1], matching, key, 1, 1)
    ensures IsOrderedWalk(pages, matching, key, 1, 0)
  {
    var empty: seq<seq<R>> := [];
    assert IsOrderedWalk(empty, matching, key, 1, 2);
    ConsOrderedWalk(pages[1], empty, matching, key, 1, 1);
    assert [pages[1]] + empty == pages[1..];
    ConsOrderedWalk(pages[0], pages[1..], matching, key, 1, 0);
    assert [pages[0]] + pages[1..] == pages;
  }

  lemma FlattenPair<R>(p0: seq<R>, p1: seq<R>)
    ensures Flatten([p0, p1]) == p0 + p1
  {
    var last: seq<seq<R>> := [p1];
    assert [p0, p1][1..] == last;
    assert Flatten(last) == p1 + Flatten(last[1..]);
  }

  /** Without ORDER BY the same can happen to any two rows. */
  lemma UnorderedPairWalk<R(!new)>(x: R, y: R)
    ensures IsUnorderedWalk([[x], [x]], [x, y], 1, 0)
    ensures Flatten([[x], [x]]) == [x, x]
  {
    var pages := [[x], [x]];
    assert multiset([y, x]) == multiset([x, y]);
    assert Window([x, y], 0, 1) == [x];
    assert Window([y, x], 1, 1) == [x];
    assert pages[1..][1..] == [];
    assert IsUnorderedWalk(pages[1..][1..], [x, y], 1, 2);
    assert IsUnorderedWalk(pages[1..], [x, y], 1, 1);
    assert Flatten(pages[1..][1..]) == [];
    assert Flatten(pages[1..]) == [x];
  }

  /** No two different rows share a sort key. */
  ghost predicate DistinctKeys<R(!new)>(rows: seq<R>, key: R -> string) {
    forall x, y :: x in rows && y in rows && key(x) == key(y) ==> x == y
  }

  /** The first row of a descending sequence has the greatest key. */
  lemma SortedHeadIsMax<R(!new)>(s: seq<R>, key: R -> string, x: R)
    requires SortedDesc(s, key) && x in s
    ensures TextOrder.Le(key(x), key(s[0]))
  {
    var i :| 0 <= i < |s| && s[i] == x;
    if i == 0 {
      TextOrder.LeTotal(key(x), key(x));
    }
  }

  lemma SortedTail<R(!new)>(s: seq<R>, key: R -> string)
    requires |s| > 0 && SortedDesc(s, key)
    ensures SortedDesc(s[1..], key)
  {
    var t := s[1..];
    forall i, j | 0 <= i < j < |t| ensures TextOrder.Le(key(t[j]), key(t[i])) {
      assert t[i] == s[i + 1] && t[j] == s[j + 1];
    }
  }

  lemma SameHeadSameTail<R>(a: seq<R>, b: seq<R>)
    requires |a| > 0 && |b| > 0 && a[0] == b[0] && multiset(a) == multiset(b)
    ensures multiset(a[1..]) == multiset(b[1..])
  {
    assert a == [a[0]] + a[1..] && b == [b[0]] + b[1..];
    assert multiset(a[1..]) == multiset(a) - multiset{a[0]};
    assert multiset(b[1..]) == multiset(b) - multiset{b[0]};
  }

  /** With no ties, there is exactly one descending arrangement of a multiset of rows. */
  lemma {:induction false} SortedPermutationUnique<R(!new)>(a: seq<R>, b: seq<R>, key: R -> string)
    requires multiset(a) == multiset(b) && SortedDesc(a, key) && SortedDesc(b, key)
    requires DistinctKeys(a, key)
    ensures a == b
    decreases |a|
  {
    assert |a| == |multiset(a)| == |multiset(b)| == |b|;
    if |a| > 0 {
      assert a[0] in multiset(b) && b[0] in multiset(a);
      SortedHeadIsMax(a, key, b[0]);
      SortedHeadIsMax(b, key, a[0]);
      TextOrder.LeAntisymmetric(key(a[0]), key(b[0]));
      assert a[0] == b[0];
      SameHeadSameTail(a, b);
      SortedTail(a, key);
      SortedTail(b, key);
      assert forall x :: x in a[1..] ==> x in a;
      SortedPermutationUnique(a[1..], b[1..], key);
      assert a == [a[0]] + a[1..] && b == [b[0]] + b[1..];
    }
  }

  lemma UniqueKeysDistinct<R(!new)>(rows: seq<R>, key: R -> string)
    requires UniqueKeys(rows, key)
    ensures DistinctKeys(rows, key)
  {
    forall x, y | x in rows && y in rows && key(x) == key(y) ensures x == y {
      var i :| 0 <= i < |rows| && rows[i] == x;
      var j :| 0 <= j < |rows| && rows[j] == y;
      assert !(i < j) && !(j < i);
    }
  }

  /**
   A key made of a column and, after it, a primary key is unique among rows
   that keep the primary key, as long as the first column holds no NUL.
   */
  lemma ThenByKeepsKeysUnique<R(!new)>(rows: seq<R>, key: R -> string, major: R -> string, minor: R -> string)
    requires UniqueKeys(rows, minor)
    requires forall x :: x in rows ==> TextOrder.NoNul(major(x)) && key(x) == TextOrder.ThenBy(major(x), minor(x))
    ensures UniqueKeys(rows, key)
  {
    forall i, j | 0 <= i < j < |rows| ensures key(rows[i]) != key(rows[j]) {
      if key(rows[i]) == key(rows[j]) {
        TextOrder.ThenByInjective(major(rows[i]), minor(rows[i]), major(rows[j]), minor(rows[j]));
      }
    }
  }

  lemma WindowThenRest<R(!new)>(s: seq<R>, offset: nat, limit: nat)
    requires offset < |s|
    ensures s[offset..] == Window(s, offset, limit) + s[Min(offset + limit, |s|)..]
  {
  }

  /** When the sort key is unique among the matching rows, every ordered page is a window of one order. */
  lemma OrderedPageIsWindow<R(!new)>(page: seq<R>, matching: seq<R>, key: R -> string, offset: nat, limit: nat)
    requires IsOrderedPage(page, matching, key, offset, limit)
    requires UniqueKeys(matching, key)
    ensures page == Window(SortDesc(matching, key), offset, limit)
  {
    SortDescSorted(matching, key);
    PageIsWindowOf(page, matching, key, SortDesc(matching, key), offset, limit);
  }

  /** `OrderedPageIsWindow` for any one sorted arrangement `sorted` of the matching rows. */
  lemma PageIsWindowOf<R(!new)>(page: seq<R>, matching: seq<R>, key: R -> string, sorted: seq<R>, offset: nat, limit: nat)
    requires IsOrderedPage(page, matching, key, offset, limit)
    requires UniqueKeys(matching, key)
    requires multiset(sorted) == multiset(matching) && SortedDesc(sorted, key)
    ensures page == Window(sorted, offset, limit)
  {
    var order :| && multiset(order) == multiset(matching) && SortedDesc(order, key)
                 && page == Window(order, offset, limit);
    UniqueKeysDistinct(matching, key);
    assert DistinctKeys(order, key) by {
      assert forall x :: x in order ==> x in multiset(matching);
    }
    SortedPermutationUnique(order, sorted, key);
  }

  /** Pages that are the successive windows of one fixed sequence `s`. */
  ghost predicate IsWindowWalk<R(!new)>(pages: seq<seq<R>>, s: seq<R>, limit: nat, offset: nat)
    requires limit > 0
    decreases |s| - offset
  {
    if offset >= |s| then pages == []
    else
      && |pages| > 0
      && pages[0] == Window(s, offset, limit)
      && IsWindowWalk(pages[1..], s, limit, offset + limit)
  }

  /** The successive windows of a sequence put back together are its suffix. */
  lemma {:induction false} WindowWalkIsSuffix<R(!new)>(pages: seq<seq<R>>, s: seq<R>, limit: nat, offset: nat)
    requires limit > 0 && IsWindowWalk(pages, s, limit, offset)
    ensures Flatten(pages) == s[Min(offset, |s|)..]
    decreases |s| - offset
  {
    if offset < |s| {
      WindowWalkIsSuffix(pages[1..], s, limit, offset + limit);
      WindowThenRest(s, offset, limit);
      assert Flatten(pages) == pages[0] + Flatten(pages[1..]);
    } else {
      assert Flatten(pages) == [];
    }
  }

  /** Under a unique sort key every page of an ordered walk is a window of the one sorted order. */
  lemma {:induction false} OrderedWalkIsWindowWalk<R(!new)>(pages: seq<seq<R>>, matching: seq<R>, key: R -> string, sorted: seq<R>, limit: nat, offset: nat)
    requires limit > 0 && IsOrderedWalk(pages, matching, key, limit, offset)
    requires UniqueKeys(matching, key)
    requires multiset(sorted) == multiset(matching) && SortedDesc(sorted, key)
    ensures IsWindowWalk(pages, sorted, limit, offset)
    decreases |matching| - offset
  {
    assert |sorted| == |multiset(sorted)| == |matching|;
    if offset < |matching| {
      PageIsWindowOf(pages[0], matching, key, sorted, offset, limit);
      OrderedWalkIsWindowWalk(pages[1..], matching, key, sorted, limit, offset + limit);
    }
  }

  /**
   When the sort key is unique among the matching rows every query sorts them
   the same way, and the pages from `offset` on are the rest of that one order,
   without repeats or gaps.
   */
  lemma OrderedWalkIsSuffix<R(!new)>(pages: seq<seq<R>>, matching: seq<R>, key: R -> string, limit: nat, offset: nat)
    requires limit > 0 && IsOrderedWalk(pages, matching, key, limit, offset)
    requires UniqueKeys(matching, key)
    ensures Flatten(pages) == SortDesc(matching, key)[Min(offset, |matching|)..]
  {
    SortDescSorted(matching, key);
    OrderedWalkIsWindowWalk(pages, matching, key, SortDesc(matching, key), limit, offset);
    WindowWalkIsSuffix(pages, SortDesc(matching, key), limit, offset);
  }

  /**
   Paging from the first page under a sort key unique among the matching rows
   returns every matching row exactly once.
   */
  lemma OrderedWalkCoversMatches<R(!new)>(pages: seq<seq<R>>, matching: seq<R>, key: R -> string, limit: nat)
    requires limit > 0 && IsOrderedWalk(pages, matching, key, limit, 0)
    requires UniqueKeys(matching, key)
    ensures multiset(Flatten(pages)) == multiset(matching)
  {
    OrderedWalkIsSuffix(pages, matching, key, limit, 0);
    var sorted := SortDesc(matching, key);
    assert sorted[0..] == sorted;
  }

  // ---------------------------------------------------------------- INSERT, DELETE

  /** PostgreSQL's report of a duplicate primary key. */
  const DuplicateKey: DbError := Database(Some(UniqueViolation), "duplicate key value violates unique constraint")

  /** A statement's answer together with the table it leaves behind. */
  datatype Written<T, R> = Written(result: Result<T, DbError>, rows: seq<R>)

  /** `INSERT ... RETURNING *` into a table whose primary key is `key`. */
  function InsertUnique<R(!new), K(==)>(rows: seq<R>, key: R -> K, row: R, failure: Option<DbError>): (w: Written<R, R>)
    ensures w.result.Ok? <==> failure.None? && !KeyPresent(rows, key, key(row))
    ensures failure.Some? ==> w.result == Err(failure.value)
    ensures failure.None? && KeyPresent(rows, key, key(row)) ==> w.result.Err? && IsUniqueViolation(w.result.error)
    ensures w.result.Ok? ==> w.result.value == row && w.rows == rows + [row]
    ensures w.result.Err? ==> w.rows == rows
    ensures UniqueKeys(rows, key) ==> UniqueKeys(w.rows, key)
  {
    if failure.Some? then Written(Err(failure.value), rows)
    else if KeyPresent(rows, key, key(row)) then Written(Err(DuplicateKey), rows)
    else Written(Ok(row), rows + [row])
  }

  /** `DELETE ... WHERE hit`, answering the number of rows it removed. */
  function DeleteWhere<R(!new)>(rows: seq<R>, hit: R -> bool, failure: Option<DbError>): (w: Written<nat, R>)
    ensures failure.Some? ==> w == Written(Err(failure.value), rows)
    ensures failure.None? ==> w.result.Ok? && w.result.value == Count(rows, hit)
    ensures failure.None? ==> w.rows == Select(rows, Not(hit))
    ensures w.result.Ok? ==> |w.rows| + w.result.value == |rows|
    ensures w.result.Ok? ==> forall x :: x in w.rows <==> x in rows && !hit(x)
  {
    if failure.Some? then Written(Err(failure.value), rows)
    else
      CountComplement(rows, hit);
      CountIsSelectLength(rows, Not(hit));
      Written(Ok(Count(rows, hit)), Select(rows, Not(hit)))
  }

  /**
   `DELETE ... WHERE key = k` on a table whose primary key is `key`: nothing is
   removed exactly when no row carries `k`, at most one row is removed, and the
   key stays a key.
   */
  function DeleteByKey<R(!new), K(==)>(rows: seq<R>, key: R -> K, k: K, failure: Option<DbError>): (w: Written<nat, R>)
    ensures w == DeleteWhere(rows, KeyIs(key, k), failure)
    ensures w.result.Ok? ==> (w.result.value == 0 <==> !KeyPresent(rows, key, k))
    ensures UniqueKeys(rows, key) ==> UniqueKeys(w.rows, key)
    ensures UniqueKeys(rows, key) && w.result.Ok? ==> w.result.value <= 1
  {
    CountZeroIffNone(rows, KeyIs(key, k));
    KeyFacts(rows, key, k);
    DeleteWhere(rows, KeyIs(key, k), failure)
  }

  lemma KeyFacts<R(!new), K>(rows: seq<R>, key: R -> K, k: K)
    ensures UniqueKeys(rows, key) ==> UniqueKeys(Select(rows, Not(KeyIs(key, k))), key)
    ensures UniqueKeys(rows, key) ==> Count(rows, KeyIs(key, k)) <= 1
  {
    if UniqueKeys(rows, key) {
      SelectKeepsKeysUnique(rows, Not(KeyIs(key, k)), key);
      CountKeyAtMostOne(rows, key, k);
    }
  }

  /** A second identical delete removes nothing and answers 0. */
  lemma DeleteWhereTwice<R(!new)>(rows: seq<R>, hit: R -> bool)
    ensures var once := DeleteWhere(rows, hit, None).rows;
            DeleteWhere(once, hit, None) == Written(Ok(0), once)
  {
    var once := DeleteWhere(rows, hit, None).rows;
    assert forall i :: 0 <= i < |once| ==> !hit(once[i]) by {
      forall i | 0 <= i < |once| ensures !hit(once[i]) {
        assert once[i] in once;
      }
    }
    CountZeroIffNone(once, hit);
    SelectKeepsAll(once, Not(hit));
  }
}
