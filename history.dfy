/**
 * The summaries table and the query `view_history` runs on it:
 *   SELECT * FROM summaries WHERE user_id = ? [AND DATE(created_at) = ?] ORDER BY created_at DESC
 *
 * A query is the list of its `?` conditions with their bound values (the source's `params`
 * list); `Execute` selects the rows that meet all of them and orders them newest first.
 */
module History {
  import opened Common

  /** `created_at`: the calendar day that `DATE(created_at)` yields, and the second within it. */
  datatype Timestamp = Timestamp(day: int, second: int)

  /** `a` is not later than `b` (SQLite compares the `YYYY-MM-DD HH:MM:SS` text chronologically). */
  predicate NotAfter(a: Timestamp, b: Timestamp) {
    a.day < b.day || (a.day == b.day && a.second <= b.second)
  }

  /** A row of `summaries(id, user_id, video_url, summary, created_at)`. */
  datatype SummaryRow = SummaryRow(id: nat, userId: nat, videoUrl: string, summary: string, createdAt: Timestamp)

  /** AUTOINCREMENT ids: positive, increasing in insertion order, below the next id to hand out. */
  ghost predicate SummariesValid(rows: seq<SummaryRow>, nextId: nat) {
    (forall i | 0 <= i < |rows| :: 1 <= rows[i].id < nextId) &&
    (forall i, j | 0 <= i < j < |rows| :: rows[i].id < rows[j].id)
  }

  /** One `?` condition of the WHERE clause with its bound value. */
  datatype Param =
    | OwnerIs(userId: nat)      // user_id = ?
    | CreatedOn(day: int)       // DATE(created_at) = ?

  predicate Satisfies(row: SummaryRow, p: Param) {
    match p
    case OwnerIs(u) => row.userId == u
    case CreatedOn(d) => row.createdAt.day == d
  }

  predicate SatisfiesAll(row: SummaryRow, params: seq<Param>) {
    forall i | 0 <= i < |params| :: Satisfies(row, params[i])
  }

  /** The rows meeting every condition, in table order, each as often as in the table. */
  function Select(rows: seq<SummaryRow>, params: seq<Param>): (r: seq<SummaryRow>)
    ensures forall x :: multiset(r)[x] == if SatisfiesAll(x, params) then multiset(rows)[x] else 0
  {
    if |rows| == 0 then []
    else
      assert rows == [rows[0]] + rows[1..];
      if SatisfiesAll(rows[0], params) then [rows[0]] + Select(rows[1..], params)
      else Select(rows[1..], params)
  }

  /** Ordered by `created_at` descending: no row is older than a row after it. */
  predicate NewestFirst(s: seq<SummaryRow>) {
    forall i, j | 0 <= i < j < |s| :: NotAfter(s[j].createdAt, s[i].createdAt)
  }

  /** Put `x` into a newest-first sequence before the first row older than it. */
  function Insert(x: SummaryRow, s: seq<SummaryRow>): (r: seq<SummaryRow>)
    requires NewestFirst(s)
    ensures NewestFirst(r)
    ensures multiset(r) == multiset(s) + multiset{x}
  {
    if |s| == 0 || NotAfter(s[0].createdAt, x.createdAt) then
      PrependNewer(x, s);
      [x] + s
    else
      var t := Insert(x, s[1..]);
      assert s == [s[0]] + s[1..];
      HeadIsNewest(s);
      PrependNewest(s[0], t, multiset(s[1..]) + multiset{x});
      [s[0]] + t
  }

  /** A row no older than every row of a newest-first sequence can go in front of it. */
  lemma PrependNewest(y: SummaryRow, t: seq<SummaryRow>, m: multiset<SummaryRow>)
    requires NewestFirst(t) && multiset(t) == m
    requires forall z | z in m :: NotAfter(z.createdAt, y.createdAt)
    ensures NewestFirst([y] + t)
  {
    forall k | 0 <= k < |t| ensures NotAfter(t[k].createdAt, y.createdAt) {
      assert t[k] in multiset(t);
    }
  }

  /** A row no older than the first of a newest-first sequence can go in front of it. */
  lemma PrependNewer(x: SummaryRow, s: seq<SummaryRow>)
    requires NewestFirst(s) && (|s| == 0 || NotAfter(s[0].createdAt, x.createdAt))
    ensures NewestFirst([x] + s)
  {
  }

  /** The first row of a newest-first sequence is no older than any row after it. */
  lemma HeadIsNewest(s: seq<SummaryRow>)
    requires NewestFirst(s) && |s| > 0
    ensures forall z | z in multiset(s[1..]) :: NotAfter(z.createdAt, s[0].createdAt)
  {
    forall z | z in multiset(s[1..]) ensures NotAfter(z.createdAt, s[0].createdAt) {
      var k :| 0 <= k < |s[1..]| && s[1..][k] == z;
      assert s[k + 1] == z;
    }
  }

  /** `ORDER BY created_at DESC`: a newest-first rearrangement of `s`. */
  function SortNewestFirst(s: seq<SummaryRow>): (r: seq<SummaryRow>)
    ensures NewestFirst(r)
    ensures multiset(r) == multiset(s)
  {
    if |s| == 0 then []
    else
      assert s == [s[0]] + s[1..];
      Insert(s[0], SortNewestFirst(s[1..]))
  }

  /** The whole statement: the selected rows, newest first. */
  function Execute(rows: seq<SummaryRow>, params: seq<Param>): (result: seq<SummaryRow>)
    ensures NewestFirst(result)
    ensures forall x :: multiset(result)[x] == if SatisfiesAll(x, params) then multiset(rows)[x] else 0
  {
    SortNewestFirst(Select(rows, params))
  }

  /** A history entry: the row is the caller's, and on the filter day when there is one. */
  predicate InHistory(row: SummaryRow, userId: nat, filterDate: Option<int>) {
    row.userId == userId && (filterDate.None? || row.createdAt.day == filterDate.value)
  }

  /** The conditions `view_history` binds: its owner, then the day when a filter is given. */
  function HistoryParams(userId: nat, filterDate: Option<int>): (params: seq<Param>) {
    [OwnerIs(userId)] + (if filterDate.Some? then [CreatedOn(filterDate.value)] else [])
  }

  /**
   * The history query returns exactly the caller's rows, restricted to the filter day when
   * one is given, each as often as it is stored, ordered newest first.
   */
  lemma HistoryQueryExact(rows: seq<SummaryRow>, userId: nat, filterDate: Option<int>)
    ensures NewestFirst(Execute(rows, HistoryParams(userId, filterDate)))
    ensures forall x :: multiset(Execute(rows, HistoryParams(userId, filterDate)))[x] ==
                        if InHistory(x, userId, filterDate) then multiset(rows)[x] else 0
  {
    var params := HistoryParams(userId, filterDate);
    forall x ensures SatisfiesAll(x, params) <==> InHistory(x, userId, filterDate) {
      if filterDate.Some? {
        assert params == [OwnerIs(userId), CreatedOn(filterDate.value)];
        assert SatisfiesAll(x, params) <==> Satisfies(x, params[0]) && Satisfies(x, params[1]);
      } else {
        assert params == [OwnerIs(userId)];
        assert SatisfiesAll(x, params) <==> Satisfies(x, params[0]);
      }
    }
  }

  /** Without a date filter the history holds every row of the caller's. */
  lemma UnfilteredHistoryIsAllOwned(rows: seq<SummaryRow>, userId: nat, k: nat)
    requires k < |rows| && rows[k].userId == userId
    ensures rows[k] in Execute(rows, HistoryParams(userId, None))
  {
    HistoryQueryExact(rows, userId, None);
    assert rows[k] in multiset(rows);
  }

  /** No row of another user, and no row from another day than the filter, is ever shown. */
  lemma HistoryShowsOnlyMatches(rows: seq<SummaryRow>, userId: nat, filterDate: Option<int>, x: SummaryRow)
    requires x in Execute(rows, HistoryParams(userId, filterDate))
    ensures x in rows && x.userId == userId
    ensures filterDate.Some? ==> x.createdAt.day == filterDate.value
  {
    HistoryQueryExact(rows, userId, filterDate);
    assert x in multiset(Execute(rows, HistoryParams(userId, filterDate)));
  }
}
