/**
  The listing logic of `getTasks` (backend/src/controllers/taskController.js):
  page and limit defaults, the skip arithmetic, the query filter, the
  newest-first order, the page window and the page count.
*/
module TaskListing {
  import opened Wrappers
  import opened Config
  import opened Text
  import opened Models

  const DEFAULT_PAGE := 1
  const DEFAULT_LIMIT := 10

  // ---------------------------------------------------------------- paging arithmetic

  /**
    `parseInt(q, 10) || d`: an absent or unparseable value (`NaN`) and zero
    both fall back to the default, so the result is never zero.
  */
  function NumberOr(q: Option<string>, d: int): (n: int)
    requires d != 0
    ensures n != 0
    ensures q.None? ==> n == d
  {
    var parsed := if q.None? then None else ParseInt(q.value);
    if parsed.None? || parsed.value == 0 then d else parsed.value
  }

  /** `(page - 1) * limit`. */
  function Skip(page: int, limit: int): (s: int)
    ensures page == 1 ==> s == 0
    ensures page >= 1 && limit >= 1 ==> 0 <= s && s + limit == page * limit
  {
    (page - 1) * limit
  }

  /** A value validation lets through is read as written. */
  lemma ValidatedNumber(q: Option<string>, d: int)
    requires d >= 1
    requires q.None? || (IsIntString(q.value) && IntValue(q.value) >= 1)
    ensures NumberOr(q, d) >= 1
    ensures q.Some? ==> NumberOr(q, d) == IntValue(q.value)
  {
    if q.Some? {
      ParseIntOfIntString(q.value);
    }
  }

  /** The first page skips nothing, and every later page skips whole pages. */
  lemma SkipNonNegative(page: int, limit: int)
    requires page >= 1 && limit >= 1
    ensures Skip(page, limit) >= 0
  {
    var pagesBefore: nat := page - 1;
    var perPage: nat := limit;
    assert pagesBefore * perPage >= 0;
  }

  /**
    The values validation lets through are read as written: a page and limit
    of at least 1, and therefore a skip that is not negative.
  */
  lemma ValidatedPaging(page: Option<string>, limit: Option<string>)
    requires page.None? || (IsIntString(page.value) && IntValue(page.value) >= 1)
    requires limit.None? || (IsIntString(limit.value) && IntValue(limit.value) >= 1)
    ensures NumberOr(page, DEFAULT_PAGE) >= 1 && NumberOr(limit, DEFAULT_LIMIT) >= 1
    ensures page.Some? ==> NumberOr(page, DEFAULT_PAGE) == IntValue(page.value)
    ensures limit.Some? ==> NumberOr(limit, DEFAULT_LIMIT) == IntValue(limit.value)
    ensures Skip(NumberOr(page, DEFAULT_PAGE), NumberOr(limit, DEFAULT_LIMIT)) >= 0
  {
    ValidatedNumber(page, DEFAULT_PAGE);
    ValidatedNumber(limit, DEFAULT_LIMIT);
    SkipNonNegative(NumberOr(page, DEFAULT_PAGE), NumberOr(limit, DEFAULT_LIMIT));
  }

  /** Absent, unparseable and zero values all give the defaults: page 1 of 10. */
  lemma PagingDefaults(q: Option<string>)
    requires q.None? || ParseInt(q.value).None? || ParseInt(q.value) == Some(0)
    ensures NumberOr(q, DEFAULT_PAGE) == 1 && NumberOr(q, DEFAULT_LIMIT) == 10
    ensures Skip(NumberOr(q, DEFAULT_PAGE), NumberOr(q, DEFAULT_LIMIT)) == 0
  {
  }

  /** `Math.ceil(total / limit)` for a non-zero integer limit. */
  function CeilDiv(total: nat, limit: int): (r: int)
    requires limit != 0
    ensures limit < 0 ==> r <= 0
  {
    if limit > 0 then (total + limit - 1) / limit else -(total / -limit)
  }

  /**
    The page count is the least number of pages of `limit` tasks that hold
    all `total` tasks: enough pages, none of them wasted, and none at all for
    no tasks.
  */
  lemma CeilDivBounds(total: nat, limit: int)
    requires limit > 0
    ensures CeilDiv(total, limit) * limit >= total
    ensures total > 0 ==> (CeilDiv(total, limit) - 1) * limit < total
    ensures total == 0 ==> CeilDiv(total, limit) == 0
  {
    var n := total + limit - 1;
    var q, r := n / limit, n % limit;
    assert n == q * limit + r && 0 <= r < limit;
    assert q * limit == total + limit - 1 - r;
    assert (q - 1) * limit == q * limit - limit;
  }

  // ---------------------------------------------------------------- filter

  /**
    The `find` filter: `userId` is the caller, `status` the given name when
    one is given, and the title matches the search when one is given.
    `titleMatches` stands for the case-insensitive `$regex` match.
  */
  predicate Matches(t: Task, caller: ObjectId, status: Option<string>, search: Option<string>,
                    titleMatches: (string, string) -> bool)
  {
    t.userId == caller &&
    (Truthy(status) ==> StatusName(t.status) == status.value) &&
    (Truthy(search) ==> titleMatches(search.value, t.title))
  }

  /** `Task.find(filter)` before sorting: the matching tasks in insertion order. */
  function Select(ts: seq<Task>, caller: ObjectId, status: Option<string>, search: Option<string>,
                  titleMatches: (string, string) -> bool): (r: seq<Task>)
    ensures |r| <= |ts|
    ensures forall i :: 0 <= i < |r| ==> r[i] in ts && Matches(r[i], caller, status, search, titleMatches)
  {
    if ts == [] then []
    else
      var rest := Select(ts[1..], caller, status, search, titleMatches);
      if Matches(ts[0], caller, status, search, titleMatches) then [ts[0]] + rest else rest
  }

  /** The filter finds every stored task that matches and nothing else. */
  lemma {:induction false} SelectComplete(ts: seq<Task>, caller: ObjectId, status: Option<string>, search: Option<string>,
                                          titleMatches: (string, string) -> bool, t: Task)
    ensures t in Select(ts, caller, status, search, titleMatches) <==>
            t in ts && Matches(t, caller, status, search, titleMatches)
  {
    if ts != [] {
      SelectComplete(ts[1..], caller, status, search, titleMatches, t);
      assert t in ts <==> t == ts[0] || t in ts[1..];
    }
  }

  // ---------------------------------------------------------------- order

  /** `sort({ createdAt: -1 })`: newest first. */
  predicate NewestFirst(s: seq<Task>) {
    forall i, j :: 0 <= i < j < |s| ==> s[i].createdAt >= s[j].createdAt
  }

  /** Places `t` before the first task that is not newer than it. */
  function InsertByDate(t: Task, s: seq<Task>): (r: seq<Task>)
    requires NewestFirst(s)
    ensures NewestFirst(r)
    ensures multiset(r) == multiset(s) + multiset{t}
    ensures |r| == |s| + 1 && (r[0] == t || (s != [] && r[0] == s[0]))
  {
    if s == [] || s[0].createdAt <= t.createdAt then
      PrependNewest(t, s);
      [t] + s
    else
      var tail := s[1..];
      TailNewest(s);
      var rest := InsertByDate(t, tail);
      assert rest[0].createdAt <= s[0].createdAt;
      PrependNewest(s[0], rest);
      ConsKeepsMultiset(s, rest, t);
      [s[0]] + rest
  }

  /** Putting the head of `s` back in front keeps `t` the only extra element. */
  lemma ConsKeepsMultiset(s: seq<Task>, rest: seq<Task>, t: Task)
    requires s != [] && multiset(rest) == multiset(s[1..]) + multiset{t}
    ensures multiset([s[0]] + rest) == multiset(s) + multiset{t}
  {
    assert s == [s[0]] + s[1..];
  }

  lemma TailNewest(s: seq<Task>)
    requires NewestFirst(s) && s != []
    ensures NewestFirst(s[1..])
    ensures |s| > 1 ==> s[1].createdAt <= s[0].createdAt
  {
    forall i, j | 0 <= i < j < |s[1..]| ensures s[1..][i].createdAt >= s[1..][j].createdAt {
      assert s[1..][i] == s[i + 1] && s[1..][j] == s[j + 1];
    }
  }

  /** A task no older than the head of a newest-first sequence can go in front of it. */
  lemma PrependNewest(x: Task, r: seq<Task>)
    requires NewestFirst(r) && (r == [] || x.createdAt >= r[0].createdAt)
    ensures NewestFirst([x] + r)
  {
    var s := [x] + r;
    forall i, j | 0 <= i < j < |s| ensures s[i].createdAt >= s[j].createdAt {
      if i == 0 && j > 1 {
        assert s[j] == r[j - 1] && r[0].createdAt >= r[j - 1].createdAt;
      }
    }
  }

  /**
    The tasks newest first; tasks created at the same time keep their
    insertion order.
  */
  function SortNewestFirst(s: seq<Task>): (r: seq<Task>)
    ensures NewestFirst(r)
    ensures multiset(r) == multiset(s)
    ensures |r| == |s|
  {
    if s == [] then []
    else
      assert s == [s[0]] + s[1..];
      InsertByDate(s[0], SortNewestFirst(s[1..]))
  }

  // ---------------------------------------------------------------- window

  function Abs(n: int): nat {
    if n < 0 then -n else n
  }

  /**
    `skip(skip).limit(limit)`: at most `|limit|` tasks, taken in order from
    position `skip` on; a negative limit returns as many tasks as a positive one.
  */
  function Window(s: seq<Task>, skip: nat, limit: int): (r: seq<Task>)
    requires limit != 0
    ensures |r| <= Abs(limit)
    ensures skip >= |s| ==> r == []
    ensures skip < |s| ==> |r| == if skip + Abs(limit) <= |s| then Abs(limit) else |s| - skip
    ensures forall i :: 0 <= i < |r| ==> skip + i < |s| && r[i] == s[skip + i]
  {
    if skip >= |s| then []
    else if skip + Abs(limit) <= |s| then s[skip..skip + Abs(limit)]
    else s[skip..]
  }

  /** A window of a newest-first sequence is newest first. */
  lemma WindowNewestFirst(s: seq<Task>, skip: nat, limit: int)
    requires limit != 0 && NewestFirst(s)
    ensures NewestFirst(Window(s, skip, limit))
  {
    var r := Window(s, skip, limit);
    forall i, j | 0 <= i < j < |r| ensures r[i].createdAt >= r[j].createdAt {
      assert r[i] == s[skip + i] && r[j] == s[skip + j];
    }
  }

  /**
    The tasks `getTasks` lists: the caller's matching tasks, newest first,
    the page that starts after `skip` of them.
  */
  function PageOf(ts: seq<Task>, caller: ObjectId, status: Option<string>, search: Option<string>, skip: nat, limit: int,
                  titleMatches: (string, string) -> bool): (r: seq<Task>)
    requires limit != 0
    ensures NewestFirst(r)
    ensures var n := |Select(ts, caller, status, search, titleMatches)|;
      |r| == if skip >= n then 0 else if skip + Abs(limit) <= n then Abs(limit) else n - skip
  {
    var found := Select(ts, caller, status, search, titleMatches);
    var sorted := SortNewestFirst(found);
    WindowNewestFirst(sorted, skip, limit);
    assert |sorted| == |multiset(sorted)| == |multiset(found)| == |found|;
    Window(sorted, skip, limit)
  }

  /**
    Every listed task is a stored task of the caller that passes the status
    and search filters; there are at most `|limit|` of them, newest first.
  */
  lemma PageOfSound(ts: seq<Task>, caller: ObjectId, status: Option<string>, search: Option<string>, skip: nat, limit: int,
                    titleMatches: (string, string) -> bool)
    requires limit != 0
    ensures var r := PageOf(ts, caller, status, search, skip, limit, titleMatches);
      |r| <= Abs(limit) && NewestFirst(r) &&
      forall i :: 0 <= i < |r| ==>
        r[i] in ts && r[i].userId == caller &&
        (Truthy(status) ==> StatusName(r[i].status) == status.value) &&
        (Truthy(search) ==> titleMatches(search.value, r[i].title))
  {
    var found := Select(ts, caller, status, search, titleMatches);
    var sorted := SortNewestFirst(found);
    var r := Window(sorted, skip, limit);
    WindowNewestFirst(sorted, skip, limit);
    forall i | 0 <= i < |r|
      ensures r[i] in ts && Matches(r[i], caller, status, search, titleMatches)
    {
      assert r[i] == sorted[skip + i];
      assert r[i] in multiset(sorted);
      assert r[i] in multiset(found);
      SelectComplete(ts, caller, status, search, titleMatches, r[i]);
    }
  }
}
