/** user_timeline: page backward through one user's tweets with the max_id
    cursor, dropping tweets whose id was already gathered, until a page adds
    nothing; 401/403/404 end the walk with what was gathered, and
    MAX_RETRY consecutive throttled or unexpected responses end it fatally. */
module Timeline {
  import opened Responses
  import opened RateLimit

  /** A user_timeline response; a 200 body is a page of tweets. */
  type Page = Response<seq<Record>>

  /** How user_timeline treats a status code. */
  function TimelineKind(status: int): Kind {
    if status == 200 then Ok
    else if status == 400 then Throttled
    else if status in {401, 403, 404} then Missing
    else Unexpected
  }

  /** The loop's local state: the tweets gathered, their ids, the id count
      after the previous page (tcount), the max_id request parameter (None
      while it is unset) and the retry counter. */
  datatype Pagination = Pagination(tweets: seq<Record>, ids: set<int>, tcount: nat, maxId: Option<int>, tries: nat)

  const Start := Pagination([], {}, 0, None, 0)

  /** What holds of the loop state each time the loop condition is tested. */
  ghost predicate Valid(s: Pagination) {
    && DistinctIds(s.tweets)
    && s.ids == IdSet(s.tweets)
    && s.tcount == |s.ids|
    && s.tries <= MAX_RETRY
    && s.maxId == Cursor(s.tweets)
  }

  /** The inner loop over one page: append each tweet whose id is not yet in
      `ids`, and add its id. Tweets are only appended, and the id set grows
      by exactly the ids of the page. */
  function MergePage(tweets: seq<Record>, ids: set<int>, page: seq<Record>): (r: (seq<Record>, set<int>))
    ensures tweets <= r.0
    ensures r.1 == ids + IdSet(page)
    ensures |r.0| == |tweets| ==> r.1 == ids
    decreases |page|
  {
    if page == [] then (tweets, ids)
    else
      var front, x := page[..|page| - 1], page[|page| - 1];
      assert page == front + [x];
      assert IdSet(page) == IdSet(front) + {x.id};
      var m := MergePage(tweets, ids, front);
      if x.id in m.1 then m else (m.0 + [x], m.1 + {x.id})
  }

  /** The tweets of `xs` with later duplicates of an id dropped. */
  function Dedup(xs: seq<Record>): seq<Record> {
    MergePage([], {}, xs).0
  }

  /** The page of a 200 response; nothing for any other status. */
  function OkBody(r: Page): seq<Record> {
    if TimelineKind(r.status) == Ok then r.body else []
  }

  /** The 200 pages among `rs`, concatenated in the order they were received. */
  function OkBodies(rs: seq<Page>): seq<Record> {
    if rs == [] then [] else OkBodies(rs[..|rs| - 1]) + OkBody(rs[|rs| - 1])
  }

  /** What a run of the loop produces: how it ends, the max_id parameter of
      every request it sends (None for a request without one), and the
      duration of every check_rate_limit call. */
  datatype Run<+T> = Run(outcome: Outcome<T>, cursors: seq<Option<int>>, sleeps: seq<nat>)

  /** A run preceded by the given requests and sleeps. */
  function Then<T>(cursors: seq<Option<int>>, sleeps: seq<nat>, run: Run<T>): Run<T> {
    Run(run.outcome, cursors + run.cursors, sleeps + run.sleeps)
  }

  /** `n` copies of `x`. */
  function Repeat<T>(x: T, n: nat): (xs: seq<T>)
    ensures |xs| == n && forall j :: 0 <= j < n ==> xs[j] == x
  {
    if n == 0 then [] else [x] + Repeat(x, n - 1)
  }

  /** The max_id parameter once `tweets` are gathered: unset while there are
      none, afterwards the least id gathered. */
  function Cursor(tweets: seq<Record>): Option<int> {
    if tweets == [] then None else Some(MinId(tweets))
  }

  /** The state after a 200 page that added ids: tcount takes the new id
      count, max_id the least id gathered, and the retry counter goes back to 0. */
  function AfterPage(s: Pagination, page: seq<Record>): Pagination {
    var m := MergePage(s.tweets, s.ids, page);
    Pagination(m.0, m.1, |m.1|, Cursor(m.0), 0)
  }

  /** The loop of user_timeline from state `s`, reading `rs` one response
      per request. */
  function TimelineRun(s: Pagination, rs: seq<Page>): Run<seq<Record>>
    decreases |rs|
  {
    if s.tries >= MAX_RETRY then Run(Fatal, [], [])
    else if rs == [] then Run(OutOfResponses, [], [])
    else
      var r := rs[0];
      match TimelineKind(r.status)
      case Ok =>
        var m := MergePage(s.tweets, s.ids, r.body);
        if |m.1| == s.tcount then Run(Returned(m.0), [s.maxId], [])
        else Then([s.maxId], [Backoff(r.headers)], TimelineRun(AfterPage(s, r.body), rs[1..]))
      case Missing => Run(Returned(s.tweets), [s.maxId], [Backoff(r.headers)])
      case _ => Then([s.maxId], [Backoff(r.headers)], TimelineRun(s.(tries := s.tries + 1), rs[1..]))
  }

  /** Every tweet the merge appends comes from the page. */
  lemma {:induction false} MergePageFromPage(tweets: seq<Record>, ids: set<int>, page: seq<Record>)
    ensures forall k :: |tweets| <= k < |MergePage(tweets, ids, page).0| ==> MergePage(tweets, ids, page).0[k] in page
    decreases |page|
  {
    if page != [] {
      var front, x := page[..|page| - 1], page[|page| - 1];
      MergePageFromPage(tweets, ids, front);
      var m := MergePage(tweets, ids, front);
      var r := MergePage(tweets, ids, page);
      assert page == front + [x];
      assert r == if x.id in m.1 then m else (m.0 + [x], m.1 + {x.id});
      forall k | |tweets| <= k < |r.0|
        ensures r.0[k] in page
      {
        if k < |m.0| {
          assert r.0[k] == m.0[k];
          assert m.0[k] in front;
        } else {
          assert r.0[k] == x;
        }
      }
    }
  }

  /** Merging a page into a duplicate-free list keeps it duplicate-free,
      with the id set tracking the list exactly. */
  lemma {:induction false} MergePageKeepsDistinct(tweets: seq<Record>, ids: set<int>, page: seq<Record>)
    requires DistinctIds(tweets) && ids == IdSet(tweets)
    ensures var r := MergePage(tweets, ids, page);
      DistinctIds(r.0) && r.1 == IdSet(r.0) && |r.0| == |r.1|
    decreases |page|
  {
    if page != [] {
      var front, x := page[..|page| - 1], page[|page| - 1];
      MergePageKeepsDistinct(tweets, ids, front);
      var m := MergePage(tweets, ids, front);
      if x.id !in m.1 {
        assert (m.0 + [x])[..|m.0|] == m.0;
      }
    }
    DistinctIdsCount(MergePage(tweets, ids, page).0);
  }

  /** The first tweet of the page with an id not seen before is kept. */
  lemma {:induction false} MergePageKeepsFirst(tweets: seq<Record>, ids: set<int>, page: seq<Record>, j: nat)
    requires j < |page| && page[j].id !in ids && page[j].id !in IdSet(page[..j])
    ensures page[j] in MergePage(tweets, ids, page).0
    decreases |page|
  {
    var front, x := page[..|page| - 1], page[|page| - 1];
    var m := MergePage(tweets, ids, front);
    if j < |page| - 1 {
      assert front[..j] == page[..j];
      MergePageKeepsFirst(tweets, ids, front, j);
    } else {
      assert front == page[..j];
    }
  }

  /** Merging two pages one after the other is merging their concatenation. */
  lemma {:induction false} MergePageAppend(tweets: seq<Record>, ids: set<int>, a: seq<Record>, b: seq<Record>)
    ensures var m := MergePage(tweets, ids, a);
      MergePage(m.0, m.1, b) == MergePage(tweets, ids, a + b)
    decreases |b|
  {
    if b == [] {
      assert a + b == a;
    } else {
      var front := b[..|b| - 1];
      MergePageAppend(tweets, ids, a, front);
      assert (a + b)[..|a + b| - 1] == a + front;
    }
  }

  /** Adding `b` to `a` leaves its size alone exactly when `b` adds nothing. */
  lemma {:induction false} UnionSameSize(a: set<int>, b: set<int>)
    ensures |a + b| == |a| <==> b <= a
  {
    var c := b - a;
    assert a + b == a + c;
    assert a * c == {};
    assert |a + c| + |a * c| == |a| + |c|;
    assert c == {} <==> b <= a;
  }

  /** A page whose ids were all seen leaves the state as it was, and only such a page does. */
  lemma {:induction false} MergePageNothingNew(tweets: seq<Record>, ids: set<int>, page: seq<Record>)
    requires DistinctIds(tweets) && ids == IdSet(tweets)
    ensures |MergePage(tweets, ids, page).1| == |ids| <==> IdSet(page) <= ids
    ensures IdSet(page) <= ids ==> MergePage(tweets, ids, page) == (tweets, ids)
  {
    DistinctIdsCount(tweets);
    MergePageKeepsDistinct(tweets, ids, page);
    UnionSameSize(ids, IdSet(page));
    var r := MergePage(tweets, ids, page);
    if IdSet(page) <= ids {
      assert r.1 == ids;
      assert |r.0| == |tweets| && tweets <= r.0;
      assert r.0 == r.0[..|tweets|] == tweets;
    }
  }

  /** Dedup keeps one tweet per id seen, the first one, and nothing else. */
  lemma {:induction false} DedupFirstSeen(xs: seq<Record>)
    ensures DistinctIds(Dedup(xs))
    ensures IdSet(Dedup(xs)) == IdSet(xs)
    ensures forall t :: t in Dedup(xs) ==> t in xs
    ensures forall j :: 0 <= j < |xs| && xs[j].id !in IdSet(xs[..j]) ==> xs[j] in Dedup(xs)
  {
    MergePageKeepsDistinct([], {}, xs);
    MergePageFromPage([], {}, xs);
    forall j | 0 <= j < |xs| && xs[j].id !in IdSet(xs[..j])
      ensures xs[j] in Dedup(xs)
    {
      MergePageKeepsFirst([], {}, xs, j);
    }
  }

  /** The position of the first tweet of `xs` with the given id. */
  function FirstPos(xs: seq<Record>, id: int): (k: nat)
    requires id in IdSet(xs)
    ensures k < |xs| && xs[k].id == id && id !in IdSet(xs[..k])
    decreases |xs|
  {
    var front := xs[..|xs| - 1];
    if id in IdSet(front) then
      var k := FirstPos(front, id);
      assert xs[..k] == front[..k];
      k
    else
      assert xs[..|xs| - 1] == front;
      |xs| - 1
  }

  /** Dedup keeps the order in which ids were first received: each tweet it
      keeps is the first occurrence of its id, and the tweets it keeps stand
      in the order of those first occurrences. */
  lemma {:induction false} DedupKeepsOrder(xs: seq<Record>)
    ensures forall i :: 0 <= i < |Dedup(xs)| ==>
      Dedup(xs)[i].id in IdSet(xs) && xs[FirstPos(xs, Dedup(xs)[i].id)] == Dedup(xs)[i]
    ensures forall i, j :: 0 <= i < j < |Dedup(xs)| ==>
      FirstPos(xs, Dedup(xs)[i].id) < FirstPos(xs, Dedup(xs)[j].id)
    decreases |xs|
  {
    if xs != [] {
      var front, x := xs[..|xs| - 1], xs[|xs| - 1];
      DedupKeepsOrder(front);
      var d, df := Dedup(xs), Dedup(front);
      assert xs == front + [x];
      assert IdSet(xs) == IdSet(front) + {x.id};
      assert MergePage([], {}, front).1 == IdSet(front);
      assert d == if x.id in IdSet(front) then df else df + [x];
      forall i | 0 <= i < |df|
        ensures d[i] == df[i] && d[i].id in IdSet(front)
        ensures FirstPos(xs, d[i].id) == FirstPos(front, df[i].id) && xs[FirstPos(xs, d[i].id)] == d[i]
      {
        var k := FirstPos(front, df[i].id);
        assert xs[k] == front[k];
      }
      if x.id !in IdSet(front) {
        assert FirstPos(xs, x.id) == |front|;
      }
    }
  }

  /** The for loop of user_timeline over one page. */
  method AppendUnseen(tweets: seq<Record>, ids: set<int>, page: seq<Record>) returns (tweets': seq<Record>, ids': set<int>)
    ensures (tweets', ids') == MergePage(tweets, ids, page)
  {
    tweets', ids' := tweets, ids;
    for j := 0 to |page|
      invariant (tweets', ids') == MergePage(tweets, ids, page[..j])
    {
      var tweet := page[j];
      assert page[..j + 1][..j] == page[..j];
      if tweet.id !in ids' {
        tweets' := tweets' + [tweet];
        ids' := ids' + {tweet.id};
      }
    }
    assert page[..|page|] == page;
  }

  /** Requests and sleeps prepended in two steps are prepended in one. */
  lemma {:induction false} ThenThen<T>(c1: seq<Option<int>>, s1: seq<nat>, c2: seq<Option<int>>, s2: seq<nat>, run: Run<T>)
    ensures Then(c1, s1, Then(c2, s2, run)) == Then(c1 + c2, s1 + s2, run)
  {
    assert c1 + (c2 + run.cursors) == (c1 + c2) + run.cursors;
    assert s1 + (s2 + run.sleeps) == (s1 + s2) + run.sleeps;
  }

  /** The 200 pages of one more response: those before it, then its own. */
  lemma {:induction false} OkBodiesSnoc(rs: seq<Page>, i: nat)
    requires i < |rs|
    ensures OkBodies(rs[..i + 1]) == OkBodies(rs[..i]) + OkBody(rs[i])
  {
    assert rs[..i + 1][..i] == rs[..i];
  }

  /** The 200 pages of the first `n` responses: the first one's, then those of the next `n - 1`. */
  lemma {:induction false} OkBodiesCons(rs: seq<Page>, n: nat)
    requires 0 < n <= |rs|
    ensures OkBodies(rs[..n]) == OkBody(rs[0]) + OkBodies(rs[1..][..n - 1])
    decreases n
  {
    OkBodiesSnoc(rs, n - 1);
    if n == 1 {
      assert rs[..0] == [] && rs[1..][..0] == [];
      assert OkBody(rs[0]) + [] == OkBody(rs[0]);
    } else {
      OkBodiesCons(rs, n - 1);
      OkBodiesSnoc(rs[1..], n - 2);
      assert rs[1..][n - 2] == rs[n - 1];
    }
  }

  /** Deduplicating a longer list: the tweets of the extra part are merged
      into the deduplicated prefix, against the ids it holds. */
  lemma {:induction false} DedupAppend(xs: seq<Record>, page: seq<Record>)
    ensures Dedup(xs + page) == MergePage(Dedup(xs), IdSet(Dedup(xs)), page).0
  {
    MergePageAppend([], {}, xs, page);
    MergePageKeepsDistinct([], {}, xs);
  }

  /** A 200 page that adds no new id ends the loop at once with the tweets
      gathered, after one request and without a check_rate_limit call; a
      page that adds one always calls check_rate_limit. */
  lemma {:induction false} NoNewIdsReturns(s: Pagination, rs: seq<Page>)
    requires Valid(s) && s.tries < MAX_RETRY && rs != [] && TimelineKind(rs[0].status) == Ok
    ensures TimelineRun(s, rs).sleeps == [] <==> IdSet(rs[0].body) <= s.ids
    ensures IdSet(rs[0].body) <= s.ids ==> TimelineRun(s, rs) == Run(Returned(s.tweets), [s.maxId], [])
  {
    MergePageNothingNew(s.tweets, s.ids, rs[0].body);
  }

  /** An empty first page: the result is the empty list, after one request without max_id. */
  lemma {:induction false} EmptyFirstPage(r: Page, rest: seq<Page>)
    requires r.status == 200 && r.body == []
    ensures TimelineRun(Start, [r] + rest) == Run(Returned([]), [None], [])
  {
    NoNewIdsReturns(Start, [r] + rest);
  }

  /** After a 200 page that added ids, the loop goes on from a state whose
      tcount is the number of ids, whose max_id is the least id gathered and
      whose retry counter is 0, with the page's new tweets appended. */
  lemma {:induction false} ProgressStep(s: Pagination, rs: seq<Page>)
    requires Valid(s) && s.tries < MAX_RETRY && rs != [] && TimelineKind(rs[0].status) == Ok
    requires !(IdSet(rs[0].body) <= s.ids)
    ensures var next := AfterPage(s, rs[0].body);
      && TimelineRun(s, rs) == Then([s.maxId], [Backoff(rs[0].headers)], TimelineRun(next, rs[1..]))
      && Valid(next)
      && s.tweets < next.tweets
      && next.ids == s.ids + IdSet(rs[0].body)
      && next.tcount == |next.ids|
      && next.tries == 0
      && next.maxId.Some? && next.maxId.value in next.ids
      && (forall x :: x in next.ids ==> next.maxId.value <= x)
  {
    MergePageNothingNew(s.tweets, s.ids, rs[0].body);
    MergePageKeepsDistinct(s.tweets, s.ids, rs[0].body);
  }

  /** A 401, 403 or 404 returns exactly the tweets gathered before it. */
  lemma {:induction false} MissingReturnsGathered(s: Pagination, rs: seq<Page>)
    requires Valid(s) && s.tries < MAX_RETRY && rs != [] && TimelineKind(rs[0].status) == Missing
    ensures TimelineRun(s, rs) == Run(Returned(s.tweets), [s.maxId], [Backoff(rs[0].headers)])
  {
  }

  /** A 400 or an unexpected status adds one to the retry counter, changes
      nothing else, and the next request carries the same max_id. */
  lemma {:induction false} RetryStep(s: Pagination, rs: seq<Page>)
    requires Valid(s) && s.tries < MAX_RETRY && rs != [] && TimelineKind(rs[0].status).Retryable()
    ensures Valid(s.(tries := s.tries + 1))
    ensures TimelineRun(s, rs) == Then([s.maxId], [Backoff(rs[0].headers)], TimelineRun(s.(tries := s.tries + 1), rs[1..]))
  {
  }

  /** `n` throttled or unexpected responses in a row send `n` requests with
      the same max_id, sleep once after each, and add `n` to the retry counter. */
  lemma {:induction false} RetriesAdvance(s: Pagination, rs: seq<Page>, n: nat)
    requires Valid(s) && s.tries + n <= MAX_RETRY && n <= |rs|
    requires forall j :: 0 <= j < n ==> TimelineKind(rs[j].status).Retryable()
    ensures TimelineRun(s, rs) == Then(Repeat(s.maxId, n), Backoffs(rs[..n]), TimelineRun(s.(tries := s.tries + n), rs[n..]))
    decreases n
  {
    if n == 0 {
      assert rs[..0] == [] && rs[0..] == rs && s.(tries := s.tries) == s;
      ThenNothing(TimelineRun(s, rs));
    } else {
      var t := s.(tries := s.tries + 1);
      assert Valid(t) by { RetryStep(s, rs); }
      assert forall j :: 0 <= j < n - 1 ==> TimelineKind(rs[1..][j].status).Retryable() by {
        forall j | 0 <= j < n - 1
          ensures TimelineKind(rs[1..][j].status).Retryable()
        {
          assert rs[1..][j] == rs[j + 1];
        }
      }
      var last := TimelineRun(s.(tries := s.tries + n), rs[n..]);
      RetriesAdvance(t, rs[1..], n - 1);
      assert TimelineRun(t.(tries := t.tries + (n - 1)), rs[1..][n - 1..]) == last by {
        assert rs[1..][n - 1..] == rs[n..] && t.(tries := t.tries + (n - 1)) == s.(tries := s.tries + n);
      }
      assert TimelineKind(rs[0].status).Retryable();
      assert TimelineRun(t, rs[1..]) == Then(Repeat(s.maxId, n - 1), Backoffs(rs[1..][..n - 1]), last);
      RetryThen(s, rs, n, last);
    }
  }

  /** One more retry in front of `n - 1` retries. */
  lemma {:induction false} RetryThen(s: Pagination, rs: seq<Page>, n: nat, last: Run<seq<Record>>)
    requires Valid(s) && s.tries < MAX_RETRY && 0 < n <= |rs| && TimelineKind(rs[0].status).Retryable()
    requires TimelineRun(s.(tries := s.tries + 1), rs[1..]) == Then(Repeat(s.maxId, n - 1), Backoffs(rs[1..][..n - 1]), last)
    ensures TimelineRun(s, rs) == Then(Repeat(s.maxId, n), Backoffs(rs[..n]), last)
  {
    RetryStep(s, rs);
    ThenThen([s.maxId], [Backoff(rs[0].headers)], Repeat(s.maxId, n - 1), Backoffs(rs[1..][..n - 1]), last);
    BackoffsCons(rs, n);
  }

  /** One more copy of `x`, at the end. */
  lemma {:induction false} RepeatSnoc<T>(x: T, n: nat)
    ensures Repeat(x, n + 1) == Repeat(x, n) + [x]
  {
    if n > 0 {
      RepeatSnoc(x, n - 1);
    }
  }

  /** No requests and no sleeps in front leave a run unchanged. */
  lemma {:induction false} ThenNothing<T>(run: Run<T>)
    ensures Then([], [], run) == run
  {
    assert [] + run.cursors == run.cursors && [] + run.sleeps == run.sleeps;
  }

  /** MAX_RETRY consecutive throttled or unexpected responses end the loop
      with SystemExit: exactly that many requests, all with the same max_id,
      each followed by a sleep. */
  lemma {:induction false} RetriesExhaust(s: Pagination, rs: seq<Page>)
    requires Valid(s) && MAX_RETRY - s.tries <= |rs|
    requires forall j :: 0 <= j < MAX_RETRY - s.tries ==> TimelineKind(rs[j].status).Retryable()
    ensures var n := MAX_RETRY - s.tries;
      TimelineRun(s, rs) == Run(Fatal, Repeat(s.maxId, n), Backoffs(rs[..n]))
  {
    var n := MAX_RETRY - s.tries;
    RetriesAdvance(s, rs, n);
    assert Repeat(s.maxId, n) + [] == Repeat(s.maxId, n) && Backoffs(rs[..n]) + [] == Backoffs(rs[..n]);
  }

  /** One retry short of the limit the loop still sends another request,
      with the same max_id; if that one is a 401, 403 or 404 the gathered
      tweets are returned. */
  lemma {:induction false} LastTryStillRequests(s: Pagination, rs: seq<Page>)
    requires Valid(s) && s.tries < MAX_RETRY && MAX_RETRY - s.tries - 1 < |rs|
    requires forall j :: 0 <= j < MAX_RETRY - s.tries - 1 ==> TimelineKind(rs[j].status).Retryable()
    ensures var n := MAX_RETRY - s.tries - 1;
      && |TimelineRun(s, rs).cursors| > n
      && TimelineRun(s, rs).cursors[n] == s.maxId
      && (TimelineKind(rs[n].status) == Missing ==>
            TimelineRun(s, rs) == Run(Returned(s.tweets), Repeat(s.maxId, n + 1), Backoffs(rs[..n + 1])))
  {
    var n := MAX_RETRY - s.tries - 1;
    var t := s.(tries := MAX_RETRY - 1);
    RetriesAdvance(s, rs, n);
    var rest := rs[n..];
    assert rest[0] == rs[n];
    if TimelineKind(rs[n].status) == Missing {
      MissingReturnsGathered(t, rest);
      RepeatSnoc(s.maxId, n);
      BackoffsSnoc(rs, n);
    }
  }

  /** The retry counter counts consecutive failures: the loop ends with
      SystemExit only right after MAX_RETRY throttled or unexpected
      responses in a row, or, from a state that had already used some
      retries, after the remaining ones at the very start. */
  lemma {:induction false} FatalAfterStreak(s: Pagination, rs: seq<Page>)
    requires Valid(s)
    ensures var run := TimelineRun(s, rs);
      var c := |run.cursors|;
      run.outcome == Fatal ==>
        && c <= |rs|
        && ((c == MAX_RETRY - s.tries && forall j :: 0 <= j < c ==> TimelineKind(rs[j].status).Retryable())
            || (c >= MAX_RETRY && forall j :: c - MAX_RETRY <= j < c ==> TimelineKind(rs[j].status).Retryable()))
    decreases |rs|
  {
    if s.tries < MAX_RETRY && rs != [] {
      var k := TimelineKind(rs[0].status);
      if k == Ok && !(IdSet(rs[0].body) <= s.ids) {
        ProgressStep(s, rs);
        FatalAfterStreak(AfterPage(s, rs[0].body), rs[1..]);
      } else if k.Retryable() {
        RetryStep(s, rs);
        FatalAfterStreak(s.(tries := s.tries + 1), rs[1..]);
      } else if k == Ok {
        NoNewIdsReturns(s, rs);
      }
    }
  }

  /** From the initial state, SystemExit comes only after MAX_RETRY
      throttled or unexpected responses in a row, the last ones read. */
  lemma {:induction false} FatalOnlyAfterFullStreak(rs: seq<Page>)
    ensures var run := TimelineRun(Start, rs);
      run.outcome == Fatal ==>
        MAX_RETRY <= |run.cursors| <= |rs|
        && forall j :: |run.cursors| - MAX_RETRY <= j < |run.cursors| ==> TimelineKind(rs[j].status).Retryable()
  {
    FatalAfterStreak(Start, rs);
  }

  /** A run that, if it returns, returns the first-seen tweets of `seen`
      followed by the 200 pages among the responses it read. */
  ghost predicate ReturnsSeen(run: Run<seq<Record>>, rs: seq<Page>, seen: seq<Record>) {
    run.outcome.Returned? ==>
      |run.cursors| <= |rs| && run.outcome.value == Dedup(seen + OkBodies(rs[..|run.cursors|]))
  }

  /** From a valid state whose tweets are the first-seen tweets of `seen`,
      the loop only ever returns the first-seen tweets of `seen` and the 200
      pages it reads after it. */
  lemma {:induction false} ReturnsFirstSeen(s: Pagination, rs: seq<Page>, seen: seq<Record>)
    requires Valid(s) && s.tweets == Dedup(seen)
    ensures ReturnsSeen(TimelineRun(s, rs), rs, seen)
    decreases |rs|
  {
    if s.tries < MAX_RETRY && rs != [] {
      var k := TimelineKind(rs[0].status);
      if k == Ok {
        MergePageNothingNew(s.tweets, s.ids, rs[0].body);
        DedupAppend(seen, rs[0].body);
        if IdSet(rs[0].body) <= s.ids {
          ReturnsFirstPage(s, rs, seen, rs[0].body);
        } else {
          var next := AfterPage(s, rs[0].body);
          ProgressStep(s, rs);
          ReturnsFirstSeen(next, rs[1..], seen + rs[0].body);
          ReturnsAfterStep(s, rs, seen, [Backoff(rs[0].headers)], TimelineRun(next, rs[1..]), rs[0].body);
        }
      } else if k == Missing {
        assert seen + [] == seen;
        ReturnsFirstPage(s, rs, seen, []);
      } else {
        RetryStep(s, rs);
        ReturnsFirstSeen(s.(tries := s.tries + 1), rs[1..], seen);
        assert seen + [] == seen;
        ReturnsAfterStep(s, rs, seen, [Backoff(rs[0].headers)], TimelineRun(s.(tries := s.tries + 1), rs[1..]), []);
      }
    }
  }

  /** A run that returns after its first response. */
  lemma {:induction false} ReturnsFirstPage(s: Pagination, rs: seq<Page>, seen: seq<Record>, page: seq<Record>)
    requires rs != [] && OkBody(rs[0]) == page
    requires var run := TimelineRun(s, rs);
      run.outcome.Returned? ==> |run.cursors| == 1 && run.outcome.value == Dedup(seen + page)
    ensures ReturnsSeen(TimelineRun(s, rs), rs, seen)
  {
    OkBodiesCons(rs, 1);
    assert rs[1..][..0] == [];
    assert page + [] == page;
  }

  /** A run that goes on after its first response, the state then holding
      the first-seen tweets of `seen + page`. */
  lemma {:induction false} ReturnsAfterStep(s: Pagination, rs: seq<Page>, seen: seq<Record>, sleep: seq<nat>, rest: Run<seq<Record>>, page: seq<Record>)
    requires rs != [] && OkBody(rs[0]) == page
    requires TimelineRun(s, rs) == Then([s.maxId], sleep, rest)
    requires ReturnsSeen(rest, rs[1..], seen + page)
    ensures ReturnsSeen(TimelineRun(s, rs), rs, seen)
  {
    if rest.outcome.Returned? {
      var c := |rest.cursors| + 1;
      OkBodiesCons(rs, c);
      assert (seen + page) + OkBodies(rs[1..][..c - 1]) == seen + (page + OkBodies(rs[1..][..c - 1]));
    }
  }

  /** What user_timeline returns is the first-seen tweets of the 200 pages it
      read, in the order received, and so has no two tweets with one id. */
  lemma {:induction false} TimelineReturnsFirstSeen(rs: seq<Page>)
    ensures var run := TimelineRun(Start, rs);
      run.outcome.Returned? ==>
        && |run.cursors| <= |rs|
        && run.outcome.value == Dedup(OkBodies(rs[..|run.cursors|]))
        && DistinctIds(run.outcome.value)
  {
    assert Dedup([]) == [];
    ReturnsFirstSeen(Start, rs, []);
    assert ReturnsSeen(TimelineRun(Start, rs), rs, []);
    var run := TimelineRun(Start, rs);
    if run.outcome.Returned? {
      var xs := OkBodies(rs[..|run.cursors|]);
      assert [] + xs == xs;
      DedupFirstSeen(xs);
    }
  }

  /** The loop invariant of user_timeline after `i` responses: the state is
      valid, and the requests and sleeps so far followed by the run from the
      state make up the whole run. */
  ghost predicate LoopInvariant(responses: seq<Page>, i: nat, s: Pagination, cursors: seq<Option<int>>, sleeps: seq<nat>) {
    && i <= |responses|
    && Valid(s)
    && Then(cursors, sleeps, TimelineRun(s, responses[i..])) == TimelineRun(Start, responses)
  }

  /** The loop invariant holds before the first request. */
  lemma {:induction false} LoopStart(responses: seq<Page>)
    ensures LoopInvariant(responses, 0, Start, [], [])
  {
    assert Valid(Start);
    ThenNothing(TimelineRun(Start, responses[0..]));
    assert responses[0..] == responses;
  }

  /** A 200 page that adds ids keeps the loop invariant. */
  lemma {:induction false} LoopProgress(responses: seq<Page>, i: nat, s: Pagination, cursors: seq<Option<int>>, sleeps: seq<nat>,
                     i': nat, s': Pagination, cursors': seq<Option<int>>, sleeps': seq<nat>)
    requires LoopInvariant(responses, i, s, cursors, sleeps) && s.tries < MAX_RETRY && i < |responses| && responses[i].status == 200
    requires (s'.tweets, s'.ids) == MergePage(s.tweets, s.ids, responses[i].body) && |s'.ids| != s.tcount
    requires s'.tweets != [] && s'.tcount == |s'.ids| && s'.maxId == Some(MinId(s'.tweets)) && s'.tries == 0
    requires i' == i + 1 && cursors' == cursors + [s.maxId] && sleeps' == sleeps + [Backoff(responses[i].headers)]
    ensures LoopInvariant(responses, i', s', cursors', sleeps')
  {
    var r, rest := responses[i], responses[i..];
    assert rest[0] == r && rest[1..] == responses[i + 1..];
    MergePageNothingNew(s.tweets, s.ids, r.body);
    ProgressStep(s, rest);
    ThenThen(cursors, sleeps, [s.maxId], [Backoff(r.headers)], TimelineRun(AfterPage(s, r.body), responses[i + 1..]));
  }

  /** A 200 page that adds no id returns what the specification returns. */
  lemma {:induction false} LoopNoProgress(responses: seq<Page>, i: nat, s: Pagination, cursors: seq<Option<int>>, sleeps: seq<nat>,
                       tweets': seq<Record>, ids': set<int>)
    requires LoopInvariant(responses, i, s, cursors, sleeps) && s.tries < MAX_RETRY && i == |cursors| < |responses| && responses[i].status == 200
    requires (tweets', ids') == MergePage(s.tweets, s.ids, responses[i].body) && |ids'| == s.tcount
    ensures Run(Returned(tweets'), cursors + [s.maxId], sleeps) == TimelineRun(Start, responses)
  {
    var r, rest := responses[i], responses[i..];
    MergePageNothingNew(s.tweets, s.ids, r.body);
    assert IdSet(r.body) <= s.ids && tweets' == s.tweets;
    assert rest[0] == r;
    NoNewIdsReturns(s, rest);
    assert sleeps + [] == sleeps;
  }

  /** A 401, 403 or 404 returns what the specification returns. */
  lemma {:induction false} LoopMissing(responses: seq<Page>, i: nat, s: Pagination, cursors: seq<Option<int>>, sleeps: seq<nat>)
    requires LoopInvariant(responses, i, s, cursors, sleeps) && s.tries < MAX_RETRY && i == |cursors| < |responses|
    requires responses[i].status in {401, 403, 404}
    ensures Run(Returned(s.tweets), cursors + [s.maxId], sleeps + [Backoff(responses[i].headers)]) == TimelineRun(Start, responses)
  {
    var rest := responses[i..];
    assert rest[0] == responses[i];
    MissingReturnsGathered(s, rest);
  }

  /** A 400 or an unexpected status keeps the loop invariant. */
  lemma {:induction false} LoopRetry(responses: seq<Page>, i: nat, s: Pagination, cursors: seq<Option<int>>, sleeps: seq<nat>,
                  i': nat, s': Pagination, cursors': seq<Option<int>>, sleeps': seq<nat>)
    requires LoopInvariant(responses, i, s, cursors, sleeps) && s.tries < MAX_RETRY && i < |responses|
    requires responses[i].status != 200 && responses[i].status !in {401, 403, 404}
    requires i' == i + 1 && s' == s.(tries := s.tries + 1)
    requires cursors' == cursors + [s.maxId] && sleeps' == sleeps + [Backoff(responses[i].headers)]
    ensures LoopInvariant(responses, i', s', cursors', sleeps')
  {
    var r, rest := responses[i], responses[i..];
    assert rest[0] == r && rest[1..] == responses[i + 1..];
    RetryStep(s, rest);
    ThenThen(cursors, sleeps, [s.maxId], [Backoff(r.headers)], TimelineRun(s.(tries := s.tries + 1), responses[i + 1..]));
  }

  /** Leaving the loop, by SystemExit or for lack of responses, ends the run as the specification does. */
  lemma {:induction false} LoopEnd(responses: seq<Page>, i: nat, s: Pagination, cursors: seq<Option<int>>, sleeps: seq<nat>)
    requires LoopInvariant(responses, i, s, cursors, sleeps) && i == |cursors|
    requires s.tries >= MAX_RETRY || i == |responses|
    ensures Run(if s.tries >= MAX_RETRY then Fatal else OutOfResponses, cursors, sleeps) == TimelineRun(Start, responses)
  {
    assert cursors + [] == cursors && sleeps + [] == sleeps;
    assert i == |responses| ==> responses[i..] == [];
  }

  /** user_timeline, fed the server's responses in order. What it returns is
      described by TimelineReturnsFirstSeen. */
  method UserTimeline(responses: seq<Page>) returns (outcome: Outcome<seq<Record>>, cursors: seq<Option<int>>, sleeps: seq<nat>)
    ensures Run(outcome, cursors, sleeps) == TimelineRun(Start, responses)
    ensures |cursors| <= |responses|
  {
    var tweets: seq<Record> := [];
    var ids: set<int> := {};
    var tcount: nat := 0;
    var maxId: Option<int> := None;
    var tries: nat := 0;
    var sent: seq<Option<int>> := [];
    var slept: seq<nat> := [];
    LoopStart(responses);
    while tries < MAX_RETRY
      invariant |sent| <= |responses|
      invariant LoopInvariant(responses, |sent|, Pagination(tweets, ids, tcount, maxId, tries), sent, slept)
      decreases |responses| - |sent|
    {
      if |sent| == |responses| {
        LoopEnd(responses, |sent|, Pagination(tweets, ids, tcount, maxId, tries), sent, slept);
        outcome, cursors, sleeps := OutOfResponses, sent, slept;
        return;
      }
      ghost var s := Pagination(tweets, ids, tcount, maxId, tries);
      ghost var sent0, slept0 := sent, slept;
      var r := responses[|sent|];
      sent := sent + [maxId];
      if r.status == 200 {
        tweets, ids := AppendUnseen(tweets, ids, r.body);
        if |ids| == tcount {
          LoopNoProgress(responses, |sent0|, s, sent0, slept0, tweets, ids);
          outcome, cursors, sleeps := Returned(tweets), sent, slept;
          return;
        }
        tcount := |ids|;
        maxId := Some(MinId(tweets));
        tries := 0;
        slept := slept + [Backoff(r.headers)];
        LoopProgress(responses, |sent0|, s, sent0, slept0, |sent|, Pagination(tweets, ids, tcount, maxId, tries), sent, slept);
        continue;
      }
      if r.status == 400 {
        slept := slept + [Backoff(r.headers)];
        tries := tries + 1;
        LoopRetry(responses, |sent0|, s, sent0, slept0, |sent|, Pagination(tweets, ids, tcount, maxId, tries), sent, slept);
        continue;
      }
      if r.status in {401, 403, 404} {
        LoopMissing(responses, |sent0|, s, sent0, slept0);
        slept := slept + [Backoff(r.headers)];
        outcome, cursors, sleeps := Returned(tweets), sent, slept;
        return;
      }
      slept := slept + [Backoff(r.headers)];
      tries := tries + 1;
      LoopRetry(responses, |sent0|, s, sent0, slept0, |sent|, Pagination(tweets, ids, tcount, maxId, tries), sent, slept);
    }
    LoopEnd(responses, |sent|, Pagination(tweets, ids, tcount, maxId, tries), sent, slept);
    outcome, cursors, sleeps := Fatal, sent, slept;
  }
}
