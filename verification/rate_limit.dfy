/** check_rate_limit: how long the crawler sleeps after a response. */
module RateLimit {
  import opened Responses

  /** Seconds slept past the announced reset time. */
  const RESET_BUFFER := 60
  /** Sleep once `x-rate-limit-remaining` is at or below this. */
  const RATE_LIMIT_BUFFER := 5
  /** Seconds slept when a rate-limit header is missing. */
  const FAILURE_RETRY := 60
  /** Consecutive failed attempts before giving up: one day of one-minute waits. */
  const MAX_RETRY := 24 * 60

  /** The argument check_rate_limit hands to `sleep`, as the code computes it,
      or 0 when it does not sleep. A missing header (the KeyError branch)
      gives FAILURE_RETRY; nothing clamps the low-remaining value. */
  function SleepArgument(h: Headers): int {
    match h.remaining
    case None => FAILURE_RETRY
    case Some(remain) =>
      if remain > RATE_LIMIT_BUFFER then 0
      else if h.date.None? || h.reset.None? then FAILURE_RETRY
      else h.reset.value - h.date.value + RESET_BUFFER
  }

  /** The sleep the loops perform: SleepArgument with a negative value
      (reset time already more than RESET_BUFFER in the past) replaced by 0. */
  function Backoff(h: Headers): (d: nat)
    ensures d >= SleepArgument(h)
    ensures d == SleepArgument(h) || d == 0
  {
    var a := SleepArgument(h);
    if a < 0 then 0 else a
  }

  /** One check_rate_limit call per response, in order. */
  function Backoffs<B>(rs: seq<Response<B>>): (ds: seq<nat>)
    ensures |ds| == |rs|
  {
    if rs == [] then [] else [Backoff(rs[0].headers)] + Backoffs(rs[1..])
  }

  /** The sleeps of two stretches of responses, one after the other. */
  lemma {:induction false} BackoffsAppend<B>(a: seq<Response<B>>, b: seq<Response<B>>)
    ensures Backoffs(a + b) == Backoffs(a) + Backoffs(b)
    decreases |a|
  {
    if a == [] {
      assert a + b == b;
    } else {
      var x := [Backoff(a[0].headers)];
      calc {
        Backoffs(a + b);
        { assert (a + b)[0] == a[0]; }
        x + Backoffs((a + b)[1..]);
        { assert (a + b)[1..] == a[1..] + b; }
        x + Backoffs(a[1..] + b);
        { BackoffsAppend(a[1..], b); }
        x + (Backoffs(a[1..]) + Backoffs(b));
        (x + Backoffs(a[1..])) + Backoffs(b);
      }
    }
  }

  /** The sleeps of the first `n` responses: the first one's, then those of
      the next `n - 1`. */
  lemma {:induction false} BackoffsCons<B>(rs: seq<Response<B>>, n: nat)
    requires 0 < n <= |rs|
    ensures Backoffs(rs[..n]) == [Backoff(rs[0].headers)] + Backoffs(rs[1..][..n - 1])
  {
    assert rs[..n][1..] == rs[1..][..n - 1];
  }

  /** The sleeps of the first `n + 1` responses: those of the first `n`, then
      the last one's. */
  lemma {:induction false} BackoffsSnoc<B>(rs: seq<Response<B>>, n: nat)
    requires n < |rs|
    ensures Backoffs(rs[..n + 1]) == Backoffs(rs[..n]) + [Backoff(rs[n].headers)]
  {
    assert rs[..n + 1] == rs[..n] + [rs[n]];
    BackoffsAppend(rs[..n], [rs[n]]);
    assert [rs[n]][1..] == [];
  }

  /** Above the buffer there is no sleep, whatever the date and reset headers
      say, and whether or not they are present. */
  lemma NoSleepAboveBuffer(h: Headers, reset: Option<int>, date: Option<int>)
    requires h.remaining.Some? && h.remaining.value > RATE_LIMIT_BUFFER
    ensures Backoff(h) == 0
    ensures Backoff(h.(reset := reset, date := date)) == 0
  {
  }

  /** At or below the buffer, with both time headers present, the crawler
      sleeps until RESET_BUFFER seconds past the reset time. */
  lemma SleepPastReset(h: Headers)
    requires h.remaining.Some? && h.remaining.value <= RATE_LIMIT_BUFFER
    requires h.reset.Some? && h.date.Some?
    ensures SleepArgument(h) == h.reset.value - h.date.value + RESET_BUFFER
    ensures h.reset.value + RESET_BUFFER >= h.date.value ==> Backoff(h) == h.reset.value - h.date.value + RESET_BUFFER
    ensures h.reset.value + RESET_BUFFER < h.date.value ==> Backoff(h) == 0
  {
  }

  /** A missing header is no error: it costs a fixed FAILURE_RETRY sleep. */
  lemma MissingHeaderSleepsFixed(h: Headers)
    requires h.remaining.None? || (h.remaining.value <= RATE_LIMIT_BUFFER && (h.reset.None? || h.date.None?))
    ensures SleepArgument(h) == FAILURE_RETRY
    ensures Backoff(h) == FAILURE_RETRY
  {
  }

  /** Three calls left, reset 100 seconds ahead of the server clock: 160 seconds. */
  lemma LowRemainingExample(now: int)
    ensures Backoff(Headers(Some(3), Some(now + 100), Some(now))) == 160
  {
  }

  /** As written, a reset time more than RESET_BUFFER seconds behind the
      server's date header gives `sleep` a negative argument, which Python's
      `time.sleep` rejects with an exception the code does not catch. */
  lemma SleepArgumentCanBeNegative()
    ensures SleepArgument(Headers(Some(0), Some(1000), Some(1100))) == -40
    ensures Backoff(Headers(Some(0), Some(1000), Some(1100))) == 0
  {
  }
}
