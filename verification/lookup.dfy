/** users_lookup and users_show: one request, repeated until the server gives
    an answer. A 200 or a 403/404 settles the loop; a 400 or any other status
    costs one of MAX_RETRY attempts. Both send the same parameters on every
    attempt, so a run is its outcome and its sleeps, one per request sent. */
module Lookup {
  import opened Responses
  import opened RateLimit
  import Timeline

  /** How users_lookup and users_show treat a status code. */
  function LookupKind(status: int): Kind {
    if status == 200 then Ok
    else if status in {403, 404} then Missing
    else if status == 400 then Throttled
    else Unexpected
  }

  /** 401 is the one status the two kinds of loop treat differently: the
      timeline gives up on the user, the lookups count it as a failed try. */
  lemma Only401Differs(status: int)
    ensures Timeline.TimelineKind(status) != LookupKind(status) <==> status == 401
    ensures Timeline.TimelineKind(401) == Missing && LookupKind(401) == Unexpected
  {
  }

  /** How a retry loop ended, and the duration of every check_rate_limit call. */
  datatype Retried<+T> = Retried(outcome: Outcome<T>, sleeps: seq<nat>)

  /** The shared loop of users_lookup and users_show from retry counter
      `tries`: it returns the first response that is a 200, 403 or 404. */
  function Settle<B>(tries: nat, rs: seq<Response<B>>): Retried<Response<B>>
    decreases |rs|
  {
    if tries >= MAX_RETRY then Retried(Fatal, [])
    else if rs == [] then Retried(OutOfResponses, [])
    else
      var r := rs[0];
      if !LookupKind(r.status).Retryable() then Retried(Returned(r), [Backoff(r.headers)])
      else
        var rest := Settle(tries + 1, rs[1..]);
        Retried(rest.outcome, [Backoff(r.headers)] + rest.sleeps)
  }

  /** The position of the first 200, 403 or 404 among `rs`, or |rs| if none. */
  function FirstSettled<B>(rs: seq<Response<B>>): (k: nat)
    ensures k <= |rs|
    ensures forall j :: 0 <= j < k ==> LookupKind(rs[j].status).Retryable()
    ensures k < |rs| ==> !LookupKind(rs[k].status).Retryable()
    decreases |rs|
  {
    if rs == [] || !LookupKind(rs[0].status).Retryable() then 0
    else
      var k := FirstSettled(rs[1..]);
      assert forall j :: 1 <= j < k + 1 ==> rs[j] == rs[1..][j - 1];
      k + 1
  }

  /** The loop in closed form. With `n` attempts left and the first answer at
      position `k`: if n <= k the loop sends `n` requests and exits with
      SystemExit; otherwise it returns response `k` after `k + 1` requests,
      or runs out of responses if there is none. Every request is followed by
      exactly one sleep. */
  lemma {:induction false} SettleMeans<B>(tries: nat, rs: seq<Response<B>>)
    requires tries <= MAX_RETRY
    ensures var k, n, run := FirstSettled(rs), MAX_RETRY - tries, Settle(tries, rs);
      && (n <= k ==> run == Retried(Fatal, Backoffs(rs[..n])))
      && (k < n && k < |rs| ==> run == Retried(Returned(rs[k]), Backoffs(rs[..k + 1])))
      && (k < n && k == |rs| ==> run == Retried(OutOfResponses, Backoffs(rs)))
    decreases |rs|
  {
    var k, n := FirstSettled(rs), MAX_RETRY - tries;
    if n == 0 {
      assert rs[..0] == [];
    } else if rs == [] {
    } else if !LookupKind(rs[0].status).Retryable() {
      BackoffsCons(rs, 1);
      assert rs[1..][..0] == [];
    } else {
      var rest := rs[1..];
      var next := Settle(tries + 1, rest);
      assert Settle(tries, rs) == Retried(next.outcome, [Backoff(rs[0].headers)] + next.sleeps);
      assert k == FirstSettled(rest) + 1;
      SettleMeans(tries + 1, rest);
      if n <= k {
        BackoffsCons(rs, n);
      } else if k < |rs| {
        assert rest[k - 1] == rs[k];
        BackoffsCons(rs, k + 1);
      }
    }
  }

  /** From a fresh counter, when the first `i` responses are throttled or
      unexpected and response `i` (if any) is an answer, that answer is the
      first one. */
  lemma {:induction false} FirstSettledAt<B>(rs: seq<Response<B>>, i: nat)
    requires i <= |rs| && forall j :: 0 <= j < i ==> LookupKind(rs[j].status).Retryable()
    ensures i <= FirstSettled(rs)
    ensures i == |rs| || !LookupKind(rs[i].status).Retryable() ==> FirstSettled(rs) == i
  {
  }

  /** What users_lookup returns once the loop has settled on a response. */
  function LookupAnswer<P>(o: Outcome<Response<seq<P>>>): Outcome<seq<P>> {
    match o
    case Returned(r) => Returned(if r.status == 200 then r.body else [])
    case Fatal => Fatal
    case OutOfResponses => OutOfResponses
  }

  /** users_lookup, fed the server's responses in order. */
  function LookupRun<P>(rs: seq<Response<seq<P>>>): Retried<seq<P>> {
    var run := Settle(0, rs);
    Retried(LookupAnswer(run.outcome), run.sleeps)
  }

  /** What users_show returns once the loop has settled on a response: the
      status code and the body. */
  function ShowAnswer<B>(o: Outcome<Response<B>>): Outcome<(int, B)> {
    match o
    case Returned(r) => Returned((r.status, r.body))
    case Fatal => Fatal
    case OutOfResponses => OutOfResponses
  }

  /** users_show, fed the server's responses in order. */
  function ShowRun<B>(rs: seq<Response<B>>): Retried<(int, B)> {
    var run := Settle(0, rs);
    Retried(ShowAnswer(run.outcome), run.sleeps)
  }

  /** users_lookup returns the body of the first 200 as it came, unfiltered,
      or [] if a 403 or 404 comes first; it exits with SystemExit exactly
      when the first MAX_RETRY responses are all throttled or unexpected, so
      MAX_RETRY - 1 of them still leave room for one more request. */
  lemma {:induction false} LookupResult<P>(rs: seq<Response<seq<P>>>)
    ensures var k, run := FirstSettled(rs), LookupRun(rs);
      && (run.outcome == Fatal <==> MAX_RETRY <= k)
      && (k < MAX_RETRY && k < |rs| && rs[k].status == 200 ==> run.outcome == Returned(rs[k].body))
      && (k < MAX_RETRY && k < |rs| && rs[k].status in {403, 404} ==> run.outcome == Returned([]))
      && (k < MAX_RETRY && k == |rs| ==> run.outcome == OutOfResponses)
      && |run.sleeps| == if MAX_RETRY <= k then MAX_RETRY else if k < |rs| then k + 1 else k
  {
    SettleMeans(0, rs);
  }

  /** users_show returns the status and body of the first 200, 403 or 404, so
      the status it returns is always one of those three; a 400 or any other
      status never reaches the caller. */
  lemma {:induction false} ShowResult<B>(rs: seq<Response<B>>)
    ensures var k, run := FirstSettled(rs), ShowRun(rs);
      && (run.outcome == Fatal <==> MAX_RETRY <= k)
      && (k < MAX_RETRY && k < |rs| ==> run.outcome == Returned((rs[k].status, rs[k].body)))
      && (run.outcome.Returned? ==> run.outcome.value.0 in {200, 403, 404})
  {
    SettleMeans(0, rs);
  }

  /** users_lookup. The retry counter doubles as the position of the next
      response, since every pass that does not return adds one to it. */
  method UsersLookup<P>(responses: seq<Response<seq<P>>>) returns (outcome: Outcome<seq<P>>, sleeps: seq<nat>)
    ensures Retried(outcome, sleeps) == LookupRun(responses)
  {
    var tries := 0;
    sleeps := [];
    while tries < MAX_RETRY
      invariant tries <= |responses| && tries <= MAX_RETRY
      invariant forall j :: 0 <= j < tries ==> LookupKind(responses[j].status).Retryable()
      invariant sleeps == Backoffs(responses[..tries])
      decreases MAX_RETRY - tries
    {
      if tries == |responses| {
        outcome := OutOfResponses;
        FirstSettledAt(responses, tries);
        SettleMeans(0, responses);
        assert responses[..tries] == responses;
        return;
      }
      var r := responses[tries];
      BackoffsSnoc(responses, tries);
      if r.status == 200 {
        sleeps := sleeps + [Backoff(r.headers)];
        outcome := Returned(r.body);
        FirstSettledAt(responses, tries);
        SettleMeans(0, responses);
        return;
      }
      if r.status in {403, 404} {
        sleeps := sleeps + [Backoff(r.headers)];
        outcome := Returned([]);
        FirstSettledAt(responses, tries);
        SettleMeans(0, responses);
        return;
      }
      if r.status == 400 {
        sleeps := sleeps + [Backoff(r.headers)];
        tries := tries + 1;
        continue;
      }
      sleeps := sleeps + [Backoff(r.headers)];
      tries := tries + 1;
    }
    outcome := Fatal;
    FirstSettledAt(responses, tries);
    SettleMeans(0, responses);
  }

  /** users_show, with the same loop as users_lookup. */
  method UsersShow<B>(responses: seq<Response<B>>) returns (outcome: Outcome<(int, B)>, sleeps: seq<nat>)
    ensures Retried(outcome, sleeps) == ShowRun(responses)
    ensures outcome.Returned? ==> outcome.value.0 in {200, 403, 404}
  {
    var tries := 0;
    sleeps := [];
    while tries < MAX_RETRY
      invariant tries <= |responses| && tries <= MAX_RETRY
      invariant forall j :: 0 <= j < tries ==> LookupKind(responses[j].status).Retryable()
      invariant sleeps == Backoffs(responses[..tries])
      decreases MAX_RETRY - tries
    {
      if tries == |responses| {
        outcome := OutOfResponses;
        FirstSettledAt(responses, tries);
        SettleMeans(0, responses);
        assert responses[..tries] == responses;
        return;
      }
      var r := responses[tries];
      BackoffsSnoc(responses, tries);
      if r.status == 200 {
        sleeps := sleeps + [Backoff(r.headers)];
        outcome := Returned((200, r.body));
        FirstSettledAt(responses, tries);
        SettleMeans(0, responses);
        return;
      }
      if r.status in {403, 404} {
        sleeps := sleeps + [Backoff(r.headers)];
        outcome := Returned((r.status, r.body));
        FirstSettledAt(responses, tries);
        SettleMeans(0, responses);
        return;
      }
      if r.status == 400 {
        sleeps := sleeps + [Backoff(r.headers)];
        tries := tries + 1;
        continue;
      }
      sleeps := sleeps + [Backoff(r.headers)];
      tries := tries + 1;
    }
    outcome := Fatal;
    FirstSettledAt(responses, tries);
    SettleMeans(0, responses);
  }
}
