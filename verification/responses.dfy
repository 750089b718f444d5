/** What the crawler sees of one HTTP exchange with the Twitter API.
    The network call itself is not modelled: a response is its status code,
    the three rate-limit headers as already-parsed integers, and a body that
    has already been decoded from JSON. */
module Responses {

  datatype Option<+T> = None | Some(value: T)

  /** The headers check_rate_limit reads: `x-rate-limit-remaining`,
      `x-rate-limit-reset` and `date` (the server clock, in unix seconds).
      None stands for a header missing from the response. */
  datatype Headers = Headers(remaining: Option<int>, reset: Option<int>, date: Option<int>)

  datatype Response<+B> = Response(status: int, headers: Headers, body: B)

  /** A decoded tweet: its integer "id" field and the rest of the object,
      kept opaque. */
  datatype Record = Record(id: int, payload: string)

  /** How one of the fetch loops ends. `Fatal` is the `SystemExit` raised once
      the retry counter reaches MAX_RETRY; `OutOfResponses` means the finite
      sequence of responses given to the model ran out first. */
  datatype Outcome<+T> = Returned(value: T) | Fatal | OutOfResponses

  /** The four ways a loop treats a status code. */
  datatype Kind = Ok | Throttled | Missing | Unexpected {
    /** Throttled and unexpected responses bump the retry counter and loop again. */
    predicate Retryable() { this == Throttled || this == Unexpected }
  }

  /** The set of ids of a list of tweets. */
  function IdSet(ts: seq<Record>): set<int> {
    if ts == [] then {} else IdSet(ts[..|ts| - 1]) + {ts[|ts| - 1].id}
  }

  /** No two tweets of the list share an id. */
  predicate DistinctIds(ts: seq<Record>) {
    ts == [] || (DistinctIds(ts[..|ts| - 1]) && ts[|ts| - 1].id !in IdSet(ts[..|ts| - 1]))
  }

  /** Python's `min(ids)` where `ids` holds the ids of `ts`. */
  function MinId(ts: seq<Record>): (m: int)
    requires ts != []
    ensures m in IdSet(ts)
    ensures forall x :: x in IdSet(ts) ==> m <= x
  {
    if |ts| == 1 then
      assert ts[..0] == [];
      ts[0].id
    else
      var rest := MinId(ts[..|ts| - 1]);
      if ts[|ts| - 1].id <= rest then ts[|ts| - 1].id else rest
  }

  /** IdSet holds exactly the ids that occur in the list. */
  lemma {:induction false} IdSetMeans(ts: seq<Record>)
    ensures forall k :: 0 <= k < |ts| ==> ts[k].id in IdSet(ts)
    ensures forall x :: x in IdSet(ts) ==> exists k :: 0 <= k < |ts| && ts[k].id == x
  {
    if ts != [] {
      var front := ts[..|ts| - 1];
      IdSetMeans(front);
      assert forall k :: 0 <= k < |front| ==> front[k] == ts[k];
    }
  }

  /** DistinctIds says that no two positions of the list hold the same id. */
  lemma {:induction false} DistinctIdsMeans(ts: seq<Record>)
    ensures DistinctIds(ts) <==> forall j, k :: 0 <= j < k < |ts| ==> ts[j].id != ts[k].id
  {
    if ts != [] {
      var front := ts[..|ts| - 1];
      DistinctIdsMeans(front);
      IdSetMeans(front);
      assert forall k :: 0 <= k < |front| ==> front[k] == ts[k];
    }
  }

  /** A duplicate-free list has as many ids as tweets. */
  lemma {:induction false} DistinctIdsCount(ts: seq<Record>)
    requires DistinctIds(ts)
    ensures |IdSet(ts)| == |ts|
  {
    if ts != [] {
      DistinctIdsCount(ts[..|ts| - 1]);
    }
  }
}
