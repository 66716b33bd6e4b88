/**
 * `ExternalAPIService`: a client for a flaky scoring service, with an
 * in-memory cache, a bounded number of attempts and exponential back-off.
 *
 * The HTTP exchange is an oracle: `upstream(attempt)` says what the attempt
 * numbered `attempt` comes to. Sleeps are recorded as a list of wait times
 * in seconds instead of being performed.
 */
module ExternalApi {
  import opened Wrappers
  import opened Models

  const DefaultMaxRetries: int := 5
  const DefaultTimeout: real := 30.0

  /** `List[tuple[str, float]]`: skill names with their levels. */
  type SkillList = seq<(string, real)>

  /** The cache key: the candidate id together with its skills. */
  datatype CacheKey = CacheKey(candidateId: string, skills: SkillList)

  /** What one attempt comes to. */
  datatype Upstream =
    | Replied(response: CandidateScoreResponse)  // the service answered and the body parsed
    | Failed                                     // an error `_call_score_api` catches itself
    | Raised                                     // an exception escaping `_call_score_api`

  function Sum(xs: seq<real>): real
  {
    if xs == [] then 0.0 else Sum(xs[..|xs| - 1]) + xs[|xs| - 1]
  }

  function Mean(xs: seq<real>): real
    requires |xs| > 0
  {
    Sum(xs) / |xs| as real
  }

  lemma {:induction false} SumWithin(xs: seq<real>, lo: real, hi: real)
    requires forall i :: 0 <= i < |xs| ==> lo <= xs[i] <= hi
    ensures |xs| as real * lo <= Sum(xs) <= |xs| as real * hi
  {
    if xs != [] {
      SumWithin(xs[..|xs| - 1], lo, hi);
    }
  }

  /** The mean of the scores lies within any bounds of the scores. */
  lemma MeanWithin(xs: seq<real>, lo: real, hi: real)
    requires |xs| > 0
    requires forall i :: 0 <= i < |xs| ==> lo <= xs[i] <= hi
    ensures lo <= Mean(xs) <= hi
  {
    SumWithin(xs, lo, hi);
    QuotientWithin(Sum(xs), |xs| as real, lo, hi);
  }

  lemma QuotientWithin(s: real, n: real, lo: real, hi: real)
    requires n > 0.0 && n * lo <= s <= n * hi
    ensures lo <= s / n <= hi
  {
    assert s / n - lo == (s - n * lo) / n;
    assert hi - s / n == (n * hi - s) / n;
  }

  /** The mean of equal scores is that score. */
  lemma MeanOfEqual(xs: seq<real>, x: real)
    requires |xs| > 0
    requires forall i :: 0 <= i < |xs| ==> xs[i] == x
    ensures Mean(xs) == x
  {
    MeanWithin(xs, x, x);
  }

  /**
   * The score one attempt yields: none when the service reports failure, when
   * it sends no scores, or when the attempt failed or raised; otherwise the
   * mean of the scores.
   */
  function AttemptScore(u: Upstream): (r: Option<real>)
    ensures r.Some? <==> u.Replied? && u.response.success && |u.response.specialScores| > 0
    ensures r.Some? ==> r.value == Mean(u.response.specialScores)
  {
    match u
    case Replied(response) =>
      if !response.success then None
      else if |response.specialScores| > 0 then Some(Mean(response.specialScores))
      else None
    case Failed => None
    case Raised => None
  }

  /** A response left at its defaults carries no scores, so it yields nothing. */
  lemma DefaultResponseYieldsNothing(latencyMs: int)
    ensures AttemptScore(Replied(CandidateScoreResponse(latencyMs))) == None
  {
  }

  function Pow2(n: nat): (r: nat)
    ensures r >= 1
  {
    if n == 0 then 1 else 2 * Pow2(n - 1)
  }

  /** The waits after the first `n` attempts: `2 ** attempt` seconds after attempt `attempt`. */
  function Backoff(n: nat): (r: seq<nat>)
    ensures |r| == n
  {
    seq(n, i requires 0 <= i => Pow2(i))
  }

  /** The back-off starts at one second and doubles each time. */
  lemma BackoffDoubles(n: nat)
    ensures n > 0 ==> Backoff(n)[0] == 1
    ensures forall i :: 0 < i < n ==> Backoff(n)[i] == 2 * Backoff(n)[i - 1]
  {
  }

  /** The first attempt in `[from, maxRetries)` that yields a score. */
  function FirstSuccess(upstream: nat -> Upstream, maxRetries: int, from: nat): (r: Option<nat>)
    decreases maxRetries - from
    ensures r.Some? ==> from <= r.value < maxRetries && AttemptScore(upstream(r.value)).Some?
    ensures r.Some? ==> forall j :: from <= j < r.value ==> AttemptScore(upstream(j)).None?
    ensures r.None? ==> forall j :: from <= j < maxRetries ==> AttemptScore(upstream(j)).None?
  {
    if from >= maxRetries then None
    else if AttemptScore(upstream(from)).Some? then Some(from)
    else FirstSuccess(upstream, maxRetries, from + 1)
  }

  /** What a call of `get_candidate_score` comes to: the score, the attempts made, the waits. */
  datatype Outcome = Outcome(score: Option<real>, attempts: nat, waits: seq<nat>)

  /** The retry loop: attempts until the first score, waiting between attempts but not after the last. */
  function Retry(upstream: nat -> Upstream, maxRetries: int): Outcome
  {
    match FirstSuccess(upstream, maxRetries, 0)
    case Some(k) => Outcome(AttemptScore(upstream(k)), k + 1, Backoff(k))
    case None =>
      if maxRetries > 0 then Outcome(None, maxRetries, Backoff(maxRetries - 1))
      else Outcome(None, 0, [])
  }

  /** The outcome of one call and the cache after it. */
  datatype Fetched = Fetched(outcome: Outcome, cache: map<CacheKey, real>)

  /** `get_candidate_score` against `cache`: a hit answers at once, a miss runs the retry loop and stores a score. */
  function Fetch(cache: map<CacheKey, real>, key: CacheKey, upstream: nat -> Upstream, maxRetries: int): Fetched
  {
    if key in cache then Fetched(Outcome(Some(cache[key]), 0, []), cache)
    else
      var o := Retry(upstream, maxRetries);
      Fetched(o, if o.score.Some? then cache[key := o.score.value] else cache)
  }

  /**
   * The attempts stop at the first one yielding a score and never exceed
   * `max_retries`; every attempt but the last is followed by a wait of
   * `2 ** attempt` seconds; a failed or raising attempt only ever leads to
   * the next attempt or to no score.
   */
  lemma RetryStopsAtFirstScore(upstream: nat -> Upstream, maxRetries: int)
    ensures var o := Retry(upstream, maxRetries);
            && o.attempts <= (if maxRetries > 0 then maxRetries else 0)
            && o.waits == Backoff(if o.attempts > 0 then o.attempts - 1 else 0)
            && (o.score.Some? ==> o.attempts > 0 && o.score == AttemptScore(upstream(o.attempts - 1)))
            && (forall j :: 0 <= j < o.attempts - 1 ==> AttemptScore(upstream(j)).None?)
            && (o.score.None? ==> o.attempts == (if maxRetries > 0 then maxRetries else 0) &&
                                  forall j :: 0 <= j < maxRetries ==> AttemptScore(upstream(j)).None?)
  {
  }

  /** With the default of five attempts all failing, the waits are 1, 2, 4 and 8 seconds. */
  lemma DefaultRetriesWaits(upstream: nat -> Upstream)
    requires forall j :: 0 <= j < DefaultMaxRetries ==> AttemptScore(upstream(j)).None?
    ensures Retry(upstream, DefaultMaxRetries) == Outcome(None, 5, [1, 2, 4, 8])
  {
    assert FirstSuccess(upstream, DefaultMaxRetries, 0).None?;
    assert Backoff(4) == [1, 2, 4, 8];
  }

  /** A cache hit returns the cached score with no attempt, no wait and no change to the cache. */
  lemma FetchHit(cache: map<CacheKey, real>, key: CacheKey, upstream: nat -> Upstream, maxRetries: int)
    requires key in cache
    ensures Fetch(cache, key, upstream, maxRetries) == Fetched(Outcome(Some(cache[key]), 0, []), cache)
  {
  }

  /**
   * The cache only gains entries; a score returned is the one stored under
   * the key; and when no score comes back the cache is unchanged.
   */
  lemma FetchGrowsCache(cache: map<CacheKey, real>, key: CacheKey, upstream: nat -> Upstream, maxRetries: int)
    ensures var f := Fetch(cache, key, upstream, maxRetries);
            && (forall k :: k in cache ==> k in f.cache && f.cache[k] == cache[k])
            && (f.outcome.score.Some? ==> key in f.cache && f.cache[key] == f.outcome.score.value)
            && (f.outcome.score.None? ==> f.cache == cache)
            && f.cache.Keys <= cache.Keys + {key}
  {
  }

  /** Asking again after a score was obtained returns the same score without any attempt. */
  lemma FetchIdempotent(cache: map<CacheKey, real>, key: CacheKey, upstream1: nat -> Upstream,
                        upstream2: nat -> Upstream, maxRetries: int)
    ensures var f1 := Fetch(cache, key, upstream1, maxRetries);
            var f2 := Fetch(f1.cache, key, upstream2, maxRetries);
            f1.outcome.score.Some? ==> f2 == Fetched(Outcome(f1.outcome.score, 0, []), f1.cache)
  {
  }

  // ---------------------------------------------------------------------------
  // The batch

  /** The results map and the cache after the batch has processed some entries. */
  datatype BatchState = BatchState(results: map<string, real>, cache: map<CacheKey, real>)

  /** The oracle of entry `i`: its attempts, numbered from zero. */
  function EntryUpstream(upstream: (nat, nat) -> Upstream, i: nat): nat -> Upstream
  {
    (a: nat) => upstream(i, a)
  }

  function Key(entry: (string, SkillList)): CacheKey
  {
    CacheKey(entry.0, entry.1)
  }

  /** The batch, entry after entry, each fetch seeing the cache the previous ones left. */
  function Batch(entries: seq<(string, SkillList)>, upstream: (nat, nat) -> Upstream, maxRetries: int,
                 cache: map<CacheKey, real>): BatchState
  {
    if entries == [] then BatchState(map[], cache)
    else
      var i := |entries| - 1;
      var b := Batch(entries[..i], upstream, maxRetries, cache);
      var f := Fetch(b.cache, Key(entries[i]), EntryUpstream(upstream, i), maxRetries);
      BatchState(if f.outcome.score.Some? then b.results[entries[i].0 := f.outcome.score.value] else b.results, f.cache)
  }

  /** The score the fetch of entry `i` returns, against the cache as the earlier entries left it. */
  function EntryScore(entries: seq<(string, SkillList)>, upstream: (nat, nat) -> Upstream, maxRetries: int,
                      cache: map<CacheKey, real>, i: nat): Option<real>
    requires i < |entries|
  {
    Fetch(Batch(entries[..i], upstream, maxRetries, cache).cache, Key(entries[i]), EntryUpstream(upstream, i), maxRetries).outcome.score
  }

  lemma BatchStep(entries: seq<(string, SkillList)>, upstream: (nat, nat) -> Upstream, maxRetries: int,
                  cache: map<CacheKey, real>, i: nat)
    requires i < |entries|
    ensures var b := Batch(entries[..i], upstream, maxRetries, cache);
            var s := EntryScore(entries, upstream, maxRetries, cache, i);
            Batch(entries[..i + 1], upstream, maxRetries, cache).results ==
            (if s.Some? then b.results[entries[i].0 := s.value] else b.results)
  {
    assert entries[..i + 1][..i] == entries[..i];
  }

  /** The fetches of the first entries are those of the whole batch. */
  lemma EntryScoreOfPrefix(entries: seq<(string, SkillList)>, upstream: (nat, nat) -> Upstream, maxRetries: int,
                           cache: map<CacheKey, real>, i: nat, n: nat)
    requires i < n <= |entries|
    ensures entries[..n][i] == entries[i]
    ensures EntryScore(entries[..n], upstream, maxRetries, cache, i) == EntryScore(entries, upstream, maxRetries, cache, i)
  {
    assert entries[..n][..i] == entries[..i];
  }

  /** Some entry for `id` had its fetch return a score. */
  ghost predicate Answered(entries: seq<(string, SkillList)>, upstream: (nat, nat) -> Upstream, maxRetries: int,
                           cache: map<CacheKey, real>, id: string)
  {
    exists i :: 0 <= i < |entries| && entries[i].0 == id && EntryScore(entries, upstream, maxRetries, cache, i).Some?
  }

  /** The batch result holds exactly the ids whose fetch returned a score. */
  lemma {:induction false} BatchKeys(entries: seq<(string, SkillList)>, upstream: (nat, nat) -> Upstream,
                                     maxRetries: int, cache: map<CacheKey, real>, id: string)
    ensures id in Batch(entries, upstream, maxRetries, cache).results <==> Answered(entries, upstream, maxRetries, cache, id)
  {
    if entries != [] {
      var n := |entries| - 1;
      var prefix := entries[..n];
      BatchKeys(prefix, upstream, maxRetries, cache, id);
      BatchStep(entries, upstream, maxRetries, cache, n);
      assert entries[..n + 1] == entries;
      if Answered(prefix, upstream, maxRetries, cache, id) {
        var i :| 0 <= i < n && prefix[i].0 == id && EntryScore(prefix, upstream, maxRetries, cache, i).Some?;
        EntryScoreOfPrefix(entries, upstream, maxRetries, cache, i, n);
      }
      if Answered(entries, upstream, maxRetries, cache, id) {
        var i :| 0 <= i < |entries| && entries[i].0 == id && EntryScore(entries, upstream, maxRetries, cache, i).Some?;
        if i < n {
          EntryScoreOfPrefix(entries, upstream, maxRetries, cache, i, n);
        }
      }
    }
  }

  /** The score of the last entry for `id` whose fetch returned a score. */
  ghost predicate LastAnswer(entries: seq<(string, SkillList)>, upstream: (nat, nat) -> Upstream, maxRetries: int,
                             cache: map<CacheKey, real>, id: string, score: real)
  {
    exists i :: 0 <= i < |entries| && entries[i].0 == id &&
      EntryScore(entries, upstream, maxRetries, cache, i) == Some(score) &&
      NoLaterAnswer(entries, upstream, maxRetries, cache, id, i)
  }

  /** No entry for `id` after entry `i` had its fetch return a score. */
  ghost predicate NoLaterAnswer(entries: seq<(string, SkillList)>, upstream: (nat, nat) -> Upstream, maxRetries: int,
                                cache: map<CacheKey, real>, id: string, i: nat)
  {
    forall j :: i < j < |entries| && entries[j].0 == id ==> EntryScore(entries, upstream, maxRetries, cache, j).None?
  }

  /** A later entry for the same id that returns a score overwrites an earlier one. */
  lemma {:induction false} BatchLastWins(entries: seq<(string, SkillList)>, upstream: (nat, nat) -> Upstream,
                                         maxRetries: int, cache: map<CacheKey, real>, id: string)
    ensures var results := Batch(entries, upstream, maxRetries, cache).results;
            id in results ==> LastAnswer(entries, upstream, maxRetries, cache, id, results[id])
  {
    if entries != [] {
      var n := |entries| - 1;
      var prefix := entries[..n];
      var results := Batch(entries, upstream, maxRetries, cache).results;
      BatchLastWins(prefix, upstream, maxRetries, cache, id);
      BatchStep(entries, upstream, maxRetries, cache, n);
      assert entries[..n + 1] == entries;
      var last := EntryScore(entries, upstream, maxRetries, cache, n);
      if id in results && !(entries[n].0 == id && last.Some?) {
        var r0 := Batch(prefix, upstream, maxRetries, cache).results;
        assert id in r0 && results[id] == r0[id];
        LastAnswerExtends(entries, upstream, maxRetries, cache, id, r0[id]);
      }
    }
  }

  /** An entry that is not an answer for `id` leaves the last answer for `id` where it was. */
  lemma LastAnswerExtends(entries: seq<(string, SkillList)>, upstream: (nat, nat) -> Upstream, maxRetries: int,
                          cache: map<CacheKey, real>, id: string, score: real)
    requires |entries| > 0
    requires LastAnswer(entries[..|entries| - 1], upstream, maxRetries, cache, id, score)
    requires !(entries[|entries| - 1].0 == id && EntryScore(entries, upstream, maxRetries, cache, |entries| - 1).Some?)
    ensures LastAnswer(entries, upstream, maxRetries, cache, id, score)
  {
    var n := |entries| - 1;
    var prefix := entries[..n];
    var i :| 0 <= i < n && prefix[i].0 == id && EntryScore(prefix, upstream, maxRetries, cache, i) == Some(score) &&
             NoLaterAnswer(prefix, upstream, maxRetries, cache, id, i);
    EntryScoreOfPrefix(entries, upstream, maxRetries, cache, i, n);
    NoLaterAnswerExtends(entries, upstream, maxRetries, cache, id, i);
  }

  /** The same, for the entries after the last answer. */
  lemma NoLaterAnswerExtends(entries: seq<(string, SkillList)>, upstream: (nat, nat) -> Upstream, maxRetries: int,
                             cache: map<CacheKey, real>, id: string, i: nat)
    requires 0 <= i < |entries| - 1
    requires NoLaterAnswer(entries[..|entries| - 1], upstream, maxRetries, cache, id, i)
    requires !(entries[|entries| - 1].0 == id && EntryScore(entries, upstream, maxRetries, cache, |entries| - 1).Some?)
    ensures NoLaterAnswer(entries, upstream, maxRetries, cache, id, i)
  {
    var n := |entries| - 1;
    forall j | i < j < |entries| && entries[j].0 == id
      ensures EntryScore(entries, upstream, maxRetries, cache, j).None?
    {
      if j < n {
        EntryScoreOfPrefix(entries, upstream, maxRetries, cache, j, n);
      }
    }
  }

  // ---------------------------------------------------------------------------
  // The service

  class ExternalApiService {
    const maxRetries: int
    const timeout: real
    var cache: map<CacheKey, real>

    constructor(maxRetries: int := DefaultMaxRetries, timeout: real := DefaultTimeout)
      ensures this.maxRetries == maxRetries && this.timeout == timeout
      ensures cache == map[]
    {
      this.maxRetries := maxRetries;
      this.timeout := timeout;
      cache := map[];
    }

    /** `get_candidate_score`: the cache first, then up to `maxRetries` attempts with back-off. */
    method GetCandidateScore(candidateId: string, skills: SkillList, upstream: nat -> Upstream)
      returns (score: Option<real>, attempts: nat, waits: seq<nat>)
      modifies this
      ensures Fetch(old(cache), CacheKey(candidateId, skills), upstream, maxRetries) ==
              Fetched(Outcome(score, attempts, waits), cache)
    {
      var key := CacheKey(candidateId, skills);
      if key in cache {
        return Some(cache[key]), 0, [];
      }
      ghost var first := FirstSuccess(upstream, maxRetries, 0);
      var limit := if maxRetries > 0 then maxRetries else 0;
      waits := [];
      for attempt := 0 to limit
        invariant forall j :: 0 <= j < attempt ==> AttemptScore(upstream(j)).None?
        invariant waits == Backoff(if attempt == limit && limit > 0 then limit - 1 else attempt)
        invariant cache == old(cache)
      {
        var result := AttemptScore(upstream(attempt));
        if result.Some? {
          assert first == Some(attempt);
          cache := cache[key := result.value];
          return result, attempt + 1, waits;
        }
        if attempt < maxRetries - 1 {
          waits := waits + [Pow2(attempt)];
        }
      }
      assert first.None?;
      return None, limit, waits;
    }

    /** `get_candidate_scores_batch`: the entries' fetches run one after another, sharing the cache. */
    method GetCandidateScoresBatch(entries: seq<(string, SkillList)>, upstream: (nat, nat) -> Upstream)
      returns (results: map<string, real>)
      modifies this
      ensures BatchState(results, cache) == Batch(entries, upstream, maxRetries, old(cache))
    {
      results := map[];
      for i := 0 to |entries|
        invariant BatchState(results, cache) == Batch(entries[..i], upstream, maxRetries, old(cache))
      {
        var (candidateId, skills) := entries[i];
        var score, _, _ := GetCandidateScore(candidateId, skills, EntryUpstream(upstream, i));
        assert entries[..i + 1][..i] == entries[..i];
        if score.Some? {
          results := results[candidateId := score.value];
        }
      }
      assert entries[..|entries|] == entries;
    }
  }
}
