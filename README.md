# Team formation service core, in Dafny

This project models the core of a small team-formation service and proves
properties of the model. The service stores projects (each with required
skills) and candidates (each with rated skills). It forms the best team of a
given size for a project, and it fetches candidate scores from a flaky
external scoring service, with retries and a cache.

The model has four parts. Each part follows one source file.

- **Team formation engine** (`takehome/team_algorithm.py`).
  - Module `TeamEvaluation` covers `_evaluate_team`. For each required skill
    name it keeps the strictly best member skill: the scan goes candidate by
    candidate, then skill by skill, and the first one found wins ties. It then
    computes coverage and total expertise, and groups the kept assignments
    into `TeamMember`s in the insertion order of the assignment dict.
  - Module `TeamAlgorithm` covers `form_optimal_team`.
    - It clamps the team size.
    - It evaluates every subset of exactly that size, in `itertools.combinations`
      order. Module `Subsets` gives that order as a function on index sequences.
    - It keeps the first subset that is strictly better, by coverage and then
      by total expertise.
  - Both are imperative methods (`EvaluateTeam`, `FormOptimalTeam` and their
    helper loops). Each is proved equal to a specification function, and the
    lemmas say what that function means:
    - per-skill first maximum;
    - coverage in [0, 1], and equal to 1 exactly when at least one name is
      required and every required name is held (0 when none is required);
    - members distinct, with disjoint skill lists that together list exactly
      the covered names;
    - the result is the first maximum over all subsets.
  - The class comment of the source calls the search "greedy + backtracking".
    The code is a plain exhaustive search, and the model follows the code.
- **Scoring client** (`takehome/external_api.py`).
  - Class `ExternalApi.ExternalApiService` has the cache as a field.
  - `GetCandidateScore` runs the counted retry loop with exponential back-off.
  - `GetCandidateScoresBatch` runs the sequential batch loop; the coroutines
    are awaited one after another, so it is an ordinary loop.
  - Each attempt's outcome comes from an oracle `upstream(attempt)`: a parsed
    reply, a caught error, or a raised exception. Sleeps are returned as a list
    of wait times.
  - The methods are proved equal to the specification functions `Fetch` and
    `Batch`. The lemmas cover:
    - cache hits;
    - where the retry loop stops;
    - the default waits [1, 2, 4, 8];
    - the cache only growing;
    - the keys of the batch result, with a later duplicate id winning.
- **Record store** (`takehome/database.py`).
  - Class `Database.Database` holds two tables. Each is a map plus its
    insertion order (Python's dict order), with an id counter.
  - `Valid()` states the class invariant: every stored id is below its
    counter and is the record's own id, and the insertion order is ascending
    and lists exactly the keys.
  - Every create, read, update and delete states its result and the whole
    new state.
- **Value types** (`takehome/models.py`).
  - Module `Models` holds the records as datatypes.
  - Field defaults become default constructor arguments.
  - Field constraints become the predicates `ValidSkill` (level 1..10),
    `ValidCandidate`, `ValidProject` and `ValidTeamFormationRequest` (1 to
    100 ids, team size 1..10).
  - Skill lists may repeat a name.

Clock readings (`datetime.now()`) are the parameter `now`. The HTTP exchange
is the `upstream` oracle. `int` is unbounded, as in Python, and floats are
`real`.

## Model

| member | source | states |
|---|---|---|
| `Subsets.Combinations` | takehome/team_algorithm.py:43 | every enumerated index sequence is a strictly increasing k-subset of 0..n-1, and there is at least one when k <= n |
| `Subsets.CombinationsComplete` | takehome/team_algorithm.py:43 | every strictly increasing k-subset of 0..n-1 is enumerated |
| `Subsets.CombinationsSorted` | takehome/team_algorithm.py:43 | the enumeration is strictly increasing in lexicographic order, so it has no repeats |
| `Subsets.EnumeratedBefore` | takehome/team_algorithm.py:43 | a subset lexicographically smaller than the one at position w comes at an earlier position |
| `Subsets.CombinationsCount` | takehome/team_algorithm.py:43 | there are exactly Binomial(n, k) subsets |
| `Subsets.CombinationsOfAll` | takehome/team_algorithm.py:36-43 | with k = n the only subset is the whole pool, in order |
| `TeamEvaluation.SlotFromTeam` | takehome/team_algorithm.py:86-87 | every slot the scan visits is a skill of some team member |
| `TeamEvaluation.TeamSkillVisited` | takehome/team_algorithm.py:86-87 | every skill of every team member is visited |
| `TeamEvaluation.Assign` | takehome/team_algorithm.py:84-95 | the assignment dict's keys are required names; its insertion order lists each key once; every kept expertise is positive |
| `TeamEvaluation.AssignCount` | takehome/team_algorithm.py:84-95 | the insertion order is as long as the dict has keys |
| `TeamEvaluation.AssignKeepsFirstMaximum` | takehome/team_algorithm.py:86-95 | a name is assigned iff it is required and some visited skill offers it; the assignment is the first visited skill of strictly greatest level |
| `TeamEvaluation.MaxLevel` | takehome/team_algorithm.py:88-95 | reference definition: the greatest level offered for a name (0 if none), attained by some slot |
| `TeamEvaluation.AssignedLevelIsMaximum` | takehome/team_algorithm.py:88-95 | the kept expertise for a name equals the greatest level offered for it |
| `TeamEvaluation.SumOfAssignedMaxima` | takehome/team_algorithm.py:103 | summing the kept assignments sums each covered name's maximum level once |
| `TeamEvaluation.Coverage` | takehome/team_algorithm.py:98-100 | coverage is at least 0, at most 1 when covered <= total, 0 when nothing is required, and 1 exactly when all are covered |
| `TeamEvaluation.CoverageMonotone` | takehome/team_algorithm.py:98-100 | at a fixed denominator, comparing coverages (< and ==) is comparing covered counts |
| `TeamEvaluation.SkillsOf` | takehome/team_algorithm.py:108-117 | a member's assigned skills are exactly the assigned names whose holder has that id |
| `TeamEvaluation.SkillsOfNone` | takehome/team_algorithm.py:108-117 | an id holding no assignment gets no skills |
| `TeamEvaluation.Group` | takehome/team_algorithm.py:106-117 | every id in the member dict's insertion order has an entry |
| `TeamEvaluation.GroupIds` | takehome/team_algorithm.py:106-116 | member ids are distinct, and an id is a member exactly when some assignment names it |
| `TeamEvaluation.GroupEntries` | takehome/team_algorithm.py:108-117 | each member entry carries its own id, the name of an assignment to it, and exactly its assigned names in assignment order |
| `TeamEvaluation.GroupFirstSeenOrder` | takehome/team_algorithm.py:108-117 | members are listed in the order in which their first assigned skill name is visited |
| `TeamEvaluation.GroupMembersDistinct` | takehome/team_algorithm.py:106-119 | the member list has distinct candidate ids |
| `TeamEvaluation.GroupMembersSkills` | takehome/team_algorithm.py:106-119 | each listed member's skills are the assigned names held by that id |
| `TeamEvaluation.GroupMembersNamed` | takehome/team_algorithm.py:106-119 | each listed member's name is the candidate name recorded in one of its assignments |
| `TeamEvaluation.GroupMembersCover` | takehome/team_algorithm.py:106-119 | every assigned name's holder is listed |
| `TeamEvaluation.Evaluate` | takehome/team_algorithm.py:84-119 | an evaluation has coverage in [0, 1] and non-negative total expertise |
| `TeamEvaluation.OfferedIffHeld` | takehome/team_algorithm.py:88-90 | with levels in 1..10, a name is offered to the scan iff some team member holds it |
| `TeamEvaluation.EvaluateTotal` | takehome/team_algorithm.py:103 | the covered names are distinct and are exactly the required names some member holds; total expertise is the sum of their maximum levels |
| `TeamEvaluation.EvaluateCoverage` | takehome/team_algorithm.py:98-100 | coverage is in [0, 1], 0 with no required names, and 1 iff there are required names and every one is held by a member |
| `TeamEvaluation.MembersDistinct` | takehome/team_algorithm.py:106-117 | each returned member appears once and has a non-empty skill list |
| `TeamEvaluation.MembersFromSubset` | takehome/team_algorithm.py:109-116 | each returned member is a candidate of the evaluated subset, with that candidate's id and name |
| `TeamEvaluation.MembersDisjoint` | takehome/team_algorithm.py:108-117 | two different members never share an assigned skill |
| `TeamEvaluation.MembersCoverCovered` | takehome/team_algorithm.py:108-117 | the union of the members' skills is exactly the set of covered names (that each is listed only once is `MembersDisjoint` with `MembersSkillsDistinct`) |
| `TeamEvaluation.GroupMembersNoRepeats` | takehome/team_algorithm.py:106-117 | with a duplicate-free insertion order, no grouped member's skill list names a skill twice |
| `TeamEvaluation.MembersSkillsDistinct` | takehome/team_algorithm.py:108-117 | no member's assigned-skill list names a skill twice, so with `MembersDisjoint` each covered name appears exactly once in the response |
| `TeamEvaluation.MembersHoldMaximum` | takehome/team_algorithm.py:86-117 | each member skill is held by that member at the maximum level offered for it |
| `TeamEvaluation.EvaluateNoneHeld` | takehome/team_algorithm.py:86-103 | when no required name is held, the evaluation is no members, total 0 and coverage 0.0 |
| `TeamEvaluation.MembersWithinTeam` | takehome/team_algorithm.py:106-119 | there are no more members than candidates in the subset |
| `TeamEvaluation.EvaluateTeam` | takehome/team_algorithm.py:69-119 | the nested scan, coverage, sum and grouping compute exactly `Evaluate` |
| `TeamEvaluation.AssignSkills` | takehome/team_algorithm.py:84-95 | the candidate-by-candidate scan builds exactly `Assign` over all slots |
| `TeamEvaluation.ConsiderCandidate` | takehome/team_algorithm.py:87-95 | the skill-by-skill scan of one candidate extends the assignment fold by that candidate's slots |
| `TeamEvaluation.ConsiderSkill` | takehome/team_algorithm.py:88-95 | the body of the inner loop performs exactly one `Consider` step: a required name is (re)assigned only on a strictly greater level, a new name is appended to the insertion order |
| `TeamEvaluation.GroupByCandidate` | takehome/team_algorithm.py:106-117 | the grouping loop builds exactly the member list of `Group` |
| `TeamAlgorithm.RequiredSkills` | takehome/team_algorithm.py:33 | the required dict has a key exactly for each name in the project's skills |
| `TeamAlgorithm.RequiredLevelIsLast` | takehome/team_algorithm.py:33 | for a repeated name, the last occurrence's level is kept |
| `TeamAlgorithm.PickedMembersDrawn` | takehome/team_algorithm.py:43-45 | the evaluation of a picked index subset has at most one member per pick, each a pool candidate with its own id and name |
| `TeamAlgorithm.Search` | takehome/team_algorithm.py:39-57 | the search ends in its initial state or holds the members, total and coverage of some evaluated subset |
| `TeamAlgorithm.SearchKeepsFirstBest` | takehome/team_algorithm.py:39-57 | when every evaluation has total >= 0 and coverage >= 0, the search keeps the first evaluation that no other outranks and that outranks every earlier one, so the `best_team is None` fallback is never taken |
| `TeamAlgorithm.OptimalTeam` | takehome/team_algorithm.py:13-66 | coverage is in [0, 1], total is non-negative, and no candidates or a size <= 0 give the response with no members, total 0 and coverage 0.0 |
| `TeamAlgorithm.FormOptimalTeam` | takehome/team_algorithm.py:13-66 | the loop over combinations returns exactly `OptimalTeam` |
| `TeamAlgorithm.CompareTeam` | takehome/team_algorithm.py:44-57 | the body of the search loop evaluates one subset and performs exactly one `Compare` step of the search |
| `TeamAlgorithm.NoSubsetOutranks` | takehome/team_algorithm.py:43-57 | no subset of the effective size has higher coverage, or equal coverage and more expertise, than the kept one |
| `TeamAlgorithm.OutranksEarlierSubsets` | takehome/team_algorithm.py:43-57 | the kept subset strictly outranks every subset enumerated before it, so ties go to the first |
| `TeamAlgorithm.OptimalTeamIsFirstBest` | takehome/team_algorithm.py:36-66 | for a non-empty pool and positive size, the result is the evaluation of a first-best subset of size min(team_size, len(candidates)) |
| `TeamAlgorithm.OptimalTeamWithinSize` | takehome/team_algorithm.py:36-66 | the team has at most min(team_size, len(candidates)) members, each a pool candidate with its own id and name |
| `TeamAlgorithm.ClampedToWholePool` | takehome/team_algorithm.py:36 | a size at least the pool size evaluates the whole pool |
| `TeamAlgorithm.RequiredLevelsIrrelevant` | takehome/team_algorithm.py:33 | projects with the same set of skill names get the same result, whatever their order, repetitions and required levels |
| `TeamAlgorithm.NoneHeldGivesEmptyTeam` | takehome/team_algorithm.py:43-66 | if no candidate holds a required name, the result is an empty team, total 0, coverage 0.0 |
| `ExternalApi.AttemptScore` | takehome/external_api.py:92-100 | an attempt yields a score iff the service replied with success and non-empty scores; the score is their mean |
| `ExternalApi.DefaultResponseYieldsNothing` | takehome/external_api.py:97-100 | a reply with all defaults (no scores) yields no score |
| `ExternalApi.MeanWithin` | takehome/external_api.py:98 | the mean of scores in [lo, hi] is in [lo, hi] |
| `ExternalApi.MeanOfEqual` | takehome/external_api.py:98 | the mean of equal scores is that score |
| `ExternalApi.Backoff` | takehome/external_api.py:53-57 | n failed non-final attempts give n waits |
| `ExternalApi.BackoffDoubles` | takehome/external_api.py:53-57 | the first wait is 1 second and each next wait doubles |
| `ExternalApi.FirstSuccess` | takehome/external_api.py:42-49 | the loop stops at the first attempt below max_retries that yields a score; all earlier ones yield none |
| `ExternalApi.RetryStopsAtFirstScore` | takehome/external_api.py:42-60 | at most max_retries attempts; a score comes from the last attempt made and all earlier failed; no score means every attempt failed; one wait after each failed attempt but the last |
| `ExternalApi.DefaultRetriesWaits` | takehome/external_api.py:53-57 | with the default 5 retries all failing, 5 attempts are made with waits [1, 2, 4, 8] |
| `ExternalApi.FetchHit` | takehome/external_api.py:36-39 | a cached key returns the cached value with no attempt, no wait and no cache change |
| `ExternalApi.FetchGrowsCache` | takehome/external_api.py:42-60 | cached entries are never changed or removed; a score is stored under the key; a failure leaves the cache as it was |
| `ExternalApi.FetchIdempotent` | takehome/external_api.py:36-49 | after a successful fetch, fetching the same key again returns the same score from the cache |
| `ExternalApi.BatchStep` | takehome/external_api.py:131-134 | each entry adds its score under its id, or leaves the results as they were when it gets none |
| `ExternalApi.BatchKeys` | takehome/external_api.py:125-136 | an id is in the batch result iff some entry with that id got a score |
| `ExternalApi.BatchLastWins` | takehome/external_api.py:130-134 | an id maps to the score of the last entry with that id that got one |
| `ExternalApi.ExternalApiService.constructor` | takehome/external_api.py:15-18 | retries and timeout as given (5 and 30.0 by default) and an empty cache |
| `ExternalApi.ExternalApiService.GetCandidateScore` | takehome/external_api.py:20-60 | the cache check and the retry loop return, and leave in the cache, exactly what `Fetch` gives |
| `ExternalApi.ExternalApiService.GetCandidateScoresBatch` | takehome/external_api.py:112-136 | the sequential batch loop returns, and leaves in the cache, exactly what `Batch` gives |
| `Database.Without` | takehome/database.py:47-51 | deleting a key removes exactly that id from the insertion order |
| `Database.Database.constructor` | takehome/database.py:7-11 | empty tables and both counters at 1 |
| `Database.Database.CreateProject` | takehome/database.py:13-25 | the new project gets the old counter as its id, an id not stored before; the counter goes up by one; only that key is added |
| `Database.Database.GetProject` | takehome/database.py:27-28 | the stored project under the id, with that id, or none when absent |
| `Database.Database.GetAllProjects` | takehome/database.py:30-31 | every stored project exactly once, in ascending id (insertion) order |
| `Database.Database.UpdateProject` | takehome/database.py:33-45 | an absent id gives none and changes nothing; otherwise new title and skills, same id and creation time, nothing else changed |
| `Database.Database.DeleteProject` | takehome/database.py:47-51 | true iff the id was stored; only that key is removed; the counter stays |
| `Database.Database.CreateCandidate` | takehome/database.py:53-66 | as for projects, and the new candidate has no special score |
| `Database.Database.GetCandidate` | takehome/database.py:68-69 | the stored candidate under the id, with that id, or none when absent |
| `Database.Database.GetAllCandidates` | takehome/database.py:71-72 | every stored candidate exactly once, in ascending id (insertion) order |
| `Database.Database.GetCandidatesByIds` | takehome/database.py:74-75 | only stored candidates are returned, and every requested stored id contributes its candidate |
| `Database.Database.CandidatesByIdsAppend` | takehome/database.py:75 | the lookup of a concatenation is the concatenation of the lookups, so input order and duplicates are kept |
| `Database.Database.CandidatesByOneId` | takehome/database.py:75 | one id yields its stored candidate, or nothing when absent |
| `Database.Database.UpdateCandidate` | takehome/database.py:77-90 | an absent id gives none and changes nothing; otherwise new name and skills, same id, creation time and special score |
| `Database.Database.UpdateCandidateScore` | takehome/database.py:92-98 | an absent id gives none and changes nothing; otherwise only the special score and update time change |
| `Database.Database.DeleteCandidate` | takehome/database.py:100-104 | true iff the id was stored; only that key is removed; the counter stays |
| `Database.FirstRecordsGetIdOne` | takehome/database.py:7-15 | in a fresh store the first project and the first candidate get id 1, and the candidate has no special score |
| `Database.DeletedIdNotReused` | takehome/database.py:13-51 | creating, deleting and creating again hands out ids 1 then 2: a deleted id is not reused |

## Left out

- HTTP transport, request construction and error classes of `_call_score_api` (takehome/external_api.py:77-91, 102-110): the oracle `Upstream` stands for their outcome (reply, caught error, raised exception).
- The per-request timeout: `ExternalApiService.timeout` is stored and never used by the model.
- `asyncio.sleep`: the waits are returned as a list, not performed.
- Logging in every file.
- Python's salted `hash()` in the cache key: the key is the pair (candidate id, skills), so two distinct skill lists never share an entry. A hash collision in the source would make them share one.
- Floating point: coverage and the mean are exact `real` quotients. Rounding is not modelled, and the source's coverage comparisons are assumed to behave like exact ones at a fixed denominator.
- `datetime.now()`: the clock reading is the parameter `now`. Timestamps are never inspected.
- Database.Database.CreateProject: the source reads the clock twice, once for `created_at` and once for `updated_at`; the model takes one reading `now` for both, so its contract makes the two equal where the source may let them differ by the time between the calls.
- Database.Database.CreateCandidate: the same single clock reading stands for the two `datetime.now()` calls, with the same consequence.
- Database.Database.UpdateCandidateScore: the source mutates the stored object in place, so earlier references to that record see the new score; the model replaces the map entry and does not model that aliasing.
- Database.Database.GetCandidatesByIds: its own contract states membership only; order and duplicates are stated by the two lemmas beside it.
- Concurrency: the batch awaits its tasks one after another, so it is modelled as a sequential loop. Concurrent requests to the service are not modelled.
- Module-level singletons (`db`, `external_api_service`): modelled as explicit instances.
- Pydantic's validation machinery: only the resulting predicates `ValidSkill`, `ValidCandidate`, `ValidProject` and `ValidTeamFormationRequest` are kept. The engine lemmas that need positive levels require `ValidCandidate`.
- `CandidateScoreRequest` is kept as a datatype only. It is the HTTP body, which the oracle replaces.
- The HTTP routes and the application wiring are not part of this model.
