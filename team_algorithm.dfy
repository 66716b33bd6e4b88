/**
 * `TeamFormationAlgorithm.form_optimal_team`: an exhaustive search over every
 * subset of the clamped team size, in `itertools.combinations` order, keeping
 * the first subset that is strictly better by coverage and then by total
 * expertise.
 */
module TeamAlgorithm {
  import opened Wrappers
  import opened Models
  import opened Subsets
  import opened TeamEvaluation

  /**
   * The dict comprehension `{skill.name: skill.expertise_level ...}`: one key
   * per distinct name, and a later duplicate name overwrites the level.
   */
  function RequiredSkills(skills: seq<Skill>): (r: map<string, int>)
    ensures forall name :: name in r <==> exists i :: 0 <= i < |skills| && skills[i].name == name
  {
    if skills == [] then map[]
    else
      var last := skills[|skills| - 1];
      assert forall i :: 0 <= i < |skills| - 1 ==> skills[..|skills| - 1][i] == skills[i];
      RequiredSkills(skills[..|skills| - 1])[last.name := last.expertiseLevel]
  }

  /** The level kept for a name is that of its last occurrence. */
  lemma {:induction false} RequiredLevelIsLast(skills: seq<Skill>, i: int)
    requires 0 <= i < |skills|
    requires forall j :: i < j < |skills| ==> skills[j].name != skills[i].name
    ensures RequiredSkills(skills)[skills[i].name] == skills[i].expertiseLevel
  {
    if i < |skills| - 1 {
      var prefix := skills[..|skills| - 1];
      assert prefix[i] == skills[i];
      RequiredLevelIsLast(prefix, i);
    }
  }

  function Min(a: int, b: int): int
  {
    if a < b then a else b
  }

  /** The candidates at the positions listed in `s`: one tuple of `combinations(candidates, k)`. */
  function Pick(candidates: seq<Candidate>, s: seq<nat>): seq<Candidate>
    requires forall i :: 0 <= i < |s| ==> s[i] < |candidates|
  {
    seq(|s|, i requires 0 <= i < |s| => candidates[s[i]])
  }

  /** The evaluation of every subset in `combos`, in enumeration order. */
  function Evaluations(candidates: seq<Candidate>, combos: seq<seq<nat>>, required: set<string>): seq<Evaluation>
    requires forall c :: c in combos ==> forall i :: 0 <= i < |c| ==> c[i] < |candidates|
  {
    seq(|combos|, k requires 0 <= k < |combos| => Evaluate(Pick(candidates, combos[k]), required))
  }

  /** The search's comparison: higher coverage, or the same coverage and a higher total expertise. */
  predicate Beats(e: Evaluation, coverage: real, score: int)
  {
    e.coverage > coverage || (e.coverage == coverage && e.totalExpertise > score)
  }

  predicate Outranks(a: Evaluation, b: Evaluation)
  {
    Beats(a, b.coverage, b.totalExpertise)
  }

  /** The search's state: `best_team`, `best_score` and `best_coverage`. */
  datatype Standing = Standing(team: Option<seq<TeamMember>>, score: int, coverage: real)

  function Kept(e: Evaluation): Standing
  {
    Standing(Some(e.members), e.totalExpertise, e.coverage)
  }

  /** One comparison of the search: a strictly better evaluation replaces the kept one. */
  function Compare(st: Standing, e: Evaluation): Standing
  {
    if Beats(e, st.coverage, st.score) then Kept(e) else st
  }

  /** The state after the search has compared the evaluations of `evals`, one by one. */
  function Search(evals: seq<Evaluation>): (st: Standing)
    ensures st == Standing(None, -1, 0.0) || exists k :: 0 <= k < |evals| && st == Kept(evals[k])
  {
    if evals == [] then Standing(None, -1, 0.0)
    else Compare(Search(evals[..|evals| - 1]), evals[|evals| - 1])
  }

  /** The search over one more evaluation is one comparison further. */
  lemma SearchStep(evals: seq<Evaluation>, k: int)
    requires 0 <= k < |evals|
    ensures Search(evals[..k + 1]) == Compare(Search(evals[..k]), evals[k])
  {
    assert evals[..k + 1][..k] == evals[..k];
  }

  /** Evaluation `evals[w]` is not outranked by any other, and outranks all earlier ones. */
  ghost predicate FirstBest(evals: seq<Evaluation>, w: int)
  {
    && 0 <= w < |evals|
    && (forall j :: 0 <= j < |evals| ==> !Outranks(evals[j], evals[w]))
    && (forall j :: 0 <= j < w ==> Outranks(evals[w], evals[j]))
  }

  ghost predicate Scored(evals: seq<Evaluation>)
  {
    forall k :: 0 <= k < |evals| ==> evals[k].coverage >= 0.0 && evals[k].totalExpertise >= 0
  }

  /**
   * With coverages and totals never negative, the first evaluation always
   * replaces the initial state, and the search ends holding the first
   * maximum by (coverage, total expertise).
   */
  lemma {:induction false} SearchKeepsFirstBest(evals: seq<Evaluation>)
    requires |evals| > 0 && Scored(evals)
    ensures exists w :: FirstBest(evals, w) && Search(evals) == Kept(evals[w])
  {
    var prefix := evals[..|evals| - 1];
    var e := evals[|evals| - 1];
    assert forall k :: 0 <= k < |prefix| ==> prefix[k] == evals[k];
    if prefix == [] {
      assert FirstBest(evals, 0);
    } else {
      SearchKeepsFirstBest(prefix);
      var w :| FirstBest(prefix, w) && Search(prefix) == Kept(prefix[w]);
      if Outranks(e, prefix[w]) {
        assert FirstBest(evals, |evals| - 1);
      } else {
        assert FirstBest(evals, w);
      }
    }
  }

  /** The response reporting one evaluation. */
  function Response(e: Evaluation): TeamFormationResponse
  {
    TeamFormationResponse(e.members, e.totalExpertise, e.coverage)
  }

  /** What `form_optimal_team` returns. */
  function OptimalTeam(project: Project, candidates: seq<Candidate>, teamSize: int): (r: TeamFormationResponse)
    ensures 0.0 <= r.coverage <= 1.0 && r.totalExpertise >= 0
    ensures (|candidates| == 0 || teamSize <= 0) ==> r == TeamFormationResponse([], 0, 0.0)
  {
    if |candidates| == 0 || teamSize <= 0 then TeamFormationResponse([], 0, 0.0)
    else
      var required := RequiredSkills(project.skills).Keys;
      var combos := Combinations(|candidates|, Min(teamSize, |candidates|));
      var evals := Evaluations(candidates, combos, required);
      var st := Search(evals);
      if st.team.None? then TeamFormationResponse([], 0, 0.0)
      else TeamFormationResponse(st.team.value, st.score, st.coverage)
  }

  /** `form_optimal_team`. */
  method FormOptimalTeam(project: Project, candidates: seq<Candidate>, teamSize: int) returns (r: TeamFormationResponse)
    ensures r == OptimalTeam(project, candidates, teamSize)
  {
    if |candidates| == 0 || teamSize <= 0 {
      return TeamFormationResponse([], 0, 0.0);
    }
    var required := RequiredSkills(project.skills);
    var size := Min(teamSize, |candidates|);
    var bestTeam: Option<seq<TeamMember>> := None;
    var bestScore := -1;
    var bestCoverage := 0.0;
    var combos := Combinations(|candidates|, size);
    ghost var evals := Evaluations(candidates, combos, required.Keys);
    for k := 0 to |combos|
      invariant Standing(bestTeam, bestScore, bestCoverage) == Search(evals[..k])
    {
      SearchStep(evals, k);
      bestTeam, bestScore, bestCoverage :=
        CompareTeam(bestTeam, bestScore, bestCoverage, Pick(candidates, combos[k]), required.Keys);
    }
    assert evals[..|combos|] == evals;
    if bestTeam.None? {
      return TeamFormationResponse([], 0, 0.0);
    }
    return TeamFormationResponse(bestTeam.value, bestScore, bestCoverage);
  }

  /** The body of the search loop: evaluate one subset and keep it when it is strictly better. */
  method CompareTeam(bestTeam0: Option<seq<TeamMember>>, bestScore0: int, bestCoverage0: real,
                     team: seq<Candidate>, required: set<string>)
    returns (bestTeam: Option<seq<TeamMember>>, bestScore: int, bestCoverage: real)
    ensures Standing(bestTeam, bestScore, bestCoverage) ==
            Compare(Standing(bestTeam0, bestScore0, bestCoverage0), Evaluate(team, required))
  {
    bestTeam, bestScore, bestCoverage := bestTeam0, bestScore0, bestCoverage0;
    var members, totalExpertise, coverage := EvaluateTeam(team, required);
    if coverage > bestCoverage || (coverage == bestCoverage && totalExpertise > bestScore) {
      bestTeam := Some(members);
      bestScore := totalExpertise;
      bestCoverage := coverage;
    }
  }

  // ---------------------------------------------------------------------------
  // Properties of the search

  /**
   * Subset `w` is the one kept by the search: a subset of the effective size
   * that no subset outranks, and that outranks every subset enumerated before
   * it.
   */
  ghost predicate FirstBestSubset(candidates: seq<Candidate>, required: set<string>, size: nat, w: seq<nat>)
  {
    && IsCombination(w, 0, |candidates|, size)
    && (forall s :: IsCombination(s, 0, |candidates|, size) ==>
          !Outranks(Evaluate(Pick(candidates, s), required), Evaluate(Pick(candidates, w), required)))
    && (forall s :: IsCombination(s, 0, |candidates|, size) && LexLess(s, w) ==>
          Outranks(Evaluate(Pick(candidates, w), required), Evaluate(Pick(candidates, s), required)))
  }

  /** The evaluations of all subsets of `size` candidates, in enumeration order. */
  ghost function SubsetEvaluations(candidates: seq<Candidate>, required: set<string>, size: nat): (evals: seq<Evaluation>)
    ensures |evals| == |Combinations(|candidates|, size)|
  {
    Evaluations(candidates, Combinations(|candidates|, size), required)
  }

  lemma NoSubsetOutranks(candidates: seq<Candidate>, required: set<string>, size: nat, i: int)
    requires FirstBest(SubsetEvaluations(candidates, required, size), i)
    ensures forall s :: IsCombination(s, 0, |candidates|, size) ==>
              !Outranks(Evaluate(Pick(candidates, s), required), SubsetEvaluations(candidates, required, size)[i])
  {
    var n := |candidates|;
    var combos := Combinations(n, size);
    var evals := SubsetEvaluations(candidates, required, size);
    forall s | IsCombination(s, 0, n, size)
      ensures !Outranks(Evaluate(Pick(candidates, s), required), evals[i])
    {
      CombinationsComplete(s, n, size);
      var j :| 0 <= j < |combos| && combos[j] == s;
      assert evals[j] == Evaluate(Pick(candidates, s), required);
    }
  }

  lemma OutranksEarlierSubsets(candidates: seq<Candidate>, required: set<string>, size: nat, i: int)
    requires FirstBest(SubsetEvaluations(candidates, required, size), i)
    ensures forall s :: IsCombination(s, 0, |candidates|, size) && LexLess(s, Combinations(|candidates|, size)[i]) ==>
              Outranks(SubsetEvaluations(candidates, required, size)[i], Evaluate(Pick(candidates, s), required))
  {
    var n := |candidates|;
    var combos := Combinations(n, size);
    var evals := SubsetEvaluations(candidates, required, size);
    forall s | IsCombination(s, 0, n, size) && LexLess(s, combos[i])
      ensures Outranks(evals[i], Evaluate(Pick(candidates, s), required))
    {
      EnumeratedBefore(n, size, s, i);
      var j :| 0 <= j < i && combos[j] == s;
      assert evals[j] == Evaluate(Pick(candidates, s), required);
    }
  }

  /**
   * For a non-empty pool and a positive size, the response reports the
   * subset the search keeps, among all subsets of `min(team_size, n)`
   * candidates; the `best_team is None` fallback is never taken.
   */
  lemma OptimalTeamIsFirstBest(project: Project, candidates: seq<Candidate>, teamSize: int)
    requires |candidates| > 0 && teamSize > 0
    ensures exists w :: FirstBestSubset(candidates, RequiredSkills(project.skills).Keys, Min(teamSize, |candidates|), w) &&
                        OptimalTeam(project, candidates, teamSize) ==
                        Response(Evaluate(Pick(candidates, w), RequiredSkills(project.skills).Keys))
  {
    var n := |candidates|;
    var size := Min(teamSize, n);
    var required := RequiredSkills(project.skills).Keys;
    var combos := Combinations(n, size);
    var evals := SubsetEvaluations(candidates, required, size);
    SearchKeepsFirstBest(evals);
    var i :| FirstBest(evals, i) && Search(evals) == Kept(evals[i]);
    NoSubsetOutranks(candidates, required, size, i);
    OutranksEarlierSubsets(candidates, required, size, i);
    var w := combos[i];
    assert w in combos;
    assert FirstBestSubset(candidates, required, size, w);
  }

  /** Every member of `team` is a candidate of `pool`, by id and name. */
  ghost predicate DrawnFrom(team: seq<TeamMember>, pool: seq<Candidate>)
  {
    forall i :: 0 <= i < |team| ==>
      exists c :: 0 <= c < |pool| && pool[c].id == team[i].candidateId && pool[c].name == team[i].name
  }

  /**
   * The response lists candidates of the pool, never more than `team_size`
   * of them, and never more than the pool holds.
   */
  lemma OptimalTeamWithinSize(project: Project, candidates: seq<Candidate>, teamSize: int)
    ensures var r := OptimalTeam(project, candidates, teamSize);
            && |r.team| <= |candidates|
            && (teamSize > 0 ==> |r.team| <= teamSize)
            && DrawnFrom(r.team, candidates)
  {
    if |candidates| > 0 && teamSize > 0 {
      var required := RequiredSkills(project.skills).Keys;
      var size := Min(teamSize, |candidates|);
      OptimalTeamIsFirstBest(project, candidates, teamSize);
      var w :| FirstBestSubset(candidates, required, size, w) &&
               OptimalTeam(project, candidates, teamSize) == Response(Evaluate(Pick(candidates, w), required));
      PickedMembersDrawn(candidates, w, required);
    }
  }

  /** The members of a picked subset's evaluation are candidates of the pool, at most one per pick. */
  lemma PickedMembersDrawn(candidates: seq<Candidate>, w: seq<nat>, required: set<string>)
    requires forall i :: 0 <= i < |w| ==> w[i] < |candidates|
    ensures |Evaluate(Pick(candidates, w), required).members| <= |w|
    ensures DrawnFrom(Evaluate(Pick(candidates, w), required).members, candidates)
  {
    var team := Pick(candidates, w);
    var members := Evaluate(team, required).members;
    MembersWithinTeam(team, required);
    MembersFromSubset(team, required);
    forall i | 0 <= i < |members|
      ensures exists c :: 0 <= c < |candidates| && candidates[c].id == members[i].candidateId &&
                          candidates[c].name == members[i].name
    {
      var k :| 0 <= k < |team| && team[k].id == members[i].candidateId && team[k].name == members[i].name;
      assert team[k] == candidates[w[k]];
    }
  }

  /**
   * When `team_size` is at least the pool size, the only subset is the whole
   * pool, and the response is its evaluation.
   */
  lemma ClampedToWholePool(project: Project, candidates: seq<Candidate>, teamSize: int)
    requires 0 < |candidates| <= teamSize
    ensures OptimalTeam(project, candidates, teamSize) ==
            Response(Evaluate(candidates, RequiredSkills(project.skills).Keys))
  {
    var n := |candidates|;
    var required := RequiredSkills(project.skills).Keys;
    CombinationsOfAll(n);
    assert Min(teamSize, n) == n;
    var combos := Combinations(n, n);
    assert Pick(candidates, Range(0, n)) == candidates;
    var e := Evaluate(candidates, required);
    var evals := Evaluations(candidates, combos, required);
    assert evals == [e];
    assert Search(evals) == Kept(e) by {
      assert evals[..0] == [];
    }
  }

  /** Only the required names matter: the projects' expertise levels never change the response. */
  lemma RequiredLevelsIrrelevant(p1: Project, p2: Project, candidates: seq<Candidate>, teamSize: int)
    requires SkillNames(p1.skills) == SkillNames(p2.skills)
    ensures OptimalTeam(p1, candidates, teamSize) == OptimalTeam(p2, candidates, teamSize)
  {
    forall name ensures name in RequiredSkills(p1.skills) <==> name in RequiredSkills(p2.skills) {
      if name in RequiredSkills(p1.skills) {
        var i :| 0 <= i < |p1.skills| && p1.skills[i].name == name;
        assert name in SkillNames(p1.skills);
      }
      if name in RequiredSkills(p2.skills) {
        var i :| 0 <= i < |p2.skills| && p2.skills[i].name == name;
        assert name in SkillNames(p2.skills);
      }
    }
    assert RequiredSkills(p1.skills).Keys == RequiredSkills(p2.skills).Keys;
  }

  /** The names of a skill list, in any order and with duplicates merged. */
  ghost function SkillNames(skills: seq<Skill>): set<string>
  {
    set i | 0 <= i < |skills| :: skills[i].name
  }

  /** A name listed by a member of a subset is listed by a candidate of the pool. */
  lemma HeldInPool(candidates: seq<Candidate>, s: seq<nat>, name: string)
    requires forall i :: 0 <= i < |s| ==> s[i] < |candidates|
    ensures Holds(Pick(candidates, s), name) ==> Holds(candidates, name)
  {
    var team := Pick(candidates, s);
    if Holds(team, name) {
      var c, k :| 0 <= c < |team| && 0 <= k < |team[c].skills| && team[c].skills[k].name == name;
      assert candidates[s[c]].skills[k].name == name;
    }
  }

  /**
   * A pool in which no candidate lists a required name yields the empty
   * response, as if there were no candidates at all.
   */
  lemma NoneHeldGivesEmptyTeam(project: Project, candidates: seq<Candidate>, teamSize: int)
    requires forall name :: name in RequiredSkills(project.skills) ==> !Holds(candidates, name)
    ensures OptimalTeam(project, candidates, teamSize) == TeamFormationResponse([], 0, 0.0)
  {
    if |candidates| > 0 && teamSize > 0 {
      var required := RequiredSkills(project.skills).Keys;
      var size := Min(teamSize, |candidates|);
      OptimalTeamIsFirstBest(project, candidates, teamSize);
      var w :| FirstBestSubset(candidates, required, size, w) &&
               OptimalTeam(project, candidates, teamSize) == Response(Evaluate(Pick(candidates, w), required));
      var team := Pick(candidates, w);
      forall name | name in required
        ensures !Holds(team, name)
      {
        HeldInPool(candidates, w, name);
      }
      EvaluateNoneHeld(team, required);
    }
  }
}
