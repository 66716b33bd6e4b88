/**
 * The record types of takehome/models.py. Pydantic's field constraints become
 * validity predicates; its field defaults become default parameter values of
 * the datatype constructors.
 */
module Models {
  import opened Wrappers

  /** A clock reading taken by the record store; the model never inspects it. */
  type Timestamp = int

  /** A named skill with a self-rated expertise level. */
  datatype Skill = Skill(name: string, expertiseLevel: int)

  /** `expertise_level` is constrained to 1..10 (`ge=1, le=10`). */
  predicate ValidSkill(s: Skill)
  {
    1 <= s.expertiseLevel <= 10
  }

  /**
   * Every skill of a list is valid. There is no uniqueness constraint on the
   * names: a list may name the same skill twice.
   */
  predicate ValidSkills(skills: seq<Skill>)
  {
    forall i :: 0 <= i < |skills| ==> ValidSkill(skills[i])
  }

  /** The body of a create or update request for a project. */
  datatype ProjectCreate = ProjectCreate(title: string, skills: seq<Skill>)

  /** A stored project; `skills` are the required skills. */
  datatype Project = Project(
    id: int,
    title: string,
    skills: seq<Skill>,
    createdAt: Timestamp,
    updatedAt: Timestamp)

  /** The body of a create or update request for a candidate. */
  datatype CandidateCreate = CandidateCreate(name: string, skills: seq<Skill>)

  /** A stored candidate; `specialScore` is optional and absent unless set. */
  datatype Candidate = Candidate(
    id: int,
    name: string,
    skills: seq<Skill>,
    createdAt: Timestamp,
    updatedAt: Timestamp,
    specialScore: Option<real> := None)

  predicate ValidCandidate(c: Candidate)
  {
    ValidSkills(c.skills)
  }

  predicate ValidProject(p: Project)
  {
    ValidSkills(p.skills)
  }

  /** One person of a formed team and the required skill names assigned to them. */
  datatype TeamMember = TeamMember(candidateId: int, name: string, assignedSkills: seq<string>)

  /** A request to form a team for a stored project. */
  datatype TeamFormationRequest = TeamFormationRequest(projectId: int, candidateIds: seq<int>, teamSize: int)

  /** 1 to 100 candidate ids (`min_items=1, max_items=100`) and a team size in 1..10. */
  predicate ValidTeamFormationRequest(r: TeamFormationRequest)
  {
    1 <= |r.candidateIds| <= 100 && 1 <= r.teamSize <= 10
  }

  /** The formed team, the sum of the assigned expertise levels and the fraction of required skills covered. */
  datatype TeamFormationResponse = TeamFormationResponse(team: seq<TeamMember>, totalExpertise: int, coverage: real)

  /** What the scoring service is sent: a candidate id and (skill name, level) pairs. */
  datatype CandidateScoreRequest = CandidateScoreRequest(candidateId: string, skills: seq<(string, real)>)

  /** What the scoring service answers; only `latencyMs` has no default. */
  datatype CandidateScoreResponse = CandidateScoreResponse(
    latencyMs: int,
    success: bool := true,
    errorLog: Option<string> := None,
    specialScores: seq<real> := [])
}
