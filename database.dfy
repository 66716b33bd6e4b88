/**
 * `Database`: the in-memory record store. Two tables keyed by integer ids,
 * each with a counter handing out the next id. The clock reading that the
 * store stamps on records is passed in as `now`.
 */
module Database {
  import opened Wrappers
  import opened Models

  ghost predicate Increasing(s: seq<int>)
  {
    forall i, j :: 0 <= i < j < |s| ==> s[i] < s[j]
  }

  /**
   * `order` is the insertion order of a dict whose keys are `keys`. Ids come
   * from a counter that only grows, so that order is ascending.
   */
  ghost predicate Lists(order: seq<int>, keys: set<int>)
  {
    Increasing(order) && forall id :: id in keys <==> id in order
  }

  /** The insertion order after `del d[x]`: `x` drops out, the rest keep their places. */
  function Without(s: seq<int>, x: int): (r: seq<int>)
    ensures forall y :: y in r <==> y in s && y != x
  {
    if s == [] then []
    else
      var prefix := s[..|s| - 1];
      assert forall y :: y in s <==> y in prefix || y == s[|s| - 1];
      Without(prefix, x) + (if s[|s| - 1] == x then [] else [s[|s| - 1]])
  }

  /** Dropping an element keeps an ascending order ascending. */
  lemma {:induction false} WithoutIncreasing(s: seq<int>, x: int)
    requires Increasing(s)
    ensures Increasing(Without(s, x))
  {
    if s != [] {
      var prefix := s[..|s| - 1];
      var last := s[|s| - 1];
      assert Increasing(prefix);
      WithoutIncreasing(prefix, x);
      forall y | y in prefix
        ensures y < last
      {
        var i :| 0 <= i < |prefix| && prefix[i] == y;
        assert s[i] == y;
      }
      if last != x {
        AppendKeepsIncreasing(Without(prefix, x), last);
      }
    }
  }

  /** Ids appended in increasing order past every key keep the order ascending. */
  lemma AppendKeepsIncreasing(order: seq<int>, id: int)
    requires Increasing(order)
    requires forall y :: y in order ==> y < id
    ensures Increasing(order + [id])
  {
    var s := order + [id];
    forall i, j | 0 <= i < j < |s|
      ensures s[i] < s[j]
    {
      if j == |order| {
        assert s[i] == order[i];
        assert order[i] in order;
      }
    }
  }

  class Database {
    var projects: map<int, Project>
    var candidates: map<int, Candidate>
    var projectOrder: seq<int>
    var candidateOrder: seq<int>
    var projectCounter: int
    var candidateCounter: int

    /**
     * Each stored record sits under its own id, below the table's counter
     * (so no id is handed out twice), and the counters start at 1.
     */
    ghost predicate Valid()
      reads this
    {
      && projectCounter >= 1 && candidateCounter >= 1
      && (forall id :: id in projects ==> 1 <= id < projectCounter && projects[id].id == id)
      && (forall id :: id in candidates ==> 1 <= id < candidateCounter && candidates[id].id == id)
      && Lists(projectOrder, projects.Keys)
      && Lists(candidateOrder, candidates.Keys)
    }

    constructor()
      ensures Valid()
      ensures projects == map[] && candidates == map[]
      ensures projectOrder == [] && candidateOrder == []
      ensures projectCounter == 1 && candidateCounter == 1
    {
      projects := map[];
      candidates := map[];
      projectOrder := [];
      candidateOrder := [];
      projectCounter := 1;
      candidateCounter := 1;
    }

    // -------------------------------------------------------------------------
    // Projects

    /** `create_project`: the record gets the counter's value as its id, and the counter moves on. */
    method CreateProject(project: ProjectCreate, now: Timestamp) returns (p: Project)
      requires Valid()
      modifies this
      ensures Valid()
      ensures p == Project(old(projectCounter), project.title, project.skills, now, now)
      ensures p.id !in old(projects)
      ensures projects == old(projects)[p.id := p] && projectOrder == old(projectOrder) + [p.id]
      ensures projectCounter == old(projectCounter) + 1
      ensures candidates == old(candidates) && candidateOrder == old(candidateOrder)
      ensures candidateCounter == old(candidateCounter)
    {
      var id := projectCounter;
      projectCounter := projectCounter + 1;
      p := Project(id, project.title, project.skills, now, now);
      AppendKeepsIncreasing(projectOrder, id);
      projects := projects[id := p];
      projectOrder := projectOrder + [id];
    }

    /** `get_project`. */
    function GetProject(id: int): (r: Option<Project>)
      reads this
      ensures r.Some? <==> id in projects
      ensures r.Some? ==> r.value == projects[id]
      ensures Valid() && r.Some? ==> r.value.id == id
    {
      if id in projects then Some(projects[id]) else None
    }

    /** `get_all_projects`: every stored project once, in insertion order, which is ascending id order. */
    function GetAllProjects(): (r: seq<Project>)
      reads this
      requires Valid()
      ensures forall i :: 0 <= i < |r| ==> r[i].id in projects && projects[r[i].id] == r[i]
      ensures forall id :: id in projects ==> exists i :: 0 <= i < |r| && r[i] == projects[id]
      ensures forall i, j :: 0 <= i < j < |r| ==> r[i].id < r[j].id
    {
      assert forall i :: 0 <= i < |projectOrder| ==> projectOrder[i] in projectOrder;
      assert forall i :: 0 <= i < |projectOrder| ==> projectOrder[i] in projects;
      var r := seq(|projectOrder|, i requires 0 <= i < |projectOrder| && projectOrder[i] in projects reads this => projects[projectOrder[i]]);
      assert forall i :: 0 <= i < |r| ==> r[i].id == projectOrder[i];
      forall id | id in projects
        ensures exists i :: 0 <= i < |r| && r[i] == projects[id]
      {
        var i :| 0 <= i < |projectOrder| && projectOrder[i] == id;
        assert r[i] == projects[id];
      }
      r
    }

    /**
     * `update_project`: an absent id changes nothing; a present one gets the
     * new title and skills and keeps its id, place and creation time.
     */
    method UpdateProject(id: int, project: ProjectCreate, now: Timestamp) returns (r: Option<Project>)
      requires Valid()
      modifies this
      ensures Valid()
      ensures id !in old(projects) ==> r == None && projects == old(projects)
      ensures id in old(projects) ==>
                r == Some(Project(id, project.title, project.skills, old(projects)[id].createdAt, now)) &&
                projects == old(projects)[id := r.value]
      ensures projectOrder == old(projectOrder) && projectCounter == old(projectCounter)
      ensures candidates == old(candidates) && candidateOrder == old(candidateOrder)
      ensures candidateCounter == old(candidateCounter)
    {
      if id !in projects {
        return None;
      }
      var updated := Project(id, project.title, project.skills, projects[id].createdAt, now);
      projects := projects[id := updated];
      return Some(updated);
    }

    /** `delete_project`: true exactly when the id was stored; only that record goes, and the counter stays. */
    method DeleteProject(id: int) returns (deleted: bool)
      requires Valid()
      modifies this
      ensures Valid()
      ensures deleted <==> id in old(projects)
      ensures projects == old(projects) - {id} && projectOrder == Without(old(projectOrder), id)
      ensures projectCounter == old(projectCounter)
      ensures candidates == old(candidates) && candidateOrder == old(candidateOrder)
      ensures candidateCounter == old(candidateCounter)
    {
      if id in projects {
        WithoutIncreasing(projectOrder, id);
        projects := projects - {id};
        projectOrder := Without(projectOrder, id);
        return true;
      }
      assert Without(projectOrder, id) == projectOrder by {
        WithoutAbsent(projectOrder, id);
      }
      assert projects - {id} == projects;
      return false;
    }

    // -------------------------------------------------------------------------
    // Candidates

    /** `create_candidate`: as for projects; a new candidate has no special score. */
    method CreateCandidate(candidate: CandidateCreate, now: Timestamp) returns (c: Candidate)
      requires Valid()
      modifies this
      ensures Valid()
      ensures c == Candidate(old(candidateCounter), candidate.name, candidate.skills, now, now, None)
      ensures c.id !in old(candidates)
      ensures candidates == old(candidates)[c.id := c] && candidateOrder == old(candidateOrder) + [c.id]
      ensures candidateCounter == old(candidateCounter) + 1
      ensures projects == old(projects) && projectOrder == old(projectOrder)
      ensures projectCounter == old(projectCounter)
    {
      var id := candidateCounter;
      candidateCounter := candidateCounter + 1;
      c := Candidate(id, candidate.name, candidate.skills, now, now, None);
      AppendKeepsIncreasing(candidateOrder, id);
      candidates := candidates[id := c];
      candidateOrder := candidateOrder + [id];
    }

    /** `get_candidate`. */
    function GetCandidate(id: int): (r: Option<Candidate>)
      reads this
      ensures r.Some? <==> id in candidates
      ensures r.Some? ==> r.value == candidates[id]
      ensures Valid() && r.Some? ==> r.value.id == id
    {
      if id in candidates then Some(candidates[id]) else None
    }

    /** `get_all_candidates`: every stored candidate once, in ascending id order. */
    function GetAllCandidates(): (r: seq<Candidate>)
      reads this
      requires Valid()
      ensures forall i :: 0 <= i < |r| ==> r[i].id in candidates && candidates[r[i].id] == r[i]
      ensures forall id :: id in candidates ==> exists i :: 0 <= i < |r| && r[i] == candidates[id]
      ensures forall i, j :: 0 <= i < j < |r| ==> r[i].id < r[j].id
    {
      assert forall i :: 0 <= i < |candidateOrder| ==> candidateOrder[i] in candidateOrder;
      assert forall i :: 0 <= i < |candidateOrder| ==> candidateOrder[i] in candidates;
      var r := seq(|candidateOrder|, i requires 0 <= i < |candidateOrder| && candidateOrder[i] in candidates reads this => candidates[candidateOrder[i]]);
      assert forall i :: 0 <= i < |r| ==> r[i].id == candidateOrder[i];
      forall id | id in candidates
        ensures exists i :: 0 <= i < |r| && r[i] == candidates[id]
      {
        var i :| 0 <= i < |candidateOrder| && candidateOrder[i] == id;
        assert r[i] == candidates[id];
      }
      r
    }

    /** `get_candidates_by_ids`: the stored candidates for `ids`, in the order of `ids`. */
    function GetCandidatesByIds(ids: seq<int>): (r: seq<Candidate>)
      reads this
      ensures |r| <= |ids|
      ensures forall c :: c in r ==> c in candidates.Values
      ensures forall id :: id in ids && id in candidates ==> candidates[id] in r
    {
      if ids == [] then []
      else
        var prefix := ids[..|ids| - 1];
        var last := ids[|ids| - 1];
        assert forall id :: id in ids <==> id in prefix || id == last;
        GetCandidatesByIds(prefix) + (if last in candidates then [candidates[last]] else [])
    }

    /** Looking up a concatenation of id lists concatenates the lookups. */
    lemma {:induction false} CandidatesByIdsAppend(a: seq<int>, b: seq<int>)
      ensures GetCandidatesByIds(a + b) == GetCandidatesByIds(a) + GetCandidatesByIds(b)
      decreases |b|
    {
      if b != [] {
        var b0 := b[..|b| - 1];
        assert (a + b)[..|a + b| - 1] == a + b0;
        assert (a + b)[|a + b| - 1] == b[|b| - 1];
        CandidatesByIdsAppend(a, b0);
      } else {
        assert a + b == a;
      }
    }

    /** One id yields its stored candidate, or nothing when it is absent. */
    lemma CandidatesByOneId(id: int)
      ensures GetCandidatesByIds([id]) == if id in candidates then [candidates[id]] else []
    {
      assert [id][..0] == [];
    }

    /**
     * `update_candidate`: an absent id changes nothing; a present one gets the
     * new name and skills and keeps its id, special score and creation time.
     */
    method UpdateCandidate(id: int, candidate: CandidateCreate, now: Timestamp) returns (r: Option<Candidate>)
      requires Valid()
      modifies this
      ensures Valid()
      ensures id !in old(candidates) ==> r == None && candidates == old(candidates)
      ensures id in old(candidates) ==>
                r == Some(Candidate(id, candidate.name, candidate.skills, old(candidates)[id].createdAt, now,
                                    old(candidates)[id].specialScore)) &&
                candidates == old(candidates)[id := r.value]
      ensures candidateOrder == old(candidateOrder) && candidateCounter == old(candidateCounter)
      ensures projects == old(projects) && projectOrder == old(projectOrder)
      ensures projectCounter == old(projectCounter)
    {
      if id !in candidates {
        return None;
      }
      var current := candidates[id];
      var updated := Candidate(id, candidate.name, candidate.skills, current.createdAt, now, current.specialScore);
      candidates := candidates[id := updated];
      return Some(updated);
    }

    /**
     * `update_candidate_score`: an absent id changes nothing; a present one
     * gets the score and a new update time, and keeps everything else.
     */
    method UpdateCandidateScore(id: int, specialScore: real, now: Timestamp) returns (r: Option<Candidate>)
      requires Valid()
      modifies this
      ensures Valid()
      ensures id !in old(candidates) ==> r == None && candidates == old(candidates)
      ensures id in old(candidates) ==>
                r == Some(old(candidates)[id].(specialScore := Some(specialScore), updatedAt := now)) &&
                candidates == old(candidates)[id := r.value]
      ensures candidateOrder == old(candidateOrder) && candidateCounter == old(candidateCounter)
      ensures projects == old(projects) && projectOrder == old(projectOrder)
      ensures projectCounter == old(projectCounter)
    {
      if id !in candidates {
        return None;
      }
      var updated := candidates[id].(specialScore := Some(specialScore), updatedAt := now);
      candidates := candidates[id := updated];
      return Some(updated);
    }

    /** `delete_candidate`: true exactly when the id was stored; only that record goes, and the counter stays. */
    method DeleteCandidate(id: int) returns (deleted: bool)
      requires Valid()
      modifies this
      ensures Valid()
      ensures deleted <==> id in old(candidates)
      ensures candidates == old(candidates) - {id} && candidateOrder == Without(old(candidateOrder), id)
      ensures candidateCounter == old(candidateCounter)
      ensures projects == old(projects) && projectOrder == old(projectOrder)
      ensures projectCounter == old(projectCounter)
    {
      if id in candidates {
        WithoutIncreasing(candidateOrder, id);
        candidates := candidates - {id};
        candidateOrder := Without(candidateOrder, id);
        return true;
      }
      assert Without(candidateOrder, id) == candidateOrder by {
        WithoutAbsent(candidateOrder, id);
      }
      assert candidates - {id} == candidates;
      return false;
    }
  }

  /** Removing an absent element leaves the sequence as it is. */
  lemma {:induction false} WithoutAbsent(s: seq<int>, x: int)
    requires x !in s
    ensures Without(s, x) == s
  {
    if s != [] {
      var prefix := s[..|s| - 1];
      assert forall y :: y in prefix ==> y in s;
      WithoutAbsent(prefix, x);
      assert prefix + [s[|s| - 1]] == s;
    }
  }

  /** In a fresh store the first project and the first candidate both get id 1, with no special score. */
  method FirstRecordsGetIdOne(project: ProjectCreate, candidate: CandidateCreate, now: Timestamp)
    returns (p: Project, c: Candidate)
    ensures p.id == 1 && c.id == 1 && c.specialScore == None
  {
    var db := new Database();
    p := db.CreateProject(project, now);
    c := db.CreateCandidate(candidate, now);
  }

  /** Deleting the only project and creating another does not hand out its id again. */
  method DeletedIdNotReused(first: ProjectCreate, second: ProjectCreate, now: Timestamp)
    returns (p: Project, q: Project, deleted: bool)
    ensures deleted && p.id == 1 && q.id == 2
  {
    var db := new Database();
    p := db.CreateProject(first, now);
    deleted := db.DeleteProject(p.id);
    q := db.CreateProject(second, now);
  }
}
