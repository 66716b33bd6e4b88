/**
 * `TeamFormationAlgorithm._evaluate_team` (takehome/team_algorithm.py): for
 * one candidate subset, the best member skill per required skill name, the
 * coverage, the total expertise and the grouping of the assignments into
 * team members.
 *
 * The specification is written as folds over the scan the source performs
 * (candidate by candidate, then skill by skill), so that the loops of
 * `EvaluateTeam` can be tied to it; the lemmas below say what the folds mean.
 */
module TeamEvaluation {
  import opened Models

  /** One (candidate, skill) pair, in the order `_evaluate_team` visits them. */
  datatype Slot = Slot(candidateId: int, candidateName: string, skill: Skill)

  /** A value of `skill_assignments`: `(candidate_id, name, expertise)`. */
  datatype Assignment = Assignment(candidateId: int, candidateName: string, expertise: int)

  /** `skill_assignments`, an insertion-ordered dict: its keys in insertion order, and its entries. */
  datatype Assignments = Assignments(order: seq<string>, best: map<string, Assignment>)

  /** `team_members`, an insertion-ordered dict from candidate id to member. */
  datatype Grouping = Grouping(ids: seq<int>, byId: map<int, TeamMember>)

  /** The triple `_evaluate_team` returns. */
  datatype Evaluation = Evaluation(members: seq<TeamMember>, totalExpertise: int, coverage: real)

  // ---------------------------------------------------------------------------
  // The scan

  /** The slots of one candidate, in the order of its skill list. */
  function CandidateSlots(c: Candidate): seq<Slot>
  {
    seq(|c.skills|, j requires 0 <= j < |c.skills| => Slot(c.id, c.name, c.skills[j]))
  }

  /** All slots of a subset: candidate by candidate, then through each candidate's skills. */
  function Slots(team: seq<Candidate>): seq<Slot>
  {
    if team == [] then [] else Slots(team[..|team| - 1]) + CandidateSlots(team[|team| - 1])
  }

  /** Some member of `team` lists a skill called `name`. */
  ghost predicate Holds(team: seq<Candidate>, name: string)
  {
    exists c, k :: 0 <= c < |team| && 0 <= k < |team[c].skills| && team[c].skills[k].name == name
  }

  /** Every slot comes from a member of the subset. */
  lemma {:induction false} SlotFromTeam(team: seq<Candidate>, i: int)
    requires 0 <= i < |Slots(team)|
    ensures exists c, k :: 0 <= c < |team| && 0 <= k < |team[c].skills| &&
              Slots(team)[i] == Slot(team[c].id, team[c].name, team[c].skills[k])
  {
    var prefix := team[..|team| - 1];
    var last := |team| - 1;
    assert Slots(team) == Slots(prefix) + CandidateSlots(team[last]);
    if i < |Slots(prefix)| {
      SlotFromTeam(prefix, i);
      var c, k :| 0 <= c < |prefix| && 0 <= k < |prefix[c].skills| &&
                  Slots(prefix)[i] == Slot(prefix[c].id, prefix[c].name, prefix[c].skills[k]);
      assert prefix[c] == team[c];
    } else {
      var k := i - |Slots(prefix)|;
      assert Slots(team)[i] == Slot(team[last].id, team[last].name, team[last].skills[k]);
    }
  }

  /** Every skill of every member is visited. */
  lemma {:induction false} TeamSkillVisited(team: seq<Candidate>, c: int, k: int)
    requires 0 <= c < |team| && 0 <= k < |team[c].skills|
    ensures Slot(team[c].id, team[c].name, team[c].skills[k]) in Slots(team)
  {
    var prefix := team[..|team| - 1];
    var last := |team| - 1;
    assert Slots(team) == Slots(prefix) + CandidateSlots(team[last]);
    if c < last {
      assert prefix[c] == team[c];
      TeamSkillVisited(prefix, c, k);
    } else {
      assert CandidateSlots(team[last])[k] == Slot(team[c].id, team[c].name, team[c].skills[k]);
    }
  }

  // ---------------------------------------------------------------------------
  // skill_assignments

  /** The keys of `skill_assignments` are distinct and are exactly the keys of the entries. */
  ghost predicate WellFormed(t: Assignments)
  {
    && (forall i, j :: 0 <= i < j < |t.order| ==> t.order[i] != t.order[j])
    && (forall name :: name in t.best <==> name in t.order)
  }

  /**
   * One step of the scan: a member skill whose name is required replaces the
   * current assignment for that name when its level is strictly greater than
   * the current one (0 when there is none). A new key goes to the end of the
   * insertion order; a replaced one keeps its place.
   */
  function Consider(t: Assignments, s: Slot, required: set<string>): Assignments
  {
    if s.skill.name !in required then t
    else
      var current := if s.skill.name in t.best then t.best[s.skill.name].expertise else 0;
      if s.skill.expertiseLevel > current then
        Assignments(
          if s.skill.name in t.best then t.order else t.order + [s.skill.name],
          t.best[s.skill.name := Assignment(s.candidateId, s.candidateName, s.skill.expertiseLevel)])
      else t
  }

  /** The insertion order lists each key of `skill_assignments` once: as many names as entries. */
  lemma {:induction false} AssignCount(slots: seq<Slot>, required: set<string>)
    ensures |Assign(slots, required).order| == |Assign(slots, required).best|
  {
    if slots != [] {
      AssignCount(slots[..|slots| - 1], required);
    }
  }

  /** `skill_assignments` after the scan has visited `slots`. */
  function Assign(slots: seq<Slot>, required: set<string>): (t: Assignments)
    ensures WellFormed(t)
    ensures t.best.Keys <= required
    ensures forall name :: name in t.best ==> t.best[name].expertise > 0
  {
    if slots == [] then Assignments([], map[])
    else Consider(Assign(slots[..|slots| - 1], required), slots[|slots| - 1], required)
  }

  /** The scan after one more slot is one `Consider` step further. */
  lemma AssignStep(prefix: seq<Slot>, s: Slot, required: set<string>)
    ensures Assign(prefix + [s], required) == Consider(Assign(prefix, required), s, required)
  {
    assert (prefix + [s])[..|prefix|] == prefix;
  }

  /** The slots of one more candidate follow the slots of the candidates before it. */
  lemma SlotsStep(team: seq<Candidate>, ci: int)
    requires 0 <= ci < |team|
    ensures Slots(team[..ci + 1]) == Slots(team[..ci]) + CandidateSlots(team[ci])
  {
    assert team[..ci + 1][..ci] == team[..ci];
  }

  /** Some visited slot offers `name` at a positive level. */
  ghost predicate Offered(slots: seq<Slot>, name: string)
  {
    exists i :: 0 <= i < |slots| && slots[i].skill.name == name && slots[i].skill.expertiseLevel > 0
  }

  /**
   * Slot `i` offers `name` at a positive level that no slot offering `name`
   * exceeds, and every earlier slot offering `name` has a strictly lower level:
   * the maximum, first one encountered on ties.
   */
  ghost predicate FirstMaximum(slots: seq<Slot>, name: string, i: int)
  {
    && 0 <= i < |slots|
    && slots[i].skill.name == name
    && slots[i].skill.expertiseLevel > 0
    && (forall j :: 0 <= j < |slots| && slots[j].skill.name == name ==>
          slots[j].skill.expertiseLevel <= slots[i].skill.expertiseLevel)
    && (forall j :: 0 <= j < i && slots[j].skill.name == name ==>
          slots[j].skill.expertiseLevel < slots[i].skill.expertiseLevel)
  }

  /** The assignment a slot makes. */
  function AssignmentOf(s: Slot): Assignment
  {
    Assignment(s.candidateId, s.candidateName, s.skill.expertiseLevel)
  }

  /** Offering after one more slot: offered before, or offered by that slot. */
  lemma OfferedExtend(prefix: seq<Slot>, s: Slot, name: string)
    ensures Offered(prefix + [s], name) <==>
            Offered(prefix, name) || (s.skill.name == name && s.skill.expertiseLevel > 0)
  {
    var slots := prefix + [s];
    if s.skill.name == name && s.skill.expertiseLevel > 0 {
      assert slots[|prefix|] == s;
    }
    if Offered(slots, name) && !(s.skill.name == name && s.skill.expertiseLevel > 0) {
      var j :| 0 <= j < |slots| && slots[j].skill.name == name && slots[j].skill.expertiseLevel > 0;
      assert j < |prefix| && prefix[j] == slots[j];
    }
    if Offered(prefix, name) {
      var j :| 0 <= j < |prefix| && prefix[j].skill.name == name && prefix[j].skill.expertiseLevel > 0;
      assert slots[j] == prefix[j];
    }
  }

  /** A first maximum stays one when the next slot does not exceed it. */
  lemma FirstMaximumKept(prefix: seq<Slot>, s: Slot, name: string, i: int)
    requires FirstMaximum(prefix, name, i)
    requires !(s.skill.name == name && s.skill.expertiseLevel > prefix[i].skill.expertiseLevel)
    ensures FirstMaximum(prefix + [s], name, i)
  {
    var slots := prefix + [s];
    assert forall j :: 0 <= j < |prefix| ==> slots[j] == prefix[j];
  }

  /** A slot that beats every earlier offer of `name` becomes its first maximum. */
  lemma FirstMaximumNew(prefix: seq<Slot>, s: Slot, name: string)
    requires s.skill.name == name && s.skill.expertiseLevel > 0
    requires forall j :: 0 <= j < |prefix| && prefix[j].skill.name == name ==>
               prefix[j].skill.expertiseLevel < s.skill.expertiseLevel
    ensures FirstMaximum(prefix + [s], name, |prefix|)
  {
    var slots := prefix + [s];
    assert forall j :: 0 <= j < |prefix| ==> slots[j] == prefix[j];
  }

  /**
   * A required name is assigned exactly when some slot offers it at a positive
   * level, and then to the first slot holding the maximum level.
   */
  lemma {:induction false} AssignKeepsFirstMaximum(slots: seq<Slot>, required: set<string>, name: string)
    ensures var t := Assign(slots, required);
            && (name in t.best <==> name in required && Offered(slots, name))
            && (name in t.best ==> exists i :: FirstMaximum(slots, name, i) && t.best[name] == AssignmentOf(slots[i]))
  {
    if slots != [] {
      var prefix := slots[..|slots| - 1];
      var s := slots[|slots| - 1];
      assert slots == prefix + [s];
      AssignKeepsFirstMaximum(prefix, required, name);
      OfferedExtend(prefix, s, name);
      var t0 := Assign(prefix, required);
      if name in t0.best {
        var i :| FirstMaximum(prefix, name, i) && t0.best[name] == AssignmentOf(prefix[i]);
        if s.skill.name == name && s.skill.expertiseLevel > t0.best[name].expertise {
          FirstMaximumNew(prefix, s, name);
        } else {
          FirstMaximumKept(prefix, s, name, i);
        }
      } else if s.skill.name == name && name in required && s.skill.expertiseLevel > 0 {
        FirstMaximumNew(prefix, s, name);
      }
    }
  }

  /** The greatest level at which the slots offer `name`, or 0. */
  function MaxLevel(slots: seq<Slot>, name: string): (m: int)
    ensures m >= 0
    ensures forall j :: 0 <= j < |slots| && slots[j].skill.name == name ==> slots[j].skill.expertiseLevel <= m
    ensures m == 0 || exists j :: 0 <= j < |slots| && slots[j].skill.name == name && slots[j].skill.expertiseLevel == m
  {
    if slots == [] then 0
    else
      var m := MaxLevel(slots[..|slots| - 1], name);
      var s := slots[|slots| - 1];
      if s.skill.name == name && s.skill.expertiseLevel > m then s.skill.expertiseLevel else m
  }

  /** The level kept for an assigned name is the greatest level any member offers for it. */
  lemma AssignedLevelIsMaximum(slots: seq<Slot>, required: set<string>, name: string)
    requires name in Assign(slots, required).best
    ensures Assign(slots, required).best[name].expertise == MaxLevel(slots, name)
  {
    AssignKeepsFirstMaximum(slots, required, name);
    var i :| FirstMaximum(slots, name, i) && Assign(slots, required).best[name] == AssignmentOf(slots[i]);
  }

  // ---------------------------------------------------------------------------
  // total_expertise and coverage

  /** `sum(assignment[2] for assignment in skill_assignments.values())`. */
  function SumExpertise(order: seq<string>, best: map<string, Assignment>): (r: int)
    requires forall name :: name in order ==> name in best
    ensures (forall name :: name in order ==> best[name].expertise >= 0) ==> r >= 0
  {
    if order == [] then 0
    else SumExpertise(order[..|order| - 1], best) + best[order[|order| - 1]].expertise
  }

  /** The sum of the greatest offered levels of `names`. */
  function SumOfMaxima(names: seq<string>, slots: seq<Slot>): int
  {
    if names == [] then 0
    else SumOfMaxima(names[..|names| - 1], slots) + MaxLevel(slots, names[|names| - 1])
  }

  lemma {:induction false} SumOfAssignedMaxima(names: seq<string>, slots: seq<Slot>, required: set<string>)
    requires forall name :: name in names ==> name in Assign(slots, required).best
    ensures SumExpertise(names, Assign(slots, required).best) == SumOfMaxima(names, slots)
  {
    if names != [] {
      var prefix := names[..|names| - 1];
      assert forall name :: name in prefix ==> name in names;
      SumOfAssignedMaxima(prefix, slots, required);
      AssignedLevelIsMaximum(slots, required, names[|names| - 1]);
    }
  }

  /** Subsets are no larger, and one as large as its superset is equal to it. */
  lemma SubsetCardinality<T>(a: set<T>, b: set<T>)
    requires a <= b
    ensures |a| <= |b|
    ensures |a| == |b| ==> a == b
    decreases |b|
  {
    if b - a != {} {
      var x :| x in b - a;
      SubsetCardinality(a, b - {x});
    } else {
      assert forall x :: x in b ==> x in a by {
        forall x | x in b ensures x in a { assert x !in b - a; }
      }
      assert a == b;
    }
  }

  /** `covered_skills / total_skills if total_skills > 0 else 0.0`, with exact division. */
  function Coverage(covered: nat, total: nat): (c: real)
    ensures 0.0 <= c
    ensures covered <= total ==> c <= 1.0
    ensures total > 0 ==> (c == 1.0 <==> covered == total)
    ensures total == 0 ==> c == 0.0
  {
    if total > 0 then covered as real / total as real else 0.0
  }

  /** With a fixed denominator, comparing coverages compares covered counts. */
  lemma CoverageMonotone(c1: nat, c2: nat, total: nat)
    requires total > 0
    ensures Coverage(c1, total) < Coverage(c2, total) <==> c1 < c2
    ensures Coverage(c1, total) == Coverage(c2, total) <==> c1 == c2
  {
    var t := total as real;
    if c1 < c2 {
      DivideLess(c1 as real, c2 as real, t);
    } else if c2 < c1 {
      DivideLess(c2 as real, c1 as real, t);
    }
  }

  lemma DivideLess(a: real, b: real, t: real)
    requires 0.0 < t && a < b
    ensures a / t < b / t
  {
    assert b / t - a / t == (b - a) / t;
    assert (b - a) / t * t == b - a;
  }

  // ---------------------------------------------------------------------------
  // team_members

  /** The names of `order` assigned to candidate `id`, in order. */
  function SkillsOf(order: seq<string>, best: map<string, Assignment>, id: int): (r: seq<string>)
    requires forall name :: name in order ==> name in best
    ensures forall name :: name in r <==> name in order && best[name].candidateId == id
  {
    if order == [] then []
    else
      var last := order[|order| - 1];
      assert forall name :: name in order[..|order| - 1] ==> name in order;
      SkillsOf(order[..|order| - 1], best, id) + (if best[last].candidateId == id then [last] else [])
  }

  /** No name of `order` is assigned to `id`: its list is empty. */
  lemma SkillsOfNone(order: seq<string>, best: map<string, Assignment>, id: int)
    requires forall name :: name in order ==> name in best
    ensures (forall name :: name in order ==> best[name].candidateId != id) ==> SkillsOf(order, best, id) == []
  {
    var r := SkillsOf(order, best, id);
    if r != [] {
      assert r[0] in r;
    }
  }

  /**
   * One step of the grouping loop: the member for the assignment's candidate
   * is created (with the candidate name of this assignment) when it is
   * missing, then the skill name is appended to its `assigned_skills`.
   */
  function AddSkill(g: Grouping, skillName: string, a: Assignment): Grouping
  {
    var g1 := if a.candidateId in g.byId then g
              else Grouping(g.ids + [a.candidateId], g.byId[a.candidateId := TeamMember(a.candidateId, a.candidateName, [])]);
    var m := g1.byId[a.candidateId];
    Grouping(g1.ids, g1.byId[a.candidateId := m.(assignedSkills := m.assignedSkills + [skillName])])
  }

  /** `team_members` after the grouping loop has visited `order`. */
  function Group(order: seq<string>, best: map<string, Assignment>): (g: Grouping)
    requires forall name :: name in order ==> name in best
    ensures forall k :: 0 <= k < |g.ids| ==> g.ids[k] in g.byId
  {
    if order == [] then Grouping([], map[])
    else
      assert forall name :: name in order[..|order| - 1] ==> name in order;
      AddSkill(Group(order[..|order| - 1], best), order[|order| - 1], best[order[|order| - 1]])
  }

  /**
   * The ids of a grouping: distinct, the keys of its entries, and exactly the
   * candidates holding some assignment of `order`.
   */
  ghost predicate GroupIdsFor(g: Grouping, order: seq<string>, best: map<string, Assignment>)
    requires forall name :: name in order ==> name in best
  {
    && (forall i, j :: 0 <= i < j < |g.ids| ==> g.ids[i] != g.ids[j])
    && (forall id :: id in g.byId <==> id in g.ids)
    && (forall id :: id in g.byId <==> exists name :: name in order && best[name].candidateId == id)
  }

  lemma {:induction false} GroupIds(order: seq<string>, best: map<string, Assignment>)
    requires forall name :: name in order ==> name in best
    ensures GroupIdsFor(Group(order, best), order, best)
  {
    if order != [] {
      var prefix := order[..|order| - 1];
      var last := order[|order| - 1];
      assert forall name :: name in prefix ==> name in order;
      GroupIds(prefix, best);
      var g := Group(order, best);
      assert g == AddSkill(Group(prefix, best), last, best[last]);
      forall id ensures id in g.byId <==> exists name :: name in order && best[name].candidateId == id {
        if exists name :: name in order && best[name].candidateId == id {
          var name :| name in order && best[name].candidateId == id;
          if name != last {
            assert name in prefix;
          }
        }
      }
    }
  }

  /** Some name of `order` held by `a` comes before every name held by `b`. */
  ghost predicate SeenBefore(order: seq<string>, best: map<string, Assignment>, a: int, b: int)
    requires forall name :: name in order ==> name in best
  {
    exists k :: 0 <= k < |order| && best[order[k]].candidateId == a && NoneHeldUpTo(order, best, b, k)
  }

  /** No name among `order[..k+1]` is held by `b`. */
  ghost predicate NoneHeldUpTo(order: seq<string>, best: map<string, Assignment>, b: int, k: int)
    requires forall name :: name in order ==> name in best
  {
    forall l :: 0 <= l <= k && l < |order| ==> best[order[l]].candidateId != b
  }

  /** Ids in first-seen order: of two listed ids, the earlier one was seen first. */
  ghost predicate FirstSeenOrder(ids: seq<int>, order: seq<string>, best: map<string, Assignment>)
    requires forall name :: name in order ==> name in best
  {
    forall i, j :: 0 <= i < j < |ids| ==> SeenBefore(order, best, ids[i], ids[j])
  }

  /** Visiting one more name keeps an established first-seen relation. */
  lemma SeenBeforeExtends(order: seq<string>, best: map<string, Assignment>, a: int, b: int)
    requires forall name :: name in order ==> name in best
    requires order != []
    requires SeenBefore(order[..|order| - 1], best, a, b)
    ensures SeenBefore(order, best, a, b)
  {
    var prefix := order[..|order| - 1];
    var k :| 0 <= k < |prefix| && best[prefix[k]].candidateId == a && NoneHeldUpTo(prefix, best, b, k);
    assert order[k] == prefix[k];
    forall l | 0 <= l <= k && l < |order| ensures best[order[l]].candidateId != b {
      assert order[l] == prefix[l];
    }
  }

  /** A holder seen in `prefix` was seen before a holder absent from `prefix`. */
  lemma SeenBeforeNew(order: seq<string>, best: map<string, Assignment>, a: int, b: int)
    requires forall name :: name in order ==> name in best
    requires order != []
    requires exists name :: name in order[..|order| - 1] && best[name].candidateId == a
    requires forall name :: name in order[..|order| - 1] ==> best[name].candidateId != b
    ensures SeenBefore(order, best, a, b)
  {
    var prefix := order[..|order| - 1];
    var name :| name in prefix && best[name].candidateId == a;
    var k :| 0 <= k < |prefix| && prefix[k] == name;
    assert order[k] == name;
    forall l | 0 <= l <= k && l < |order| ensures best[order[l]].candidateId != b {
      assert order[l] == prefix[l] && prefix[l] in prefix;
    }
  }

  /** Members are listed in the order in which their first assigned name is visited. */
  lemma {:induction false} GroupFirstSeenOrder(order: seq<string>, best: map<string, Assignment>)
    requires forall name :: name in order ==> name in best
    ensures FirstSeenOrder(Group(order, best).ids, order, best)
  {
    if order != [] {
      var prefix := order[..|order| - 1];
      var last := order[|order| - 1];
      assert forall name :: name in prefix ==> name in order;
      GroupFirstSeenOrder(prefix, best);
      GroupIds(prefix, best);
      var g0 := Group(prefix, best);
      var g := Group(order, best);
      var newId := best[last].candidateId;
      assert g == AddSkill(g0, last, best[last]);
      forall i, j | 0 <= i < j < |g.ids| ensures SeenBefore(order, best, g.ids[i], g.ids[j]) {
        if j < |g0.ids| {
          assert g.ids[i] == g0.ids[i] && g.ids[j] == g0.ids[j];
          SeenBeforeExtends(order, best, g0.ids[i], g0.ids[j]);
        } else {
          assert newId !in g0.byId && g.ids == g0.ids + [newId];
          assert g.ids[j] == newId && g.ids[i] == g0.ids[i];
          assert g0.ids[i] in g0.byId;
          SeenBeforeNew(order, best, g0.ids[i], newId);
        }
      }
    }
  }

  /**
   * The entries of a grouping: each carries its own id, the names of `order`
   * assigned to it in order, and the candidate name of one of them.
   */
  ghost predicate GroupEntriesFor(g: Grouping, order: seq<string>, best: map<string, Assignment>)
    requires forall name :: name in order ==> name in best
  {
    forall id :: id in g.byId ==>
      && g.byId[id].candidateId == id
      && g.byId[id].assignedSkills == SkillsOf(order, best, id)
      && exists name :: name in order && best[name].candidateId == id && best[name].candidateName == g.byId[id].name
  }

  lemma {:induction false} GroupEntries(order: seq<string>, best: map<string, Assignment>)
    requires forall name :: name in order ==> name in best
    ensures GroupEntriesFor(Group(order, best), order, best)
  {
    if order != [] {
      var prefix := order[..|order| - 1];
      var last := order[|order| - 1];
      var a := best[last];
      assert forall name :: name in prefix ==> name in order;
      GroupEntries(prefix, best);
      GroupIds(prefix, best);
      var g0 := Group(prefix, best);
      var g := Group(order, best);
      assert g == AddSkill(g0, last, a);
      forall id | id in g.byId
        ensures g.byId[id].candidateId == id && g.byId[id].assignedSkills == SkillsOf(order, best, id)
        ensures exists name :: name in order && best[name].candidateId == id && best[name].candidateName == g.byId[id].name
      {
        assert SkillsOf(order, best, id) ==
               SkillsOf(prefix, best, id) + (if best[last].candidateId == id then [last] else []);
        if id == a.candidateId && id !in g0.byId {
          SkillsOfNone(prefix, best, id);
          assert best[last].candidateName == g.byId[id].name;
        } else {
          var name :| name in prefix && best[name].candidateId == id && best[name].candidateName == g0.byId[id].name;
          assert name in order;
        }
      }
    }
  }

  /** No two members share a candidate id. */
  ghost predicate DistinctIds(ms: seq<TeamMember>)
  {
    forall i, j :: 0 <= i < j < |ms| ==> ms[i].candidateId != ms[j].candidateId
  }

  /** The member list built from `order` has one member per candidate id. */
  lemma GroupMembersDistinct(order: seq<string>, best: map<string, Assignment>)
    requires forall name :: name in order ==> name in best
    ensures DistinctIds(MembersOf(Group(order, best)))
  {
    var g := Group(order, best);
    GroupIds(order, best);
    GroupEntries(order, best);
    var ms := MembersOf(g);
    forall i, j | 0 <= i < j < |ms|
      ensures ms[i].candidateId != ms[j].candidateId
    {
      assert ms[i].candidateId == g.ids[i];
      assert ms[j].candidateId == g.ids[j];
    }
    assert ms == MembersOf(Group(order, best));
  }

  /** Each member's `assigned_skills` are exactly the names of `order` assigned to its candidate. */
  ghost predicate SkillsMatch(ms: seq<TeamMember>, order: seq<string>, best: map<string, Assignment>)
    requires forall name :: name in order ==> name in best
  {
    forall i, name :: 0 <= i < |ms| ==>
      (name in ms[i].assignedSkills <==> name in order && best[name].candidateId == ms[i].candidateId)
  }

  /** A member's `assigned_skills` are exactly the names assigned to its candidate. */
  lemma GroupMembersSkills(order: seq<string>, best: map<string, Assignment>)
    requires forall name :: name in order ==> name in best
    ensures SkillsMatch(MembersOf(Group(order, best)), order, best)
  {
    var g := Group(order, best);
    GroupEntries(order, best);
    var ms := MembersOf(g);
    forall i | 0 <= i < |ms|
      ensures ms[i].assignedSkills == SkillsOf(order, best, ms[i].candidateId)
    {
      var id := g.ids[i];
      assert id in g.byId;
      assert ms[i] == g.byId[id];
      assert g.byId[id].candidateId == id && g.byId[id].assignedSkills == SkillsOf(order, best, id);
    }
    assert ms == MembersOf(Group(order, best));
  }

  /** Each member carries the candidate id and name of one of the assignments of `order`. */
  ghost predicate NamedAfterAssignment(ms: seq<TeamMember>, order: seq<string>, best: map<string, Assignment>)
    requires forall name :: name in order ==> name in best
  {
    forall i :: 0 <= i < |ms| ==>
      exists name :: name in order && best[name].candidateId == ms[i].candidateId && best[name].candidateName == ms[i].name
  }

  lemma GroupMembersNamed(order: seq<string>, best: map<string, Assignment>)
    requires forall name :: name in order ==> name in best
    ensures NamedAfterAssignment(MembersOf(Group(order, best)), order, best)
  {
    var g := Group(order, best);
    GroupEntries(order, best);
    var ms := MembersOf(g);
    forall i | 0 <= i < |ms|
      ensures exists name :: name in order && best[name].candidateId == ms[i].candidateId && best[name].candidateName == ms[i].name
    {
      var id := g.ids[i];
      assert ms[i] == g.byId[id];
      var name :| name in order && best[name].candidateId == id && best[name].candidateName == g.byId[id].name;
    }
    assert ms == MembersOf(Group(order, best));
  }

  /** Every assignment of `order` goes to the candidate of some member. */
  ghost predicate CoversOrder(ms: seq<TeamMember>, order: seq<string>, best: map<string, Assignment>)
    requires forall name :: name in order ==> name in best
  {
    forall name :: name in order ==> exists i :: 0 <= i < |ms| && ms[i].candidateId == best[name].candidateId
  }

  lemma GroupMembersCover(order: seq<string>, best: map<string, Assignment>)
    requires forall name :: name in order ==> name in best
    ensures CoversOrder(MembersOf(Group(order, best)), order, best)
  {
    var g := Group(order, best);
    GroupIds(order, best);
    GroupEntries(order, best);
    var ms := MembersOf(g);
    forall name | name in order
      ensures exists i :: 0 <= i < |ms| && ms[i].candidateId == best[name].candidateId
    {
      var id := best[name].candidateId;
      assert id in g.byId;
      assert id in g.ids;
      var i :| 0 <= i < |g.ids| && g.ids[i] == id;
      assert ms[i] == g.byId[id];
      assert ms[i].candidateId == id;
    }
    assert ms == MembersOf(Group(order, best));
  }

  /** `list(team_members.values())`. */
  function MembersOf(g: Grouping): seq<TeamMember>
    requires forall k :: 0 <= k < |g.ids| ==> g.ids[k] in g.byId
  {
    seq(|g.ids|, k requires 0 <= k < |g.ids| => g.byId[g.ids[k]])
  }

  // ---------------------------------------------------------------------------
  // The evaluation

  /** What `_evaluate_team` returns for `team` against the required skill names. */
  function Evaluate(team: seq<Candidate>, required: set<string>): (e: Evaluation)
    ensures 0.0 <= e.coverage <= 1.0
    ensures e.totalExpertise >= 0
  {
    var t := Assign(Slots(team), required);
    SubsetCardinality(t.best.Keys, required);
    Evaluation(MembersOf(Group(t.order, t.best)), SumExpertise(t.order, t.best), Coverage(|t.best|, |required|))
  }

  /** The required names the subset covers, in the order they were first assigned. */
  function CoveredOrder(team: seq<Candidate>, required: set<string>): seq<string>
  {
    Assign(Slots(team), required).order
  }

  /** With valid skill levels, a name is offered exactly when a member lists it. */
  lemma OfferedIffHeld(team: seq<Candidate>, name: string)
    requires forall c :: c in team ==> ValidCandidate(c)
    ensures Offered(Slots(team), name) <==> Holds(team, name)
  {
    var slots := Slots(team);
    if Offered(slots, name) {
      var i :| 0 <= i < |slots| && slots[i].skill.name == name && slots[i].skill.expertiseLevel > 0;
      SlotFromTeam(team, i);
    }
    if Holds(team, name) {
      var c, k :| 0 <= c < |team| && 0 <= k < |team[c].skills| && team[c].skills[k].name == name;
      TeamSkillVisited(team, c, k);
      assert team[c] in team;
      var i :| 0 <= i < |slots| && slots[i] == Slot(team[c].id, team[c].name, team[c].skills[k]);
      assert slots[i].skill.expertiseLevel > 0;
    }
  }

  /**
   * The covered names are the required names some member holds, each listed
   * once, and the total expertise is the sum over them of the greatest level
   * a member holds: no skill is counted twice.
   */
  lemma EvaluateTotal(team: seq<Candidate>, required: set<string>)
    requires forall c :: c in team ==> ValidCandidate(c)
    ensures var covered := CoveredOrder(team, required);
            && (forall i, j :: 0 <= i < j < |covered| ==> covered[i] != covered[j])
            && (forall name :: name in covered <==> name in required && Holds(team, name))
            && Evaluate(team, required).totalExpertise == SumOfMaxima(covered, Slots(team))
  {
    var t := Assign(Slots(team), required);
    forall name ensures name in t.order <==> name in required && Holds(team, name) {
      AssignKeepsFirstMaximum(Slots(team), required, name);
      OfferedIffHeld(team, name);
    }
    SumOfAssignedMaxima(t.order, Slots(team), required);
  }

  /**
   * Coverage is in [0, 1]; it is 0 when nothing is required, and it is 1
   * exactly when something is required and every required name is held by
   * some member.
   */
  lemma EvaluateCoverage(team: seq<Candidate>, required: set<string>)
    requires forall c :: c in team ==> ValidCandidate(c)
    ensures var e := Evaluate(team, required);
            && 0.0 <= e.coverage <= 1.0
            && (|required| == 0 ==> e.coverage == 0.0)
            && (e.coverage == 1.0 <==> |required| > 0 && forall name :: name in required ==> Holds(team, name))
  {
    var t := Assign(Slots(team), required);
    SubsetCardinality(t.best.Keys, required);
    forall name | name in required
      ensures name in t.best <==> Holds(team, name)
    {
      AssignKeepsFirstMaximum(Slots(team), required, name);
      OfferedIffHeld(team, name);
    }
    if |required| > 0 && forall name :: name in required ==> Holds(team, name) {
      assert t.best.Keys == required;
    }
  }

  /** The members have distinct candidate ids and non-empty lists of assigned skills. */
  lemma MembersDistinct(team: seq<Candidate>, required: set<string>)
    ensures var members := Evaluate(team, required).members;
            && (forall i, j :: 0 <= i < j < |members| ==> members[i].candidateId != members[j].candidateId)
            && (forall i :: 0 <= i < |members| ==> |members[i].assignedSkills| > 0)
  {
    var t := Assign(Slots(team), required);
    var members := MembersOf(Group(t.order, t.best));
    GroupMembersDistinct(t.order, t.best);
    GroupMembersSkills(t.order, t.best);
    GroupMembersNamed(t.order, t.best);
    assert DistinctIds(members) && SkillsMatch(members, t.order, t.best);
    assert NamedAfterAssignment(members, t.order, t.best);
    forall i | 0 <= i < |members|
      ensures |members[i].assignedSkills| > 0
    {
      var name :| name in t.order && t.best[name].candidateId == members[i].candidateId;
      assert name in members[i].assignedSkills;
    }
    assert Evaluate(team, required).members == members;
  }

  /** Every member is a candidate of the subset: same id, same name. */
  lemma MembersFromSubset(team: seq<Candidate>, required: set<string>)
    ensures var members := Evaluate(team, required).members;
            forall i :: 0 <= i < |members| ==>
              exists c :: 0 <= c < |team| && team[c].id == members[i].candidateId && team[c].name == members[i].name
  {
    var slots := Slots(team);
    var t := Assign(slots, required);
    var members := MembersOf(Group(t.order, t.best));
    GroupMembersNamed(t.order, t.best);
    assert NamedAfterAssignment(members, t.order, t.best);
    forall i | 0 <= i < |members|
      ensures exists c :: 0 <= c < |team| && team[c].id == members[i].candidateId && team[c].name == members[i].name
    {
      var name :| name in t.order && t.best[name].candidateId == members[i].candidateId &&
                  t.best[name].candidateName == members[i].name;
      AssignKeepsFirstMaximum(slots, required, name);
      var k :| FirstMaximum(slots, name, k) && t.best[name] == AssignmentOf(slots[k]);
      SlotFromTeam(team, k);
    }
    assert Evaluate(team, required).members == members;
  }

  /** No required name is assigned to two members. */
  lemma MembersDisjoint(team: seq<Candidate>, required: set<string>)
    ensures var members := Evaluate(team, required).members;
            forall i, j, name :: (0 <= i < |members| && 0 <= j < |members| && i != j &&
              name in members[i].assignedSkills) ==> name !in members[j].assignedSkills
  {
    var t := Assign(Slots(team), required);
    var members := MembersOf(Group(t.order, t.best));
    GroupMembersDistinct(t.order, t.best);
    GroupMembersSkills(t.order, t.best);
    assert DistinctIds(members) && SkillsMatch(members, t.order, t.best);
    forall i, j, name | 0 <= i < |members| && 0 <= j < |members| && i != j && name in members[i].assignedSkills
      ensures name !in members[j].assignedSkills
    {
      assert t.best[name].candidateId == members[i].candidateId;
      if i < j {
        assert members[i].candidateId != members[j].candidateId;
      } else {
        assert members[j].candidateId != members[i].candidateId;
      }
    }
    assert Evaluate(team, required).members == members;
  }

  /** No member's list of assigned skills names a skill twice. */
  ghost predicate NoRepeatedSkills(ms: seq<TeamMember>)
  {
    forall i, a, b :: 0 <= i < |ms| && 0 <= a < b < |ms[i].assignedSkills| ==>
      ms[i].assignedSkills[a] != ms[i].assignedSkills[b]
  }

  /** No name occurs twice in `s`. */
  ghost predicate DistinctNames(s: seq<string>)
  {
    forall a, b :: 0 <= a < b < |s| ==> s[a] != s[b]
  }

  /** The names of a duplicate-free `order` assigned to one candidate are duplicate-free too. */
  lemma {:induction false} SkillsOfDistinct(order: seq<string>, best: map<string, Assignment>, id: int)
    requires forall name :: name in order ==> name in best
    requires DistinctNames(order)
    ensures DistinctNames(SkillsOf(order, best, id))
  {
    if order != [] {
      var prefix := order[..|order| - 1];
      var last := order[|order| - 1];
      assert forall name :: name in prefix ==> name in order;
      SkillsOfDistinct(prefix, best, id);
      var r0 := SkillsOf(prefix, best, id);
      assert last !in prefix;
      var r := SkillsOf(order, best, id);
      assert r == r0 + (if best[last].candidateId == id then [last] else []);
      forall x, y | 0 <= x < y < |r| ensures r[x] != r[y] {
        if y >= |r0| {
          assert r[y] == last && r[x] == r0[x];
          assert r0[x] in prefix;
        } else {
          assert r[x] == r0[x] && r[y] == r0[y];
        }
      }
    }
  }

  /** Each member's list of assigned skills is duplicate-free. */
  lemma GroupMembersNoRepeats(order: seq<string>, best: map<string, Assignment>)
    requires forall name :: name in order ==> name in best
    requires DistinctNames(order)
    ensures NoRepeatedSkills(MembersOf(Group(order, best)))
  {
    var g := Group(order, best);
    GroupEntries(order, best);
    var ms := MembersOf(g);
    forall i | 0 <= i < |ms|
      ensures forall a, b :: 0 <= a < b < |ms[i].assignedSkills| ==> ms[i].assignedSkills[a] != ms[i].assignedSkills[b]
    {
      var id := g.ids[i];
      assert id in g.byId;
      assert ms[i] == g.byId[id];
      assert ms[i].assignedSkills == SkillsOf(order, best, id);
      SkillsOfDistinct(order, best, id);
      assert DistinctNames(ms[i].assignedSkills);
    }
    assert ms == MembersOf(Group(order, best));
  }

  /**
   * No member lists a skill twice; with `MembersDisjoint`, every covered name
   * appears exactly once across the whole team.
   */
  lemma MembersSkillsDistinct(team: seq<Candidate>, required: set<string>)
    ensures NoRepeatedSkills(Evaluate(team, required).members)
  {
    var t := Assign(Slots(team), required);
    GroupMembersNoRepeats(t.order, t.best);
    assert Evaluate(team, required).members == MembersOf(Group(t.order, t.best));
  }

  /** The members' lists of assigned skills together hold exactly the names of `covered`. */
  ghost predicate ListedExactly(members: seq<TeamMember>, covered: set<string>)
  {
    forall name :: name in covered <==> exists i :: 0 <= i < |members| && name in members[i].assignedSkills
  }

  /** The members' lists of assigned skills together hold exactly the covered names. */
  lemma MembersCoverCovered(team: seq<Candidate>, required: set<string>)
    ensures ListedExactly(Evaluate(team, required).members, Assign(Slots(team), required).best.Keys)
  {
    var t := Assign(Slots(team), required);
    var members := MembersOf(Group(t.order, t.best));
    GroupMembersSkills(t.order, t.best);
    GroupMembersCover(t.order, t.best);
    assert SkillsMatch(members, t.order, t.best) && CoversOrder(members, t.order, t.best);
    forall name | name in t.best
      ensures exists i :: 0 <= i < |members| && name in members[i].assignedSkills
    {
      assert name in t.order;
      var i :| 0 <= i < |members| && members[i].candidateId == t.best[name].candidateId;
      assert name in members[i].assignedSkills;
    }
    assert ListedExactly(members, t.best.Keys);
    assert Evaluate(team, required).members == members;
  }

  /** Every name a member is assigned is one the member offers first at the greatest level. */
  ghost predicate HeldAtMaximum(members: seq<TeamMember>, slots: seq<Slot>)
  {
    forall i, name :: 0 <= i < |members| && name in members[i].assignedSkills ==>
      exists k :: FirstMaximum(slots, name, k) && slots[k].candidateId == members[i].candidateId
  }

  /**
   * A name assigned to a member is offered by that member at the greatest
   * level in the subset, and no earlier slot offers that level: ties go to
   * the first one encountered.
   */
  lemma MembersHoldMaximum(team: seq<Candidate>, required: set<string>)
    ensures HeldAtMaximum(Evaluate(team, required).members, Slots(team))
  {
    var slots := Slots(team);
    var t := Assign(slots, required);
    var members := MembersOf(Group(t.order, t.best));
    GroupMembersSkills(t.order, t.best);
    assert SkillsMatch(members, t.order, t.best);
    forall i, name | 0 <= i < |members| && name in members[i].assignedSkills
      ensures exists k :: FirstMaximum(slots, name, k) && slots[k].candidateId == members[i].candidateId
    {
      assert name in t.order && t.best[name].candidateId == members[i].candidateId;
      AssignKeepsFirstMaximum(slots, required, name);
      var k :| FirstMaximum(slots, name, k) && t.best[name] == AssignmentOf(slots[k]);
      assert slots[k].candidateId == members[i].candidateId;
    }
    assert HeldAtMaximum(members, slots);
    assert Evaluate(team, required).members == members;
  }

  /** The candidate ids of a member list. */
  function MemberIds(ms: seq<TeamMember>): (r: set<int>)
    ensures forall id :: id in r <==> exists i :: 0 <= i < |ms| && ms[i].candidateId == id
  {
    if ms == [] then {}
    else
      assert forall i :: 0 <= i < |ms| - 1 ==> ms[..|ms| - 1][i] == ms[i];
      MemberIds(ms[..|ms| - 1]) + {ms[|ms| - 1].candidateId}
  }

  lemma {:induction false} MemberIdsCount(ms: seq<TeamMember>)
    requires DistinctIds(ms)
    ensures |MemberIds(ms)| == |ms|
  {
    if ms != [] {
      var prefix := ms[..|ms| - 1];
      assert DistinctIds(prefix);
      MemberIdsCount(prefix);
      assert ms[|ms| - 1].candidateId !in MemberIds(prefix);
    }
  }

  /** The candidate ids of a subset. */
  function TeamIds(team: seq<Candidate>): (r: set<int>)
    ensures forall id :: id in r <==> exists c :: 0 <= c < |team| && team[c].id == id
  {
    if team == [] then {}
    else
      assert forall c :: 0 <= c < |team| - 1 ==> team[..|team| - 1][c] == team[c];
      TeamIds(team[..|team| - 1]) + {team[|team| - 1].id}
  }

  lemma {:induction false} TeamIdsCount(team: seq<Candidate>)
    ensures |TeamIds(team)| <= |team|
  {
    if team != [] {
      TeamIdsCount(team[..|team| - 1]);
    }
  }

  /** A name offered by some slot is listed by some member. */
  lemma OfferedHeld(team: seq<Candidate>, name: string)
    ensures Offered(Slots(team), name) ==> Holds(team, name)
  {
    var slots := Slots(team);
    if Offered(slots, name) {
      var i :| 0 <= i < |slots| && slots[i].skill.name == name && slots[i].skill.expertiseLevel > 0;
      SlotFromTeam(team, i);
    }
  }

  /** A subset holding none of the required names covers nothing and has no members. */
  lemma EvaluateNoneHeld(team: seq<Candidate>, required: set<string>)
    requires forall name :: name in required ==> !Holds(team, name)
    ensures Evaluate(team, required) == Evaluation([], 0, 0.0)
  {
    var slots := Slots(team);
    var t := Assign(slots, required);
    forall name
      ensures name !in t.best
    {
      AssignKeepsFirstMaximum(slots, required, name);
      OfferedHeld(team, name);
    }
    assert t.best == map[];
    AssignCount(slots, required);
  }

  /** There are never more members than candidates in the subset. */
  lemma MembersWithinTeam(team: seq<Candidate>, required: set<string>)
    ensures |Evaluate(team, required).members| <= |team|
  {
    var members := Evaluate(team, required).members;
    MembersDistinct(team, required);
    MembersFromSubset(team, required);
    assert DistinctIds(members);
    MemberIdsCount(members);
    TeamIdsCount(team);
    assert MemberIds(members) <= TeamIds(team);
    SubsetCardinality(MemberIds(members), TeamIds(team));
  }

  // ---------------------------------------------------------------------------
  // The method

  /**
   * `_evaluate_team`: the nested scan filling `skill_assignments`, the
   * coverage and total, then the loop grouping the assignments by candidate.
   */
  method EvaluateTeam(team: seq<Candidate>, required: set<string>)
    returns (members: seq<TeamMember>, totalExpertise: int, coverage: real)
    ensures Evaluation(members, totalExpertise, coverage) == Evaluate(team, required)
  {
    var order, best := AssignSkills(team, required);
    var covered := |best|;
    var total := |required|;
    coverage := if total > 0 then covered as real / total as real else 0.0;
    totalExpertise := SumExpertise(order, best);
    members := GroupByCandidate(order, best);
  }

  /** The scan building `skill_assignments`: candidates in order, each one's skills in order. */
  method AssignSkills(team: seq<Candidate>, required: set<string>)
    returns (order: seq<string>, best: map<string, Assignment>)
    ensures Assignments(order, best) == Assign(Slots(team), required)
  {
    order, best := [], map[];
    for ci := 0 to |team|
      invariant Assignments(order, best) == Assign(Slots(team[..ci]), required)
    {
      ghost var done := Slots(team[..ci]);
      order, best := ConsiderCandidate(order, best, team[ci], required, done);
      SlotsStep(team, ci);
    }
    assert team[..|team|] == team;
  }

  /** The inner loop of the scan: one candidate's skills, each in turn. */
  method ConsiderCandidate(order0: seq<string>, best0: map<string, Assignment>, candidate: Candidate,
                           required: set<string>, ghost done: seq<Slot>)
    returns (order: seq<string>, best: map<string, Assignment>)
    requires Assignments(order0, best0) == Assign(done, required)
    ensures Assignments(order, best) == Assign(done + CandidateSlots(candidate), required)
  {
    order, best := order0, best0;
    ghost var slots := CandidateSlots(candidate);
    assert done + slots[..0] == done;
    for si := 0 to |candidate.skills|
      invariant Assignments(order, best) == Assign(done + slots[..si], required)
    {
      ghost var before := done + slots[..si];
      var slot := Slot(candidate.id, candidate.name, candidate.skills[si]);
      assert done + slots[..si + 1] == before + [slot];
      AssignStep(before, slot, required);
      order, best := ConsiderSkill(order, best, slot, required);
    }
    assert slots[..|candidate.skills|] == slots;
  }

  /** The body of the inner loop: one member skill against the current assignment for its name. */
  method ConsiderSkill(order0: seq<string>, best0: map<string, Assignment>, slot: Slot, required: set<string>)
    returns (order: seq<string>, best: map<string, Assignment>)
    ensures Assignments(order, best) == Consider(Assignments(order0, best0), slot, required)
  {
    order, best := order0, best0;
    var skill := slot.skill;
    if skill.name in required {
      var current := if skill.name in best then best[skill.name] else Assignment(0, "", 0);
      if skill.expertiseLevel > current.expertise {
        if skill.name !in best {
          order := order + [skill.name];
        }
        best := best[skill.name := Assignment(slot.candidateId, slot.candidateName, skill.expertiseLevel)];
      }
    }
  }

  /** The loop building `team_members`: the assigned names in order, grouped by candidate id. */
  method GroupByCandidate(order: seq<string>, best: map<string, Assignment>) returns (members: seq<TeamMember>)
    requires forall name :: name in order ==> name in best
    ensures members == MembersOf(Group(order, best))
  {
    var ids: seq<int> := [];
    var byId: map<int, TeamMember> := map[];
    for k := 0 to |order|
      invariant Grouping(ids, byId) == Group(order[..k], best)
    {
      var name := order[k];
      var a := best[name];
      assert order[..k + 1][..k] == order[..k];
      if a.candidateId !in byId {
        byId := byId[a.candidateId := TeamMember(a.candidateId, a.candidateName, [])];
        ids := ids + [a.candidateId];
      }
      byId := byId[a.candidateId := byId[a.candidateId].(assignedSkills := byId[a.candidateId].assignedSkills + [name])];
    }
    assert order[..|order|] == order;
    members := MembersOf(Grouping(ids, byId));
  }
}
