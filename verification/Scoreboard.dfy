/**
  One domain's command scoreboard: objectives, scores, teams and team membership, with the two
  revision counters that decide whether it has to be saved.
 */
module Scoreboard {
  import opened Bytes

  datatype Score = Score(value: int, locked: bool)

  /** `objectives` maps each objective to whether it is read-only. */
  datatype Persistent = Persistent(
    objectives: map<string, bool>,
    scores: map<string, map<string, Score>>,
    teams: set<string>,
    holderTeams: map<string, string>)

  datatype Error =
    | EmptyObjectiveName
    | EmptyTeamName
    | EmptyScoreHolderName
    | DuplicateObjective(name: string)
    | DuplicateTeam(name: string)
    | MissingObjective(name: string)
    | MissingTeam(name: string)
    | ReadOnlyObjective(name: string)

  datatype Outcome = Ok | Err(error: Error)

  datatype Op =
    | AddObjective(name: string, readOnly: bool)
    | AddTeam(name: string)
    | AddHolderToTeam(holder: string, team: string)
    | SetScore(holder: string, objective: string, value: int)
    | SetScoreLocked(holder: string, objective: string, locked: bool)

  // ----- What load validation asks for -----

  ghost predicate Loadable(s: Persistent)
  {
    && "" !in s.objectives
    && "" !in s.teams
    && "" !in s.scores
    && "" !in s.holderTeams
    && (forall h, o | h in s.scores && o in s.scores[h] :: o in s.objectives)
    && (forall h | h in s.holderTeams :: s.holderTeams[h] in s.teams)
  }

  // ----- The operations -----

  function Row(s: Persistent, holder: string): (r: map<string, Score>)
  {
    if holder in s.scores then s.scores[holder] else map[]
  }

  function WithScore(s: Persistent, holder: string, objective: string, score: Score): (r: Persistent)
  {
    s.(scores := s.scores[holder := Row(s, holder)[objective := score]])
  }

  function Execute(s: Persistent, op: Op): (r: (Persistent, Outcome))
  {
    match op
    case AddObjective(name, readOnly) =>
      if name == "" then (s, Err(EmptyObjectiveName))
      else if name in s.objectives then (s, Err(DuplicateObjective(name)))
      else (s.(objectives := s.objectives[name := readOnly]), Ok)
    case AddTeam(name) =>
      if name == "" then (s, Err(EmptyTeamName))
      else if name in s.teams then (s, Err(DuplicateTeam(name)))
      else (s.(teams := s.teams + {name}), Ok)
    case AddHolderToTeam(holder, team) =>
      if holder == "" then (s, Err(EmptyScoreHolderName))
      else if team !in s.teams then (s, Err(MissingTeam(team)))
      else (s.(holderTeams := s.holderTeams[holder := team]), Ok)
    case SetScore(holder, objective, value) =>
      if holder == "" then (s, Err(EmptyScoreHolderName))
      else if objective !in s.objectives then (s, Err(MissingObjective(objective)))
      else if s.objectives[objective] then (s, Err(ReadOnlyObjective(objective)))
      else
        var row := Row(s, holder);
        (WithScore(s, holder, objective, Score(value, if objective in row then row[objective].locked else true)), Ok)
    case SetScoreLocked(holder, objective, locked) =>
      if holder == "" then (s, Err(EmptyScoreHolderName))
      else if objective !in s.objectives then (s, Err(MissingObjective(objective)))
      else
        var row := Row(s, holder);
        (WithScore(s, holder, objective, Score(if objective in row then row[objective].value else 0, locked)), Ok)
  }

  /** Every operation keeps the references intact, and an error leaves the state alone. */
  lemma ExecuteKeepsLoadable(s: Persistent, op: Op)
    requires Loadable(s)
    ensures Loadable(Execute(s, op).0)
    ensures Execute(s, op).1.Err? ==> Execute(s, op).0 == s
  {
  }

  function Entry(s: Persistent, holder: string, objective: string): (r: Option<Score>)
  {
    if holder in s.scores && objective in s.scores[holder] then Some(s.scores[holder][objective]) else None
  }

  /** Whether an objective is declared, and if so whether it is read-only. */
  function Declared(s: Persistent, objective: string): (r: Option<bool>)
  {
    if objective in s.objectives then Some(s.objectives[objective]) else None
  }

  function TeamOf(s: Persistent, holder: string): (r: Option<string>)
  {
    if holder in s.holderTeams then Some(s.holderTeams[holder]) else None
  }

  /** When each operation is accepted, and what is said otherwise. */
  lemma OperationsAreRefusedExactly(s: Persistent, op: Op)
    ensures var r := Execute(s, op).1;
            match op
            case AddObjective(name, _) =>
              && (r == Ok <==> name != "" && Declared(s, name).None?)
              && (r == Err(EmptyObjectiveName) <==> name == "")
              && (r == Err(DuplicateObjective(name)) <==> name != "" && Declared(s, name).Some?)
            case AddTeam(name) =>
              && (r == Ok <==> name != "" && name !in s.teams)
              && (r == Err(EmptyTeamName) <==> name == "")
              && (r == Err(DuplicateTeam(name)) <==> name != "" && name in s.teams)
            case AddHolderToTeam(holder, team) =>
              && (r == Ok <==> holder != "" && team in s.teams)
              && (r == Err(EmptyScoreHolderName) <==> holder == "")
              && (r == Err(MissingTeam(team)) <==> holder != "" && team !in s.teams)
            case SetScore(holder, objective, _) =>
              && (r == Ok <==> holder != "" && Declared(s, objective) == Some(false))
              && (r == Err(EmptyScoreHolderName) <==> holder == "")
              && (r == Err(MissingObjective(objective)) <==> holder != "" && Declared(s, objective).None?)
              && (r == Err(ReadOnlyObjective(objective)) <==> holder != "" && Declared(s, objective) == Some(true))
            case SetScoreLocked(holder, objective, _) =>
              && (r == Ok <==> holder != "" && Declared(s, objective).Some?)
              && (r == Err(EmptyScoreHolderName) <==> holder == "")
              && (r == Err(MissingObjective(objective)) <==> holder != "" && Declared(s, objective).None?)
  {
  }

  /** What an accepted operation changes, lookup by lookup; everything else is as before. */
  lemma OperationsChangeExactly(s: Persistent, op: Op, name: string)
    requires Execute(s, op).1.Ok?
    ensures var s' := Execute(s, op).0;
            && Declared(s', name) ==
               (if op.AddObjective? && name == op.name then Some(op.readOnly) else Declared(s, name))
            && (name in s'.teams <==> name in s.teams || (op.AddTeam? && name == op.name))
            && TeamOf(s', name) == (if op.AddHolderToTeam? && name == op.holder then Some(op.team) else TeamOf(s, name))
            && (!op.SetScore? && !op.SetScoreLocked? ==> s'.scores == s.scores)
  {
  }

  /** Value and lock of a score are independent, and no other score changes. */
  lemma ScoreWritesAreLocal(s: Persistent, op: Op, holder: string, objective: string)
    requires op.SetScore? || op.SetScoreLocked?
    requires Execute(s, op).1.Ok?
    ensures var before, after := Entry(s, holder, objective), Entry(Execute(s, op).0, holder, objective);
            if holder != op.holder || objective != op.objective then after == before
            else if op.SetScore? then
              after == Some(Score(op.value, if before.Some? then before.value.locked else true))
            else
              after == Some(Score(if before.Some? then before.value.value else 0, op.locked))
    ensures var s' := Execute(s, op).0;
            s'.objectives == s.objectives && s'.teams == s.teams && s'.holderTeams == s.holderTeams
  {
  }

  datatype Snapshot = Snapshot(revision: nat, state: Persistent)

  class Board {
    var state: Persistent
    var revision: nat
    var savedRevision: nat

    constructor (state: Persistent)
      ensures this.state == state && revision == 0 && savedRevision == 0
    {
      this.state := state;
      revision, savedRevision := 0, 0;
    }

    method MarkDirty()
      modifies this`revision
      ensures revision == (old(revision) + 1) % TWO_64
    {
      revision := (revision + 1) % TWO_64;
    }

    /** The revision is bumped exactly when the operation changes the state. */
    twostate predicate Performed(op: Op, r: Outcome)
      reads this
    {
      && (state, r) == Execute(old(state), op)
      && revision == (if state != old(state) then (old(revision) + 1) % TWO_64 else old(revision))
      && savedRevision == old(savedRevision)
    }

    method AddObjective(name: string, readOnly: bool) returns (r: Outcome)
      modifies this
      ensures Performed(Op.AddObjective(name, readOnly), r)
    {
      if name == "" {
        return Err(EmptyObjectiveName);
      }
      if name in state.objectives {
        return Err(DuplicateObjective(name));
      }
      state := state.(objectives := state.objectives[name := readOnly]);
      MarkDirty();
      assert name in state.objectives && name !in old(state).objectives;
      return Ok;
    }

    method AddTeam(name: string) returns (r: Outcome)
      modifies this
      ensures Performed(Op.AddTeam(name), r)
    {
      if name == "" {
        return Err(EmptyTeamName);
      }
      var inserted := name !in state.teams;
      state := state.(teams := state.teams + {name});
      if !inserted {
        assert state.teams == old(state).teams;
        return Err(DuplicateTeam(name));
      }
      MarkDirty();
      assert name in state.teams && name !in old(state).teams;
      return Ok;
    }

    method AddHolderToTeam(holder: string, team: string) returns (r: Outcome)
      modifies this
      ensures Performed(Op.AddHolderToTeam(holder, team), r)
    {
      if holder == "" {
        return Err(EmptyScoreHolderName);
      }
      if team !in state.teams {
        return Err(MissingTeam(team));
      }
      var same := holder in state.holderTeams && state.holderTeams[holder] == team;
      state := state.(holderTeams := state.holderTeams[holder := team]);
      if same {
        assert state.holderTeams == old(state).holderTeams;
        return Ok;
      }
      MarkDirty();
      assert state.holderTeams[holder] == team;
      assert state.holderTeams != old(state).holderTeams;
      return Ok;
    }

    method SetScore(holder: string, objective: string, value: int) returns (r: Outcome)
      modifies this
      ensures Performed(Op.SetScore(holder, objective, value), r)
    {
      if holder == "" {
        return Err(EmptyScoreHolderName);
      }
      if objective !in state.objectives {
        return Err(MissingObjective(objective));
      }
      if state.objectives[objective] {
        return Err(ReadOnlyObjective(objective));
      }
      var row := Row(state, holder);
      if objective in row {
        if row[objective].value == value {
          SameScore(state, holder, objective);
          return Ok;
        }
        state := WithScore(state, holder, objective, row[objective].(value := value));
      } else {
        state := WithScore(state, holder, objective, Score(value, true));
      }
      MarkDirty();
      assert Entry(state, holder, objective) != Entry(old(state), holder, objective);
      return Ok;
    }

    method SetScoreLocked(holder: string, objective: string, locked: bool) returns (r: Outcome)
      modifies this
      ensures Performed(Op.SetScoreLocked(holder, objective, locked), r)
    {
      if holder == "" {
        return Err(EmptyScoreHolderName);
      }
      if objective !in state.objectives {
        return Err(MissingObjective(objective));
      }
      var row := Row(state, holder);
      if objective in row {
        if row[objective].locked == locked {
          SameScore(state, holder, objective);
          return Ok;
        }
        state := WithScore(state, holder, objective, row[objective].(locked := locked));
      } else {
        state := WithScore(state, holder, objective, Score(0, locked));
      }
      MarkDirty();
      assert Entry(state, holder, objective) != Entry(old(state), holder, objective);
      return Ok;
    }

    method PendingSave() returns (r: Option<Snapshot>)
      ensures r == if revision == savedRevision then None else Some(Snapshot(revision, state))
    {
      if revision == savedRevision {
        return None;
      }
      return Some(Snapshot(revision, state));
    }

    method MarkSaved(saved: nat)
      modifies this`savedRevision
      ensures old(savedRevision) <= savedRevision && saved <= savedRevision
      ensures savedRevision == saved || savedRevision == old(savedRevision)
    {
      savedRevision := Max(savedRevision, saved);
    }
  }

  /** How many files a save wrote. */
  function Written(files: seq<Option<Persistent>>): (n: nat)
  {
    if files == [] then 0
    else Written(files[..|files| - 1]) + if files[|files| - 1].Some? then 1 else 0
  }

  /**
    A save that nothing interrupts: each dirty board in turn is written and marked, until a write
    fails. `files` is what was written for the boards that were dealt with.
   */
  method SaveAll(boards: seq<Board>, writes: seq<bool>)
    returns (saved: nat, ok: bool, files: seq<Option<Persistent>>)
    requires |writes| == |boards| && forall i, j | 0 <= i < j < |boards| :: boards[i] != boards[j]
    requires forall i | 0 <= i < |boards| :: boards[i].savedRevision <= boards[i].revision
    modifies (set b | b in boards)`savedRevision
    ensures |files| <= |boards| && saved == Written(files)
    ensures ok <==> |files| == |boards|
    ensures !ok ==> boards[|files|].savedRevision != boards[|files|].revision && !writes[|files|]
    ensures forall i | 0 <= i < |files| ::
              && boards[i].savedRevision == boards[i].revision
              && (files[i] == None <==> old(boards[i].savedRevision) == boards[i].revision)
              && (files[i].Some? ==> files[i].value == boards[i].state && writes[i])
    ensures forall i | |files| <= i < |boards| :: boards[i].savedRevision == old(boards[i].savedRevision)
  {
    saved, files := 0, [];
    for k := 0 to |boards|
      invariant |files| == k && saved == Written(files)
      invariant forall i | 0 <= i < k ::
                  && boards[i].savedRevision == boards[i].revision
                  && (files[i] == None <==> old(boards[i].savedRevision) == boards[i].revision)
                  && (files[i].Some? ==> files[i].value == boards[i].state && writes[i])
      invariant forall i | k <= i < |boards| :: boards[i].savedRevision == old(boards[i].savedRevision)
    {
      var board := boards[k];
      var snapshot := board.PendingSave();
      if snapshot.Some? && !writes[k] {
        return saved, false, files;
      }
      ghost var before := files;
      if snapshot.Some? {
        board.MarkSaved(snapshot.value.revision);
        saved, files := saved + 1, files + [Some(snapshot.value.state)];
      } else {
        files := files + [None];
      }
      assert files[..|files| - 1] == before;
    }
    return saved, true, files;
  }

  function Max(a: nat, b: nat): (m: nat)
  {
    if a >= b then a else b
  }

  /** Writing the score that is there already is no change. */
  lemma SameScore(s: Persistent, holder: string, objective: string)
    requires objective in Row(s, holder)
    ensures WithScore(s, holder, objective, Row(s, holder)[objective]) == s
  {
    assert Row(s, holder)[objective := Row(s, holder)[objective]] == Row(s, holder);
    assert s.scores[holder := s.scores[holder]] == s.scores;
  }
}
