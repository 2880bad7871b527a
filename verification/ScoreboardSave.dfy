/**
  Saving scoreboards while they are being changed. Mutations of any domain interleave freely with
  the single save task that holds the save lock; the task snapshots a dirty board, writes it, and
  only then marks that revision as saved. A write may fail or the task may be dropped at any await,
  leaving the file with unknown contents.
 */
module ScoreboardSave {
  import opened Bytes
  import opened Scoreboard

  type Domain = string

  /** A board's fields; `bumps` counts revision changes without wrapping, and only records them. */
  datatype BoardState = BoardState(state: Persistent, revision: nat, saved: nat, bumps: nat)

  /** A file, with the unwrapped revision whose state it holds. */
  datatype File = Unknown | Holds(contents: Persistent, at: nat)

  datatype Saver =
    | Idle
    | Visiting(todo: seq<Domain>)
    | Snapshotted(todo: seq<Domain>, snapshot: Snapshot, at: nat)
    | Written(todo: seq<Domain>, snapshot: Snapshot, at: nat)

  datatype System = System(boards: map<Domain, BoardState>, files: map<Domain, File>, saver: Saver)

  datatype Step =
    | Mutate(domain: Domain, op: Op)
    | BeginSave(domains: seq<Domain>)   // the save lock is taken
    | Visit                             // pending_save on the next domain
    | WriteDone                         // the file has been written
    | WriteFailed                       // I/O error: the save returns
    | MarkWritten                       // mark_saved, on to the next domain
    | EndSave
    | Abandon                           // the save task is dropped, or a world is missing

  /** One operation on a board: the revision moves exactly when the state does. */
  function MutateBoard(b: BoardState, op: Op): (r: BoardState)
  {
    var s := Execute(b.state, op).0;
    if s == b.state then b
    else BoardState(s, (b.revision + 1) % TWO_64, b.saved, b.bumps + 1)
  }

  predicate Enabled(sys: System, step: Step)
  {
    match step
    case Mutate(d, _) => d in sys.boards
    case BeginSave(domains) => sys.saver == Idle && forall d | d in domains :: d in sys.boards
    case Visit => sys.saver.Visiting? && sys.saver.todo != [] && sys.saver.todo[0] in sys.boards
    case WriteDone => sys.saver.Snapshotted? && sys.saver.todo != []
    case WriteFailed => sys.saver.Snapshotted? && sys.saver.todo != []
    case MarkWritten => sys.saver.Written? && sys.saver.todo != [] && sys.saver.todo[0] in sys.boards
    case EndSave => sys.saver.Visiting? && sys.saver.todo == []
    case Abandon => true
  }

  function Next(sys: System, step: Step): (r: System)
    requires Enabled(sys, step)
  {
    match step
    case Mutate(d, op) => sys.(boards := sys.boards[d := MutateBoard(sys.boards[d], op)])
    case BeginSave(domains) => sys.(saver := Visiting(domains))
    case Visit =>
      var todo := sys.saver.todo;
      var b := sys.boards[todo[0]];
      if b.revision == b.saved then sys.(saver := Visiting(todo[1..]))
      else sys.(saver := Snapshotted(todo, Snapshot(b.revision, b.state), b.bumps))
    case WriteDone =>
      var w := sys.saver;
      sys.(files := sys.files[w.todo[0] := Holds(w.snapshot.state, w.at)],
           saver := Written(w.todo, w.snapshot, w.at))
    case WriteFailed =>
      sys.(files := sys.files[sys.saver.todo[0] := Unknown], saver := Idle)
    case MarkWritten =>
      var d := sys.saver.todo[0];
      var b := sys.boards[d];
      sys.(boards := sys.boards[d := b.(saved := Max(b.saved, sys.saver.snapshot.revision))],
           saver := Visiting(sys.saver.todo[1..]))
    case EndSave => sys.(saver := Idle)
    case Abandon =>
      if sys.saver.Snapshotted? && sys.saver.todo != []
      then sys.(files := sys.files[sys.saver.todo[0] := Unknown], saver := Idle)
      else sys.(saver := Idle)
  }

  ghost predicate ValidRun(sys: System, steps: seq<Step>)
    decreases |steps|
  {
    steps == [] || (Enabled(sys, steps[0]) && ValidRun(Next(sys, steps[0]), steps[1..]))
  }

  ghost function Run(sys: System, steps: seq<Step>): (r: System)
    requires ValidRun(sys, steps)
    decreases |steps|
  {
    if steps == [] then sys else Run(Next(sys, steps[0]), steps[1..])
  }

  /** Freshly loaded: every file has passed validation and is what its board holds. */
  ghost predicate Loaded(sys: System)
  {
    && sys.saver == Idle
    && sys.files.Keys == sys.boards.Keys
    && forall d | d in sys.boards ::
         && Loadable(sys.boards[d].state)
         && sys.boards[d] == BoardState(sys.boards[d].state, 0, 0, 0)
         && sys.files[d] == Holds(sys.boards[d].state, 0)
  }

  /** The board has changed fewer than 2^64 times. */
  ghost predicate InRange(sys: System, d: Domain)
  {
    d in sys.boards && sys.boards[d].bumps < TWO_64
  }

  // ----- The invariant, for one domain -----

  /**
    A board against its file. The file never lags behind what is marked saved, and holds the
    current state whenever it holds the current revision.
   */
  ghost predicate Consistent(b: BoardState, f: File)
  {
    && b.revision == b.bumps
    && b.saved <= b.bumps
    && match f
       case Unknown => b.saved < b.bumps
       case Holds(contents, at) => b.saved <= at <= b.bumps && (at == b.bumps ==> contents == b.state)
  }

  /** The save task is at work on this domain and has taken its snapshot. */
  ghost predicate Saving(sys: System, d: Domain)
  {
    (sys.saver.Snapshotted? || sys.saver.Written?) && sys.saver.todo != [] && sys.saver.todo[0] == d
  }

  /** A snapshot in flight is newer than what is marked saved. */
  ghost predicate SnapshotFits(sys: System, d: Domain)
    requires d in sys.boards && d in sys.files
  {
    Saving(sys, d) ==>
      var b, w := sys.boards[d], sys.saver;
      && w.snapshot.revision == w.at
      && b.saved < w.at <= b.bumps
      && (w.at == b.bumps ==> w.snapshot.state == b.state)
      && (w.Written? ==> sys.files[d] == Holds(w.snapshot.state, w.at))
  }

  ghost predicate Inv(sys: System, d: Domain)
  {
    d in sys.boards && d in sys.files && Consistent(sys.boards[d], sys.files[d]) && SnapshotFits(sys, d)
  }

  lemma StepKeepsInv(sys: System, step: Step, d: Domain)
    requires Inv(sys, d) && Enabled(sys, step) && InRange(Next(sys, step), d)
    ensures Inv(Next(sys, step), d)
  {
    hide Execute;
  }

  lemma {:induction false} RunStaysInRange(sys: System, steps: seq<Step>, d: Domain)
    requires ValidRun(sys, steps) && InRange(Run(sys, steps), d) && d in sys.boards
    ensures InRange(sys, d)
    decreases |steps|
  {
    hide Execute;
    if steps != [] {
      var sys' := Next(sys, steps[0]);
      assert d in sys'.boards && sys.boards[d].bumps <= sys'.boards[d].bumps;
      RunStaysInRange(sys', steps[1..], d);
    }
  }

  lemma {:induction false} RunKeepsInv(sys: System, steps: seq<Step>, d: Domain)
    requires Inv(sys, d) && ValidRun(sys, steps) && InRange(Run(sys, steps), d)
    ensures Inv(Run(sys, steps), d)
    decreases |steps|
  {
    if steps != [] {
      var sys' := Next(sys, steps[0]);
      assert d in sys'.boards by { hide Execute; }
      hide Inv, Next, InRange;
      RunStaysInRange(sys', steps[1..], d);
      StepKeepsInv(sys, steps[0], d);
      RunKeepsInv(sys', steps[1..], d);
    }
  }

  lemma {:induction false} RunKeepsDomains(sys: System, steps: seq<Step>)
    requires ValidRun(sys, steps)
    ensures Run(sys, steps).boards.Keys == sys.boards.Keys && sys.files.Keys <= Run(sys, steps).files.Keys
    decreases |steps|
  {
    if steps != [] {
      hide Execute;
      var sys' := Next(sys, steps[0]);
      assert sys'.boards.Keys == sys.boards.Keys && sys.files.Keys <= sys'.files.Keys;
      RunKeepsDomains(sys', steps[1..]);
    }
  }

  /** A board that reports nothing to save and whose state is not what its file holds. */
  ghost predicate LostUpdate(sys: System, d: Domain)
    requires d in sys.boards && d in sys.files
  {
    && sys.boards[d].revision == sys.boards[d].saved
    && !(sys.files[d].Holds? && sys.files[d].contents == sys.boards[d].state)
  }

  /**
    No lost updates. In every interleaving in which the board changes fewer than 2^64 times, if it
    reports nothing to save then its exact state is in its file, and the saved revision never runs
    ahead. A file that a failed write may have damaged belongs to a board that is still dirty.
   */
  lemma NoLostUpdates(start: System, steps: seq<Step>, d: Domain)
    requires Loaded(start) && ValidRun(start, steps) && d in start.boards && InRange(Run(start, steps), d)
    ensures var sys := Run(start, steps);
            && d in sys.boards && d in sys.files
            && sys.boards[d].saved <= sys.boards[d].revision
            && !LostUpdate(sys, d)
  {
    assert Inv(start, d);
    RunKeepsInv(start, steps, d);
  }

  /**
    Marking a written snapshot makes a board clean exactly when it has not changed since the
    snapshot was taken: a change in between leaves it dirty, and the snapshot's revision saved.
   */
  lemma MarkingSavesExactlyTheSnapshot(start: System, steps: seq<Step>, d: Domain)
    requires Loaded(start) && ValidRun(start, steps) && d in start.boards && InRange(Run(start, steps), d)
    requires var sys := Run(start, steps); Enabled(sys, MarkWritten) && sys.saver.todo[0] == d
    ensures var sys := Run(start, steps);
            var b, b' := sys.boards[d], Next(sys, MarkWritten).boards[d];
            && b'.saved == sys.saver.snapshot.revision
            && b'.state == b.state && b'.revision == b.revision
            && (b'.revision == b'.saved <==> b.bumps == sys.saver.at)
            && (b'.revision == b'.saved ==> b.state == sys.saver.snapshot.state)
  {
    assert Inv(start, d);
    RunKeepsInv(start, steps, d);
  }

  /**
    What the save task leaves alone: it changes no state and no revision, and no file or mark but
    those of the domain it is at. A write that fails ends the whole save, and the board stays dirty.
   */
  lemma SavingTouchesOneDomain(sys: System, step: Step, d: Domain)
    requires Enabled(sys, step) && !step.Mutate? && d in sys.boards && d in sys.files
    ensures var end := Next(sys, step);
            && d in end.boards && d in end.files
            && end.boards[d].state == sys.boards[d].state && end.boards[d].revision == sys.boards[d].revision
            && (end.boards[d] != sys.boards[d] ==> step.MarkWritten? && sys.saver.todo[0] == d)
            && (end.files[d] != sys.files[d] ==>
                  && (step.WriteDone? || step.WriteFailed? || step.Abandon?)
                  && sys.saver.todo != [] && sys.saver.todo[0] == d)
            && (step.WriteDone? && sys.saver.todo[0] == d ==>
                  end.files[d] == Holds(sys.saver.snapshot.state, sys.saver.at))
            && (step.WriteFailed? || step.Abandon? || step.EndSave? ==> end.saver == Idle && end.boards == sys.boards)
  {
  }

  // ----- A save that nothing interrupts -----

  /** The steps of a save for one domain: nothing for a clean board, otherwise write and mark. */
  ghost function SaveOne(b: BoardState): (steps: seq<Step>)
  {
    if b.revision == b.saved then [Visit] else [Visit, WriteDone, MarkWritten]
  }

  /** What a save makes of one domain. */
  ghost function Saved(sys: System, d: Domain): (r: System)
    requires d in sys.boards
  {
    var b := sys.boards[d];
    if b.revision == b.saved then sys
    else sys.(boards := sys.boards[d := b.(saved := b.revision)], files := sys.files[d := Holds(b.state, b.bumps)])
  }

  lemma OneIsSaved(sys: System, todo: seq<Domain>, rest: seq<Step>)
    requires sys.saver == Visiting(todo) && todo != [] && todo[0] in sys.boards
    requires sys.boards[todo[0]].saved <= sys.boards[todo[0]].revision
    requires ValidRun(Saved(sys, todo[0]).(saver := Visiting(todo[1..])), rest)
    ensures var steps := SaveOne(sys.boards[todo[0]]) + rest;
            && ValidRun(sys, steps)
            && Run(sys, steps) == Run(Saved(sys, todo[0]).(saver := Visiting(todo[1..])), rest)
  {
    var d := todo[0];
    var b := sys.boards[d];
    var end := Saved(sys, d).(saver := Visiting(todo[1..]));
    var s1 := Next(sys, Visit);
    if b.revision == b.saved {
      OneMore(sys, Visit, rest);
    } else {
      var s2 := Next(s1, WriteDone);
      assert Next(s2, MarkWritten) == end;
      hide Next, Enabled;
      OneMore(s2, MarkWritten, rest);
      OneMore(s1, WriteDone, [MarkWritten] + rest);
      OneMore(sys, Visit, [WriteDone] + ([MarkWritten] + rest));
      assert [Visit, WriteDone, MarkWritten] + rest == [Visit] + ([WriteDone] + ([MarkWritten] + rest));
    }
  }

  lemma OneMore(sys: System, step: Step, rest: seq<Step>)
    requires Enabled(sys, step) && ValidRun(Next(sys, step), rest)
    ensures ValidRun(sys, [step] + rest) && Run(sys, [step] + rest) == Run(Next(sys, step), rest)
  {
    hide Next, Enabled;
    assert ([step] + rest)[1..] == rest;
  }

  /** A board after a save: unchanged but clean if it was to be saved, with its state in the file if it was dirty. */
  ghost predicate BoardSaved(sys: System, end: System, d: Domain, asked: bool)
    requires d in sys.boards
  {
    var b := sys.boards[d];
    && d in end.boards
    && end.boards[d] == (if asked then b.(saved := b.revision) else b)
    && (asked && b.revision != b.saved ==> d in end.files && end.files[d] == Holds(b.state, b.bumps))
    && ((!asked || b.revision == b.saved) && d in sys.files ==> d in end.files && end.files[d] == sys.files[d])
  }

  ghost predicate SaveResult(sys: System, end: System, todo: seq<Domain>)
  {
    && end.saver == Idle && end.boards.Keys == sys.boards.Keys
    && forall d | d in sys.boards :: BoardSaved(sys, end, d, d in todo)
  }

  lemma SaveResultCons(sys: System, todo: seq<Domain>, end: System)
    requires todo != [] && todo[0] in sys.boards
    requires SaveResult(Saved(sys, todo[0]).(saver := Visiting(todo[1..])), end, todo[1..])
    ensures SaveResult(sys, end, todo)
  {
    var d := todo[0];
    var mid := Saved(sys, d).(saver := Visiting(todo[1..]));
    assert mid.boards.Keys == sys.boards.Keys;
    forall x | x in sys.boards ensures BoardSaved(sys, end, x, x in todo) {
      assert x in mid.boards && BoardSaved(mid, end, x, x in todo[1..]);
      assert x in todo <==> x == d || x in todo[1..];
    }
  }

  /**
    A save that nothing interrupts, of any of the boards: it ends with every one of them clean, the
    exact state of those that were dirty in their files, and no other board or file touched.
   */
  lemma {:induction false} UninterruptedSaveWritesAll(sys: System, todo: seq<Domain>) returns (steps: seq<Step>)
    requires sys.saver == Visiting(todo)
    requires forall d | d in todo :: d in sys.boards && sys.boards[d].saved <= sys.boards[d].revision
    ensures ValidRun(sys, steps) && SaveResult(sys, Run(sys, steps), todo)
    decreases |todo|
  {
    if todo == [] {
      steps := [EndSave];
      assert steps[1..] == [];
    } else {
      var d := todo[0];
      var mid := Saved(sys, d).(saver := Visiting(todo[1..]));
      assert forall x | x in todo[1..] :: x in todo;
      assert forall x | x in todo[1..] :: x in mid.boards && mid.boards[x].saved <= mid.boards[x].revision;
      hide Run, ValidRun, Next, SaveResult, Saved;
      var rest := UninterruptedSaveWritesAll(mid, todo[1..]);
      OneIsSaved(sys, todo, rest);
      steps := SaveOne(sys.boards[d]) + rest;
      SaveResultCons(sys, todo, Run(sys, steps));
    }
  }

  // ----- Loading what was saved -----

  /** Everything that is, or is about to be, in a file passes load validation. */
  ghost predicate AllLoadable(sys: System)
  {
    && (forall d | d in sys.boards :: Loadable(sys.boards[d].state))
    && (forall d | d in sys.files :: sys.files[d].Holds? ==> Loadable(sys.files[d].contents))
    && (sys.saver.Snapshotted? || sys.saver.Written? ==> Loadable(sys.saver.snapshot.state))
  }

  lemma StepKeepsLoadable(sys: System, step: Step)
    requires AllLoadable(sys) && Enabled(sys, step)
    ensures AllLoadable(Next(sys, step))
  {
    hide Execute, Loadable;
    if step.Mutate? {
      ExecuteKeepsLoadable(sys.boards[step.domain].state, step.op);
    }
  }

  lemma {:induction false} RunKeepsLoadable(sys: System, steps: seq<Step>)
    requires AllLoadable(sys) && ValidRun(sys, steps)
    ensures AllLoadable(Run(sys, steps))
    decreases |steps|
  {
    hide AllLoadable, Next, Enabled;
    if steps != [] {
      StepKeepsLoadable(sys, steps[0]);
      RunKeepsLoadable(Next(sys, steps[0]), steps[1..]);
    }
  }

  /** Every state that can be reached or written, by any run, passes load validation, so it reloads as it is. */
  lemma EveryReachableStateReloads(start: System, steps: seq<Step>, d: Domain)
    requires Loaded(start) && ValidRun(start, steps) && d in start.boards
    ensures var sys := Run(start, steps);
            && d in sys.boards && d in sys.files
            && Loadable(sys.boards[d].state)
            && (sys.files[d].Holds? ==> Loadable(sys.files[d].contents))
  {
    hide Loadable;
    assert AllLoadable(start);
    RunKeepsLoadable(start, steps);
    RunKeepsDomains(start, steps);
  }

  // ----- Where the counters give out -----

  /** A board with one objective, and the change that makes its `n`-th revision. */
  const CLEAN: Persistent := Persistent(map["b" := false], map[], {}, map[])

  ghost function Toggled(n: nat): (b: BoardState)
  {
    if n == 0 then BoardState(CLEAN, 0, 0, 0) else MutateBoard(Toggled(n - 1), SetScore("a", "b", n % 2))
  }

  ghost function Scored(v: int): (s: Persistent)
  {
    Persistent(map["b" := false], map["a" := map["b" := Score(v, true)]], {}, map[])
  }

  lemma ToggleChangesState(s: Persistent, v: int, w: int)
    requires s == CLEAN || s == Scored(w)
    requires v != w
    ensures Execute(s, SetScore("a", "b", v)).0 == Scored(v) != s
  {
    assert Row(s, "a")["b" := Score(v, true)] == map["b" := Score(v, true)];
    assert s.scores["a" := map["b" := Score(v, true)]] == map["a" := map["b" := Score(v, true)]];
    assert Entry(Scored(v), "a", "b") == Some(Score(v, true)) != Entry(s, "a", "b");
  }

  lemma ToggleOnce(b: BoardState, v: int, w: int)
    requires b.state == CLEAN || b.state == Scored(w)
    requires v != w
    ensures MutateBoard(b, SetScore("a", "b", v)) ==
            BoardState(Scored(v), (b.revision + 1) % TWO_64, b.saved, b.bumps + 1)
  {
    hide Execute, Scored;
    ToggleChangesState(b.state, v, w);
  }

  lemma RevisionStep(n: nat)
    requires n > 0
    ensures ((n - 1) % TWO_64 + 1) % TWO_64 == n % TWO_64
  {
  }

  lemma {:induction false} ToggledShape(n: nat)
    ensures var b := Toggled(n);
            && b.saved == 0 && b.bumps == n && b.revision == n % TWO_64
            && b.state == if n == 0 then CLEAN else Scored(n % 2)
  {
    if n > 0 {
      ToggledShape(n - 1);
      hide MutateBoard, Scored;
      ToggleOnce(Toggled(n - 1), n % 2, (n - 1) % 2);
      RevisionStep(n);
    }
  }

  lemma {:induction false} RunAppend(sys: System, steps: seq<Step>, last: Step)
    requires ValidRun(sys, steps) && Enabled(Run(sys, steps), last)
    ensures ValidRun(sys, steps + [last]) && Run(sys, steps + [last]) == Next(Run(sys, steps), last)
    decreases |steps|
  {
    hide Next, Enabled;
    var all := steps + [last];
    if steps == [] {
      assert all[1..] == [];
    } else {
      assert all[0] == steps[0] && all[1..] == steps[1..] + [last];
      RunAppend(Next(sys, steps[0]), steps[1..], last);
    }
  }

  /** One freshly loaded board, and a run that only changes it. */
  const FRESH: System := System(map["d" := BoardState(CLEAN, 0, 0, 0)], map["d" := Holds(CLEAN, 0)], Idle)

  ghost function ToggleSteps(n: nat): (steps: seq<Step>)
  {
    if n == 0 then [] else ToggleSteps(n - 1) + [Mutate("d", SetScore("a", "b", n % 2))]
  }

  lemma {:induction false} ToggleRun(n: nat)
    ensures ValidRun(FRESH, ToggleSteps(n))
    ensures Run(FRESH, ToggleSteps(n)) == FRESH.(boards := map["d" := Toggled(n)])
  {
    if n > 0 {
      ToggleRun(n - 1);
      var step := Mutate("d", SetScore("a", "b", n % 2));
      hide MutateBoard, Run, ValidRun;
      RunAppend(FRESH, ToggleSteps(n - 1), step);
      assert map["d" := Toggled(n - 1)]["d" := Toggled(n)] == map["d" := Toggled(n)];
    }
  }

  /** Along that run, an update is lost exactly when the counter has come round. */
  lemma ToggleLosesOnWrap(n: nat)
    ensures Loaded(FRESH) && ValidRun(FRESH, ToggleSteps(n))
    ensures var sys := Run(FRESH, ToggleSteps(n));
            && "d" in sys.boards && "d" in sys.files && sys.boards["d"].bumps == n
            && (LostUpdate(sys, "d") <==> n > 0 && n % TWO_64 == 0)
  {
    hide Toggled, Run, ValidRun, ToggleSteps;
    ToggleRun(n);
    ToggledShape(n);
    assert "a" in Scored(n % 2).scores && "a" !in CLEAN.scores;
  }

  /** No run in which the board changes fewer than `n` times loses an update of it. */
  ghost predicate SafeBelow(n: nat)
  {
    forall start, steps, d | Loaded(start) && ValidRun(start, steps) && d in start.boards ::
      var sys := Run(start, steps);
      d in sys.boards && d in sys.files && (sys.boards[d].bumps < n ==> !LostUpdate(sys, d))
  }

  /** The bound of 2^64 changes is exact, over all runs. */
  lemma UpdatesAreSafeExactlyBelowTheBound(n: nat)
    ensures SafeBelow(n) <==> n <= TWO_64
  {
    if n <= TWO_64 {
      forall start, steps, d | Loaded(start) && ValidRun(start, steps) && d in start.boards
        ensures var sys := Run(start, steps);
                d in sys.boards && d in sys.files && (sys.boards[d].bumps < n ==> !LostUpdate(sys, d))
      {
        hide Next, Run, Loadable;
        RunKeepsDomains(start, steps);
        if Run(start, steps).boards[d].bumps < n {
          NoLostUpdates(start, steps, d);
        }
      }
    } else {
      hide Run, ValidRun, ToggleSteps;
      ToggleLosesOnWrap(TWO_64);
      assert "d" in FRESH.boards;
    }
  }
}
