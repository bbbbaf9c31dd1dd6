/** Loading a moment of the history: the user interface asks, a timer debounces, a worker loads. Each
    step below is what one thread does while it holds the lock or touches one shared flag, so a run is
    any interleaving of the two threads. Loads succeed, the button that goes back to live data is not
    pressed, and no mouse button goes down on the slider while a timer is armed. */
module HistoryProtocol {
  /** What the thread of the user interface is in the middle of. */
  datatype Ui = Ready | Disarmed(t: nat) | Stored | Fired

  /** What the worker is in the middle of; `Polled` holds what it has read under the lock. */
  datatype Worker = Idle | Polled(live: bool, pending: bool, t: nat) | Loading(t: nat) | Loaded(t: nat) | Cleared

  /** `requested` is zero before the first request; `engine` is the time the engine shows. */
  datatype State = State(
    live: bool, requested: nat, pending: bool, armed: bool, skipWait: bool, firstRun: bool,
    engine: nat, ui: Ui, worker: Worker)

  datatype Step =
    | BeginRequest(t: nat)  // the timer of an earlier request goes
    | StoreRequest          // under the lock
    | ArmTimer
    | FireMark              // the timer callback, under the lock
    | FireEnd
    | SetSkip(on: bool)     // a key that requested a time, scrolling, searching, sorting and the like
    | Poll                  // the worker reads the flags under the lock
    | Sleep                 // it finds nothing to do
    | Refresh               // it shows the data that the engine has
    | GoLoad                // it goes to load the time that it has read
    | Load                  // evisum_engine_history_time_set
    | Finish                // under the lock
    | Rest(shown: bool)     // after the list was shown, or was empty

  const INIT := State(true, 0, false, false, false, true, 0, Ready, Idle)

  /** The worker, having read the flags, has a reason to go on; `skipWait` is read after the lock. */
  predicate Roused(s: State)
    requires s.worker.Polled?
  {
    s.worker.pending || s.firstRun || s.skipWait
  }

  predicate Enabled(s: State, step: Step)
  {
    match step
    case BeginRequest(t) => s.ui.Ready? && t != 0
    case StoreRequest => s.ui.Disarmed?
    case ArmTimer => s.ui.Stored?
    case FireMark => s.ui.Ready? && s.armed
    case FireEnd => s.ui.Fired?
    case SetSkip(_) => s.ui.Ready?
    case Poll => s.worker.Idle?
    case Sleep => s.worker.Polled? && !s.firstRun && !s.skipWait && (s.worker.live || !s.worker.pending)
    case Refresh => s.worker.Polled? && (s.worker.live || (Roused(s) && s.worker.t == 0))
    case GoLoad => s.worker.Polled? && !s.worker.live && Roused(s) && s.worker.t != 0
    case Load => s.worker.Loading?
    case Finish => s.worker.Loaded?
    case Rest(_) => s.worker.Cleared?
  }

  function Next(s: State, step: Step): State
    requires Enabled(s, step)
  {
    match step
    case BeginRequest(t) => s.(armed := false, ui := Disarmed(t))
    case StoreRequest => s.(live := false, requested := s.ui.t, pending := false, ui := Stored)
    case ArmTimer => s.(armed := true, ui := Ready)
    case FireMark => s.(pending := true, ui := Fired)
    case FireEnd => s.(skipWait := true, armed := false, ui := Ready)
    case SetSkip(on) => s.(skipWait := on)
    case Poll => s.(worker := Polled(s.live, s.pending, s.requested))
    case Sleep => s.(worker := Idle)
    case Refresh => s.(worker := Cleared)
    case GoLoad => s.(worker := Loading(s.worker.t))
    case Load => s.(engine := s.worker.t, worker := Loaded(s.worker.t))
    case Finish => s.(pending := s.pending && s.requested != s.worker.t, worker := Cleared)
    case Rest(shown) => s.(skipWait := false, firstRun := s.firstRun && !shown, worker := Idle)
  }

  /** A run: every step is enabled where it is taken. */
  predicate Runs(s: State, steps: seq<Step>)
    decreases |steps|
  {
    steps == [] || (Enabled(s, steps[0]) && Runs(Next(s, steps[0]), steps[1..]))
  }

  function After(s: State, steps: seq<Step>): State
    requires Runs(s, steps)
    decreases |steps|
  {
    if steps == [] then s else After(Next(s, steps[0]), steps[1..])
  }

  // ----- Safety -----

  /** The latest request will still be loaded. */
  predicate Owed(s: State)
  {
    (s.armed && s.ui.Ready?) || s.pending || s.ui.Disarmed? || s.ui.Stored?
  }

  predicate Invariant(s: State)
  {
    && (s.live <==> s.requested == 0)
    && (s.ui.Disarmed? ==> s.ui.t != 0)
    && (s.requested != 0 ==> Owed(s) || s.engine == s.requested)
    && (s.worker.Polled? && !s.worker.live ==> s.requested != 0 && s.worker.t != 0)
    && (s.worker.Polled? && !s.worker.live ==> s.worker.t == s.requested || Owed(s))
    && (s.worker.Loading? ==> s.worker.t == s.requested || Owed(s))
    && (s.worker.Loaded? ==> s.worker.t == s.engine && (s.worker.t == s.requested || Owed(s)))
    && (s.worker.Loading? || s.worker.Loaded? ==> s.requested != 0 && s.worker.t != 0)
  }

  lemma StepKeepsInvariant(s: State, step: Step)
    requires Invariant(s) && Enabled(s, step)
    ensures Invariant(Next(s, step))
  {
  }

  lemma {:induction false} RunKeepsInvariant(s: State, steps: seq<Step>)
    requires Invariant(s) && Runs(s, steps)
    ensures Invariant(After(s, steps))
    decreases |steps|
  {
    hide Invariant, Next, Enabled;
    if steps != [] {
      StepKeepsInvariant(s, steps[0]);
      RunKeepsInvariant(Next(s, steps[0]), steps[1..]);
    }
  }

  /** The last stored request of a run, or what was stored before. */
  function LastStored(asked: nat, steps: seq<Step>, before: nat): nat
    decreases |steps|
  {
    if steps == [] then before
    else
      match steps[0]
      case BeginRequest(t) => LastStored(t, steps[1..], before)
      case StoreRequest => LastStored(asked, steps[1..], asked)
      case _ => LastStored(asked, steps[1..], before)
  }

  lemma {:induction false} RequestedIsLastStored(s: State, steps: seq<Step>, t: nat)
    requires Runs(s, steps) && (s.ui.Disarmed? ==> s.ui.t == t)
    ensures After(s, steps).requested == LastStored(t, steps, s.requested)
    decreases |steps|
  {
    if steps != [] {
      var t' := if steps[0].BeginRequest? then steps[0].t else t;
      RequestedIsLastStored(Next(s, steps[0]), steps[1..], t');
    }
  }

  /** No timer is armed, nothing is pending, no request is half made and the worker is not loading. */
  predicate Quiet(s: State)
  {
    !s.armed && !s.pending && s.ui.Ready? && !s.worker.Loading? && !s.worker.Loaded?
  }

  /** Under every interleaving: when all is quiet, the engine shows the time requested last. */
  lemma QuietShowsLatest(steps: seq<Step>)
    requires Runs(INIT, steps) && Quiet(After(INIT, steps))
    ensures var s := After(INIT, steps);
            s.requested == LastStored(0, steps, 0) && (s.requested != 0 ==> s.engine == s.requested)
  {
    RunKeepsInvariant(INIT, steps);
    RequestedIsLastStored(INIT, steps, 0);
  }

  /** The worker is loading `t` or has just finished with it. */
  predicate InTurn(s: State, t: nat)
  {
    s.worker == Loading(t) || s.worker == Loaded(t) || s.worker.Cleared?
  }

  lemma TurnStep(s: State, step: Step, t: nat)
    requires InTurn(s, t) && (s.requested != t ==> Owed(s)) && Enabled(s, step) && !step.Rest?
    ensures InTurn(Next(s, step), t) && (Next(s, step).requested != t ==> Owed(Next(s, step)))
  {
  }

  lemma {:induction false} TurnKeepsNewer(s: State, steps: seq<Step>, t: nat)
    requires InTurn(s, t) && (s.requested != t ==> Owed(s))
    requires Runs(s, steps) && forall k :: 0 <= k < |steps| ==> !steps[k].Rest?
    ensures After(s, steps).requested != t ==> Owed(After(s, steps))
    decreases |steps|
  {
    hide InTurn, Owed, Next, Enabled;
    if steps != [] {
      TurnStep(s, steps[0], t);
      assert forall k :: 0 <= k < |steps[1..]| ==> steps[1..][k] == steps[k + 1];
      TurnKeepsNewer(Next(s, steps[0]), steps[1..], t);
    }
  }

  /** While a time is being loaded, and after that load is finished until the worker's next turn: a
      request for another time, made before or in the meantime, is still to be loaded. Finishing an
      older load never clears a newer request. */
  lemma LoadKeepsNewer(steps: seq<Step>, turn: seq<Step>, t: nat)
    requires Runs(INIT, steps) && After(INIT, steps).worker == Loading(t)
    requires Runs(After(INIT, steps), turn) && forall k :: 0 <= k < |turn| ==> !turn[k].Rest?
    ensures var s := After(After(INIT, steps), turn);
            s.requested != t ==> Owed(s)
  {
    RunKeepsInvariant(INIT, steps);
    TurnKeepsNewer(After(INIT, steps), turn, t);
  }

  // ----- Progress -----

  /** Looking and finding nothing to do. */
  predicate IsIdle(step: Step)
  {
    step.Poll? || step.Sleep?
  }

  /** What may go on for ever: new requests, other callbacks that rouse the worker, and a list that stays
      empty. */
  predicate IsOutside(step: Step)
  {
    step.BeginRequest? || step.SetSkip? || step == Rest(false)
  }

  function UiRank(s: State): nat
  {
    match s.ui
    case Disarmed(_) => 80
    case Stored => 50
    case Fired => 15
    case Ready => if s.armed then 30 else 0
  }

  /** How many steps the worker may still take. */
  function WorkerRank(s: State): nat
  {
    match s.worker
    case Idle => if s.pending || s.firstRun || s.skipWait then 4 else 0
    case Polled(live, _, t) =>
      if live then 6
      else if Roused(s) then (if t == s.requested then 4 else 8)
      else if s.pending then 4 else 0
    case Loading(t) => if t == s.requested then 3 else 7
    case Loaded(t) => if t == s.requested then 2 else 6
    case Cleared => if s.pending then 5 else 1
  }

  function Rank(s: State): nat
  {
    UiRank(s) + WorkerRank(s)
  }

  /** Once a request is stored, every step of the request, the timer and the worker brings the end
      nearer; looking in vain does not put it off. */
  lemma StepLowersRank(s: State, step: Step)
    requires Invariant(s) && !s.live && Enabled(s, step) && !IsOutside(step)
    ensures !Next(s, step).live
    ensures if IsIdle(step) then Rank(Next(s, step)) <= Rank(s) else Rank(Next(s, step)) < Rank(s)
  {
  }

  function Busy(steps: seq<Step>): nat
  {
    if steps == [] then 0 else (if IsIdle(steps[0]) then 0 else 1) + Busy(steps[1..])
  }

  /** Whatever the order of the steps, a run without new requests has at most 88 that are not spent
      looking in vain. */
  lemma {:induction false} Settles(s: State, steps: seq<Step>)
    requires Invariant(s) && !s.live && Runs(s, steps)
    requires forall k :: 0 <= k < |steps| ==> !IsOutside(steps[k])
    ensures Busy(steps) + Rank(After(s, steps)) <= Rank(s) <= 88
    decreases |steps|
  {
    hide Invariant, Next, Enabled, UiRank, WorkerRank, IsIdle, IsOutside;
    RankBound(s);
    if steps != [] {
      StepLowersRank(s, steps[0]);
      StepKeepsInvariant(s, steps[0]);
      assert forall k :: 0 <= k < |steps[1..]| ==> steps[1..][k] == steps[k + 1];
      Settles(Next(s, steps[0]), steps[1..]);
    }
  }

  lemma RankBound(s: State)
    ensures Rank(s) <= 88
  {
  }

  /** As long as the engine does not show the latest request, one of those steps can be taken, at once
      or after looking at most twice. So the engine gets there. */
  lemma GoesOn(s: State) returns (looks: seq<Step>, step: Step)
    requires Invariant(s) && s.requested != 0 && s.engine != s.requested
    ensures |looks| <= 2 && Runs(s, looks) && forall k :: 0 <= k < |looks| ==> IsIdle(looks[k])
    ensures Enabled(After(s, looks), step) && !IsIdle(step) && !IsOutside(step)
  {
    looks := [];
    if s.ui.Disarmed? { step := StoreRequest; }
    else if s.ui.Stored? { step := ArmTimer; }
    else if s.ui.Fired? { step := FireEnd; }
    else if s.armed { step := FireMark; }
    else {
      assert s.pending && !s.live;
      match s.worker
      case Idle =>
        looks, step := [Poll], GoLoad;
        assert looks[1..] == [];
      case Polled(live, pending, t) =>
        if live { step := Refresh; }
        else if Roused(s) { step := GoLoad; }
        else {
          looks, step := [Sleep, Poll], GoLoad;
          assert looks[1..] == [Poll] && looks[1..][1..] == [];
        }
      case Loading(_) => step := Load;
      case Loaded(_) => step := Finish;
      case Cleared => step := Rest(true);
    }
  }
}
