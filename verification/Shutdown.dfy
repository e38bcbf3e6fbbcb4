/** The shutdown protocol of src-tauri/src/lifecycle.rs outside Linux: close and exit
    handlers and the cleanup tasks they spawn, interleaved at single atomic operations
    on the two shared flags. */
module Shutdown {
  datatype Kind = Close | Exit

  /** Where one event's handling stands. A handler first loads `cleanup_complete`; seeing
      false it prevents the close or exit and swaps `shutting_down`; winning the swap it
      spawns a cleanup task, which ends with one store. */
  datatype Phase =
    | AtLoad(kind: Kind)
    | AtSwap(kind: Kind)
    | Cleaning(kind: Kind)
    | Succeeded(kind: Kind)
    | Failed(kind: Kind)
    | LetThrough(kind: Kind)
    | Dropped(kind: Kind)
    | Completed(kind: Kind)
    | Rearmed(kind: Kind)

  predicate InFlight(p: Phase) {
    p.Cleaning? || p.Succeeded? || p.Failed?
  }

  /** `restarted` records whether the elevated-restart command stored the flag itself. */
  datatype State = State(shuttingDown: bool, cleanupComplete: bool, threads: seq<Phase>, restarted: bool)

  const INITIAL := State(false, false, [], false)

  datatype Action =
    | Event(kind: Kind)
    | Load(thread: nat)
    | Swap(thread: nat)
    | Finish(thread: nat, ok: bool)
    | Store(thread: nat)
    | ElevatedRestart

  predicate Enabled(s: State, a: Action) {
    match a
    case Event(_) => true
    case Load(i) => i < |s.threads| && s.threads[i].AtLoad?
    case Swap(i) => i < |s.threads| && s.threads[i].AtSwap?
    case Finish(i, _) => i < |s.threads| && s.threads[i].Cleaning?
    case Store(i) => i < |s.threads| && (s.threads[i].Succeeded? || s.threads[i].Failed?)
    case ElevatedRestart => true
  }

  function Step(s: State, a: Action): State
    requires Enabled(s, a)
  {
    match a
    case Event(kind) => s.(threads := s.threads + [AtLoad(kind)])
    case Load(i) =>
      var k := s.threads[i].kind;
      s.(threads := s.threads[i := if s.cleanupComplete then LetThrough(k) else AtSwap(k)])
    case Swap(i) =>
      var k := s.threads[i].kind;
      s.(shuttingDown := true, threads := s.threads[i := if s.shuttingDown then Dropped(k) else Cleaning(k)])
    case Finish(i, ok) =>
      var k := s.threads[i].kind;
      s.(threads := s.threads[i := if ok then Succeeded(k) else Failed(k)])
    case Store(i) =>
      var k := s.threads[i].kind;
      if s.threads[i].Succeeded? then s.(cleanupComplete := true, threads := s.threads[i := Completed(k)])
      else s.(shuttingDown := false, threads := s.threads[i := Rearmed(k)])
    case ElevatedRestart => s.(cleanupComplete := true, restarted := true)
  }

  // ----- what every interleaving keeps ----------------------------------

  ghost predicate SomeInFlight(s: State) {
    exists i :: 0 <= i < |s.threads| && InFlight(s.threads[i])
  }

  ghost predicate SomeCompleted(s: State) {
    exists i :: 0 <= i < |s.threads| && s.threads[i].Completed?
  }

  ghost predicate Inv(s: State) {
    && (forall i, j :: 0 <= i < j < |s.threads| ==> !(InFlight(s.threads[i]) && InFlight(s.threads[j])))
    && (s.shuttingDown <==> SomeInFlight(s) || SomeCompleted(s))
    && !(SomeInFlight(s) && SomeCompleted(s))
    && (s.cleanupComplete <==> SomeCompleted(s) || s.restarted)
    && (forall i :: 0 <= i < |s.threads| && s.threads[i].LetThrough? ==> s.cleanupComplete)
  }

  lemma MoveKeeps(s: State, i: nat, p: Phase)
    requires i < |s.threads| && !s.threads[i].Completed?
    requires InFlight(p) == InFlight(s.threads[i]) && !p.Completed?
    ensures SomeInFlight(s.(threads := s.threads[i := p])) == SomeInFlight(s)
    ensures SomeCompleted(s.(threads := s.threads[i := p])) == SomeCompleted(s)
  {
    var t := s.(threads := s.threads[i := p]);
    if SomeInFlight(s) {
      var j :| 0 <= j < |s.threads| && InFlight(s.threads[j]);
      assert InFlight(t.threads[j]);
    }
    if SomeInFlight(t) {
      var j :| 0 <= j < |t.threads| && InFlight(t.threads[j]);
      assert InFlight(s.threads[j]);
    }
    if SomeCompleted(s) {
      var j :| 0 <= j < |s.threads| && s.threads[j].Completed?;
      assert t.threads[j].Completed?;
    }
    if SomeCompleted(t) {
      var j :| 0 <= j < |t.threads| && t.threads[j].Completed?;
      assert s.threads[j].Completed?;
    }
  }

  lemma EventKeeps(s: State, kind: Kind)
    requires Inv(s)
    ensures Inv(Step(s, Event(kind)))
  {
    var t := Step(s, Event(kind));
    if SomeInFlight(s) {
      var j :| 0 <= j < |s.threads| && InFlight(s.threads[j]);
      assert InFlight(t.threads[j]);
    }
    if SomeCompleted(s) {
      var j :| 0 <= j < |s.threads| && s.threads[j].Completed?;
      assert t.threads[j].Completed?;
    }
  }

  lemma SwapKeeps(s: State, i: nat)
    requires Inv(s) && Enabled(s, Swap(i))
    ensures Inv(Step(s, Swap(i)))
  {
    var t := Step(s, Swap(i));
    if s.shuttingDown {
      MoveKeeps(s, i, t.threads[i]);
    } else {
      assert InFlight(t.threads[i]);
      forall j | 0 <= j < |t.threads| && j != i ensures !InFlight(t.threads[j]) && !t.threads[j].Completed? {
        assert t.threads[j] == s.threads[j];
      }
    }
  }

  lemma StoreKeeps(s: State, i: nat)
    requires Inv(s) && Enabled(s, Store(i))
    ensures Inv(Step(s, Store(i)))
  {
    var t := Step(s, Store(i));
    assert InFlight(s.threads[i]);
    forall j | 0 <= j < |t.threads| && j != i ensures !InFlight(t.threads[j]) && !t.threads[j].Completed? {
      assert t.threads[j] == s.threads[j];
    }
    if s.threads[i].Succeeded? { assert t.threads[i].Completed?; }
  }

  lemma StepKeeps(s: State, a: Action)
    requires Inv(s) && Enabled(s, a)
    ensures Inv(Step(s, a))
  {
    var t := Step(s, a);
    match a
    case Event(kind) => EventKeeps(s, kind);
    case Load(i) => MoveKeeps(s, i, t.threads[i]);
    case Swap(i) => SwapKeeps(s, i);
    case Finish(i, ok) => MoveKeeps(s, i, t.threads[i]);
    case Store(i) => StoreKeeps(s, i);
    case ElevatedRestart =>
      assert t.threads == s.threads;
      assert SomeInFlight(t) == SomeInFlight(s) && SomeCompleted(t) == SomeCompleted(s);
  }

  // ----- whole runs -----------------------------------------------------

  ghost predicate Run(states: seq<State>, actions: seq<Action>) {
    |states| == |actions| + 1 && states[0] == INITIAL &&
    forall k :: 0 <= k < |actions| ==> Enabled(states[k], actions[k]) && states[k + 1] == Step(states[k], actions[k])
  }

  lemma {:induction false} RunKeeps(states: seq<State>, actions: seq<Action>, n: nat)
    requires Run(states, actions) && n <= |actions|
    ensures Inv(states[n])
    decreases n
  {
    hide Step, Enabled;
    if n == 0 {
      assert !SomeInFlight(INITIAL) && !SomeCompleted(INITIAL);
    } else {
      hide Inv;
      RunKeeps(states, actions, n - 1);
      StepKeeps(states[n - 1], actions[n - 1]);
    }
  }

  /** In every interleaving at most one cleanup is in flight, and a close or exit is let
      through only when a cleanup has completed or the elevated restart took over. */
  lemma OneCleanup(states: seq<State>, actions: seq<Action>, n: nat)
    requires Run(states, actions) && n <= |actions|
    ensures forall i, j :: 0 <= i < j < |states[n].threads| ==>
              !(InFlight(states[n].threads[i]) && InFlight(states[n].threads[j]))
    ensures forall i :: 0 <= i < |states[n].threads| && states[n].threads[i].LetThrough? ==>
              SomeCompleted(states[n]) || states[n].restarted
  {
    hide Run;
    RunKeeps(states, actions, n);
  }

  /** In every interleaving `shutting_down` is true exactly when a cleanup is in flight or
      has completed, and so agrees with "in flight or `cleanup_complete`" exactly when no
      elevated restart happened or a cleanup is in flight or has completed. */
  lemma FlagMeaning(states: seq<State>, actions: seq<Action>, n: nat)
    requires Run(states, actions) && n <= |actions|
    ensures states[n].shuttingDown <==> SomeInFlight(states[n]) || SomeCompleted(states[n])
    ensures states[n].cleanupComplete <==> SomeCompleted(states[n]) || states[n].restarted
    ensures (states[n].shuttingDown <==> SomeInFlight(states[n]) || states[n].cleanupComplete) <==>
            (states[n].restarted ==> SomeInFlight(states[n]) || SomeCompleted(states[n]))
  {
    hide Run;
    RunKeeps(states, actions, n);
  }

  lemma {:induction false} CompletedStays(states: seq<State>, actions: seq<Action>, m: nat, n: nat)
    requires Run(states, actions) && m <= n <= |actions| && SomeCompleted(states[m])
    ensures SomeCompleted(states[n])
    decreases n
  {
    if m < n {
      CompletedStays(states, actions, m, n - 1);
      var i :| 0 <= i < |states[n - 1].threads| && states[n - 1].threads[i].Completed?;
      assert states[n] == Step(states[n - 1], actions[n - 1]);
      assert states[n].threads[i].Completed?;
    }
  }

  /** Once a cleanup has completed, none is ever in flight again, and every handler that
      loads the flag afterwards lets its event through. */
  lemma NoneAfterSuccess(states: seq<State>, actions: seq<Action>, m: nat, n: nat)
    requires Run(states, actions) && m <= n <= |actions| && SomeCompleted(states[m])
    ensures !SomeInFlight(states[n]) && states[n].cleanupComplete
    ensures n < |actions| && actions[n].Load? ==> states[n + 1].threads[actions[n].thread].LetThrough?
  {
    RunKeeps(states, actions, n);
    CompletedStays(states, actions, m, n);
  }

  /** Whether the step is a swap that starts a cleanup. */
  predicate Starts(s: State, a: Action) {
    a.Swap? && Enabled(s, a) && Step(s, a).threads[a.thread].Cleaning?
  }

  /** From the failed store at `m` up to state `n`, which no swap precedes, nothing is in
      flight or completed. */
  lemma {:induction false} IdleUntilSwap(states: seq<State>, actions: seq<Action>, m: nat, n: nat)
    requires Run(states, actions) && m < n <= |actions|
    requires actions[m].Store? && states[m].threads[actions[m].thread].Failed?
    requires forall j :: m < j < n ==> !actions[j].Swap?
    ensures !states[n].shuttingDown
    decreases n
  {
    RunStep(states, actions, n - 1);
    if n > m + 1 { IdleUntilSwap(states, actions, m, n - 1); }
  }

  lemma RunStep(states: seq<State>, actions: seq<Action>, k: nat)
    requires Run(states, actions) && k < |actions|
    ensures Enabled(states[k], actions[k]) && states[k + 1] == Step(states[k], actions[k])
  {
  }

  /** A failed cleanup re-arms, in every interleaving: after its store the first later swap,
      by whichever handler, starts a cleanup; and until then every handler that loads the
      flag goes on to swap, unless an elevated restart came first. */
  lemma FailureRearms(states: seq<State>, actions: seq<Action>, m: nat, n: nat)
    requires Run(states, actions) && m < n < |actions|
    requires actions[m].Store? && states[m].threads[actions[m].thread].Failed?
    requires forall j :: m < j < n ==> !actions[j].Swap?
    ensures actions[n].Swap? ==> Starts(states[n], actions[n])
    ensures actions[n].Load? && !states[n].restarted ==> states[n + 1].threads[actions[n].thread].AtSwap?
  {
    hide Run, SomeInFlight, SomeCompleted;
    IdleUntilSwap(states, actions, m, n);
    RunKeeps(states, actions, n);
    RunStep(states, actions, n);
  }

  // ----- the elevated restart -------------------------------------------

  /** States and actions that go on from `s` by enabled steps. */
  ghost predicate GoesOn(s: State, states: seq<State>, actions: seq<Action>) {
    |states| == |actions| + 1 && states[0] == s &&
    forall k :: 0 <= k < |actions| ==> Enabled(states[k], actions[k]) && states[k + 1] == Step(states[k], actions[k])
  }

  /** Some continuation of `s` starts a cleanup. */
  ghost predicate CanStart(s: State) {
    exists states: seq<State>, actions: seq<Action> ::
      GoesOn(s, states, actions) && actions != [] && Starts(states[|actions| - 1], actions[|actions| - 1])
  }

  ghost predicate SomeAtSwap(s: State) {
    exists i :: 0 <= i < |s.threads| && s.threads[i].AtSwap?
  }

  ghost predicate SomeSucceeded(s: State) {
    exists i :: 0 <= i < |s.threads| && s.threads[i].Succeeded?
  }

  /** No cleanup can start any more: no handler is about to swap, or the flag that swaps
      test is bound to stay up. */
  ghost predicate Over(s: State) {
    Inv(s) && s.cleanupComplete && (!SomeAtSwap(s) || SomeCompleted(s) || SomeSucceeded(s))
  }

  lemma OverStays(s: State, a: Action)
    requires Over(s) && Enabled(s, a)
    ensures Over(Step(s, a)) && !Starts(s, a)
  {
    hide Inv, SomeInFlight;
    var t := Step(s, a);
    StepKeeps(s, a);
    OverRaised(s);
    if SomeCompleted(s) {
      var i :| 0 <= i < |s.threads| && s.threads[i].Completed?;
      assert t.threads[i].Completed?;
    } else if SomeSucceeded(s) {
      var i :| 0 <= i < |s.threads| && s.threads[i].Succeeded?;
      assert t.threads[i].Succeeded? || t.threads[i].Completed?;
    } else {
      assert forall i :: 0 <= i < |t.threads| && t.threads[i].AtSwap? ==> i < |s.threads| && s.threads[i].AtSwap?;
    }
  }

  lemma OverRaised(s: State)
    requires Over(s)
    ensures SomeCompleted(s) || SomeSucceeded(s) ==> s.shuttingDown
  {
    if i :| 0 <= i < |s.threads| && s.threads[i].Succeeded? { assert InFlight(s.threads[i]); }
  }

  lemma {:induction false} OverForGood(s: State, states: seq<State>, actions: seq<Action>, n: nat)
    requires Over(s) && GoesOn(s, states, actions) && n <= |actions|
    ensures Over(states[n])
    decreases n
  {
    hide Over, Step, Enabled;
    if n > 0 {
      OverForGood(s, states, actions, n - 1);
      OverStays(states[n - 1], actions[n - 1]);
    }
  }

  lemma StartsNow(s: State, i: nat)
    requires i < |s.threads| && s.threads[i].AtSwap? && !s.shuttingDown
    ensures CanStart(s)
  {
    var states, actions := [s, Step(s, Swap(i))], [Swap(i)];
    assert GoesOn(s, states, actions) && Starts(states[0], actions[0]);
  }

  lemma StartsAfter(s: State, a: Action)
    requires Enabled(s, a) && CanStart(Step(s, a))
    ensures CanStart(s)
  {
    hide Step, Enabled;
    var states, actions :| GoesOn(Step(s, a), states, actions) && actions != []
                           && Starts(states[|actions| - 1], actions[|actions| - 1]);
    var longer, acts := [s] + states, [a] + actions;
    forall k | 0 <= k < |acts| ensures Enabled(longer[k], acts[k]) && longer[k + 1] == Step(longer[k], acts[k]) {
      if k > 0 { assert longer[k] == states[k - 1] && acts[k] == actions[k - 1] && longer[k + 1] == states[k]; }
    }
    assert GoesOn(s, longer, acts);
    assert longer[|acts| - 1] == states[|actions| - 1] && acts[|acts| - 1] == actions[|actions| - 1];
  }

  lemma CanFail(s: State)
    requires Inv(s) && SomeAtSwap(s) && !SomeCompleted(s) && !SomeSucceeded(s)
    ensures CanStart(s)
  {
    hide CanStart;
    var i :| 0 <= i < |s.threads| && s.threads[i].AtSwap?;
    if !s.shuttingDown {
      StartsNow(s, i);
    } else {
      var j :| 0 <= j < |s.threads| && InFlight(s.threads[j]);
      var f := if s.threads[j].Cleaning? then Step(s, Finish(j, false)) else s;
      StartsNow(Step(f, Store(j)), i);
      StartsAfter(f, Store(j));
      if s.threads[j].Cleaning? { StartsAfter(s, Finish(j, false)); }
    }
  }

  lemma OverCannotStart(s: State)
    requires Over(s)
    ensures !CanStart(s)
  {
    hide Over, Starts, GoesOn;
    forall states: seq<State>, actions: seq<Action> | GoesOn(s, states, actions) && actions != []
      ensures |states| == |actions| + 1 && !Starts(states[|actions| - 1], actions[|actions| - 1])
    {
      LastStep(s, states, actions);
      OverForGood(s, states, actions, |actions| - 1);
      OverStays(states[|actions| - 1], actions[|actions| - 1]);
    }
  }

  lemma LastStep(s: State, states: seq<State>, actions: seq<Action>)
    requires GoesOn(s, states, actions) && actions != []
    ensures |states| == |actions| + 1 && Enabled(states[|actions| - 1], actions[|actions| - 1])
  {
  }

  /** A handler that loaded the flag before the restart starts a cleanup after it. */
  lemma RestartRacesWithHandler()
    ensures exists states: seq<State>, actions: seq<Action> ::
              Run(states, actions) && states[|actions|].cleanupComplete && SomeInFlight(states[|actions|])
  {
    var s1 := Step(INITIAL, Event(Close));
    var s2 := Step(s1, Load(0));
    var s3 := Step(s2, ElevatedRestart);
    var s4 := Step(s3, Swap(0));
    var states, actions := [INITIAL, s1, s2, s3, s4], [Event(Close), Load(0), ElevatedRestart, Swap(0)];
    assert InFlight(s4.threads[0]);
    assert Run(states, actions);
    assert states[|actions|] == s4;
  }

  /** In every reachable state: after an elevated restart some continuation starts a
      cleanup, although the flag says that cleanup is complete, if and only if at the
      restart some handler stood between its load and its swap and no cleanup had
      succeeded, stored or not. */
  lemma RestartRacesExactly(states: seq<State>, actions: seq<Action>, n: nat)
    requires Run(states, actions) && n <= |actions|
    ensures CanStart(Step(states[n], ElevatedRestart)) <==>
            SomeAtSwap(states[n]) && !SomeCompleted(states[n]) && !SomeSucceeded(states[n])
  {
    hide CanStart, Inv, Starts;
    var s := states[n];
    var t := Step(s, ElevatedRestart);
    RunKeeps(states, actions, n);
    StepKeeps(s, ElevatedRestart);
    assert SomeAtSwap(t) == SomeAtSwap(s) && SomeCompleted(t) == SomeCompleted(s);
    assert SomeSucceeded(t) == SomeSucceeded(s);
    if SomeAtSwap(s) && !SomeCompleted(s) && !SomeSucceeded(s) {
      CanFail(t);
    } else {
      OverCannotStart(t);
    }
  }
}
