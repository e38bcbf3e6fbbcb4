/** The rolling measurement pool of src/components/ProfileManager.tsx: up to eight
    workers share the counter of the next endpoint, and each awaits its own probe. */
module MeasurePool {
  const POOL: nat := 8

  /** A worker between its await points: probing an index, resumed with that index's
      result recorded but not yet past its loop test, or returned. */
  datatype Worker = Probing(index: nat) | Recorded(index: nat) | Done

  datatype Result = Measured(delayMs: nat) | Failed

  datatype State = State(length: nat, next: nat, workers: seq<Worker>, results: map<nat, Result>, started: seq<nat>)

  datatype Action = Settle(worker: nat, result: Result) | Resume(worker: nat)

  function Workers(length: nat): nat {
    if length < POOL then length else POOL
  }

  /** All workers start in turn; each runs to its first probe. */
  function Launched(length: nat, n: nat): State
    requires n <= Workers(length)
  {
    if n == 0 then State(length, 0, [], map[], [])
    else
      var s := Launched(length, n - 1);
      s.(next := s.next + 1, workers := s.workers + [Probing(s.next)], started := s.started + [s.next])
  }

  function Start(length: nat): State {
    Launched(length, Workers(length))
  }

  predicate Enabled(s: State, a: Action) {
    a.worker < |s.workers| &&
    match a case Settle(i, _) => s.workers[i].Probing? case Resume(i) => s.workers[i].Recorded?
  }

  /** A probe settles, successfully or not, and its result is recorded; or a worker
      goes on with the next index, if one is left. */
  function Step(s: State, a: Action): State
    requires Enabled(s, a)
  {
    match a
    case Settle(i, result) =>
      var index := s.workers[i].index;
      s.(results := s.results[index := result], workers := s.workers[i := Recorded(index)])
    case Resume(i) =>
      if s.next < s.length then
        s.(next := s.next + 1, workers := s.workers[i := Probing(s.next)], started := s.started + [s.next])
      else s.(workers := s.workers[i := Done])
  }

  /** Every started index is either recorded or being probed, by one worker. */
  ghost predicate Inv(s: State) {
    && |s.workers| == Workers(s.length)
    && s.next <= s.length && |s.started| == s.next && (forall i :: 0 <= i < s.next ==> s.started[i] == i)
    && (forall i :: i in s.results ==> i < s.next)
    && (forall w :: 0 <= w < |s.workers| && s.workers[w].Probing? ==>
          s.workers[w].index < s.next && s.workers[w].index !in s.results)
    && (forall v, w :: 0 <= v < w < |s.workers| && s.workers[v].Probing? && s.workers[w].Probing? ==>
          s.workers[v].index != s.workers[w].index)
    && (forall i :: 0 <= i < s.next && i !in s.results ==> ProbedBy(s, i))
    && (forall w :: 0 <= w < |s.workers| && s.workers[w].Done? ==> s.next == s.length)
  }

  ghost predicate ProbedBy(s: State, i: nat) {
    exists w :: 0 <= w < |s.workers| && s.workers[w] == Probing(i)
  }

  lemma {:induction false} LaunchedRight(length: nat, n: nat)
    requires n <= Workers(length)
    ensures Launched(length, n).length == length && Launched(length, n).next == n
    ensures |Launched(length, n).workers| == n && |Launched(length, n).started| == n
    ensures Launched(length, n).results == map[]
    ensures forall i :: 0 <= i < n ==>
              Launched(length, n).workers[i] == Probing(i) && Launched(length, n).started[i] == i
    decreases n
  {
    if n > 0 { LaunchedRight(length, n - 1); }
  }

  lemma StartInv(length: nat)
    ensures Inv(Start(length))
  {
    var s := Start(length);
    LaunchedRight(length, Workers(length));
    forall i | 0 <= i < s.next && i !in s.results ensures ProbedBy(s, i) {
      assert s.workers[i] == Probing(i);
    }
  }

  lemma SettleKeeps(s: State, i: nat, result: Result)
    requires Inv(s) && Enabled(s, Settle(i, result))
    ensures Inv(Step(s, Settle(i, result)))
  {
    var t := Step(s, Settle(i, result));
    forall j | 0 <= j < t.next && j !in t.results ensures ProbedBy(t, j) {
      assert ProbedBy(s, j);
      var w :| 0 <= w < |s.workers| && s.workers[w] == Probing(j);
      assert t.workers[w] == Probing(j);
    }
  }

  lemma ResumeKeeps(s: State, i: nat)
    requires Inv(s) && Enabled(s, Resume(i))
    ensures Inv(Step(s, Resume(i)))
  {
    var t := Step(s, Resume(i));
    forall j | 0 <= j < t.next && j !in t.results ensures ProbedBy(t, j) {
      if j < s.next {
        assert ProbedBy(s, j);
        var w :| 0 <= w < |s.workers| && s.workers[w] == Probing(j);
        assert t.workers[w] == Probing(j);
      } else {
        assert t.workers[i] == Probing(j);
      }
    }
  }

  lemma StepKeeps(s: State, a: Action)
    requires Inv(s) && Enabled(s, a)
    ensures Inv(Step(s, a))
  {
    match a
    case Settle(i, result) => SettleKeeps(s, i, result);
    case Resume(i) => ResumeKeeps(s, i);
  }

  // ----- whole runs -----------------------------------------------------

  ghost predicate Run(states: seq<State>, actions: seq<Action>, length: nat) {
    |states| == |actions| + 1 && states[0] == Start(length) &&
    forall k :: 0 <= k < |actions| ==> Enabled(states[k], actions[k]) && states[k + 1] == Step(states[k], actions[k])
  }

  lemma {:induction false} RunKeeps(states: seq<State>, actions: seq<Action>, length: nat, n: nat)
    requires Run(states, actions, length) && n <= |actions|
    ensures Inv(states[n]) && states[n].length == length
    decreases n
  {
    hide Inv;
    if n == 0 {
      StartInv(length);
      LaunchedRight(length, Workers(length));
    } else {
      RunKeeps(states, actions, length, n - 1);
      StepKeeps(states[n - 1], actions[n - 1]);
    }
  }

  /** The indexes being probed. */
  function ProbedBySome(workers: seq<Worker>): set<nat> {
    if workers == [] then {}
    else
      var last := workers[|workers| - 1];
      ProbedBySome(workers[..|workers| - 1]) + if last.Probing? then {last.index} else {}
  }

  lemma {:induction false} ProbedAtMost(workers: seq<Worker>)
    ensures |ProbedBySome(workers)| <= |workers|
    ensures forall i :: i in ProbedBySome(workers) <==> Probing(i) in workers
    decreases |workers|
  {
    if workers != [] {
      var front, last := workers[..|workers| - 1], workers[|workers| - 1];
      ProbedAtMost(front);
      assert workers == front + [last];
    }
  }

  /** In every order of settling, each started index was started exactly once, in
      ascending order, and no more than eight probes are in flight. */
  lemma AtMostEightInFlight(states: seq<State>, actions: seq<Action>, length: nat, n: nat)
    requires Run(states, actions, length) && n <= |actions|
    ensures forall i :: 0 <= i < |states[n].started| ==> states[n].started[i] == i < length
    ensures |ProbedBySome(states[n].workers)| <= 8
    ensures forall i :: i in ProbedBySome(states[n].workers) <==> Probing(i) in states[n].workers
    ensures forall v, w ::
              0 <= v < w < |states[n].workers| && states[n].workers[v].Probing? && states[n].workers[w].Probing? ==>
                states[n].workers[v].index != states[n].workers[w].index
  {
    hide Step, Enabled, Start;
    RunKeeps(states, actions, length, n);
    ProbedAtMost(states[n].workers);
  }

  /** The pool starts with eight probes, or with all when there are fewer, and as long as an
      index is left no worker returns: each goes on to the next index. */
  lemma PoolStaysFull(states: seq<State>, actions: seq<Action>, length: nat, n: nat)
    requires Run(states, actions, length) && n <= |actions|
    ensures |states[n].workers| == if length < 8 then length else 8
    ensures n == 0 ==> forall w :: 0 <= w < |states[n].workers| ==> states[n].workers[w] == Probing(w)
    ensures states[n].next < length ==> forall w :: 0 <= w < |states[n].workers| ==> !states[n].workers[w].Done?
  {
    hide Step, Enabled;
    RunKeeps(states, actions, length, n);
    LaunchedRight(length, Workers(length));
  }

  /** When all workers have returned, every endpoint was started and has a result. */
  lemma AllMeasured(states: seq<State>, actions: seq<Action>, length: nat, n: nat)
    requires Run(states, actions, length) && n <= |actions|
    requires forall w :: 0 <= w < |states[n].workers| ==> states[n].workers[w].Done?
    ensures |states[n].started| == length
    ensures forall i :: 0 <= i < length <==> i in states[n].results
  {
    hide Step, Enabled, Start;
    RunKeeps(states, actions, length, n);
    var s := states[n];
    if length > 0 { assert s.workers[0].Done?; }
    forall i | 0 <= i < length ensures i in s.results {
      assert i in s.results || ProbedBy(s, i);
    }
  }

  /** Work left: two steps for each index not yet started, then per worker. */
  ghost function Left(s: State): nat
    requires s.next <= s.length
  {
    2 * (s.length - s.next) + WorkLeft(s.workers)
  }

  ghost function WorkLeft(workers: seq<Worker>): nat {
    if workers == [] then 0
    else WorkLeft(workers[..|workers| - 1])
         + match workers[|workers| - 1] case Probing(_) => 2 case Recorded(_) => 1 case Done => 0
  }

  lemma {:induction false} WorkLeftUpdate(workers: seq<Worker>, i: nat, w: Worker)
    requires i < |workers|
    ensures WorkLeft(workers[i := w]) - WorkLeft([w]) == WorkLeft(workers) - WorkLeft([workers[i]])
    decreases |workers|
  {
    var n := |workers| - 1;
    assert [w][..0] == [] && [workers[i]][..0] == [];
    var u := workers[i := w];
    if i < n {
      WorkLeftUpdate(workers[..n], i, w);
      assert u[..n] == workers[..n][i := w];
    } else {
      assert u[..n] == workers[..n];
    }
  }

  /** Every step uses up one unit of the work left, so a run of `length` endpoints stops
      after exactly two steps for each. */
  lemma StepProgress(s: State, a: Action)
    requires Inv(s) && Enabled(s, a)
    ensures Step(s, a).next <= Step(s, a).length && Left(Step(s, a)) == Left(s) - 1
  {
    var i := a.worker;
    WorkLeftUpdate(s.workers, i, Step(s, a).workers[i]);
    assert [s.workers[i]][..0] == [] && [Step(s, a).workers[i]][..0] == [];
  }

  /** Until all workers have returned some step is possible: no worker is ever stuck. */
  lemma NeverStuck(s: State)
    requires exists w :: 0 <= w < |s.workers| && !s.workers[w].Done?
    ensures exists a: Action :: Enabled(s, a)
  {
    var w :| 0 <= w < |s.workers| && !s.workers[w].Done?;
    if s.workers[w].Probing? {
      assert Enabled(s, Settle(w, Failed));
    } else {
      assert Enabled(s, Resume(w));
    }
  }

  lemma {:induction false} WorkLeftProbing(workers: seq<Worker>)
    requires forall i :: 0 <= i < |workers| ==> workers[i].Probing?
    ensures WorkLeft(workers) == 2 * |workers|
    decreases |workers|
  {
    if workers != [] { WorkLeftProbing(workers[..|workers| - 1]); }
  }

  /** A run of `n` steps leaves `2 * length - n` of the work, so none is longer. */
  lemma {:induction false} RunLength(states: seq<State>, actions: seq<Action>, length: nat, n: nat)
    requires Run(states, actions, length) && n <= |actions|
    ensures states[n].next <= states[n].length && Left(states[n]) == 2 * length - n
    decreases n
  {
    hide Inv, Left, Step;
    if n == 0 {
      LaunchedRight(length, Workers(length));
      StartLeft(length);
    } else {
      RunLength(states, actions, length, n - 1);
      RunKeeps(states, actions, length, n - 1);
      StepProgress(states[n - 1], actions[n - 1]);
    }
  }

  lemma StartLeft(length: nat)
    ensures Start(length).next <= Start(length).length && Left(Start(length)) == 2 * length
  {
    LaunchedRight(length, Workers(length));
    WorkLeftProbing(Start(length).workers);
  }
}
