/** The semaphore between the notifier processes and the waiting library, as a system of atomic steps. */
module Semaphore {

  /** Where a run of `ssimsg` stands. */
  datatype Pc =
    | Idle
    | Started
    | Satisfied // read a positive value, about to return 0
    | Pending   // read 0, about to post
    | Posted    // about to return 0
    | Failed    // about to return -1

  datatype State = State(value: nat, pcs: seq<Pc>)

  datatype Step =
    | Start(p: nat)
    | GetVal(p: nat)
    | Post(p: nat)
    | Error(p: nat) // any of the system calls fails
    | Return(p: nat, ok: bool)
    | WaitOk
    | WaitFails // timeout or error

  predicate Enabled(s: State, t: Step) {
    match t
    case Start(p) => p < |s.pcs| && s.pcs[p] == Idle
    case GetVal(p) => p < |s.pcs| && s.pcs[p] == Started
    case Post(p) => p < |s.pcs| && s.pcs[p] == Pending
    case Error(p) => p < |s.pcs| && s.pcs[p] in {Started, Pending}
    case Return(p, ok) => p < |s.pcs| && s.pcs[p] in (if ok then {Satisfied, Posted} else {Failed})
    case WaitOk => s.value > 0
    case WaitFails => true
  }

  function Next(s: State, t: Step): State
    requires Enabled(s, t)
  {
    match t
    case Start(p) => s.(pcs := s.pcs[p := Started])
    case GetVal(p) => s.(pcs := s.pcs[p := if s.value >= 1 then Satisfied else Pending])
    case Post(p) => State(s.value + 1, s.pcs[p := Posted])
    case Error(p) => s.(pcs := s.pcs[p := Failed])
    case Return(p, _) => s.(pcs := s.pcs[p := Idle])
    case WaitOk => s.(value := s.value - 1)
    case WaitFails => s
  }

  /** Any interleaving of any number of notifier runs and waits. */
  predicate IsRun(states: seq<State>, steps: seq<Step>) {
    && |states| == |steps| + 1
    && forall i :: 0 <= i < |steps| ==> Enabled(states[i], steps[i]) && states[i + 1] == Next(states[i], steps[i])
  }

  function Pendings(pcs: seq<Pc>): (n: nat)
    ensures n <= |pcs|
  {
    if pcs == [] then 0 else (if pcs[0] == Pending then 1 else 0) + Pendings(pcs[1..])
  }

  lemma {:induction false} PendingsUpdate(pcs: seq<Pc>, p: nat, c: Pc)
    requires p < |pcs|
    ensures Pendings(pcs[p := c]) + (if pcs[p] == Pending then 1 else 0) ==
            Pendings(pcs) + (if c == Pending then 1 else 0)
  {
    if p == 0 {
      assert pcs[p := c][1..] == pcs[1..];
    } else {
      assert pcs[p := c][1..] == pcs[1..][p - 1 := c];
      PendingsUpdate(pcs[1..], p - 1, c);
    }
  }

  /** The value plus the posts still to come. */
  function Load(s: State): nat {
    s.value + Pendings(s.pcs)
  }

  function Max(a: nat, b: nat): nat {
    if a < b then b else a
  }

  /** A step leaves the load below the number of notifiers, or does not raise it. */
  lemma StepKeepsBound(s: State, t: Step)
    requires Enabled(s, t)
    ensures |Next(s, t).pcs| == |s.pcs|
    ensures Load(Next(s, t)) <= Max(Load(s), |s.pcs|)
  {
    match t
    case WaitOk =>
    case WaitFails =>
    case _ => PendingsUpdate(s.pcs, t.p, Next(s, t).pcs[t.p]);
  }

  /** However the steps interleave, the load never exceeds the number of notifiers, or what it began with. */
  lemma {:induction false} BoundedOverRuns(states: seq<State>, steps: seq<Step>, k: nat)
    requires IsRun(states, steps) && k <= |steps|
    ensures |states[k].pcs| == |states[0].pcs|
    ensures Load(states[k]) <= Max(Load(states[0]), |states[0].pcs|)
  {
    if k == 0 {
    } else {
      BoundedOverRuns(states, steps, k - 1);
      StepKeepsBound(states[k - 1], steps[k - 1]);
    }
  }

  /** With one notifier and a fresh semaphore the value is 0 or 1, and 0 while a post is still to come. */
  lemma OneNotifierIsBinary(states: seq<State>, steps: seq<Step>, k: nat)
    requires IsRun(states, steps) && k <= |steps| && states[0] == State(0, [Idle])
    ensures states[k].value <= 1 && (states[k].pcs == [Pending] ==> states[k].value == 0)
  {
    BoundedOverRuns(states, steps, k);
    assert Pendings(states[0].pcs) == 0;
  }

  // ---- no wakeup is lost ----

  /** How far a run of notifier `p` that started without a wait since can be. */
  predicate OnItsWay(s: State, p: nat) {
    && p < |s.pcs| && s.pcs[p] != Idle
    && (s.pcs[p] in {Satisfied, Posted} ==> s.value >= 1)
  }

  lemma StepOnItsWay(s: State, t: Step, p: nat)
    requires Enabled(s, t) && OnItsWay(s, p) && t != WaitOk && (t.Return? ==> t.p != p)
    ensures OnItsWay(Next(s, t), p)
  {
  }

  /** A run of `ssimsg` by `p` takes the steps from `i` to `j`: it starts, and returns only at the end. */
  predicate RunOf(steps: seq<Step>, p: nat, i: nat, j: nat, ok: bool) {
    && i < j < |steps| && steps[i] == Start(p) && steps[j] == Return(p, ok)
    && forall x :: i < x < j && steps[x].Return? ==> steps[x].p != p
  }

  predicate NoWait(steps: seq<Step>, i: nat, k: nat)
    requires k <= |steps|
  {
    forall x :: i <= x < k ==> steps[x] != WaitOk
  }

  lemma {:induction false} UnderWay(states: seq<State>, steps: seq<Step>, p: nat, i: nat, j: nat, ok: bool, x: nat)
    requires IsRun(states, steps) && RunOf(steps, p, i, j, ok) && i < x <= j && NoWait(steps, i, x)
    ensures OnItsWay(states[x], p)
  {
    if x > i + 1 {
      UnderWay(states, steps, p, i, j, ok, x - 1);
      StepOnItsWay(states[x - 1], steps[x - 1], p);
    }
  }

  lemma {:induction false} OnlyWaitsLower(states: seq<State>, steps: seq<Step>, i: nat, k: nat)
    requires IsRun(states, steps) && i <= k <= |steps| && NoWait(steps, i, k)
    ensures states[k].value >= states[i].value
    decreases k
  {
    if i < k {
      OnlyWaitsLower(states, steps, i, k - 1);
    }
  }

  /** If a run of `ssimsg` returned 0 and no wait has succeeded since it started, the next wait does not block. */
  lemma NoWakeupIsLost(states: seq<State>, steps: seq<Step>, p: nat, i: nat, j: nat, k: nat)
    requires IsRun(states, steps) && RunOf(steps, p, i, j, true)
    requires j < k <= |steps| && NoWait(steps, i, k)
    ensures Enabled(states[k], WaitOk)
  {
    UnderWay(states, steps, p, i, j, true, j);
    OnlyWaitsLower(states, steps, j, k);
  }

  /** A run that returns -1 has not posted. */
  lemma {:induction false} FailureHasNotPosted(states: seq<State>, steps: seq<Step>, p: nat, i: nat, j: nat, x: nat)
    requires IsRun(states, steps) && RunOf(steps, p, i, j, false) && i <= x < j
    ensures steps[x] != Post(p)
  {
    if steps[x] == Post(p) {
      PostedStays(states, steps, p, i, j, x, j);
    }
  }

  lemma {:induction false} PostedStays(states: seq<State>, steps: seq<Step>, p: nat, i: nat, j: nat, x: nat, y: nat)
    requires IsRun(states, steps) && RunOf(steps, p, i, j, false) && i < x < y <= j && steps[x] == Post(p)
    ensures p < |states[y].pcs| && states[y].pcs[p] == Posted
    decreases y
  {
    if y > x + 1 {
      PostedStays(states, steps, p, i, j, x, y - 1);
      assert Enabled(states[y - 1], steps[y - 1]);
    }
  }

  /** Counting from the start is needed: the value a run has read can be consumed before it returns 0. */
  lemma ReadValueCanBeConsumed()
    ensures exists states: seq<State>, steps: seq<Step> ::
      IsRun(states, steps) && RunOf(steps, 0, 0, 3, true) && |steps| == 4 && steps[2] == WaitOk
      && states[4].value == 0
  {
    var steps := [Start(0), GetVal(0), WaitOk, Return(0, true)];
    var states :=
      [State(1, [Idle]), State(1, [Started]), State(1, [Satisfied]), State(0, [Satisfied]), State(0, [Idle])];
    assert Next(states[0], steps[0]) == states[1] && Next(states[1], steps[1]) == states[2];
    assert Next(states[2], steps[2]) == states[3] && Next(states[3], steps[3]) == states[4];
    assert IsRun(states, steps);
    assert RunOf(steps, 0, 0, 3, true);
  }

  // ---- posts and waits balance ----

  function Posts(steps: seq<Step>): nat {
    if steps == [] then 0 else Posts(steps[..|steps| - 1]) + if steps[|steps| - 1].Post? then 1 else 0
  }

  function Waits(steps: seq<Step>): nat {
    if steps == [] then 0 else Waits(steps[..|steps| - 1]) + if steps[|steps| - 1] == WaitOk then 1 else 0
  }

  /** Every successful wait consumes one post, and none other. */
  lemma {:induction false} PostsAreConserved(states: seq<State>, steps: seq<Step>, k: nat)
    requires IsRun(states, steps) && k <= |steps|
    ensures states[k].value + Waits(steps[..k]) == states[0].value + Posts(steps[..k])
  {
    if k == 0 {
    } else {
      PostsAreConserved(states, steps, k - 1);
      assert steps[..k][..k - 1] == steps[..k - 1];
      assert Enabled(states[k - 1], steps[k - 1]);
    }
  }

  // ---- the bound is reached ----

  /** `n` notifiers that have all started, of which the first `read` have read 0 and the first `posted` have posted. */
  function Stage(n: nat, started: nat, read: nat, posted: nat): (s: State)
    requires posted <= read <= started <= n
    ensures |s.pcs| == n
  {
    State(posted, seq(n, i => if i < posted then Posted else if i < read then Pending
                              else if i < started then Started else Idle))
  }

  ghost predicate Reachable(s: State, t: State) {
    exists states, steps :: IsRun(states, steps) && states[0] == s && states[|states| - 1] == t
  }

  lemma ReachableBy(s: State, t: State, step: Step)
    requires Reachable(s, t) && Enabled(t, step)
    ensures Reachable(s, Next(t, step))
  {
    var states, steps :| IsRun(states, steps) && states[0] == s && states[|states| - 1] == t;
    assert IsRun(states + [Next(t, step)], steps + [step]);
    var longer := states + [Next(t, step)];
    assert longer[0] == s && longer[|longer| - 1] == Next(t, step);
  }

  lemma {:induction false} StageReachable(n: nat, started: nat, read: nat, posted: nat)
    requires posted <= read <= started <= n
    requires posted > 0 ==> read == n
    requires read > 0 ==> started == n
    ensures Reachable(Stage(n, 0, 0, 0), Stage(n, started, read, posted))
    decreases started + read + posted
  {
    var s := Stage(n, 0, 0, 0);
    if posted > 0 {
      StageReachable(n, n, n, posted - 1);
      ReachableBy(s, Stage(n, n, n, posted - 1), Post(posted - 1));
      assert Next(Stage(n, n, n, posted - 1), Post(posted - 1)) == Stage(n, n, n, posted);
    } else if read > 0 {
      StageReachable(n, n, read - 1, 0);
      ReachableBy(s, Stage(n, n, read - 1, 0), GetVal(read - 1));
      assert Next(Stage(n, n, read - 1, 0), GetVal(read - 1)) == Stage(n, n, read, 0);
    } else if started > 0 {
      StageReachable(n, started - 1, 0, 0);
      ReachableBy(s, Stage(n, started - 1, 0, 0), Start(started - 1));
      assert Next(Stage(n, started - 1, 0, 0), Start(started - 1)) == Stage(n, started, 0, 0);
    } else {
      assert IsRun([s], []);
      assert [s][0] == s;
    }
  }

  /** The bound is tight: `n` notifiers that all read before any posts raise a fresh semaphore to `n`. */
  lemma BoundIsReached(n: nat)
    ensures exists s :: Reachable(Stage(n, 0, 0, 0), s) && s.value == n
    ensures Stage(n, 0, 0, 0) == State(0, seq(n, _ => Idle))
  {
    StageReachable(n, n, n, n);
    assert Stage(n, n, n, n).value == n;
  }

  // ---- the timeout of a wait ----

  const UINT_MAX: nat := 0xFFFF_FFFF

  datatype TimeSpec = TimeSpec(sec: nat, nsec: nat)

  /** The time limit `Event::wait` hands to the kernel for a timeout in milliseconds. */
  function Limit(timeout: nat): TimeSpec {
    TimeSpec(timeout / 1000, timeout % 1000 * 1000)
  }

  /** The limit is the requested time exactly for whole seconds, and otherwise too short by under a second. */
  lemma LimitIsExactForWholeSeconds(timeout: nat)
    requires timeout <= UINT_MAX
    ensures var t := Limit(timeout);
      && t.nsec < 1_000_000_000
      && (t.sec * 1_000_000_000 + t.nsec == timeout * 1_000_000 <==> timeout % 1000 == 0)
      && timeout * 1_000_000 - (t.sec * 1_000_000_000 + t.nsec) == timeout % 1000 * 999_000 < 1_000_000_000
  {
    assert timeout == timeout / 1000 * 1000 + timeout % 1000;
  }
}
