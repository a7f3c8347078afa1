/**
 * The start-up barrier of InitThreads (worker_threads.cc): the main thread creates the
 * workers and waits on a condition variable, without testing any predicate; the worker
 * whose registration makes init_count_ reach the thread count signals it. Registrations
 * hold init_lock_; spurious wake-ups are left out.
 */
module StartupBarrier {

  datatype Main = Creating | Waiting | Woken | Returned

  datatype State = State(threads: nat, created: nat, registered: set<nat>, initCount: nat, signals: nat, main: Main)

  datatype Action =
    | Create           // pthread_create of the next worker
    | Register(i: nat) // RegisterThreadInitialized in worker i
    | BeginWait        // WaitForThreadRegistration: lock, then release the lock and sleep
    | Return           // the waiter leaves pthread_cond_wait

  function Init(threads: nat): State {
    State(threads, 0, {}, 0, 0, Creating)
  }

  predicate Enabled(s: State, a: Action) {
    match a
    case Create => s.main == Creating && s.created < s.threads
    case Register(i) => i < s.created && i !in s.registered
    case BeginWait => s.main == Creating && s.created == s.threads
    case Return => s.main == Woken
  }

  /** A signal wakes the main thread if it is already waiting, and is lost otherwise. */
  function Signalled(s: State): State {
    s.(signals := s.signals + 1, main := if s.main == Waiting then Woken else s.main)
  }

  function Next(s: State, a: Action): State
    requires Enabled(s, a)
  {
    match a
    case Create => s.(created := s.created + 1)
    case Register(i) =>
      var t := s.(registered := s.registered + {i}, initCount := s.initCount + 1);
      if t.initCount == s.threads then Signalled(t) else t
    case BeginWait => s.(main := Waiting)
    case Return => s.(main := Returned)
  }

  ghost predicate Runs(s: State, actions: seq<Action>, t: State)
    decreases |actions|
  {
    if actions == [] then s == t
    else Enabled(s, actions[0]) && Runs(Next(s, actions[0]), actions[1..], t)
  }

  /** init_count_ and init_cond_ as the threads update them; the lock makes each method one step. */
  class Barrier {
    const threads: nat
    var created: nat
    var initCount: nat
    var main: Main
    ghost var registered: set<nat>
    ghost var signals: nat

    ghost function View(): State
      reads this
    {
      State(threads, created, registered, initCount, signals, main)
    }

    constructor (threads: nat)
      ensures View() == Init(threads)
    {
      this.threads, created, initCount, main := threads, 0, 0, Creating;
      registered, signals := {}, 0;
    }

    method CreateWorker()
      requires Enabled(View(), Create)
      modifies this
      ensures View() == Next(old(View()), Create)
    {
      created := created + 1;
    }

    method RegisterThreadInitialized(ghost i: nat)
      requires Enabled(View(), Register(i))
      modifies this
      ensures View() == Next(old(View()), Register(i))
    {
      registered := registered + {i};
      initCount := initCount + 1;
      if initCount == threads {
        signals := signals + 1;
        if main == Waiting {
          main := Woken;
        }
      }
    }

    method StartWait()
      requires Enabled(View(), Action.BeginWait)
      modifies this
      ensures View() == Next(old(View()), Action.BeginWait)
    {
      main := Waiting;
    }

    method EndWait()
      requires Enabled(View(), Return)
      modifies this
      ensures View() == Next(old(View()), Return)
    {
      main := Returned;
    }
  }

  // ---------- Safety ----------

  ghost predicate Inv(s: State) {
    && s.initCount == |s.registered| <= s.created <= s.threads
    && (forall i :: i in s.registered ==> i < s.created)
    && s.signals == (if s.threads > 0 && s.initCount == s.threads then 1 else 0)
    && (s.main != Creating ==> s.created == s.threads)
    && (s.main == Woken || s.main == Returned ==> s.signals == 1)
  }

  lemma {:induction false} Bounded(s: set<nat>, n: nat)
    requires forall i :: i in s ==> i < n
    ensures |s| <= n
    ensures |s| == n ==> forall i :: 0 <= i < n ==> i in s
  {
    if n == 0 {
      assert s == {};
    } else {
      Bounded(s - {n - 1}, n - 1);
    }
  }

  lemma StepInv(s: State, a: Action)
    requires Inv(s) && Enabled(s, a)
    ensures Inv(Next(s, a))
  {
    if a.Register? {
      Bounded(s.registered + {a.i}, s.created);
    }
  }

  lemma {:induction false} AlwaysInv(s: State, actions: seq<Action>, t: State)
    requires Inv(s) && Runs(s, actions, t)
    ensures Inv(t) && t.threads == s.threads
    decreases |actions|
  {
    if actions != [] {
      StepInv(s, actions[0]);
      AlwaysInv(Next(s, actions[0]), actions[1..], t);
    }
  }

  /**
   * The condition is signalled once all workers have registered and never before or again;
   * the wait returns only when every worker has registered.
   */
  lemma BarrierSafe(threads: nat, actions: seq<Action>, t: State)
    requires threads > 0 && Runs(Init(threads), actions, t)
    ensures t.signals == (if t.initCount == threads then 1 else 0)
    ensures t.main == Returned ==> t.initCount == threads && forall i :: 0 <= i < threads ==> i in t.registered
  {
    AlwaysInv(Init(threads), actions, t);
    Bounded(t.registered, t.created);
  }

  /** The one signal is sent by the registration that completes the count. */
  lemma LastRegistrationSignals(threads: nat, actions: seq<Action>, t: State, i: nat)
    requires threads > 0 && Runs(Init(threads), actions, t) && Enabled(t, Register(i))
    ensures Next(t, Register(i)).signals > t.signals
       <==> forall j :: 0 <= j < threads && j != i ==> j in t.registered
  {
    AlwaysInv(Init(threads), actions, t);
    var all := t.registered + {i};
    Bounded(all, t.created);
    if forall j :: 0 <= j < threads && j != i ==> j in t.registered {
      Everyone(all, threads);
    }
  }

  lemma {:induction false} Everyone(s: set<nat>, n: nat)
    requires forall i :: i in s ==> i < n
    requires forall i :: 0 <= i < n ==> i in s
    ensures |s| == n
  {
    if n == 0 {
      assert s == {};
    } else {
      Everyone(s - {n - 1}, n - 1);
    }
  }

  // ---------- When the wait can return ----------

  /** All workers registered before the main thread began to wait. */
  predicate SignalLost(s: State) {
    s.initCount == s.threads && (s.main == Creating || s.main == Waiting)
  }

  /** Some continuation lets the wait return. */
  ghost predicate WaitCanReturn(s: State) {
    exists more, t :: Runs(s, more, t) && t.main == Returned
  }

  lemma {:induction false} LostForever(s: State, actions: seq<Action>, t: State)
    requires Inv(s) && SignalLost(s) && Runs(s, actions, t)
    ensures t.main != Returned
    decreases |actions|
  {
    if actions != [] {
      Bounded(s.registered, s.created);
      StepInv(s, actions[0]);
      LostForever(Next(s, actions[0]), actions[1..], t);
    }
  }

  lemma {:induction false} CanReturn(s: State) returns (actions: seq<Action>, t: State)
    requires Inv(s) && !SignalLost(s)
    ensures Runs(s, actions, t) && t.main == Returned
    decreases s.threads - s.created, s.threads - s.initCount,
      if s.main == Creating then 3 else if s.main == Waiting then 2 else if s.main == Woken then 1 else 0
  {
    if s.main == Returned {
      actions, t := [], s;
    } else {
      var a;
      if s.main == Woken {
        a := Return;
      } else if s.main == Creating {
        a := if s.created < s.threads then Create else BeginWait;
      } else {
        if forall i :: 0 <= i < s.created ==> i in s.registered {
          Everyone(s.registered, s.created);
        }
        var i :| 0 <= i < s.created && i !in s.registered;
        a := Register(i);
      }
      StepInv(s, a);
      var rest;
      rest, t := CanReturn(Next(s, a));
      actions := [a] + rest;
      assert actions[1..] == rest;
    }
  }

  /**
   * The exact condition for start-up: from a reachable state some continuation lets the wait
   * return if and only if the last registration has not come before the wait. The wait tests
   * no predicate, so a signal sent too early leaves the main thread asleep for ever.
   */
  lemma ReturnsUnlessSignalLost(threads: nat, actions: seq<Action>, s: State)
    requires Runs(Init(threads), actions, s)
    ensures WaitCanReturn(s) <==> !SignalLost(s)
  {
    AlwaysInv(Init(threads), actions, s);
    if SignalLost(s) {
      forall more, t | Runs(s, more, t) ensures t.main != Returned {
        LostForever(s, more, t);
      }
    } else {
      var more, t := CanReturn(s);
    }
  }

  /** The early signal can happen: a single worker that registers before the main thread waits. */
  lemma SignalCanBeLost()
    ensures exists actions, s :: Runs(Init(1), actions, s) && s.main == Waiting && SignalLost(s)
  {
    var s0 := Init(1);
    var s1 := Next(s0, Create);
    var s2 := Next(s1, Register(0));
    var s3 := Next(s2, BeginWait);
    assert Runs(s3, [], s3);
    assert Runs(s2, [BeginWait], s3);
    assert [Register(0), BeginWait][1..] == [BeginWait];
    assert Runs(s1, [Register(0), BeginWait], s3);
    assert [Create, Register(0), BeginWait][1..] == [Register(0), BeginWait];
    assert Runs(s0, [Create, Register(0), BeginWait], s3);
  }
}
