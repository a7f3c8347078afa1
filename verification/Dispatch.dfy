/**
 * Handing accepted connections to worker threads (worker_threads.cc, threadSafe_container.h).
 * One master and any number of workers take atomic steps in any order. The master pushes a
 * descriptor and then, separately, writes one byte into the worker's pipe, which may fail;
 * a worker reads a byte and then, separately, pops a descriptor.
 */
module Dispatch {

  // ---------- The protocol as a state machine ----------

  /** One worker: its queue and pipe, where it is, and what it has done so far. */
  datatype Worker = Worker(
    queue: seq<int>,    // list_conn
    pipe: nat,          // bytes in the notification pipe
    popping: bool,      // a byte has been read, the pop is still to come
    popped: seq<int>,   // descriptors popped so far
    served: seq<int>,   // descriptors passed on to InitNewConn
    emptyPops: nat,     // pops that found the queue empty
    unnotified: nat)    // pushes whose pipe write failed

  datatype System = System(workers: seq<Worker>, last: int, notifying: int, accepted: seq<int>)

  const NOBODY := -1  // last_thread_ before the first dispatch; also: the master is not mid-dispatch

  datatype Action = Push(sfd: int) | Write(ok: bool) | Read(w: nat) | Pop(w: nat)

  function Init(threads: nat): System {
    System(seq(threads, i => Worker([], 0, false, [], [], 0, 0)), NOBODY, NOBODY, [])
  }

  predicate WellFormed(s: System) {
    s.workers != [] && NOBODY <= s.last < |s.workers| && NOBODY <= s.notifying < |s.workers|
  }

  predicate Enabled(s: System, a: Action)
    requires WellFormed(s)
  {
    match a
    case Push(_) => s.notifying == NOBODY
    case Write(_) => s.notifying != NOBODY
    case Read(w) => w < |s.workers| && !s.workers[w].popping && s.workers[w].pipe > 0
    case Pop(w) => w < |s.workers| && s.workers[w].popping
  }

  function Next(s: System, a: Action): (s': System)
    requires WellFormed(s) && Enabled(s, a)
    ensures WellFormed(s') && |s'.workers| == |s.workers|
  {
    match a
    case Push(sfd) =>
      var tid := (s.last + 1) % |s.workers|;
      var w := s.workers[tid];
      s.(workers := s.workers[tid := w.(queue := w.queue + [sfd])],
         last := tid, notifying := tid, accepted := s.accepted + [sfd])
    case Write(ok) =>
      var w := s.workers[s.notifying];
      var w' := if ok then w.(pipe := w.pipe + 1) else w.(unnotified := w.unnotified + 1);
      s.(workers := s.workers[s.notifying := w'], notifying := NOBODY)
    case Read(i) =>
      var w := s.workers[i];
      s.(workers := s.workers[i := w.(pipe := w.pipe - 1, popping := true)])
    case Pop(i) =>
      s.(workers := s.workers[i := PopFront(s.workers[i]).(popping := false)])
  }

  function PopFront(w: Worker): Worker {
    if w.queue == [] then w.(emptyPops := w.emptyPops + 1)
    else
      var sfd := w.queue[0];
      w.(queue := w.queue[1..], popped := w.popped + [sfd],
         served := if sfd != 0 then w.served + [sfd] else w.served)
  }

  /** `actions` is a run from `s` to `t`. */
  ghost predicate Runs(s: System, actions: seq<Action>, t: System)
    decreases |actions|
  {
    if actions == [] then s == t
    else WellFormed(s) && Enabled(s, actions[0]) && Runs(Next(s, actions[0]), actions[1..], t)
  }

  // ---------- What every reachable state satisfies ----------

  /** The descriptors whose position in the accept order is w modulo the number of threads. */
  function Share(accepted: seq<int>, w: nat, threads: nat): (r: seq<int>)
    requires threads > 0
    decreases |accepted|
  {
    if accepted == [] then []
    else
      var n := |accepted| - 1;
      Share(accepted[..n], w, threads) + (if n % threads == w then [accepted[n]] else [])
  }

  function NonZero(s: seq<int>): seq<int> {
    if s == [] then []
    else NonZero(s[..|s| - 1]) + (if s[|s| - 1] != 0 then [s[|s| - 1]] else [])
  }

  /** Order is kept, and exactly the zeros are gone. */
  lemma NonZeroParts(s: seq<int>, x: int)
    ensures NonZero([]) == [] && NonZero(s + [x]) == NonZero(s) + (if x == 0 then [] else [x])
  {
    assert (s + [x])[..|s|] == s;
  }

  function One(b: bool): nat { if b then 1 else 0 }

  /** The accounting law and the delivery law of one worker. */
  predicate WorkerInv(s: System, i: int)
    requires 0 <= i < |s.workers|
  {
    var w := s.workers[i];
    && |w.queue| == w.pipe + One(w.popping) + One(s.notifying == i) + w.unnotified
    && w.popped + w.queue == Share(s.accepted, i, |s.workers|)
    && w.emptyPops == 0
    && w.served == NonZero(w.popped)
  }

  ghost predicate Inv(s: System) {
    && WellFormed(s)
    && s.last == (if s.accepted == [] then NOBODY else (|s.accepted| - 1) % |s.workers|)
    && (s.notifying != NOBODY ==> s.notifying == s.last)
    && forall i :: 0 <= i < |s.workers| ==> WorkerInv(s, i)
  }

  lemma InitInv(threads: nat)
    requires threads > 0
    ensures Inv(Init(threads))
  {
  }

  lemma NextIndex(n: nat, threads: nat)
    requires threads > 0
    ensures ((if n == 0 then -1 else (n - 1) % threads) + 1) % threads == n % threads
  {
    if n > 0 {
      DivModStep(n - 1, threads);
      if (n - 1) % threads + 1 < threads {
        ModIs((n - 1) % threads + 1, 0, (n - 1) % threads + 1, threads);
      } else {
        ModIs(threads, 1, 0, threads);
      }
    }
  }

  lemma ModIs(n: nat, q: nat, r: nat, d: nat)
    requires r < d && n == q * d + r
    ensures n % d == r && n / d == q
  {
    var e := n / d - q;
    assert e * d == r - n % d;
    if e != 0 {
      MultipleIsFar(e, d);
      assert false;
    }
  }

  lemma MultipleIsFar(e: int, d: nat)
    requires e != 0
    ensures e * d >= d || e * d + d <= 0
  {
    assert (if e > 0 then e - 1 else -e - 1) * d >= 0;
  }

  lemma PushInv(s: System, sfd: int)
    requires Inv(s) && s.notifying == NOBODY
    ensures Inv(Next(s, Push(sfd)))
  {
    var t := Next(s, Push(sfd));
    NextIndex(|s.accepted|, |s.workers|);
    assert t.accepted[..|s.accepted|] == s.accepted;
    forall i | 0 <= i < |t.workers| ensures WorkerInv(t, i) {
      assert WorkerInv(s, i);
    }
  }

  lemma StepInv(s: System, a: Action)
    requires Inv(s) && Enabled(s, a)
    ensures Inv(Next(s, a))
  {
    var t := Next(s, a);
    if a.Push? {
      PushInv(s, a.sfd);
    } else {
      forall i | 0 <= i < |t.workers| ensures WorkerInv(t, i) {
        assert WorkerInv(s, i);
        if a.Pop? && a.w == i {
          var w, w' := s.workers[i], t.workers[i];
          assert w'.popped[..|w.popped|] == w.popped;
          assert w'.popped + w'.queue == w.popped + w.queue;
        }
      }
    }
  }

  /** The invariant holds after every interleaving of any number of steps. */
  lemma {:induction false} AlwaysInv(s: System, actions: seq<Action>, t: System)
    requires Inv(s) && Runs(s, actions, t)
    ensures Inv(t) && |t.workers| == |s.workers|
    decreases |actions|
  {
    if actions != [] {
      StepInv(s, actions[0]);
      AlwaysInv(Next(s, actions[0]), actions[1..], t);
    }
  }

  // ---------- Main results ----------

  /**
   * In every reachable state a worker that has read its byte finds its queue non-empty, and
   * no pop so far has found an empty queue.
   */
  lemma PopNeverEmpty(threads: nat, actions: seq<Action>, t: System, i: nat)
    requires threads > 0 && Runs(Init(threads), actions, t) && i < threads
    ensures |t.workers| == threads
    ensures t.workers[i].popping ==> t.workers[i].queue != []
    ensures t.workers[i].emptyPops == 0
  {
    InitInv(threads);
    AlwaysInv(Init(threads), actions, t);
    assert WorkerInv(t, i);
  }

  /**
   * FIFO, exactly-once delivery: what a worker has popped, followed by what waits in its
   * queue, is every threads-th accepted descriptor, in accept order; and what it has
   * served is what it popped, except descriptor 0.
   */
  lemma FifoExactlyOnce(threads: nat, actions: seq<Action>, t: System, i: nat)
    requires threads > 0 && Runs(Init(threads), actions, t) && i < threads
    ensures |t.workers| == threads
    ensures var got := t.workers[i].popped + t.workers[i].queue;
      && |got| == ShareSize(|t.accepted|, i, threads)
      && forall k :: 0 <= k < |got| ==> i + k * threads < |t.accepted| && got[k] == t.accepted[i + k * threads]
    ensures t.workers[i].served == NonZero(t.workers[i].popped)
  {
    InitInv(threads);
    AlwaysInv(Init(threads), actions, t);
    assert WorkerInv(t, i);
    ShareIsStride(t.accepted, i, threads);
  }

  /** How many of the positions 0, 1, ..., n - 1 are w modulo `threads`. */
  function ShareSize(n: nat, w: nat, threads: nat): nat
    requires w < threads
  {
    n / threads + One(w < n % threads)
  }

  lemma {:induction false} ShareIsStride(accepted: seq<int>, w: nat, threads: nat)
    requires w < threads
    ensures var r := Share(accepted, w, threads);
      && |r| == ShareSize(|accepted|, w, threads)
      && forall k :: 0 <= k < |r| ==> w + k * threads < |accepted| && r[k] == accepted[w + k * threads]
    decreases |accepted|
  {
    if accepted != [] {
      var n := |accepted| - 1;
      var front, r := Share(accepted[..n], w, threads), Share(accepted, w, threads);
      ShareIsStride(accepted[..n], w, threads);
      ShareSizeStep(n, w, threads);
      forall k | 0 <= k < |r| ensures w + k * threads < |accepted| && r[k] == accepted[w + k * threads] {
        if k < |front| {
          assert r[k] == front[k];
          assert w + k * threads < n;
        }
      }
    } else {
      ModIs(0, 0, 0, threads);
    }
  }

  lemma ShareSizeStep(n: nat, w: nat, threads: nat)
    requires w < threads
    ensures ShareSize(n + 1, w, threads) == ShareSize(n, w, threads) + One(n % threads == w)
    ensures n % threads == w ==> w + ShareSize(n, w, threads) * threads == n
  {
    DivModStep(n, threads);
  }

  lemma DivModStep(n: nat, d: nat)
    requires d > 0
    ensures if n % d + 1 < d then (n + 1) / d == n / d && (n + 1) % d == n % d + 1
            else (n + 1) / d == n / d + 1 && (n + 1) % d == 0
  {
    var q, r := n / d, n % d;
    if r + 1 < d {
      ModIs(n + 1, q, r + 1, d);
    } else {
      assert n + 1 == (q + 1) * d;
      ModIs(n + 1, q + 1, 0, d);
    }
  }

  /** How many of the dispatches from..to went to worker i. */
  function Load(accepted: seq<int>, from: nat, to: nat, i: nat, threads: nat): int
    requires from <= to <= |accepted| && i < threads
  {
    |Share(accepted[..to], i, threads)| - |Share(accepted[..from], i, threads)|
  }

  /** The dispatches of a window that go to worker i. */
  function Turns(from: nat, to: nat, i: nat, threads: nat): set<nat>
    requires threads > 0
  {
    set k: nat | from <= k < to && k % threads == i
  }

  lemma {:induction false} LoadCounts(accepted: seq<int>, from: nat, end: nat, i: nat, threads: nat)
    requires from <= end <= |accepted| && i < threads
    ensures Load(accepted, from, end, i, threads) == |Turns(from, end, i, threads)|
    decreases end
  {
    if from == end {
      assert Turns(from, end, i, threads) == {};
    } else {
      var n := end - 1;
      LoadCounts(accepted, from, n, i, threads);
      assert accepted[..end][..n] == accepted[..n];
      assert Turns(from, end, i, threads) == Turns(from, n, i, threads) + if n % threads == i then {n} else {};
      assert n !in Turns(from, n, i, threads);
    }
  }

  /** Over any window of consecutive dispatches two workers' loads differ by at most one. */
  lemma LoadsBalanced(accepted: seq<int>, from: nat, to: nat, v: nat, w: nat, threads: nat)
    requires from <= to <= |accepted| && v < threads && w < threads
    ensures -1 <= Load(accepted, from, to, v, threads) - Load(accepted, from, to, w, threads) <= 1
  {
    ShareIsStride(accepted[..to], v, threads);
    ShareIsStride(accepted[..to], w, threads);
    ShareIsStride(accepted[..from], v, threads);
    ShareIsStride(accepted[..from], w, threads);
  }

  predicate Quiescent(s: System) {
    s.notifying == NOBODY && forall i :: 0 <= i < |s.workers| ==> s.workers[i].pipe == 0 && !s.workers[i].popping
  }

  /**
   * When nothing is in flight, a worker has been handed all of its share except exactly as
   * many descriptors as its failed notifications, and those are its most recent ones. Its
   * queue is empty if and only if none of its notifications failed.
   */
  lemma QuiescentQueues(threads: nat, actions: seq<Action>, t: System, i: nat)
    requires threads > 0 && Runs(Init(threads), actions, t) && i < threads
    requires Quiescent(t)
    ensures |t.workers| == threads
    ensures var w, share := t.workers[i], Share(t.accepted, i, threads);
      && w.unnotified <= |share|
      && w.popped == share[..|share| - w.unnotified]
      && w.queue == share[|share| - w.unnotified..]
      && (w.queue == [] <==> w.unnotified == 0)
  {
    InitInv(threads);
    AlwaysInv(Init(threads), actions, t);
    assert WorkerInv(t, i);
  }

  // ---------- The notifications, counted from the actions alone ----------

  /**
   * How many of the writes in `actions` have this outcome and notify worker i: the n-th
   * dispatch, counted from 0, goes to worker n modulo the number of threads.
   */
  function Writes(actions: seq<Action>, dispatched: nat, i: nat, threads: nat, ok: bool): nat
    requires threads > 0
    decreases |actions|
  {
    if actions == [] then 0
    else match actions[0]
      case Push(_) => Writes(actions[1..], dispatched + 1, i, threads, ok)
      case Write(o) =>
        One(o == ok && dispatched > 0 && (dispatched - 1) % threads == i) + Writes(actions[1..], dispatched, i, threads, ok)
      case Read(_) => Writes(actions[1..], dispatched, i, threads, ok)
      case Pop(_) => Writes(actions[1..], dispatched, i, threads, ok)
  }

  /** The bytes that have ever reached the pipe of a worker. */
  function BytesIn(w: Worker): nat {
    w.pipe + One(w.popping) + |w.popped|
  }

  lemma StepNotifies(s: System, a: Action, i: nat)
    requires Inv(s) && Enabled(s, a) && i < |s.workers|
    ensures var n, w, w' := |s.accepted|, s.workers[i], Next(s, a).workers[i];
      && w'.unnotified == w.unnotified + Writes([a], n, i, |s.workers|, false)
      && BytesIn(w') == BytesIn(w) + Writes([a], n, i, |s.workers|, true)
  {
    assert WorkerInv(s, i);
    assert [a][1..] == [];
    assert forall n: nat, ok :: Writes([], n, i, |s.workers|, ok) == 0;
  }

  lemma {:induction false} RunNotifies(s: System, actions: seq<Action>, t: System, i: nat)
    requires Inv(s) && Runs(s, actions, t) && i < |s.workers|
    ensures |t.workers| == |s.workers|
    ensures var n, w, w' := |s.accepted|, s.workers[i], t.workers[i];
      && w'.unnotified == w.unnotified + Writes(actions, n, i, |s.workers|, false)
      && BytesIn(w') == BytesIn(w) + Writes(actions, n, i, |s.workers|, true)
    decreases |actions|
  {
    if actions != [] {
      StepInv(s, actions[0]);
      StepNotifies(s, actions[0], i);
      WritesCons(actions, |s.accepted|, i, |s.workers|);
      RunNotifies(Next(s, actions[0]), actions[1..], t, i);
    }
  }

  lemma WritesCons(actions: seq<Action>, n: nat, i: nat, threads: nat)
    requires threads > 0 && actions != []
    ensures var n' := if actions[0].Push? then n + 1 else n;
      forall ok ::
        Writes(actions, n, i, threads, ok) == Writes([actions[0]], n, i, threads, ok) + Writes(actions[1..], n', i, threads, ok)
  {
    assert [actions[0]][1..] == [];
    assert forall m: nat, ok :: Writes([], m, i, threads, ok) == 0;
  }

  /**
   * In every reachable state a worker has missed exactly the failed writes of its dispatches,
   * and the bytes it has read or still has to read are exactly the successful ones.
   */
  lemma NotificationsExact(threads: nat, actions: seq<Action>, t: System, i: nat)
    requires threads > 0 && Runs(Init(threads), actions, t) && i < threads
    ensures |t.workers| == threads
    ensures t.workers[i].unnotified == Writes(actions, 0, i, threads, false)
    ensures t.workers[i].pipe + One(t.workers[i].popping) + |t.workers[i].popped| == Writes(actions, 0, i, threads, true)
  {
    InitInv(threads);
    RunNotifies(Init(threads), actions, t, i);
  }

  /**
   * When nothing is in flight, as many connections wait for ever as writes for that worker
   * have failed; if none has failed in the whole run, every queue is empty.
   */
  lemma StrandedExactly(threads: nat, actions: seq<Action>, t: System, i: nat)
    requires threads > 0 && Runs(Init(threads), actions, t) && i < threads && Quiescent(t)
    ensures |t.workers| == threads
    ensures |t.workers[i].queue| == Writes(actions, 0, i, threads, false)
    ensures |t.workers[i].popped| == Writes(actions, 0, i, threads, true)
    ensures Write(false) !in actions ==> t.workers[i].queue == [] && t.workers[i].popped == Share(t.accepted, i, threads)
  {
    NotificationsExact(threads, actions, t, i);
    QuiescentQueues(threads, actions, t, i);
    if Write(false) !in actions {
      NoneFailed(actions, 0, i, threads);
    }
  }

  lemma {:induction false} NoneFailed(actions: seq<Action>, n: nat, i: nat, threads: nat)
    requires threads > 0 && Write(false) !in actions
    ensures Writes(actions, n, i, threads, false) == 0
    decreases |actions|
  {
    if actions != [] {
      assert actions[0] in actions && forall a :: a in actions[1..] ==> a in actions;
      NoneFailed(actions[1..], if actions[0].Push? then n + 1 else n, i, threads);
    }
  }

  /** One failed notification strands a connection while nothing is left in flight. */
  lemma ConnectionStranded()
    ensures exists t :: Runs(Init(1), [Push(7), Write(false)], t) && Quiescent(t) && |t.workers| == 1 && t.workers[0].queue == [7]
  {
    var s0 := Init(1);
    var s1 := Next(s0, Push(7));
    var s2 := Next(s1, Write(false));
    assert Runs(s2, [], s2);
    assert [Push(7), Write(false)][1..] == [Write(false)] && [Write(false)][1..] == [];
    assert Runs(s1, [Write(false)], s2);
    assert Runs(s0, [Push(7), Write(false)], s2);
  }

  /** Work in flight can always be finished: some run without new connections reaches quiescence. */
  lemma {:induction false} CanDrain(s: System) returns (actions: seq<Action>, t: System)
    requires Inv(s)
    ensures Runs(s, actions, t) && Inv(t) && Quiescent(t) && t.accepted == s.accepted
    decreases One(s.notifying != NOBODY), PipeBytes(s.workers), Popping(s.workers)
  {
    var a;
    if s.notifying != NOBODY {
      a := Write(true);
    } else if i :| 0 <= i < |s.workers| && s.workers[i].popping {
      a := Pop(i);
      SumsUpdate(s.workers, i, Next(s, a).workers[i]);
    } else if i :| 0 <= i < |s.workers| && s.workers[i].pipe > 0 {
      a := Read(i);
      SumsUpdate(s.workers, i, Next(s, a).workers[i]);
    } else {
      actions, t := [], s;
      return;
    }
    StepInv(s, a);
    var rest;
    rest, t := CanDrain(Next(s, a));
    actions := [a] + rest;
    assert actions[1..] == rest;
  }

  function PipeBytes(ws: seq<Worker>): nat {
    if ws == [] then 0 else ws[0].pipe + PipeBytes(ws[1..])
  }

  function Popping(ws: seq<Worker>): nat {
    if ws == [] then 0 else One(ws[0].popping) + Popping(ws[1..])
  }

  lemma {:induction false} SumsUpdate(ws: seq<Worker>, i: nat, w: Worker)
    requires i < |ws|
    ensures PipeBytes(ws[i := w]) - PipeBytes(ws) == w.pipe - ws[i].pipe
    ensures Popping(ws[i := w]) - Popping(ws) == One(w.popping) - One(ws[i].popping)
  {
    if i > 0 {
      assert ws[i := w][1..] == ws[1..][i - 1 := w];
      SumsUpdate(ws[1..], i - 1, w);
    } else {
      assert ws[i := w][1..] == ws[1..];
    }
  }
}
