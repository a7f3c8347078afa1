/**
 * The pool of CONN structures that all workers share (worker_threads.cc): an array stack
 * with doubling under mutex_, and the steps of opening, failing to open and closing
 * connections, interleaved in any order by any number of workers.
 */
module ConnPool {

  type Conn = nat  // a CONN pointer
  const NULL: Conn := 0

  // ---------- The free list ----------

  /** vec_freeconn_, freecurr_ and freetotal_. */
  datatype FreeList = FreeList(vec: seq<Conn>, curr: nat, total: nat)

  const INITIAL_SLOTS := 200

  function EmptyList(): FreeList {
    FreeList(seq(INITIAL_SLOTS, _ => NULL), 0, INITIAL_SLOTS)
  }

  predicate ListOk(f: FreeList) {
    f.curr <= f.total == |f.vec| && f.total > 0
  }

  /** The slots in use. */
  function Stack(f: FreeList): seq<Conn>
    requires ListOk(f)
  {
    f.vec[..f.curr]
  }

  /** AddConnToFreelist */
  function Put(f: FreeList, c: Conn): (g: FreeList)
    requires ListOk(f)
    ensures ListOk(g) && Stack(g) == Stack(f) + [c]
    ensures g.total == if f.curr < f.total then f.total else 2 * f.total
  {
    if f.curr < f.total then f.(vec := f.vec[f.curr := c], curr := f.curr + 1)
    else FreeList((f.vec + seq(f.total, _ => NULL))[f.curr := c], f.curr + 1, f.total * 2)
  }

  /** GetConnFromFreelist when a slot is in use. */
  function Taken(f: FreeList): (g: FreeList)
    requires ListOk(f) && f.curr > 0
    ensures ListOk(g) && g.total == f.total
    ensures Stack(f) == Stack(g) + [f.vec[f.curr - 1]]
  {
    f.(curr := f.curr - 1)
  }

  /** The static members of CWorkerThread that make up the free list; each method holds mutex_. */
  class SharedFreeList {
    var vecFreeconn: seq<Conn>
    var freeCurr: nat
    var freeTotal: nat

    ghost function View(): FreeList
      reads this
    {
      FreeList(vecFreeconn, freeCurr, freeTotal)
    }

    /** InitFreeConns */
    constructor ()
      ensures ListOk(View()) && View() == EmptyList()
    {
      freeTotal, freeCurr, vecFreeconn := INITIAL_SLOTS, 0, seq(INITIAL_SLOTS, _ => NULL);
    }

    method GetConnFromFreelist() returns (conn: Conn)
      requires ListOk(View())
      modifies this
      ensures ListOk(View())
      ensures old(freeCurr) == 0 ==> conn == NULL && View() == old(View())
      ensures old(freeCurr) > 0 ==>
        View() == Taken(old(View())) && Stack(old(View())) == Stack(View()) + [conn]
    {
      conn := NULL;
      if freeCurr > 0 {
        freeCurr := freeCurr - 1;
        conn := vecFreeconn[freeCurr];
      }
    }

    /** Always succeeds: a full array is resized to twice its size first. */
    method AddConnToFreelist(conn: Conn) returns (ret: bool)
      requires ListOk(View())
      modifies this
      ensures ret && ListOk(View())
      ensures View() == Put(old(View()), conn)
    {
      ret := false;
      if freeCurr < freeTotal {
        vecFreeconn := vecFreeconn[freeCurr := conn];
        freeCurr := freeCurr + 1;
        ret := true;
      } else {
        var newsize := freeTotal * 2;
        vecFreeconn := vecFreeconn + seq(newsize - |vecFreeconn|, _ => NULL);
        freeTotal := newsize;
        vecFreeconn := vecFreeconn[freeCurr := conn];
        freeCurr := freeCurr + 1;
        ret := true;
      }
    }
  }

  // ---------- Opening and closing connections ----------

  /**
   * `setup`: taken or allocated by an InitNewConn that has not finished; `live`: handed to
   * a bufferevent; `pending`: requests that found the list empty and have not allocated yet.
   */
  datatype Pool = Pool(free: FreeList, setup: set<Conn>, live: set<Conn>, pending: nat, created: set<Conn>)

  datatype Action =
    | Request                // InitNewConn calls GetConnFromFreelist
    | Allocated(conn: Conn)  // ... which found nothing, and new CONN and its buffers succeed
    | AllocFailed            // ... or bad_alloc makes it return NULL
    | SetupDone(conn: Conn)    // bufferevent_socket_new succeeds
    | SetupFailed(conn: Conn)  // ... or fails, and the CONN goes back to the list
    | Close(conn: Conn)        // CloseConn

  function Init(): Pool {
    Pool(EmptyList(), {}, {}, 0, {})
  }

  predicate Enabled(p: Pool, a: Action) {
    match a
    case Request => true
    case Allocated(c) => p.pending > 0 && c != NULL && c !in p.created
    case AllocFailed => p.pending > 0
    case SetupDone(c) => c in p.setup
    case SetupFailed(c) => c in p.setup
    case Close(c) => c in p.live
  }

  function Next(p: Pool, a: Action): (q: Pool)
    requires ListOk(p.free) && Enabled(p, a)
    ensures ListOk(q.free)
  {
    match a
    case Request =>
      if p.free.curr > 0 then
        p.(free := Taken(p.free), setup := p.setup + {p.free.vec[p.free.curr - 1]})
      else p.(pending := p.pending + 1)
    case Allocated(c) => p.(pending := p.pending - 1, setup := p.setup + {c}, created := p.created + {c})
    case AllocFailed => p.(pending := p.pending - 1)
    case SetupDone(c) => p.(setup := p.setup - {c}, live := p.live + {c})
    case SetupFailed(c) => p.(free := Put(p.free, c), setup := p.setup - {c})
    case Close(c) => p.(free := Put(p.free, c), live := p.live - {c})
  }

  ghost predicate Runs(p: Pool, actions: seq<Action>, q: Pool)
    decreases |actions|
  {
    if actions == [] then p == q
    else ListOk(p.free) && Enabled(p, actions[0]) && Runs(Next(p, actions[0]), actions[1..], q)
  }

  /** Connections held or requested at one moment. */
  function Held(p: Pool): nat {
    |p.setup| + |p.live| + p.pending
  }

  function Max(a: int, b: int): int { if a < b then b else a }

  /** The largest number of connections held or requested at any moment of a run. */
  ghost function Peak(p: Pool, actions: seq<Action>, q: Pool): nat
    requires Runs(p, actions, q)
    decreases |actions|
  {
    if actions == [] then Held(p)
    else Max(Held(p), Peak(Next(p, actions[0]), actions[1..], q))
  }

  /** The slots that the resizes of a run copy into a larger array. */
  ghost function SlotsCopied(p: Pool, actions: seq<Action>, q: Pool): nat
    requires Runs(p, actions, q)
    decreases |actions|
  {
    if actions == [] then 0
    else
      var n := Next(p, actions[0]);
      (if n.free.total > p.free.total then |p.free.vec| else 0) + SlotsCopied(n, actions[1..], q)
  }

  function Failures(actions: seq<Action>): nat {
    if actions == [] then 0 else (if actions[0].AllocFailed? then 1 else 0) + Failures(actions[1..])
  }

  // ---------- What every reachable pool satisfies ----------

  predicate Distinct(s: seq<Conn>) {
    forall i, j :: 0 <= i < j < |s| ==> s[i] != s[j]
  }

  function Elements(s: seq<Conn>): set<Conn> {
    set c | c in s
  }

  /** Every CONN ever allocated is in exactly one place: a slot of the list, in setup, or live. */
  predicate Owned(p: Pool) {
    && ListOk(p.free)
    && Distinct(Stack(p.free))
    && Elements(Stack(p.free)) !! p.setup !! p.live
    && Elements(Stack(p.free)) + p.setup + p.live == p.created
    && NULL !in p.created
  }

  function Pow2(k: nat): nat { if k == 0 then 1 else 2 * Pow2(k - 1) }

  ghost predicate Doublings(total: nat) {
    exists k: nat :: total == INITIAL_SLOTS * Pow2(k)
  }

  /** The accounting law, for a history with the given peak and number of failed allocations. */
  ghost predicate Accounted(p: Pool, peak: nat, failures: nat) {
    && |p.created| + p.pending <= peak <= |p.created| + p.pending + failures
    && |p.created| + p.pending == p.free.curr + Held(p)
    && Held(p) <= peak
    && Doublings(p.free.total)
    && p.free.total <= Max(INITIAL_SLOTS, 2 * (peak - 1))
  }

  lemma StepOwned(p: Pool, a: Action)
    requires Owned(p) && Enabled(p, a)
    ensures Owned(Next(p, a))
  {
    var q := Next(p, a);
    var before, after := Stack(p.free), Stack(q.free);
    match a
    case Request =>
      if p.free.curr > 0 {
        var c := p.free.vec[p.free.curr - 1];
        assert before == after + [c];
        assert Elements(before) == Elements(after) + {c};
        assert c !in Elements(after) by {
          assert forall i :: 0 <= i < |after| ==> before[i] == after[i] && before[i] != before[|after|];
        }
      }
    case Allocated(c) =>
    case AllocFailed =>
    case SetupDone(c) =>
    case SetupFailed(c) => PutOwned(p, q, c);
    case Close(c) => PutOwned(p, q, c);
  }

  lemma PutOwned(p: Pool, q: Pool, c: Conn)
    requires Owned(p) && q.free == Put(p.free, c) && c !in Elements(Stack(p.free))
    ensures Distinct(Stack(q.free))
    ensures Elements(Stack(q.free)) == Elements(Stack(p.free)) + {c}
  {
    assert Stack(q.free) == Stack(p.free) + [c];
    assert c !in Stack(p.free);
  }

  /** What one step does to the numbers. */
  lemma StepCounts(p: Pool, a: Action)
    requires Owned(p) && Enabled(p, a)
    ensures var q := Next(p, a);
      && |q.created| == |p.created| + (if a.Allocated? then 1 else 0)
      && Held(q) == Held(p) + match a {
           case Request => 1 case AllocFailed => -1 case SetupFailed(_) => -1 case Close(_) => -1 case _ => 0 }
      && ((a.SetupFailed? || a.Close?) ==> Held(p) > p.pending)
  {
    if a.Request? && p.free.curr > 0 {
      var c := p.free.vec[p.free.curr - 1];
      assert c == Stack(p.free)[p.free.curr - 1] && c in Elements(Stack(p.free));
      assert c !in p.setup;
    }
  }

  lemma StepAccounted(p: Pool, a: Action, peak: nat, failures: nat)
    requires Owned(p) && Enabled(p, a) && Accounted(p, peak, failures)
    ensures var q := Next(p, a);
      Accounted(q, Max(peak, Held(q)), failures + if a.AllocFailed? then 1 else 0)
  {
    var q := Next(p, a);
    StepCounts(p, a);
    if a.SetupFailed? || a.Close? {
      Doubled(p.free.total);
    }
  }

  lemma Doubled(total: nat)
    requires Doublings(total)
    ensures Doublings(2 * total)
  {
    var k: nat :| total == INITIAL_SLOTS * Pow2(k);
    assert 2 * total == INITIAL_SLOTS * Pow2(k + 1);
  }

  lemma {:induction false} RunAccounted(p: Pool, actions: seq<Action>, q: Pool, peak: nat, failures: nat)
    requires Owned(p) && Accounted(p, peak, failures) && Runs(p, actions, q)
    ensures Owned(q)
    ensures Accounted(q, Max(peak, Peak(p, actions, q)), failures + Failures(actions))
    decreases |actions|
  {
    if actions != [] {
      var a, rest := actions[0], actions[1..];
      var n := Next(p, a);
      StepOwned(p, a);
      StepAccounted(p, a, peak, failures);
      PeakStep(p, actions, q, peak);
      var failed := failures + if a.AllocFailed? then 1 else 0;
      assert failed + Failures(rest) == failures + Failures(actions);
      RunAccounted(n, rest, q, Max(peak, Held(n)), failed);
    }
  }

  lemma PeakStep(p: Pool, actions: seq<Action>, q: Pool, peak: nat)
    requires Runs(p, actions, q) && actions != [] && Held(p) <= peak
    ensures var n := Next(p, actions[0]);
      Max(Max(peak, Held(n)), Peak(n, actions[1..], q)) == Max(peak, Peak(p, actions, q))
  {
    PeakAtLeast(Next(p, actions[0]), actions[1..], q);
  }

  lemma {:induction false} RunCopies(p: Pool, actions: seq<Action>, q: Pool)
    requires ListOk(p.free) && Runs(p, actions, q)
    ensures SlotsCopied(p, actions, q) == q.free.total - p.free.total
    decreases |actions|
  {
    if actions != [] {
      RunCopies(Next(p, actions[0]), actions[1..], q);
    }
  }

  lemma PeakAtLeast(p: Pool, actions: seq<Action>, q: Pool)
    requires Runs(p, actions, q)
    ensures Peak(p, actions, q) >= Held(p)
  {
  }

  lemma InitAccounted()
    ensures Owned(Init()) && Accounted(Init(), 0, 0)
  {
    assert Stack(Init().free) == [];
    assert INITIAL_SLOTS == INITIAL_SLOTS * Pow2(0);
  }

  // ---------- Main results ----------

  /** Ownership: in every reachable pool each allocated CONN is in exactly one place. */
  lemma OwnershipAlways(actions: seq<Action>, q: Pool)
    requires Runs(Init(), actions, q)
    ensures Owned(q) && q.free.curr <= q.free.total == |q.free.vec|
    ensures forall c :: c in q.setup + q.live ==> c !in Stack(q.free)
  {
    InitAccounted();
    RunAccounted(Init(), actions, q, 0, 0);
    assert forall c :: c in Stack(q.free) ==> c in Elements(Stack(q.free));
  }

  /** From the actions alone: c has been set up, and not been closed since. */
  function LiveAfter(actions: seq<Action>, c: Conn, before: bool): bool
    decreases |actions|
  {
    if actions == [] then before
    else LiveAfter(actions[1..], c, actions[0] == SetupDone(c) || (before && actions[0] != Close(c)))
  }

  lemma {:induction false} LiveExactly(p: Pool, actions: seq<Action>, q: Pool, c: Conn)
    requires Runs(p, actions, q)
    ensures c in q.live <==> LiveAfter(actions, c, c in p.live)
    decreases |actions|
  {
    if actions != [] {
      LiveExactly(Next(p, actions[0]), actions[1..], q, c);
    }
  }

  /**
   * The pool never allocates more CONNs than the peak demand, and exactly that many when no
   * allocation fails; its array has 200 * 2^k slots, stays within twice the peak, and its
   * resizes copied freetotal_ - 200 slots in all.
   */
  lemma PoolAccounting(actions: seq<Action>, q: Pool)
    requires Runs(Init(), actions, q)
    ensures var peak := Peak(Init(), actions, q);
      && |q.created| + q.pending <= peak <= |q.created| + q.pending + Failures(actions)
      && (Failures(actions) == 0 ==> |q.created| + q.pending == peak)
      && q.free.total <= Max(INITIAL_SLOTS, 2 * (peak - 1))
    ensures exists k: nat :: q.free.total == INITIAL_SLOTS * Pow2(k)
    ensures SlotsCopied(Init(), actions, q) == q.free.total - INITIAL_SLOTS
  {
    InitAccounted();
    RunAccounted(Init(), actions, q, 0, 0);
    RunCopies(Init(), actions, q);
  }
}
