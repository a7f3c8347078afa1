/**
 * The objects behind the dispatch protocol: CThreadSafeList, LIBEVENT_THREAD and the parts
 * of CWorkerThread that move descriptors. Each method is one atomic step of Dispatch.
 */
module WorkerThreads {
  import opened Dispatch

  datatype Front<T> = Nothing | Front(value: T)

  /** CThreadSafeList: every method holds the list's mutex from start to end. */
  class ThreadSafeList<T> {
    var list: seq<T>

    constructor ()
      ensures list == []
    {
      list := [];
    }

    method PushBack(x: T)
      modifies this
      ensures list == old(list) + [x]
    {
      list := list + [x];
    }

    /** Takes the oldest element, or reports that there is none. */
    method PopFront() returns (front: Front<T>)
      modifies this
      ensures old(list) == [] ==> front == Nothing && list == []
      ensures old(list) != [] ==> front.Front? && old(list) == [front.value] + list
    {
      if |list| > 0 {
        front := Front(list[0]);
        list := list[1..];
      } else {
        front := Nothing;
      }
    }
  }

  /** LIBEVENT_THREAD, with the history of its connections as ghost state. */
  class LibeventThread {
    const listConn: ThreadSafeList<int>
    var pipe: nat
    var popping: bool
    ghost var popped: seq<int>
    var served: seq<int>
    ghost var emptyPops: nat
    ghost var unnotified: nat

    constructor ()
      ensures fresh(this) && fresh(listConn)
      ensures View() == Worker([], 0, false, [], [], 0, 0)
    {
      listConn := new ThreadSafeList<int>();
      pipe, popping, served := 0, false, [];
      popped, emptyPops, unnotified := [], 0, 0;
    }

    ghost function View(): Worker
      reads this, listConn
    {
      Worker(listConn.list, pipe, popping, popped, served, emptyPops, unnotified)
    }
  }

  class WorkerPool {
    var threads: seq<LibeventThread>
    var lastThread: int
    var notifying: int  // the thread picked by a dispatch that has not written its byte yet
    ghost var accepted: seq<int>

    ghost predicate Valid()
      reads this
    {
      && threads != [] && NOBODY <= lastThread < |threads| && NOBODY <= notifying < |threads|
      && forall i, j :: 0 <= i < j < |threads| ==>
           threads[i] != threads[j] && threads[i].listConn != threads[j].listConn
    }

    ghost function Lists(): set<object>
      reads this
    {
      set t: LibeventThread | t in threads :: t.listConn
    }

    ghost function View(): System
      reads this, threads, Lists()
    {
      System(
        seq(|threads|, i requires 0 <= i < |threads| reads this, threads, Lists() => threads[i].View()),
        lastThread, notifying, accepted)
    }

    /** The worker vector after InitThreads. */
    constructor (threadNum: nat)
      requires threadNum > 0
      ensures Valid() && fresh(threads) && fresh(Lists())
      ensures View() == Init(threadNum)
    {
      threads, lastThread, notifying, accepted := [], NOBODY, NOBODY, [];
      new;
      while |threads| < threadNum
        modifies this
        invariant |threads| <= threadNum
        invariant lastThread == NOBODY && notifying == NOBODY && accepted == []
        invariant forall t :: t in threads ==> fresh(t) && fresh(t.listConn)
        invariant forall i, j :: 0 <= i < j < |threads| ==>
          threads[i] != threads[j] && threads[i].listConn != threads[j].listConn
        invariant forall i :: 0 <= i < |threads| ==> threads[i].View() == Worker([], 0, false, [], [], 0, 0)
        decreases threadNum - |threads|
      {
        var t := new LibeventThread();
        threads := threads + [t];
      }
    }

    /** DispatchSfdToWorker up to and including push_back: round robin from the last thread. */
    method PushConn(sfd: int)
      requires Valid() && notifying == NOBODY
      modifies this, threads, Lists()
      ensures Valid() && threads == old(threads)
      ensures View() == Next(old(View()), Push(sfd))
    {
      var tid := (lastThread + 1) % |threads|;
      lastThread := tid;
      threads[tid].listConn.PushBack(sfd);
      notifying := tid;
      accepted := accepted + [sfd];
      assert forall i :: 0 <= i < |threads| && i != tid ==> threads[i].View() == old(threads[i].View());
    }

    /** The rest of DispatchSfdToWorker: one byte into the pipe; a failure is only logged. */
    method NotifyThread(ok: bool)
      requires Valid() && notifying != NOBODY
      modifies this, threads, Lists()
      ensures Valid() && threads == old(threads)
      ensures View() == Next(old(View()), Write(ok))
      ensures var t := threads[old(notifying)];
        && t.pipe == old(threads[notifying].pipe) + (if ok then 1 else 0)
        && t.unnotified == old(threads[notifying].unnotified) + (if ok then 0 else 1)
    {
      var t := threads[notifying];
      if ok {
        t.pipe := t.pipe + 1;
      } else {
        t.unnotified := t.unnotified + 1;
      }
      ghost var tid := notifying;
      notifying := NOBODY;
      assert forall i :: 0 <= i < |threads| && i != tid ==> threads[i].View() == old(threads[i].View());
    }

    /** ReadPipeCb up to the successful read of one byte. */
    method ReadByte(w: nat)
      requires Valid() && w < |threads| && !threads[w].popping && threads[w].pipe > 0
      modifies this, threads, Lists()
      ensures Valid() && threads == old(threads)
      ensures View() == Next(old(View()), Read(w))
    {
      var t := threads[w];
      t.pipe := t.pipe - 1;
      t.popping := true;
      assert forall i :: 0 <= i < |threads| && i != w ==> threads[i].View() == old(threads[i].View());
    }

    /** The rest of ReadPipeCb: pop, and hand a non-zero descriptor to InitNewConn. */
    method PopConn(w: nat)
      requires Valid() && w < |threads| && threads[w].popping
      modifies this, threads, Lists()
      ensures Valid() && threads == old(threads)
      ensures View() == Next(old(View()), Pop(w))
    {
      var t := threads[w];
      var front := t.listConn.PopFront();
      t.popping := false;
      if front.Nothing? {
        t.emptyPops := t.emptyPops + 1;
      } else {
        t.popped := t.popped + [front.value];
        if front.value != 0 {
          t.served := t.served + [front.value];
        }
      }
      assert forall i :: 0 <= i < |threads| && i != w ==> threads[i].View() == old(threads[i].View());
    }
  }
}
