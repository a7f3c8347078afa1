/** One connection from its first byte to the delivery of plaintext: the calls of Connection in the order a program makes them. */
module SslExchange {
  import opened SslEndpoint
  import opened SslOracle
  import opened SslCalls
  import opened SslLink
  import opened SslConnection
  import opened Rounds

  /** The side that begins: a handshake in two calls, a dry SSL_read, then one SSL_write. */
  function Opener(): nat -> Answer {
    (i: nat) =>
      if i == 0 then Answer(-1, true, [22], [])
      else if i == 1 then Answer(1, false, [], [])
      else if i == 3 then Answer(1, false, [23], [])
      else Answer(-1, true, [], [])
  }

  /** The other side: a handshake in one call, a dry SSL_read, then SSL_read returns one byte. */
  function Answerer(): nat -> Answer {
    (i: nat) =>
      if i == 0 then Answer(1, false, [20], [])
      else if i == 2 then Answer(1, false, [], [7])
      else Answer(-1, true, [], [])
  }

  const HELLO := Record([], [22])
  const REPLY := Record([], [20])
  const SILENT := Record([], [])
  const DATA := Record([7], [23])

  // ---------- The two ends after each call ----------

  // submitted, encrypt, records, wbio, queue, written, fed, delivered, dry
  function A1(): Endpoint { Endpoint([], [], [HELLO], [], [22], [], [], [], false) }
  function A2(): Endpoint { Endpoint([], [], [HELLO], [], [], [22], [], [], false) }
  function A3(): Endpoint { Endpoint([], [], [HELLO, SILENT, SILENT], [], [], [22], [20], [], true) }
  function A4(): Endpoint { Endpoint([7], [7], [HELLO, SILENT, SILENT], [], [], [22], [20], [], true) }
  function A5(): Endpoint { Endpoint([7], [], [HELLO, SILENT, SILENT, DATA], [], [23], [22], [20], [], true) }
  function A6(): Endpoint { Endpoint([7], [], [HELLO, SILENT, SILENT, DATA], [], [], [22, 23], [20], [], true) }

  function B1(): Endpoint { Endpoint([], [], [REPLY, SILENT], [], [20], [], [22], [], true) }
  function B2(): Endpoint { Endpoint([], [], [REPLY, SILENT], [], [], [20], [22], [], true) }
  function B3(): Endpoint { Endpoint([], [], [REPLY, SILENT, SILENT, SILENT], [], [], [20], [22, 23], [7], true) }

  // ---------- SSL keeps to the record-layer assumption ----------

  lemma Appended(records: seq<Record>, r: Record, all: seq<Record>)
    requires all == records + [r]
    ensures Wire(all) == Wire(records) + r.wire && Plain(all) == Plain(records) + r.plain
  {
    PlainWireAppend(records, r);
  }

  lemma FirstRecords()
    ensures Wire([HELLO]) == [22] && Plain([HELLO]) == []
    ensures Wire([REPLY, SILENT]) == [20] && Plain([REPLY, SILENT]) == []
  {
    Appended([], HELLO, [HELLO]);
    Appended([], REPLY, [REPLY]);
    Appended([REPLY], SILENT, [REPLY, SILENT]);
  }

  lemma LastRecords()
    ensures Wire(A6().records) == [22, 23] && Plain(A6().records) == [7]
  {
    FirstRecords();
    Appended([HELLO], SILENT, [HELLO, SILENT]);
    Appended([HELLO, SILENT], SILENT, [HELLO, SILENT, SILENT]);
    Appended([HELLO, SILENT, SILENT], DATA, A6().records);
  }

  lemma AllHonest()
    ensures Honest(Answerer(), 1, 2, [22], [], [HELLO])
    ensures Honest(Opener(), 2, 3, [20], [], [REPLY, SILENT])
    ensures Honest(Answerer(), 2, 4, [22, 23], [], A6().records)
  {
    FirstRecords();
    LastRecords();
    assert ReadOut(Answerer(), 1, 2) == Chunk(At(Answerer(), 1)) + ReadOut(Answerer(), 2, 2);
    assert ReadOut(Opener(), 2, 3) == Chunk(At(Opener(), 2)) + ReadOut(Opener(), 3, 3);
    assert ReadOut(Answerer(), 3, 4) == Chunk(At(Answerer(), 3)) + ReadOut(Answerer(), 4, 4);
    assert ReadOut(Answerer(), 2, 4) == Chunk(At(Answerer(), 2)) + ReadOut(Answerer(), 3, 4);
  }

  // ---------- What each call does ----------

  /** An SSL_write that takes everything ends the loop. */
  lemma OneWrite(e: Endpoint, answers: nat -> Answer, i: nat)
    requires e.encrypt != [] && At(answers, i).n >= |e.encrypt|
    ensures Ends(SslRounds(answers), i, |e.encrypt|)
    ensures forall j :: WriteLoop(e, answers, i, j) ==>
      j == i + 1 && WriteCalls(e, answers, i, j) == WriteCall(e, At(answers, i))
  {
    assert LeftWithin(SslRounds(answers), i, |e.encrypt|, 1);
    var f := WriteCall(e, At(answers, i));
    assert f.encrypt == [];
    forall j | WriteLoop(e, answers, i, j)
      ensures j == i + 1 && WriteCalls(e, answers, i, j) == f
    {
      assert WriteLoop(f, answers, i + 1, j);
      assert WriteCalls(f, answers, i + 1, j) == f;
    }
  }

  /**
   * A side that is in state e and is given src reaches SSL_read, makes the calls i..j, ends in
   * f, and its SSL keeps to the assumption.
   */
  ghost predicate ReceivesTo(e: Endpoint, src: bytes, answers: nat -> Answer, finished: bool, i: nat, peer: seq<Record>,
                             f: Endpoint, j: nat)
  {
    && Reaches(answers, finished, i) && Empties(answers, FirstRead(finished, i))
    && (forall k :: ReadCallsOf(answers, finished, i, k) ==>
         k == j && OnRead(e, src, answers, finished, i, k) == f &&
         Honest(answers, FirstRead(finished, i), k, e.fed + src, e.delivered, peer))
  }

  lemma AShakes()
    ensures HandshakeCall(Start(), At(Opener(), 0)) == A1()
  {
  }

  lemma BAnswers()
    ensures ReceivesTo(Start(), [22], Answerer(), false, 0, A2().records, B1(), 2)
  {
    AllHonest();
    assert At(Answerer(), 1).plain == [];
    var f := Fed(Start(), [22], Answerer(), false, 0);
    assert f == Start().(records := [REPLY], wbio := [20], fed := [22]);
    assert ReadCalls(f, Answerer(), 1, 2) == ReadCall(f, At(Answerer(), 1));
    assert OnRead(Start(), [22], Answerer(), false, 0, 2) == B1();
    assert Start().fed + [22] == [22];
  }

  lemma AFinishes()
    ensures ReceivesTo(A2(), [20], Opener(), false, 1, B2().records, A3(), 3)
  {
    AllHonest();
    assert At(Opener(), 2).plain == [];
    var f := Fed(A2(), [20], Opener(), false, 1);
    assert f == A2().(records := [HELLO, SILENT], fed := [20]);
    assert ReadCalls(f, Opener(), 2, 3) == ReadCall(f, At(Opener(), 2));
    assert OnRead(A2(), [20], Opener(), false, 1, 3) == A3();
    assert A2().fed + [20] == [20];
  }

  /** A has one byte to encrypt and makes the calls 3..j. */
  lemma AEncrypts(j: nat)
    requires WriteLoop(A4(), Opener(), 3, j)
    ensures j == 4 && WriteCalls(A4(), Opener(), 3, j) == A5() && Emits(Opener(), 3, j)
  {
    var e := A4();
    OneWrite(e, Opener(), 3);
    assert TakenBy(At(Opener(), 3), |e.encrypt|) == 1 && e.encrypt[..1] == [7] && e.encrypt[1..] == [];
    assert e.records + [DATA] == [HELLO, SILENT, SILENT, DATA];
  }

  lemma BDelivers()
    ensures ReceivesTo(B2(), [23], Answerer(), true, 2, A6().records, B3(), 4)
  {
    AllHonest();
    assert At(Answerer(), 3).plain == [];
    forall k | ReadLoop(Answerer(), 2, k) ensures k == 4 {
      assert ReadLoop(Answerer(), 3, k);
    }
    var f := Fed(B2(), [23], Answerer(), true, 2);
    assert f == B2().(fed := [22, 23], dry := false);
    var g := ReadCall(f, At(Answerer(), 2));
    assert g == f.(records := [REPLY, SILENT, SILENT], delivered := [7]);
    assert ReadCalls(f, Answerer(), 2, 4) == ReadCall(g, At(Answerer(), 3));
    assert OnRead(B2(), [23], Answerer(), true, 2, 4) == B3();
    assert B2().fed + [23] == [22, 23];
  }

  lemma Flushed()
    ensures Do(A1(), SockWrite(1)) == A2() && Do(B1(), SockWrite(1)) == B2()
    ensures Do(A3(), Submit([7])) == A4() && Do(A5(), SockWrite(1)) == A6()
  {
  }

  // ---------- The calls ----------

  /** Where the connection is and how many SSL calls each side has made. */
  ghost predicate Stage(c: Connection, l: Link, finishedA: bool, callsA: nat, finishedB: bool, callsB: nat)
    reads c.Repr()
  {
    && c.Valid() && c.View() == l && c.a.answers == Opener() && c.b.answers == Answerer()
    && c.a.initFinished == finishedA && c.a.calls == callsA && c.b.initFinished == finishedB && c.b.calls == callsB
  }

  /** A begins the handshake. */
  method Begin() returns (c: Connection)
    ensures Stage(c, Link(A1(), Start(), [], []), false, 1, false, 0) && fresh(c.Repr())
  {
    AShakes();
    c := new Connection(Opener(), Answerer());
    var status := c.Handshake(A);
  }

  /** do_sock_read of the one byte that is in flight */
  method ReceiveOne(c: Connection, s: Side, ghost f: Endpoint, ghost j: nat)
    requires c.Valid() && |c.InFlight(s)| == 1
    requires ReceivesTo(c.Client(s).end, c.InFlight(s), c.Client(s).answers, c.Client(s).initFinished, c.Client(s).calls,
      c.Client(Peer(s)).end.records, f, j)
    modifies c.Repr()
    ensures c.Valid() && fresh(c.Repr() - old(c.Repr()))
    ensures c.Client(s).end == f && c.Client(s).calls == j && c.Client(s).initFinished
    ensures var p := c.Client(Peer(s)); p.end == old(p.end) && p.calls == old(p.calls) && p.initFinished == old(p.initFinished)
    ensures c.InFlight(s) == [] && c.InFlight(Peer(s)) == old(c.InFlight(Peer(s)))
  {
    assert c.InFlight(s)[..1] == c.InFlight(s);
    var ret := c.Receive(s, 1);
  }

  /** do_sock_write of the one byte that is queued */
  method FlushOne(c: Connection, s: Side, ghost f: Endpoint)
    requires c.Valid() && |c.Client(s).end.queue| == 1 && c.InFlight(Peer(s)) == []
    requires f == Do(c.Client(s).end, SockWrite(1))
    modifies c.Repr()
    ensures c.Valid() && fresh(c.Repr() - old(c.Repr()))
    ensures c.Client(s).end == f && c.Client(s).calls == old(c.Client(s).calls)
    ensures c.Client(s).initFinished == old(c.Client(s).initFinished)
    ensures var p := c.Client(Peer(s)); p.end == old(p.end) && p.calls == old(p.calls) && p.initFinished == old(p.initFinished)
    ensures c.InFlight(Peer(s)) == old(c.Client(s).end.queue) && c.InFlight(s) == old(c.InFlight(s))
  {
    assert c.Client(s).writeBuf[..1] == c.Client(s).end.queue;
    c.Flush(s, 1);
  }

  method FlushHello(c: Connection)
    requires Stage(c, Link(A1(), Start(), [], []), false, 1, false, 0)
    modifies c.Repr()
    ensures Stage(c, Link(A2(), Start(), [], [22]), false, 1, false, 0) && fresh(c.Repr() - old(c.Repr()))
  {
    Flushed();
    FlushOne(c, A, A2());
  }

  method ReceiveHello(c: Connection)
    requires Stage(c, Link(A2(), Start(), [], [22]), false, 1, false, 0)
    modifies c.Repr()
    ensures Stage(c, Link(A2(), B1(), [], []), false, 1, true, 2) && fresh(c.Repr() - old(c.Repr()))
  {
    BAnswers();
    ReceiveOne(c, B, B1(), 2);
  }

  method FlushReply(c: Connection)
    requires Stage(c, Link(A2(), B1(), [], []), false, 1, true, 2)
    modifies c.Repr()
    ensures Stage(c, Link(A2(), B2(), [20], []), false, 1, true, 2) && fresh(c.Repr() - old(c.Repr()))
  {
    Flushed();
    FlushOne(c, B, B2());
  }

  method ReceiveReply(c: Connection)
    requires Stage(c, Link(A2(), B2(), [20], []), false, 1, true, 2)
    modifies c.Repr()
    ensures Stage(c, Link(A3(), B2(), [], []), true, 3, true, 2) && fresh(c.Repr() - old(c.Repr()))
  {
    AFinishes();
    ReceiveOne(c, A, A3(), 3);
  }

  method SubmitByte(c: Connection)
    requires Stage(c, Link(A3(), B2(), [], []), true, 3, true, 2)
    modifies c.Repr()
    ensures Stage(c, Link(A4(), B2(), [], []), true, 3, true, 2) && fresh(c.Repr() - old(c.Repr()))
  {
    Flushed();
    c.Send(A, [7]);
  }

  method EncryptByte(c: Connection)
    requires Stage(c, Link(A4(), B2(), [], []), true, 3, true, 2)
    modifies c.Repr()
    ensures Stage(c, Link(A5(), B2(), [], []), true, 4, true, 2) && fresh(c.Repr() - old(c.Repr()))
  {
    OneWrite(A4(), Opener(), 3);
    var ret := c.Encrypt(A);
    AEncrypts(c.a.calls);
  }

  method FlushByte(c: Connection)
    requires Stage(c, Link(A5(), B2(), [], []), true, 4, true, 2)
    modifies c.Repr()
    ensures Stage(c, Link(A6(), B2(), [], [23]), true, 4, true, 2) && fresh(c.Repr() - old(c.Repr()))
  {
    Flushed();
    FlushOne(c, A, A6());
  }

  method ReceiveByte(c: Connection)
    requires Stage(c, Link(A6(), B2(), [], [23]), true, 4, true, 2)
    modifies c.Repr()
    ensures Stage(c, Link(A6(), B3(), [], []), true, 4, true, 4) && fresh(c.Repr() - old(c.Repr()))
  {
    BDelivers();
    ReceiveOne(c, B, B3(), 4);
  }

  method Hello(c: Connection)
    requires Stage(c, Link(A1(), Start(), [], []), false, 1, false, 0)
    modifies c.Repr()
    ensures Stage(c, Link(A2(), B1(), [], []), false, 1, true, 2) && fresh(c.Repr() - old(c.Repr()))
  {
    FlushHello(c);
    ReceiveHello(c);
  }

  method Reply(c: Connection)
    requires Stage(c, Link(A2(), B1(), [], []), false, 1, true, 2)
    modifies c.Repr()
    ensures Stage(c, Link(A3(), B2(), [], []), true, 3, true, 2) && fresh(c.Repr() - old(c.Repr()))
  {
    FlushReply(c);
    ReceiveReply(c);
  }

  /** Both sides finish the handshake, and the byte goes from A to B. */
  method Transfer(c: Connection)
    requires Stage(c, Link(A3(), B2(), [], []), true, 3, true, 2)
    modifies c.Repr()
    ensures Stage(c, Link(A6(), B3(), [], []), true, 4, true, 4)
  {
    SubmitByte(c);
    EncryptByte(c);
    FlushByte(c);
    ReceiveByte(c);
  }

  /**
   * From a new connection through the handshake to a byte that is submitted at A and handed
   * over at B, with nothing left on the way.
   */
  method Exchange() returns (c: Connection)
    ensures c.Valid() && c.View() == Link(A6(), B3(), [], [])
    ensures c.a.end.submitted == [7] == c.b.delivered
  {
    c := Begin();
    Hello(c);
    Reply(c);
    Transfer(c);
  }
}
