/** Two ssl_client objects and the two byte streams between their sockets. */
module SslConnection {
  import opened SslEndpoint
  import opened SslOracle
  import opened SslCalls
  import opened SslClients
  import opened SslLink
  import opened Rounds

  class Connection {
    const a: SslClient
    const b: SslClient
    var toA: bytes
    var toB: bytes

    ghost predicate Apart()
      reads this, a, b
    {
      && a != b
      && a.writeBuf != b.writeBuf && a.writeBuf != b.encryptBuf
      && a.encryptBuf != b.writeBuf && a.encryptBuf != b.encryptBuf
    }

    ghost function View(): Link
      reads this, a, b
    {
      Link(a.end, b.end, toA, toB)
    }

    ghost function Repr(): set<object>
      reads this, a, b
    {
      {this, a, b, a.writeBuf, a.encryptBuf, b.writeBuf, b.encryptBuf}
    }

    ghost predicate Sound()
      reads this, a, b, a.writeBuf, a.encryptBuf, b.writeBuf, b.encryptBuf
    {
      Apart() && a.Valid() && b.Valid()
    }

    /** The objects are where a run of the link from the start leads. */
    ghost predicate Valid()
      reads this, a, b, a.writeBuf, a.encryptBuf, b.writeBuf, b.encryptBuf
    {
      Sound() && LeadsTo(Connected(), View())
    }

    constructor (answersA: nat -> Answer, answersB: nat -> Answer)
      ensures Valid() && View() == Connected() && a.answers == answersA && b.answers == answersB
      ensures !a.initFinished && a.calls == 0 && !b.initFinished && b.calls == 0
      ensures fresh(Repr())
    {
      a := new SslClient(answersA);
      b := new SslClient(answersB);
      toA, toB := [], [];
      new;
      LeadsNowhere(Connected());
    }

    function Client(s: Side): SslClient { if s == A then a else b }

    function InFlight(s: Side): bytes
      reads this
    {
      if s == A then toA else toB
    }

    /** do_ssl_handshake on one side, which is how a side begins */
    method Handshake(s: Side) returns (status: Status)
      requires Valid()
      modifies Client(s)`initFinished, Client(s)`calls, Client(s)`wbio, Client(s)`end
      modifies Client(s)`writeBuf, Client(s)`writeLen, Client(s).writeBuf
      ensures Valid() && (fresh(Client(s).writeBuf) || Client(s).writeBuf == old(Client(s).writeBuf))
      ensures Client(s).calls == old(Client(s).calls) + 1
      ensures var c, answer := Client(s), At(Client(s).answers, old(Client(s).calls));
        && c.end == HandshakeCall(old(Client(s).end), answer)
        && c.initFinished == (old(Client(s).initFinished) || answer.n > 0)
        && status == StatusOf(answer.n, answer)
    {
      ghost var before, i := View(), Client(s).calls;
      status := Client(s).DoSslHandshake();
      HandshakeIsRun(before, s, At(Client(s).answers, i));
      LeadsOn(Connected(), before, View());
    }

    /** send_unencrypted_bytes on one side */
    method Send(s: Side, buf: bytes)
      requires Valid()
      modifies Client(s)`encryptBuf, Client(s)`encryptLen, Client(s)`end, Client(s).encryptBuf
      ensures Valid() && fresh(Client(s).encryptBuf)
      ensures Client(s).end == Do(old(Client(s).end), Submit(buf))
    {
      ghost var before := View();
      Client(s).SendUnencryptedBytes(buf);
      LeadsOne(before, s, Submit(buf));
      LeadsOn(Connected(), before, View());
    }

    /**
     * do_encrypt on one side, when its loop ends. If each of its SSL_write calls that takes
     * plaintext produces output, the pair stays on a run.
     */
    method Encrypt(s: Side) returns (ret: int)
      requires Valid()
      requires Client(s).initFinished ==> Ends(SslRounds(Client(s).answers), Client(s).calls, Client(s).encryptLen)
      modifies Client(s)`encryptBuf, Client(s)`encryptLen, Client(s)`writeBuf, Client(s)`writeLen
      modifies Client(s)`wbio, Client(s)`calls, Client(s)`end, Client(s).writeBuf, Client(s).encryptBuf
      ensures Sound()
      ensures fresh(Client(s).writeBuf) || Client(s).writeBuf == old(Client(s).writeBuf)
      ensures fresh(Client(s).encryptBuf) || Client(s).encryptBuf == old(Client(s).encryptBuf)
      ensures var c, e, i := Client(s), old(Client(s).end), old(Client(s).calls);
        && (Emits(c.answers, i, c.calls) ==> Valid())
        && c.end == WriteCalls(e, c.answers, i, c.calls)
        && (!c.initFinished || WriteLoop(e, c.answers, i, c.calls)) && (c.initFinished || c.calls == i)
    {
      ghost var before, i := View(), Client(s).calls;
      ret := Client(s).DoEncrypt();
      if Emits(Client(s).answers, i, Client(s).calls) {
        EncryptIsRun(before, s, Client(s).answers, i, Client(s).calls);
        LeadsOn(Connected(), before, View());
      }
    }

    /** do_sock_write on one side, where write() accepts n bytes */
    method Flush(s: Side, n: nat)
      requires Valid() && 0 < n <= Client(s).writeLen
      modifies this`toA, this`toB, Client(s)`writeBuf, Client(s)`writeLen, Client(s)`written, Client(s)`end, Client(s).writeBuf
      ensures Valid() && (fresh(Client(s).writeBuf) || Client(s).writeBuf == old(Client(s).writeBuf))
      ensures Client(s).end == Do(old(Client(s).end), SockWrite(n))
      ensures InFlight(Peer(s)) == old(InFlight(Peer(s))) + old(Client(s).writeBuf[..n])
      ensures InFlight(s) == old(InFlight(s))
    {
      ghost var before := View();
      var sent := Client(s).writeBuf[..n];
      var ret := Client(s).DoSockWrite(n);
      if s == A {
        toB := toB + sent;
      } else {
        toA := toA + sent;
      }
      LeadsOne(before, s, SockWrite(n));
      LeadsOn(Connected(), before, View());
    }

    /**
     * do_sock_read on one side: read() takes the first n bytes in flight, on_read_cb handles
     * them. io_on_read is given what SSL_read returns. If what SSL_read returns keeps to the
     * record-layer assumption, the pair stays on a run.
     */
    method Receive(s: Side, n: nat) returns (ret: int)
      requires Valid() && 0 < n <= |InFlight(s)|
      requires Reaches(Client(s).answers, Client(s).initFinished, Client(s).calls) ==>
        Empties(Client(s).answers, FirstRead(Client(s).initFinished, Client(s).calls))
      modifies this`toA, this`toB, Client(s)`initFinished, Client(s)`wbio, Client(s)`calls, Client(s)`fed
      modifies Client(s)`delivered, Client(s)`end, Client(s)`writeBuf, Client(s)`writeLen, Client(s).writeBuf
      ensures Sound() && (fresh(Client(s).writeBuf) || Client(s).writeBuf == old(Client(s).writeBuf))
      ensures Client(s).fed == old(Client(s).fed) + old(InFlight(s)[..n])
      ensures var c, first := Client(s), old(FirstRead(Client(s).initFinished, Client(s).calls));
        var before := old(Client(s).delivered);
        && c.delivered == before + ReadOut(c.answers, first, c.calls)
        && (Honest(c.answers, first, c.calls, c.fed, before, Client(Peer(s)).end.records) ==> Valid())
      ensures var c, finished, i := Client(s), old(Client(s).initFinished), old(Client(s).calls);
        && ReadCallsOf(c.answers, finished, i, c.calls)
        && c.initFinished == Reaches(c.answers, finished, i)
        && c.end == OnRead(old(Client(s).end), old(InFlight(s)[..n]), c.answers, finished, i, c.calls)
      ensures InFlight(s) == old(InFlight(s)[n..]) && InFlight(Peer(s)) == old(InFlight(Peer(s)))
    {
      ghost var before, finished, i := View(), Client(s).initFinished, Client(s).calls;
      var src := InFlight(s)[..n];
      ret := Client(s).OnReadCb(src);
      if s == A {
        toA := toA[n..];
      } else {
        toB := toB[n..];
      }
      ghost var c, e, peer := Client(s), End(before, s), End(before, Peer(s));
      if Honest(c.answers, FirstRead(finished, i), c.calls, e.fed + src, e.delivered, peer.records) {
        ReadIsRun(before, s, src, c.answers, finished, i, c.calls);
        LeadsOn(Connected(), before, View());
      }
    }
  }

  /** On the objects: what io_on_read has been given is a prefix of what the other side submitted ... */
  lemma ReceivedIsPrefixOfSent(c: Connection, s: Side)
    requires c.Valid()
    ensures c.Client(s).delivered <= c.Client(Peer(s)).end.submitted
  {
    var run :| Runs(Connected(), run, c.View());
    DeliveredIsPrefixOfSent(run, c.View(), s);
  }

  /** ... and all of it once nothing is left on the way and SSL_read is dry. */
  lemma AllReceived(c: Connection, s: Side)
    requires c.Valid()
    requires var x := c.Client(Peer(s)); x.encryptLen == 0 && x.wbio == [] && x.writeLen == 0
    requires c.InFlight(s) == [] && c.Client(s).end.dry
    ensures c.Client(s).delivered == c.Client(Peer(s)).end.submitted
  {
    var run :| Runs(Connected(), run, c.View());
    AllDelivered(run, c.View(), s);
  }
}
