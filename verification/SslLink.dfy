/**
 * Two SSL clients joined by a FIFO channel each way, taking the steps of SslEndpoint in any
 * order. What is assumed of SSL itself is only this: an SSL_write that takes plaintext
 * produces output; and as long as the bytes fed to one side are a prefix of what the other
 * side's SSL produced, the plaintext that SSL_read has returned is a prefix of the plaintext
 * of the records that have arrived completely, and all of it once SSL_read asks for more
 * input. That on_read_cb hands over exactly what SSL_read returns is proved in SslCalls.
 */
module SslLink {
  import opened SslEndpoint
  import opened SslOracle
  import opened SslCalls
  import opened Text

  datatype Side = A | B

  /** `toA` and `toB` hold the bytes in flight towards each side. */
  datatype Link = Link(a: Endpoint, b: Endpoint, toA: bytes, toB: bytes)

  function Connected(): Link {
    Link(Start(), Start(), [], [])
  }

  function Peer(s: Side): Side { if s == A then B else A }
  function End(l: Link, s: Side): Endpoint { if s == A then l.a else l.b }
  function Towards(l: Link, s: Side): bytes { if s == A then l.toA else l.toB }

  function With(l: Link, s: Side, e: Endpoint, towardsIt: bytes, towardsPeer: bytes): Link {
    if s == A then Link(e, l.b, towardsIt, towardsPeer) else Link(l.a, e, towardsPeer, towardsIt)
  }

  /** The plaintext of the leading records whose wire bytes all lie within the first n. */
  function Covered(records: seq<Record>, n: nat): bytes {
    if records == [] then []
    else if |Wire(records)| <= n then Plain(records)
    else Covered(records[..|records| - 1], n)
  }

  predicate Enabled(l: Link, s: Side, step: Step) {
    var e, peer := End(l, s), End(l, Peer(s));
    CanDo(e, step) &&
    match step
    case SslCall(n, out) => n > 0 ==> out != []
    case Feed(data) => data <= Towards(l, s)
    case Deliver(data) => e.fed <= Wire(peer.records) ==> e.delivered + data <= Covered(peer.records, |e.fed|)
    case RanDry => e.fed <= Wire(peer.records) ==> e.delivered == Covered(peer.records, |e.fed|)
    case _ => true
  }

  /** A socket write puts its bytes on the channel; a feed takes its bytes off it. */
  function Next(l: Link, s: Side, step: Step): Link
    requires Enabled(l, s, step)
  {
    var e := End(l, s);
    With(l, s, Do(e, step),
      if step.Feed? then Towards(l, s)[|step.data|..] else Towards(l, s),
      if step.SockWrite? then Towards(l, Peer(s)) + e.queue[..step.n] else Towards(l, Peer(s)))
  }

  ghost predicate Runs(l: Link, steps: seq<(Side, Step)>, m: Link)
    decreases |steps|
  {
    if steps == [] then l == m
    else Enabled(l, steps[0].0, steps[0].1) && Runs(Next(l, steps[0].0, steps[0].1), steps[1..], m)
  }

  // ---------- The invariant of one direction ----------

  /** From the sender `x` over a channel to the receiver `y`. */
  predicate Flow(x: Endpoint, channel: bytes, y: Endpoint) {
    && Conserved(x)
    && x.written == y.fed + channel
    && y.delivered <= Covered(x.records, |y.fed|)
    && (y.dry ==> y.delivered == Covered(x.records, |y.fed|))
  }

  predicate Inv(l: Link) {
    Flow(l.a, l.toB, l.b) && Flow(l.b, l.toA, l.a)
  }

  lemma FedIsWirePrefix(x: Endpoint, channel: bytes, y: Endpoint)
    requires Flow(x, channel, y)
    ensures y.fed <= Wire(x.records)
  {
    ConcatAssoc(x.written, x.queue, x.wbio);
    ConcatAssoc(y.fed, channel, x.queue + x.wbio);
  }

  lemma {:induction false} CoveredIsPrefix(records: seq<Record>, n: nat)
    ensures Covered(records, n) <= Plain(records)
    ensures |Wire(records)| <= n ==> Covered(records, n) == Plain(records)
    decreases |records|
  {
    if records != [] {
      CoveredIsPrefix(records[..|records| - 1], n);
    }
  }

  lemma {:induction false} CoveredGrows(records: seq<Record>, n: nat, m: nat)
    requires n <= m
    ensures Covered(records, n) <= Covered(records, m)
    decreases |records|
  {
    if records != [] {
      CoveredGrows(records[..|records| - 1], n, m);
      CoveredIsPrefix(records, n);
    }
  }

  /** A new record is not covered by bytes sent before it. */
  lemma CoveredKeeps(records: seq<Record>, r: Record, n: nat)
    requires n <= |Wire(records)|
    requires r.plain != [] ==> r.wire != []
    ensures Covered(records + [r], n) == Covered(records, n)
  {
    PlainWireAppend(records, r);
    assert (records + [r])[..|records|] == records;
    CoveredIsPrefix(records, n);
  }

  /** Any step of the sender keeps the invariant of its outgoing direction. */
  lemma SenderKeeps(x: Endpoint, channel: bytes, y: Endpoint, step: Step)
    requires Flow(x, channel, y) && CanDo(x, step)
    requires step.SslCall? && step.taken > 0 ==> step.out != []
    ensures Flow(Do(x, step), if step.SockWrite? then channel + x.queue[..step.n] else channel, y)
  {
    StepConserves(x, step);
    if step.SslCall? {
      FedIsWirePrefix(x, channel, y);
      CoveredKeeps(x.records, Record(x.encrypt[..step.taken], step.out), |y.fed|);
    } else if step.SockWrite? {
      ConcatAssoc(y.fed, channel, x.queue[..step.n]);
    }
  }

  /** Any step of the receiver keeps the invariant of its incoming direction. */
  lemma ReceiverKeeps(x: Endpoint, channel: bytes, y: Endpoint, step: Step)
    requires Flow(x, channel, y) && CanDo(y, step)
    requires step.Feed? ==> step.data <= channel
    requires step.Deliver? ==> y.fed <= Wire(x.records) ==> y.delivered + step.data <= Covered(x.records, |y.fed|)
    requires step.RanDry? ==> y.fed <= Wire(x.records) ==> y.delivered == Covered(x.records, |y.fed|)
    ensures Flow(x, if step.Feed? then channel[|step.data|..] else channel, Do(y, step))
  {
    FedIsWirePrefix(x, channel, y);
    if step.Feed? {
      CoveredGrows(x.records, |y.fed|, |y.fed| + |step.data|);
      assert channel == step.data + channel[|step.data|..];
      ConcatAssoc(y.fed, step.data, channel[|step.data|..]);
    }
  }

  lemma StepInv(l: Link, s: Side, step: Step)
    requires Inv(l) && Enabled(l, s, step)
    ensures Inv(Next(l, s, step))
  {
    var e, peer := End(l, s), End(l, Peer(s));
    SenderKeeps(e, Towards(l, Peer(s)), peer, step);
    ReceiverKeeps(peer, Towards(l, s), e, step);
  }

  lemma {:induction false} AlwaysInv(l: Link, steps: seq<(Side, Step)>, m: Link)
    requires Inv(l) && Runs(l, steps, m)
    ensures Inv(m)
    decreases |steps|
  {
    if steps != [] {
      StepInv(l, steps[0].0, steps[0].1);
      AlwaysInv(Next(l, steps[0].0, steps[0].1), steps[1..], m);
    }
  }

  // ---------- Main results ----------

  /** End to end: at every moment each side has been handed a prefix of what the other side sent. */
  lemma DeliveredIsPrefixOfSent(steps: seq<(Side, Step)>, m: Link, s: Side)
    requires Runs(Connected(), steps, m)
    ensures End(m, s).delivered <= End(m, Peer(s)).submitted
  {
    AlwaysInv(Connected(), steps, m);
    var x := End(m, Peer(s));
    CoveredIsPrefix(x.records, |End(m, s).fed|);
  }

  /** ... and once every buffer on the way is empty and the receiver is dry, all of it. */
  lemma AllDelivered(steps: seq<(Side, Step)>, m: Link, s: Side)
    requires Runs(Connected(), steps, m)
    requires var x := End(m, Peer(s)); x.encrypt == [] && x.wbio == [] && x.queue == []
    requires Towards(m, s) == [] && End(m, s).dry
    ensures End(m, s).delivered == End(m, Peer(s)).submitted
  {
    AlwaysInv(Connected(), steps, m);
    var x, y := End(m, Peer(s)), End(m, s);
    assert y.fed == x.written == Wire(x.records);
    CoveredIsPrefix(x.records, |y.fed|);
  }

  // ---------- The functions of a client are runs of the link ----------

  ghost predicate LeadsTo(l: Link, m: Link) {
    exists steps :: Runs(l, steps, m)
  }

  lemma {:induction false} RunsMore(l: Link, steps: seq<(Side, Step)>, m: Link, more: seq<(Side, Step)>, n: Link)
    requires Runs(l, steps, m) && Runs(m, more, n)
    ensures Runs(l, steps + more, n)
    decreases |steps|
  {
    if steps == [] {
      assert steps + more == more;
    } else {
      assert (steps + more)[1..] == steps[1..] + more;
      RunsMore(Next(l, steps[0].0, steps[0].1), steps[1..], m, more, n);
    }
  }

  lemma LeadsOn(l: Link, m: Link, n: Link)
    requires LeadsTo(l, m) && LeadsTo(m, n)
    ensures LeadsTo(l, n)
  {
    var steps :| Runs(l, steps, m);
    var more :| Runs(m, more, n);
    RunsMore(l, steps, m, more, n);
  }

  lemma LeadsNowhere(l: Link)
    ensures LeadsTo(l, l)
  {
    assert Runs(l, [], l);
  }

  lemma LeadsOne(l: Link, s: Side, step: Step)
    requires Enabled(l, s, step)
    ensures LeadsTo(l, Next(l, s, step))
  {
    assert [(s, step)][1..] == [];
    assert Runs(l, [(s, step)], Next(l, s, step));
  }

  /** One end has changed, the channels have not. */
  function Put(l: Link, s: Side, e: Endpoint): Link {
    With(l, s, e, Towards(l, s), Towards(l, Peer(s)))
  }

  lemma DrainIsRun(l: Link, s: Side)
    ensures LeadsTo(l, Put(l, s, DrainAll(End(l, s))))
  {
    DrainAllIsStep(End(l, s));
    LeadsOne(l, s, Drain(|End(l, s).wbio|));
  }

  lemma WriteCallIsRun(l: Link, s: Side, a: Answer)
    requires a.n > 0 ==> a.out != []
    ensures LeadsTo(l, Put(l, s, WriteCall(End(l, s), a)))
  {
    var step := WriteStep(End(l, s), a);
    var m := Next(l, s, step);
    LeadsOne(l, s, step);
    if a.n > 0 {
      DrainIsRun(m, s);
      LeadsOn(l, m, Put(m, s, DrainAll(End(m, s))));
    }
  }

  /** do_encrypt on one side is a run of the link if its SSL_write calls emit what they take. */
  lemma {:induction false} EncryptIsRun(l: Link, s: Side, answers: nat -> Answer, i: nat, j: nat)
    requires Emits(answers, i, j)
    ensures LeadsTo(l, Put(l, s, WriteCalls(End(l, s), answers, i, j)))
    decreases j - i
  {
    if i < j {
      var m := Put(l, s, WriteCall(End(l, s), At(answers, i)));
      WriteCallIsRun(l, s, At(answers, i));
      EncryptIsRun(m, s, answers, i + 1, j);
      LeadsOn(l, m, Put(l, s, WriteCalls(End(l, s), answers, i, j)));
    } else {
      LeadsNowhere(l);
    }
  }

  /**
   * The record-layer assumption on the SSL_read calls i..j of a side whose rbio has been given
   * `fed` and whose earlier calls have returned `before`: as long as `fed` is a prefix of what
   * the peer's SSL produced, all they have returned is a prefix of the plaintext of the
   * records that have arrived completely, and all of it if the last asks for more input.
   */
  predicate Honest(answers: nat -> Answer, i: nat, j: nat, fed: bytes, before: bytes, peer: seq<Record>) {
    i < j && fed <= Wire(peer) ==>
      && before + ReadOut(answers, i, j) <= Covered(peer, |fed|)
      && (At(answers, j - 1).wantIo ==> before + ReadOut(answers, i, j) == Covered(peer, |fed|))
  }

  lemma {:induction false} ReadCallsAreRun(l: Link, s: Side, answers: nat -> Answer, i: nat, j: nat)
    requires var e, peer := End(l, s), End(l, Peer(s)).records;
      e.fed <= Wire(peer) ==> e.delivered + ReadOut(answers, i, j) <= Covered(peer, |e.fed|)
    ensures LeadsTo(l, Put(l, s, ReadCalls(End(l, s), answers, i, j)))
    decreases j - i
  {
    if i < j {
      var e, a := End(l, s), At(answers, i);
      var m := Next(l, s, SslCall(0, a.out));
      LeadsOne(l, s, SslCall(0, a.out));
      ConcatAssoc(e.delivered, Chunk(a), ReadOut(answers, i + 1, j));
      LeadsOne(m, s, Deliver(Chunk(a)));
      var n := Next(m, s, Deliver(Chunk(a)));
      LeadsOn(l, m, n);
      ReadCallsAreRun(n, s, answers, i + 1, j);
      LeadsOn(l, n, Put(l, s, ReadCalls(e, answers, i, j)));
    } else {
      LeadsNowhere(l);
    }
  }

  /** do_ssl_handshake on one side is a run of the link, whatever SSL answers. */
  lemma HandshakeIsRun(l: Link, s: Side, a: Answer)
    ensures LeadsTo(l, Put(l, s, HandshakeCall(End(l, s), a)))
  {
    var m := Next(l, s, SslCall(0, a.out));
    LeadsOne(l, s, SslCall(0, a.out));
    if StatusOf(a.n, a) == WantIo {
      DrainIsRun(m, s);
      LeadsOn(l, m, Put(m, s, DrainAll(End(m, s))));
    }
  }

  lemma FedIsRun(l: Link, s: Side, src: bytes, answers: nat -> Answer, finished: bool, i: nat)
    requires src <= Towards(l, s)
    ensures LeadsTo(l, With(l, s, Fed(End(l, s), src, answers, finished, i), Towards(l, s)[|src|..], Towards(l, Peer(s))))
  {
    var m := Next(l, s, Feed(src));
    LeadsOne(l, s, Feed(src));
    if !finished {
      HandshakeIsRun(m, s, At(answers, i));
      LeadsOn(l, m, Put(m, s, HandshakeCall(End(m, s), At(answers, i))));
    }
  }

  lemma ReadEndIsRun(l: Link, s: Side, last: Answer)
    requires last.wantIo ==> Enabled(l, s, RanDry)
    ensures LeadsTo(l, Put(l, s, ReadEnd(End(l, s), last)))
  {
    if last.wantIo {
      LeadsOne(l, s, RanDry);
      var m := Next(l, s, RanDry);
      DrainIsRun(m, s);
      LeadsOn(l, m, Put(m, s, DrainAll(End(m, s))));
    } else {
      LeadsNowhere(l);
    }
  }

  /** on_read_cb on one side, for bytes at the front of its channel, is a run of the link if SSL_read is honest. */
  lemma ReadIsRun(l: Link, s: Side, src: bytes, answers: nat -> Answer, finished: bool, i: nat, j: nat)
    requires src <= Towards(l, s) && ReadCallsOf(answers, finished, i, j)
    requires Honest(answers, FirstRead(finished, i), j, End(l, s).fed + src, End(l, s).delivered, End(l, Peer(s)).records)
    ensures LeadsTo(l,
      With(l, s, OnRead(End(l, s), src, answers, finished, i, j), Towards(l, s)[|src|..], Towards(l, Peer(s))))
  {
    var f := Fed(End(l, s), src, answers, finished, i);
    var m := With(l, s, f, Towards(l, s)[|src|..], Towards(l, Peer(s)));
    FedIsRun(l, s, src, answers, finished, i);
    if Reaches(answers, finished, i) {
      var k := FirstRead(finished, i);
      assert k < j;
      var n := Put(m, s, ReadCalls(f, answers, k, j));
      ReadCallsDeliver(f, answers, k, j);
      ReadCallsAreRun(m, s, answers, k, j);
      ReadEndIsRun(n, s, At(answers, j - 1));
      LeadsOn(l, m, n);
      LeadsOn(l, n, Put(n, s, ReadEnd(End(n, s), At(answers, j - 1))));
    }
  }
}
