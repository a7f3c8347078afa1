/**
 * What do_encrypt and on_read_cb (ssl.cpp) make of one end, as functions of the answers to the
 * SSL calls i..j that they make, and what that means: which records, which plaintext, and
 * that nothing is lost.
 */
module SslCalls {
  import opened SslEndpoint
  import opened SslOracle
  import opened Rounds
  import opened Text

  const DEFAULT_BUF_SIZE := 1024

  function Min(a: nat, b: nat): nat { if a < b then a else b }

  /** All of wbio goes behind write_buf. */
  function DrainAll(e: Endpoint): Endpoint {
    e.(queue := e.queue + e.wbio, wbio := [])
  }

  lemma DrainAllIsStep(e: Endpoint)
    ensures DrainAll(e) == Do(e, Drain(|e.wbio|))
  {
    assert e.wbio[..|e.wbio|] == e.wbio && e.wbio[|e.wbio|..] == [];
  }

  // ---------- do_encrypt ----------

  /** How many of `len` waiting bytes one SSL_write takes. */
  function TakenBy(a: Answer, len: nat): (n: nat)
    ensures n <= len
  {
    if a.n <= 0 then 0 else if a.n > len then len else a.n
  }

  function WriteStep(e: Endpoint, a: Answer): (s: Step)
    ensures CanDo(e, s)
  {
    SslCall(TakenBy(a, |e.encrypt|), a.out)
  }

  /** One SSL_write, and if it takes bytes the drain of wbio. */
  function WriteCall(e: Endpoint, a: Answer): Endpoint {
    var f := Do(e, WriteStep(e, a));
    if a.n > 0 then DrainAll(f) else f
  }

  function WriteCalls(e: Endpoint, answers: nat -> Answer, i: nat, j: nat): Endpoint
    decreases j - i
  {
    if j <= i then e else WriteCalls(WriteCall(e, At(answers, i)), answers, i + 1, j)
  }

  /** The loop of do_encrypt makes exactly the calls i..j: until nothing is left or a call stops it. */
  predicate WriteLoop(e: Endpoint, answers: nat -> Answer, i: nat, j: nat)
    decreases j - i
  {
    if e.encrypt == [] then i == j
    else i < j && if Halts(At(answers, i)) then j == i + 1 else WriteLoop(WriteCall(e, At(answers, i)), answers, i + 1, j)
  }

  /** An answer that does not halt the loop brings it a round nearer to its end. */
  lemma OneRound(answers: nat -> Answer, i: nat, len: nat, k: nat)
    requires LeftWithin(SslRounds(answers), i, len, k) && len > 0 && !Halts(At(answers, i))
    ensures k > 0 && LeftWithin(SslRounds(answers), i + 1, len - TakenBy(At(answers, i), len), k - 1)
  {
  }

  /** A loop that ends makes some calls i..j. */
  lemma {:induction false} WriteLoopWithin(e: Endpoint, answers: nat -> Answer, i: nat, k: nat) returns (j: nat)
    requires LeftWithin(SslRounds(answers), i, |e.encrypt|, k)
    ensures i <= j && WriteLoop(e, answers, i, j)
    decreases k
  {
    if e.encrypt == [] {
      j := i;
    } else if Halts(At(answers, i)) {
      j := i + 1;
    } else {
      OneRound(answers, i, |e.encrypt|, k);
      j := WriteLoopWithin(WriteCall(e, At(answers, i)), answers, i + 1, k - 1);
    }
  }

  /** Its last call stopped it, or nothing is left to encrypt and nothing in wbio. */
  lemma {:induction false} WriteLoopLast(e: Endpoint, answers: nat -> Answer, i: nat, j: nat)
    requires WriteLoop(e, answers, i, j)
    ensures i <= j
    ensures var f := WriteCalls(e, answers, i, j);
      && (f.encrypt != [] ==> i < j && Halts(At(answers, j - 1)))
      && (f.encrypt == [] ==> f.wbio == if e.encrypt == [] then e.wbio else [])
    decreases j - i
  {
    if e.encrypt != [] {
      var g := WriteCall(e, At(answers, i));
      assert e.encrypt[0..] == e.encrypt;
      if !Halts(At(answers, i)) {
        WriteLoopLast(g, answers, i + 1, j);
      } else {
        assert WriteCalls(e, answers, i, j) == WriteCalls(g, answers, j, j);
      }
    }
  }

  /** What the SSL_write calls i..j leave of `text`. */
  function LeftOver(text: bytes, answers: nat -> Answer, i: nat, j: nat): bytes
    decreases j - i
  {
    if j <= i then text else LeftOver(text[TakenBy(At(answers, i), |text|)..], answers, i + 1, j)
  }

  /** Something was left before each call, no call but the last stopped the loop, and something did. */
  ghost predicate AllButLastGoOn(text: bytes, answers: nat -> Answer, i: nat, j: nat) {
    && (forall k :: i <= k < j ==> LeftOver(text, answers, i, k) != [])
    && (forall k :: i <= k < j - 1 ==> !Halts(At(answers, k)))
    && (LeftOver(text, answers, i, j) == [] || (i < j && Halts(At(answers, j - 1))))
  }

  lemma {:induction false} WriteLoopIff(e: Endpoint, answers: nat -> Answer, i: nat, j: nat)
    ensures WriteLoop(e, answers, i, j) <==> i <= j && AllButLastGoOn(e.encrypt, answers, i, j)
    decreases j - i
  {
    if i < j && e.encrypt != [] {
      WriteLoopIff(WriteCall(e, At(answers, i)), answers, i + 1, j);
      GoOnStep(e.encrypt, answers, i, j);
    } else if i < j {
      assert LeftOver(e.encrypt, answers, i, i) == [];
    }
  }

  lemma GoOnStep(text: bytes, answers: nat -> Answer, i: nat, j: nat)
    requires i < j && text != []
    ensures AllButLastGoOn(text, answers, i, j) <==>
      if Halts(At(answers, i)) then j == i + 1
      else AllButLastGoOn(text[TakenBy(At(answers, i), |text|)..], answers, i + 1, j)
  {
    var rest := text[TakenBy(At(answers, i), |text|)..];
    assert text[0..] == text && LeftOver(text, answers, i, i) == text;
    forall k | i < k <= j ensures LeftOver(text, answers, i, k) == LeftOver(rest, answers, i + 1, k) {
    }
    if Halts(At(answers, i)) {
      assert LeftOver(text, answers, i, i + 1) == text;
      if AllButLastGoOn(text, answers, i, j) {
        assert i < j - 1 ==> !Halts(At(answers, i));
      }
    } else {
      var h := i + 1;
      if AllButLastGoOn(text, answers, i, j) {
        forall k | h <= k < j ensures LeftOver(rest, answers, h, k) != [] {
          assert LeftOver(text, answers, i, k) != [];
        }
      }
      if AllButLastGoOn(rest, answers, h, j) {
        forall k | i <= k < j ensures LeftOver(text, answers, i, k) != [] {
          assert k > i ==> LeftOver(rest, answers, h, k) != [];
        }
      }
    }
  }

  /** The records that the SSL_write calls i..j make of `text`. */
  function RecordsOf(text: bytes, answers: nat -> Answer, i: nat, j: nat): seq<Record>
    decreases j - i
  {
    if j <= i then []
    else
      var n := TakenBy(At(answers, i), |text|);
      [Record(text[..n], At(answers, i).out)] + RecordsOf(text[n..], answers, i + 1, j)
  }

  /** The calls cut encrypt_buf into records, and touch nothing but the way out. */
  lemma {:induction false} WriteCallsCut(e: Endpoint, answers: nat -> Answer, i: nat, j: nat)
    ensures var f := WriteCalls(e, answers, i, j);
      && f.encrypt == LeftOver(e.encrypt, answers, i, j)
      && f.records == e.records + RecordsOf(e.encrypt, answers, i, j)
      && f.submitted == e.submitted && f.written == e.written
      && f.fed == e.fed && f.delivered == e.delivered && f.dry == e.dry
    decreases j - i
  {
    if i < j {
      var g := WriteCall(e, At(answers, i));
      WriteCallsCut(g, answers, i + 1, j);
      ConcatAssoc(e.records, g.records[|e.records|..], RecordsOf(g.encrypt, answers, i + 1, j));
    } else {
      assert e.records + [] == e.records;
    }
  }

  /** In all, the calls take as many bytes as their positive answers add up to, or all there are. */
  lemma {:induction false} TakenInAll(text: bytes, answers: nat -> Answer, i: nat, j: nat)
    ensures var n := Min(Total(SslRounds(answers), i, j), |text|);
      && LeftOver(text, answers, i, j) == text[n..]
      && Plain(RecordsOf(text, answers, i, j)) == text[..n]
      && Wire(RecordsOf(text, answers, i, j)) == Outs(answers, i, j)
    decreases j - i
  {
    if i < j {
      var k := TakenBy(At(answers, i), |text|);
      TakenInAll(text[k..], answers, i + 1, j);
      RecordInFront(Record(text[..k], At(answers, i).out), RecordsOf(text[k..], answers, i + 1, j));
      var n := Min(Total(SslRounds(answers), i + 1, j), |text| - k);
      assert Min(Total(SslRounds(answers), i, j), |text|) == k + n;
      CutTwice(text, k, n);
    } else {
      assert text[0..] == text && text[..0] == [];
    }
  }

  lemma CutTwice(text: bytes, k: nat, n: nat)
    requires k + n <= |text|
    ensures text[k..][n..] == text[k + n..] && text[..k] + text[k..][..n] == text[..k + n]
  {
  }

  lemma RecordInFront(r: Record, records: seq<Record>)
    ensures Plain([r] + records) == r.plain + Plain(records)
    ensures Wire([r] + records) == r.wire + Wire(records)
  {
    PlainWireConcat([r], records);
    assert [r][..0] == [] && Plain([r]) == [] + r.plain && Wire([r]) == [] + r.wire;
  }

  /** The bytes that the SSL calls i..j leave in wbio. */
  function Outs(answers: nat -> Answer, i: nat, j: nat): bytes
    decreases j - i
  {
    if j <= i then [] else At(answers, i).out + Outs(answers, i + 1, j)
  }

  lemma {:induction false} WriteCallsConserve(e: Endpoint, answers: nat -> Answer, i: nat, j: nat)
    requires Conserved(e)
    ensures Conserved(WriteCalls(e, answers, i, j))
    decreases j - i
  {
    if i < j {
      WriteCallConserves(e, At(answers, i));
      WriteCallsConserve(WriteCall(e, At(answers, i)), answers, i + 1, j);
    }
  }

  lemma WriteCallConserves(e: Endpoint, a: Answer)
    requires Conserved(e)
    ensures Conserved(WriteCall(e, a))
  {
    var f := Do(e, WriteStep(e, a));
    StepConserves(e, WriteStep(e, a));
    DrainAllIsStep(f);
    StepConserves(f, Drain(|f.wbio|));
  }

  /** What leaves encrypt_buf is the plaintext of the new records, what enters the output is their bytes. */
  lemma EncryptEffect(e: Endpoint, answers: nat -> Answer, i: nat, j: nat)
    requires Conserved(e)
    ensures var f, made := WriteCalls(e, answers, i, j), RecordsOf(e.encrypt, answers, i, j);
      && e.encrypt == Plain(made) + f.encrypt
      && f.queue + f.wbio == (e.queue + e.wbio) + Wire(made)
  {
    var f, made := WriteCalls(e, answers, i, j), RecordsOf(e.encrypt, answers, i, j);
    WriteCallsCut(e, answers, i, j);
    WriteCallsConserve(e, answers, i, j);
    PlainWireConcat(e.records, made);
    ConcatAssoc(Plain(e.records), Plain(made), f.encrypt);
    Cancel(Plain(e.records), e.encrypt, Plain(made) + f.encrypt);
    ConcatAssoc(e.written, e.queue, e.wbio);
    ConcatAssoc(f.written, f.queue, f.wbio);
    ConcatAssoc(e.written, e.queue + e.wbio, Wire(made));
    Cancel(e.written, (e.queue + e.wbio) + Wire(made), f.queue + f.wbio);
  }

  lemma Cancel(x: bytes, y: bytes, z: bytes)
    requires x + y == x + z
    ensures y == z
  {
    assert y == (x + y)[|x|..] && z == (x + z)[|x|..];
  }

  /** Every one of the SSL_write calls i..j that takes plaintext produces output. */
  ghost predicate Emits(answers: nat -> Answer, i: nat, j: nat) {
    forall k :: i <= k < j && At(answers, k).n > 0 ==> At(answers, k).out != []
  }

  /** All of it for the calls of one do_encrypt. */
  lemma EncryptResult(e: Endpoint, answers: nat -> Answer, i: nat, j: nat)
    requires Conserved(e)
    ensures var f, made := WriteCalls(e, answers, i, j), RecordsOf(e.encrypt, answers, i, j);
      && Conserved(f)
      && f.encrypt == LeftOver(e.encrypt, answers, i, j)
      && f.records == e.records + made
      && e.encrypt == Plain(made) + f.encrypt
      && f.queue + f.wbio == (e.queue + e.wbio) + Wire(made)
  {
    WriteCallsCut(e, answers, i, j);
    WriteCallsConserve(e, answers, i, j);
    EncryptEffect(e, answers, i, j);
  }

  /**
   * With progress on every SSL_write do_encrypt ends, and has encrypted everything: nothing
   * waits, wbio is empty, and write_buf has grown by what was in wbio and by the records.
   */
  lemma ProgressEncryptsAll(e: Endpoint, answers: nat -> Answer, i: nat)
    requires Conserved(e) && e.encrypt != []
    requires forall k: nat :: i <= k ==> At(answers, k).n > 0
    ensures Ends(SslRounds(answers), i, |e.encrypt|)
    ensures exists j: nat :: WriteLoop(e, answers, i, j)
    ensures forall j: nat :: WriteLoop(e, answers, i, j) ==>
      var f, made := WriteCalls(e, answers, i, j), RecordsOf(e.encrypt, answers, i, j);
      f.encrypt == [] && Plain(made) == e.encrypt && f.wbio == [] && f.queue == e.queue + e.wbio + Wire(made)
  {
    ProgressEnds(answers, i, |e.encrypt|);
    var last := WriteLoopWithin(e, answers, i, |e.encrypt|);
    forall j: nat | WriteLoop(e, answers, i, j)
      ensures var f, made := WriteCalls(e, answers, i, j), RecordsOf(e.encrypt, answers, i, j);
        f.encrypt == [] && Plain(made) == e.encrypt && f.wbio == [] && f.queue == e.queue + e.wbio + Wire(made)
    {
      WriteLoopLast(e, answers, i, j);
      EncryptResult(e, answers, i, j);
    }
  }

  // ---------- do_ssl_handshake ----------

  /** One SSL_do_handshake; its output is drained only if it wants more I/O. */
  function HandshakeCall(e: Endpoint, a: Answer): Endpoint {
    var f := Do(e, SslCall(0, a.out));
    if StatusOf(a.n, a) == WantIo then DrainAll(f) else f
  }

  /** Output that comes with any other status, even with success, stays in wbio. */
  lemma HandshakeOutput(e: Endpoint, a: Answer)
    ensures var f := HandshakeCall(e, a);
      if a.n <= 0 && a.wantIo then f.queue == e.queue + (e.wbio + a.out) && f.wbio == []
      else f.queue == e.queue && f.wbio == e.wbio + a.out
  {
  }

  // ---------- on_read_cb ----------

  /** The bytes that one SSL_read puts into the buffer. */
  function Chunk(a: Answer): (chunk: bytes)
    ensures chunk <= a.plain && |chunk| == Min(|a.plain|, DEFAULT_BUF_SIZE)
  {
    if |a.plain| < DEFAULT_BUF_SIZE then a.plain else a.plain[..DEFAULT_BUF_SIZE]
  }

  /** Everything the SSL_read calls i..j return. */
  function ReadOut(answers: nat -> Answer, i: nat, j: nat): bytes
    decreases j - i
  {
    if j <= i then [] else Chunk(At(answers, i)) + ReadOut(answers, i + 1, j)
  }

  /** The SSL_read loop makes exactly the calls i..j: up to the first that returns nothing. */
  predicate ReadLoop(answers: nat -> Answer, i: nat, j: nat)
    decreases j - i
  {
    i < j && if At(answers, i).plain == [] then j == i + 1 else ReadLoop(answers, i + 1, j)
  }

  lemma {:induction false} ReadLoopWithin(answers: nat -> Answer, i: nat, k: nat) returns (j: nat)
    requires ReadWithin(answers, i, k)
    ensures ReadLoop(answers, i, j)
    decreases k
  {
    if At(answers, i).plain == [] {
      j := i + 1;
    } else {
      j := ReadLoopWithin(answers, i + 1, k - 1);
    }
  }

  /** One SSL_read, whose bytes are handed to io_on_read. */
  function ReadCall(e: Endpoint, a: Answer): Endpoint {
    var f := Do(e, SslCall(0, a.out));
    f.(delivered := f.delivered + Chunk(a))
  }

  function ReadCalls(e: Endpoint, answers: nat -> Answer, i: nat, j: nat): Endpoint
    decreases j - i
  {
    if j <= i then e else ReadCalls(ReadCall(e, At(answers, i)), answers, i + 1, j)
  }

  /** After the last SSL_read: if it asks for more input SSL is dry, and wbio is drained. */
  function ReadEnd(e: Endpoint, last: Answer): Endpoint {
    if last.wantIo then DrainAll(e.(dry := true)) else e
  }

  /** The SSL_read loop and what follows it. */
  function ReadAll(e: Endpoint, answers: nat -> Answer, i: nat, j: nat): Endpoint
    requires i < j
  {
    ReadEnd(ReadCalls(e, answers, i, j), At(answers, j - 1))
  }

  /** The first SSL_read call of an on_read_cb whose first SSL call is i. */
  function FirstRead(finished: bool, i: nat): nat {
    if finished then i else i + 1
  }

  /** SSL_read is reached: the handshake was finished, or call i finishes it. */
  predicate Reaches(answers: nat -> Answer, finished: bool, i: nat) {
    finished || At(answers, i).n > 0
  }

  /** The end in which SSL_read starts, or on_read_cb returns without it. */
  function Fed(e: Endpoint, src: bytes, answers: nat -> Answer, finished: bool, i: nat): Endpoint {
    var f := Do(e, Feed(src));
    if finished then f else HandshakeCall(f, At(answers, i))
  }

  /** on_read_cb for `src`, not empty, with the SSL calls i..j. */
  function OnRead(e: Endpoint, src: bytes, answers: nat -> Answer, finished: bool, i: nat, j: nat): Endpoint {
    var f := Fed(e, src, answers, finished, i);
    if Reaches(answers, finished, i) && FirstRead(finished, i) < j
    then ReadAll(f, answers, FirstRead(finished, i), j)
    else f
  }

  /** i..j are the SSL calls of one on_read_cb. */
  ghost predicate ReadCallsOf(answers: nat -> Answer, finished: bool, i: nat, j: nat) {
    if Reaches(answers, finished, i) then ReadLoop(answers, FirstRead(finished, i), j) else j == i + 1
  }

  lemma {:induction false} ReadCallsDeliver(e: Endpoint, answers: nat -> Answer, i: nat, j: nat)
    ensures var f := ReadCalls(e, answers, i, j);
      && f.delivered == e.delivered + ReadOut(answers, i, j)
      && f.fed == e.fed && f.dry == e.dry && f.encrypt == e.encrypt
    decreases j - i
  {
    if i < j {
      ReadCallsDeliver(ReadCall(e, At(answers, i)), answers, i + 1, j);
      ConcatAssoc(e.delivered, Chunk(At(answers, i)), ReadOut(answers, i + 1, j));
      assert e.encrypt[0..] == e.encrypt;
    } else {
      assert e.delivered + [] == e.delivered;
    }
  }

  /** The plaintext in the answers i..j. */
  function Plains(answers: nat -> Answer, i: nat, j: nat): bytes
    decreases j - i
  {
    if j <= i then [] else At(answers, i).plain + Plains(answers, i + 1, j)
  }

  /** SSL_read returns no more than the buffer holds. */
  ghost predicate Fitting(answers: nat -> Answer, i: nat, j: nat) {
    forall k :: i <= k < j ==> |At(answers, k).plain| <= 1024
  }

  lemma {:induction false} ReadOutIsAll(answers: nat -> Answer, i: nat, j: nat)
    requires Fitting(answers, i, j)
    ensures ReadOut(answers, i, j) == Plains(answers, i, j)
    decreases j - i
  {
    if i < j {
      ReadOutIsAll(answers, i + 1, j);
    }
  }

  /** The loop reads up to the first call that returns nothing. */
  lemma {:induction false} ReadLoopIff(answers: nat -> Answer, i: nat, j: nat)
    ensures ReadLoop(answers, i, j) <==>
      i < j && At(answers, j - 1).plain == [] && forall k :: i <= k < j - 1 ==> At(answers, k).plain != []
    decreases j - i
  {
    if i < j && At(answers, i).plain != [] {
      ReadLoopIff(answers, i + 1, j);
    }
  }

  lemma {:induction false} ReadCallsOutput(e: Endpoint, answers: nat -> Answer, i: nat, j: nat)
    ensures var f := ReadCalls(e, answers, i, j);
      f.queue == e.queue && f.wbio == e.wbio + Outs(answers, i, j)
    decreases j - i
  {
    if i < j {
      var g := ReadCall(e, At(answers, i));
      ReadCallsOutput(g, answers, i + 1, j);
      ConcatAssoc(e.wbio, At(answers, i).out, Outs(answers, i + 1, j));
    } else {
      assert e.wbio + [] == e.wbio;
    }
  }

  /**
   * All output of the calls i..j goes behind what was there: into write_buf, with wbio
   * empty, if the last call asks for more input, and otherwise it stays in wbio.
   */
  lemma OnReadOutput(e: Endpoint, src: bytes, answers: nat -> Answer, finished: bool, i: nat, j: nat)
    requires ReadCallsOf(answers, finished, i, j)
    ensures var f := OnRead(e, src, answers, finished, i, j);
      if At(answers, j - 1).wantIo then f.queue == e.queue + (e.wbio + Outs(answers, i, j)) && f.wbio == []
      else f.queue == e.queue && f.wbio == e.wbio + Outs(answers, i, j)
  {
    var f := Fed(e, src, answers, finished, i);
    if Reaches(answers, finished, i) {
      ReadCallsOutput(f, answers, FirstRead(finished, i), j);
      if !finished {
        ConcatAssoc(e.wbio, At(answers, i).out, Outs(answers, i + 1, j));
      }
    } else {
      assert Outs(answers, i, i + 1) == At(answers, i).out + Outs(answers, i + 1, i + 1) == At(answers, i).out;
      HandshakeOutput(Do(e, Feed(src)), At(answers, i));
    }
  }

  /** What io_on_read is given is what SSL_read returns, and SSL is dry when the last call says so. */
  lemma OnReadDelivers(e: Endpoint, src: bytes, answers: nat -> Answer, finished: bool, i: nat, j: nat)
    requires ReadCallsOf(answers, finished, i, j)
    ensures var f := OnRead(e, src, answers, finished, i, j);
      && f.fed == e.fed + src && f.encrypt == e.encrypt
      && f.delivered == e.delivered + ReadOut(answers, FirstRead(finished, i), j)
      && f.dry == (Reaches(answers, finished, i) && At(answers, j - 1).wantIo)
      && (f.dry ==> f.wbio == [])
  {
    var f := Fed(e, src, answers, finished, i);
    assert e.encrypt[0..] == e.encrypt && e.delivered + [] == e.delivered;
    ReadCallsDeliver(f, answers, FirstRead(finished, i), j);
  }

  /**
   * Which SSL calls on_read_cb makes: SSL_do_handshake unless the handshake is finished, and
   * if it is or that finishes it, SSL_read up to the first that returns nothing.
   */
  ghost predicate MadeReads(answers: nat -> Answer, finished: bool, i: nat, j: nat) {
    var first := if finished then i else i + 1;
    if finished || At(answers, i).n > 0 then
      first < j && At(answers, j - 1).plain == [] && forall k :: first <= k < j - 1 ==> At(answers, k).plain != []
    else j == i + 1
  }

  lemma OnReadCalls(e: Endpoint, src: bytes, answers: nat -> Answer, finished: bool, i: nat, j: nat)
    requires ReadCallsOf(answers, finished, i, j)
    ensures MadeReads(answers, finished, i, j)
    ensures var f, out := OnRead(e, src, answers, finished, i, j), e.wbio + Outs(answers, i, j);
      && f.fed == e.fed + src
      && f.delivered == e.delivered + ReadOut(answers, FirstRead(finished, i), j)
      && (Fitting(answers, i, j) ==> f.delivered == e.delivered + Plains(answers, FirstRead(finished, i), j))
      && f.dry == (Reaches(answers, finished, i) && At(answers, j - 1).wantIo)
      && f.wbio == (if At(answers, j - 1).wantIo then [] else out)
      && f.queue == e.queue + (if At(answers, j - 1).wantIo then out else [])
  {
    OnReadDelivers(e, src, answers, finished, i, j);
    OnReadOutput(e, src, answers, finished, i, j);
    ReadLoopIff(answers, FirstRead(finished, i), j);
    assert e.queue + [] == e.queue;
    if Fitting(answers, i, j) {
      ReadOutIsAll(answers, FirstRead(finished, i), j);
    }
  }

  lemma CallConserves(e: Endpoint, a: Answer)
    requires Conserved(e)
    ensures Conserved(HandshakeCall(e, a)) && Conserved(ReadCall(e, a)) && Conserved(ReadEnd(e, a))
  {
    var f := Do(e, SslCall(0, a.out));
    StepConserves(e, SslCall(0, a.out));
    DrainConserves(f);
    DrainConserves(e.(dry := true));
  }

  lemma DrainConserves(e: Endpoint)
    requires Conserved(e)
    ensures Conserved(DrainAll(e))
  {
    DrainAllIsStep(e);
    StepConserves(e, Drain(|e.wbio|));
  }

  lemma {:induction false} ReadCallsConserve(e: Endpoint, answers: nat -> Answer, i: nat, j: nat)
    requires Conserved(e)
    ensures Conserved(ReadCalls(e, answers, i, j))
    decreases j - i
  {
    if i < j {
      CallConserves(e, At(answers, i));
      ReadCallsConserve(ReadCall(e, At(answers, i)), answers, i + 1, j);
    }
  }

  lemma OnReadConserves(e: Endpoint, src: bytes, answers: nat -> Answer, finished: bool, i: nat, j: nat)
    requires Conserved(e)
    ensures Conserved(OnRead(e, src, answers, finished, i, j))
  {
    StepConserves(e, Feed(src));
    CallConserves(Do(e, Feed(src)), At(answers, i));
    var f := Fed(e, src, answers, finished, i);
    ReadCallsConserve(f, answers, FirstRead(finished, i), j);
    if j > 0 {
      CallConserves(ReadCalls(f, answers, FirstRead(finished, i), j), At(answers, j - 1));
    }
  }
}
