/**
 * Incremental line reassembly in ClientTcpReadCb (worker_threads.cc): a fixed buffer that
 * keeps the unfinished tail between reads, the token that opens every stream, and the echo
 * of every finished line.
 */
module Framing {
  import opened Text
  import opened Splitting

  const CRLF := "\r\n"
  const TOKEN := "12345"
  const TOKEN_LENGTH := 5
  const DATA_BUFFER_SIZE := 2048

  // ---------- One callback, on values ----------

  /** rBuf[..rlen], isVerify, whether CloseConn has run, and one entry per WriteSfd call. */
  datatype ConnState = ConnState(buf: string, verified: bool, closed: bool, echoed: seq<string>)

  /** A connection whose rlen is 0 and whose isVerify is false. */
  const OPENED := ConnState("", false, false, [])

  predicate IsBreak(c: char) { c == '\r' || c == '\n' }

  predicate BreakFree(s: string) { forall c :: c in s ==> !IsBreak(c) }

  /** s.find_last_of("\r\n") + 1: just behind the last CR *or* LF, 0 if there is none. */
  function AfterLastBreak(s: string): (i: nat)
    ensures i <= |s| && forall k :: i <= k < |s| ==> !IsBreak(s[k])
    ensures i > 0 ==> IsBreak(s[i - 1])
  {
    if s == "" then 0
    else if IsBreak(s[|s| - 1]) then |s|
    else AfterLastBreak(s[..|s| - 1])
  }

  /** The token check, made once, on the first read that completes five bytes. */
  function Verify(c: ConnState): ConnState {
    if |c.buf| >= TOKEN_LENGTH && !c.verified then
      if c.buf[..TOKEN_LENGTH] != TOKEN then c.(verified := true, closed := true)
      else c.(verified := true, buf := c.buf[TOKEN_LENGTH..])
    else c
  }

  /** Echo the finished lines and drop everything up to the last break. */
  function Echo(c: ConnState): ConnState {
    if Contains(c.buf, CRLF) then
      c.(echoed := c.echoed + Split(c.buf, CRLF), buf := c.buf[AfterLastBreak(c.buf)..])
    else c
  }

  function Received(c: ConnState, data: string): ConnState {
    if data == "" then c else Verify(c.(buf := c.buf + data))
  }

  function OnRead(c: ConnState, data: string): ConnState {
    var v := Received(c, data);
    if v.closed then v else Echo(v)
  }

  function OnReads(c: ConnState, chunks: seq<string>): ConnState
    decreases |chunks|
  {
    if chunks == [] || c.closed then c else OnReads(OnRead(c, chunks[0]), chunks[1..])
  }

  function Stream(chunks: seq<string>): string {
    if chunks == [] then "" else chunks[0] + Stream(chunks[1..])
  }

  // ---------- The side condition ----------

  /** In the buffer a callback splits, nothing after the last CRLF is a CR or LF on its own. */
  predicate CleanTail(buf: string) {
    Contains(buf, CRLF) ==> BreakFree(Remainder(buf, CRLF))
  }

  /** The side condition at every callback of a run. */
  predicate CleanRun(c: ConnState, chunks: seq<string>)
    decreases |chunks|
  {
    chunks == [] || c.closed ||
    ((Received(c, chunks[0]).closed || CleanTail(Received(c, chunks[0]).buf)) &&
     CleanRun(OnRead(c, chunks[0]), chunks[1..]))
  }

  function Payload(stream: string): string {
    if |stream| < TOKEN_LENGTH then "" else stream[TOKEN_LENGTH..]
  }

  /** If `data` completes a line of the payload, the unfinished line then has no CR and no LF. */
  predicate CleanCut(seen: string, data: string) {
    |Split(Payload(seen + data), CRLF)| > |Split(Payload(seen), CRLF)| ==>
      BreakFree(Remainder(Payload(seen + data), CRLF))
  }

  /** The side condition on the stream and its cuts alone. */
  predicate CleanCuts(seen: string, chunks: seq<string>)
    decreases |chunks|
  {
    chunks == [] || (CleanCut(seen, chunks[0]) && CleanCuts(seen + chunks[0], chunks[1..]))
  }

  lemma {:induction false} JoinedEndsInBreak(pieces: seq<string>)
    requires pieces != []
    ensures var j := Joined(pieces, CRLF); j != "" && j[|j| - 1] == '\n'
  {
    if |pieces| > 1 {
      JoinedEndsInBreak(pieces[1..]);
    }
  }

  /** find_last_of keeps the unfinished line if and only if that line contains no CR and no LF. */
  lemma KeepsTailIffClean(buf: string)
    requires Contains(buf, CRLF)
    ensures buf[AfterLastBreak(buf)..] == Remainder(buf, CRLF) <==> BreakFree(Remainder(buf, CRLF))
    ensures AfterLastBreak(buf) >= |buf| - |Remainder(buf, CRLF)|
  {
    var j, t := Joined(Split(buf, CRLF), CRLF), Remainder(buf, CRLF);
    SplitLossless(buf, CRLF);
    JoinedEndsInBreak(Split(buf, CRLF));
    var i := AfterLastBreak(buf);
    assert buf[|j| - 1] == '\n';
    assert i >= |j| && buf[|j|..] == t;
    if i > |j| {
      assert t[i - 1 - |j|] == buf[i - 1] && t[i - 1 - |j|] in t;
      assert |buf[i..]| < |t|;
    }
  }

  // ---------- Any splitting of the stream into reads ----------

  /** The stream starts with the token, as far as it goes. */
  predicate TokenFirst(stream: string) {
    if |stream| < TOKEN_LENGTH then stream <= TOKEN else TOKEN <= stream
  }

  /** What the connection should hold once it has received `stream`, however it was cut. */
  function Ideal(stream: string): ConnState {
    if |stream| < TOKEN_LENGTH then ConnState(stream, false, false, [])
    else
      var payload := stream[TOKEN_LENGTH..];
      ConnState(Remainder(payload, CRLF), true, false, Split(payload, CRLF))
  }

  /** The payload bytes that are accounted for: echoed with their CRLF, or still in the buffer. */
  function Weight(c: ConnState): nat {
    |Joined(c.echoed, CRLF)| + |c.buf|
  }

  /** Bytes of the payload have gone missing. */
  predicate Lossy(c: ConnState, stream: string) {
    c.verified && !c.closed && |stream| >= TOKEN_LENGTH && Weight(c) < |stream| - TOKEN_LENGTH
  }

  lemma {:induction false} JoinedAppend(a: seq<string>, b: seq<string>, d: string)
    ensures |Joined(a + b, d)| == |Joined(a, d)| + |Joined(b, d)|
  {
    if a == [] {
      assert a + b == b;
    } else {
      assert (a + b)[1..] == a[1..] + b;
      JoinedAppend(a[1..], b, d);
    }
  }

  lemma EchoWeight(c: ConnState)
    ensures Weight(Echo(c)) <= Weight(c)
    ensures !CleanTail(c.buf) ==> Weight(Echo(c)) < Weight(c)
  {
    if Contains(c.buf, CRLF) {
      KeepsTailIffClean(c.buf);
      SplitLossless(c.buf, CRLF);
      JoinedAppend(c.echoed, Split(c.buf, CRLF), CRLF);
      var i, t := AfterLastBreak(c.buf), Remainder(c.buf, CRLF);
      if i == |c.buf| - |t| {
        assert c.buf[i..] == t;
      }
    }
  }

  /** With a clean tail, splitting the buffer is splitting the stream. */
  lemma EchoIdeal(echoed: seq<string>, tail: string, data: string)
    requires CleanTail(tail + data)
    ensures Echo(ConnState(tail + data, true, false, echoed))
         == ConnState(Remainder(tail + data, CRLF), true, false, echoed + Split(tail + data, CRLF))
  {
    if Contains(tail + data, CRLF) {
      KeepsTailIffClean(tail + data);
    } else {
      assert echoed + [] == echoed;
    }
  }

  lemma TokenHasNoCrlf(s: string)
    requires s <= TOKEN
    ensures !Contains(s, CRLF)
  {
    forall k: nat | k < |s| ensures !OccursAt(s, CRLF, k) {
      assert s[k..][0] == TOKEN[k] != CRLF[0];
    }
    FirstAtIs(s, CRLF, |s|);
  }

  /** One read keeps the ideal state if the buffer it makes has a clean tail, and loses bytes if not. */
  predicate GoodStep(stream: string, data: string) {
    var v := Received(Ideal(stream), data);
    && !v.closed
    && (CleanTail(v.buf) ==> OnRead(Ideal(stream), data) == Ideal(stream + data))
    && (!CleanTail(v.buf) ==> Lossy(OnRead(Ideal(stream), data), stream + data))
  }

  lemma IdealStep(stream: string, data: string)
    requires TokenFirst(stream + data)
    ensures GoodStep(stream, data)
  {
    if |stream + data| < TOKEN_LENGTH {
      TokenHasNoCrlf(stream + data);
      assert data == "" ==> stream + data == stream;
    } else if |stream| < TOKEN_LENGTH {
      IdealStepToken(stream, data);
    } else {
      IdealStepVerified(stream, data);
    }
  }

  lemma IdealStepToken(stream: string, data: string)
    requires TokenFirst(stream + data) && |stream| < TOKEN_LENGTH <= |stream + data|
    ensures GoodStep(stream, data)
  {
    var payload := (stream + data)[TOKEN_LENGTH..];
    assert (stream + data)[..TOKEN_LENGTH] == TOKEN;
    assert Received(Ideal(stream), data) == ConnState(payload, true, false, []);
    VerifiedStep([], "", payload);
    assert "" + payload == payload && [] + Split(payload, CRLF) == Split(payload, CRLF);
  }

  lemma IdealStepVerified(stream: string, data: string)
    requires |stream| >= TOKEN_LENGTH
    ensures GoodStep(stream, data)
  {
    var payload := stream[TOKEN_LENGTH..];
    var tail := Remainder(payload, CRLF);
    assert (stream + data)[TOKEN_LENGTH..] == payload + data;
    assert data == "" ==> tail + data == tail;
    assert Received(Ideal(stream), data) == ConnState(tail + data, true, false, Split(payload, CRLF));
    VerifiedStep(Split(payload, CRLF), tail, data);
    SplitLossless(payload, CRLF);
    SplitResumes(payload, data, CRLF);
  }

  /** Echoing after the token check: exact with a clean tail, lossy otherwise. */
  lemma VerifiedStep(echoed: seq<string>, tail: string, data: string)
    ensures var c := ConnState(tail + data, true, false, echoed);
      && (CleanTail(tail + data) ==>
           Echo(c) == ConnState(Remainder(tail + data, CRLF), true, false, echoed + Split(tail + data, CRLF)))
      && (!CleanTail(tail + data) ==> Weight(Echo(c)) < Weight(c))
      && Echo(c).verified && !Echo(c).closed
  {
    EchoWeight(ConnState(tail + data, true, false, echoed));
    if CleanTail(tail + data) {
      EchoIdeal(echoed, tail, data);
    }
  }

  lemma LossyStep(c: ConnState, stream: string, data: string)
    requires Lossy(c, stream)
    ensures Lossy(OnRead(c, data), stream + data)
  {
    EchoWeight(Received(c, data));
  }

  lemma IdealIsNotLossy(stream: string)
    ensures !Lossy(Ideal(stream), stream)
  {
    if |stream| >= TOKEN_LENGTH {
      SplitLossless(stream[TOKEN_LENGTH..], CRLF);
    }
  }

  lemma {:induction false} LossyForever(c: ConnState, stream: string, chunks: seq<string>)
    requires Lossy(c, stream)
    ensures Lossy(OnReads(c, chunks), stream + Stream(chunks))
    decreases |chunks|
  {
    if chunks == [] {
      assert stream + "" == stream;
    } else {
      LossyStep(c, stream, chunks[0]);
      LossyForever(OnRead(c, chunks[0]), stream + chunks[0], chunks[1..]);
      ConcatAssoc(stream, chunks[0], Stream(chunks[1..]));
    }
  }

  lemma TokenFirstPrefix(a: string, b: string)
    requires TokenFirst(a + b)
    ensures TokenFirst(a)
  {
    assert a <= a + b;
  }

  /** What the callback finds in its buffer can be said of the stream. */
  lemma TailIffCut(stream: string, data: string)
    requires TokenFirst(stream + data)
    ensures CleanTail(Received(Ideal(stream), data).buf) <==> CleanCut(stream, data)
  {
    var all := stream + data;
    var v := Received(Ideal(stream), data);
    if |all| < TOKEN_LENGTH {
      TokenHasNoCrlf(all);
      assert v.buf == all;
    } else if |stream| < TOKEN_LENGTH {
      TokenHasNoCrlf("");
      assert all[..TOKEN_LENGTH] == TOKEN;
      assert v.buf == Payload(all) && Split(Payload(stream), CRLF) == [];
    } else {
      assert Payload(all) == Payload(stream) + data;
      SplitResumes(Payload(stream), data, CRLF);
      assert v.buf == Remainder(Payload(stream), CRLF) + data;
    }
  }

  lemma {:induction false} CleanRunIffCuts(stream: string, chunks: seq<string>)
    requires TokenFirst(stream + Stream(chunks))
    ensures CleanRun(Ideal(stream), chunks) <==> CleanCuts(stream, chunks)
    decreases |chunks|
  {
    if chunks != [] {
      ConcatAssoc(stream, chunks[0], Stream(chunks[1..]));
      TokenFirstPrefix(stream + chunks[0], Stream(chunks[1..]));
      IdealStep(stream, chunks[0]);
      TailIffCut(stream, chunks[0]);
      if CleanCut(stream, chunks[0]) {
        CleanRunIffCuts(stream + chunks[0], chunks[1..]);
      }
    }
  }

  lemma {:induction false} RunIdealIffClean(stream: string, chunks: seq<string>)
    requires TokenFirst(stream + Stream(chunks))
    ensures OnReads(Ideal(stream), chunks) == Ideal(stream + Stream(chunks)) <==> CleanRun(Ideal(stream), chunks)
    decreases |chunks|
  {
    if chunks == [] {
      assert stream + "" == stream;
    } else {
      var next, rest := stream + chunks[0], Stream(chunks[1..]);
      ConcatAssoc(stream, chunks[0], rest);
      TokenFirstPrefix(next, rest);
      IdealStep(stream, chunks[0]);
      if CleanTail(Received(Ideal(stream), chunks[0]).buf) {
        RunIdealIffClean(next, chunks[1..]);
      } else {
        LossyForever(OnRead(Ideal(stream), chunks[0]), next, chunks[1..]);
        IdealIsNotLossy(next + rest);
      }
    }
  }

  /**
   * Chunk independence, exactly: for every way of cutting a stream that starts with the
   * token into reads, the echoed lines are the CRLF-terminated lines of the payload and
   * the buffer holds exactly the unfinished line, if and only if no callback finds a CR or
   * LF of its own behind the last CRLF of its buffer; that is, if and only if at every cut
   * where a line has just been completed the unfinished line has no CR and no LF.
   */
  lemma {:induction false} ChunkIndependentIffClean(chunks: seq<string>)
    requires TokenFirst(Stream(chunks))
    ensures OnReads(OPENED, chunks) == Ideal(Stream(chunks)) <==> CleanRun(OPENED, chunks)
    ensures CleanRun(OPENED, chunks) <==> CleanCuts("", chunks)
  {
    assert "" + Stream(chunks) == Stream(chunks);
    RunIdealIffClean("", chunks);
    CleanRunIffCuts("", chunks);
  }

  /** A concrete loss: a read that ends between a CR and its LF, behind a finished line, loses the CR. */
  lemma SplitBreakIsLost()
    ensures var chunks := ["12345a\r\nb\r", "\nc\r\n"];
      TokenFirst(Stream(chunks)) && !CleanRun(OPENED, chunks) && OnReads(OPENED, chunks) != Ideal(Stream(chunks))
  {
    var chunks := ["12345a\r\nb\r", "\nc\r\n"];
    var v := Received(OPENED, chunks[0]);
    assert v.buf == "a\r\nb\r";
    var line := "a" + CRLF;
    assert line[0..][0] == 'a' && line[1..] == CRLF;
    assert !OccursAt(line, CRLF, 0);
    FirstAtIs(line, CRLF, 1);
    SplitFront("a", CRLF, "b\r");
    assert v.buf == "a" + CRLF + "b\r";
    assert Remainder("b\r", CRLF) == "b\r";
    assert '\r' in "b\r";
    assert Stream(chunks) == chunks[0] + Stream(chunks[1..]);
    ChunkIndependentIffClean(chunks);
  }

  // ---------- Rejected streams ----------

  lemma {:induction false} VerifiedStaysOpen(c: ConnState, chunks: seq<string>)
    requires c.verified && !c.closed
    ensures !OnReads(c, chunks).closed
    decreases |chunks|
  {
    if chunks != [] {
      VerifiedStaysOpen(OnRead(c, chunks[0]), chunks[1..]);
    }
  }

  /** Whether a run closes does not depend on what has been echoed before. */
  lemma {:induction false} EchoedIrrelevant(c: ConnState, d: ConnState, chunks: seq<string>)
    requires d == c.(echoed := d.echoed)
    ensures OnReads(d, chunks).closed == OnReads(c, chunks).closed
    decreases |chunks|
  {
    if chunks != [] && !c.closed {
      EchoedIrrelevant(OnRead(c, chunks[0]), OnRead(d, chunks[0]), chunks[1..]);
    }
  }

  /** A connection that has not reached the token check and holds `held`. */
  function Unverified(held: string): ConnState {
    ConnState(held, false, false, [])
  }

  /** A callback takes a line off the buffer before five bytes have come together. */
  predicate EarlyLine(held: string, chunks: seq<string>)
    decreases |chunks|
  {
    chunks != [] &&
    var b := held + chunks[0];
    |b| < TOKEN_LENGTH && (Contains(b, CRLF) || EarlyLine(b, chunks[1..]))
  }

  /** What is left in the buffer by the first such callback, and the reads after it. */
  function Restart(held: string, chunks: seq<string>): (r: (string, seq<string>))
    requires EarlyLine(held, chunks)
    ensures |r.1| < |chunks|
    decreases |chunks|
  {
    var b := held + chunks[0];
    if Contains(b, CRLF) then (b[AfterLastBreak(b)..], chunks[1..]) else Restart(b, chunks[1..])
  }

  lemma OneUnverifiedRead(held: string, data: string)
    requires |held + data| < TOKEN_LENGTH && !Contains(held, CRLF)
    ensures !Contains(held + data, CRLF) ==> OnRead(Unverified(held), data) == Unverified(held + data)
    ensures Contains(held + data, CRLF) ==>
      var tail := (held + data)[AfterLastBreak(held + data)..];
      OnRead(Unverified(held), data) == Unverified(tail).(echoed := Split(held + data, CRLF))
  {
    if data == "" {
      assert held + data == held;
    }
    assert [] + Split(held + data, CRLF) == Split(held + data, CRLF);
  }

  /**
   * However the stream is cut: unless a line is taken off the buffer before five bytes have
   * come together, the connection is closed if and only if its first five bytes are not the
   * token. `held` is what the buffer held before, "" for a new connection.
   */
  lemma {:induction false} ClosedIffWrongToken(held: string, chunks: seq<string>)
    requires |held| < TOKEN_LENGTH && !Contains(held, CRLF) && !EarlyLine(held, chunks)
    ensures var all := held + Stream(chunks);
      OnReads(Unverified(held), chunks).closed <==> |all| >= TOKEN_LENGTH && all[..TOKEN_LENGTH] != TOKEN
    decreases |chunks|
  {
    if chunks == [] {
      assert held + "" == held;
    } else {
      var b, rest := held + chunks[0], Stream(chunks[1..]);
      ConcatAssoc(held, chunks[0], rest);
      if |b| < TOKEN_LENGTH {
        OneUnverifiedRead(held, chunks[0]);
        ClosedIffWrongToken(b, chunks[1..]);
      } else {
        assert (b + rest)[..TOKEN_LENGTH] == b[..TOKEN_LENGTH];
        if b[..TOKEN_LENGTH] == TOKEN {
          VerifiedStaysOpen(OnRead(Unverified(held), chunks[0]), chunks[1..]);
        }
      }
    }
  }

  lemma BreakFreeHasNoCrlf(s: string)
    requires BreakFree(s)
    ensures !Contains(s, CRLF)
  {
    forall k: nat | k < |s| ensures !OccursAt(s, CRLF, k) {
      assert s[k] in s && s[k..][0] == s[k];
    }
    FirstAtIs(s, CRLF, |s|);
  }

  lemma BreakBeforeToken(b: string, rest: string)
    requires |b| < TOKEN_LENGTH && Contains(b, CRLF)
    ensures !(TOKEN <= b + rest)
  {
    TokenHasNoCrlf(TOKEN[..|b|]);
    assert (b + rest)[..|b|] == b;
  }

  /**
   * If such a line is taken, its bytes are gone before the token is checked: the rest of the
   * run decides alone, as if the connection had just been opened with what that line left.
   * The two lemmas together decide every stream and every cutting.
   */
  lemma {:induction false} EarlyLineRestarts(held: string, chunks: seq<string>)
    requires |held| < TOKEN_LENGTH && !Contains(held, CRLF) && EarlyLine(held, chunks)
    ensures var (tail, rest) := Restart(held, chunks);
      && |tail| < TOKEN_LENGTH && !Contains(tail, CRLF) && |rest| < |chunks|
      && OnReads(Unverified(held), chunks).closed == OnReads(Unverified(tail), rest).closed
    ensures !(TOKEN <= held + Stream(chunks))
    decreases |chunks|
  {
    var b, rest := held + chunks[0], Stream(chunks[1..]);
    ConcatAssoc(held, chunks[0], rest);
    OneUnverifiedRead(held, chunks[0]);
    if Contains(b, CRLF) {
      var tail := b[AfterLastBreak(b)..];
      BreakFreeHasNoCrlf(tail);
      EchoedIrrelevant(Unverified(tail), OnRead(Unverified(held), chunks[0]), chunks[1..]);
      BreakBeforeToken(b, rest);
    } else {
      EarlyLineRestarts(b, chunks[1..]);
    }
  }

  /** The bytes that the token check is applied to: those behind the last line taken early. */
  function Judged(held: string, chunks: seq<string>): string
    decreases |chunks|
  {
    if EarlyLine(held, chunks) then
      var (tail, rest) := Restart(held, chunks);
      Judged(tail, rest)
    else held + Stream(chunks)
  }

  /** For every stream and every cutting: closed if and only if the judged bytes are not the token. */
  lemma {:induction false} ClosedIffJudgedWrong(held: string, chunks: seq<string>)
    requires |held| < TOKEN_LENGTH && !Contains(held, CRLF)
    ensures var seen := Judged(held, chunks);
      OnReads(Unverified(held), chunks).closed <==> |seen| >= TOKEN_LENGTH && seen[..TOKEN_LENGTH] != TOKEN
    decreases |chunks|
  {
    if EarlyLine(held, chunks) {
      EarlyLineRestarts(held, chunks);
      var (tail, rest) := Restart(held, chunks);
      ClosedIffJudgedWrong(tail, rest);
    } else {
      ClosedIffWrongToken(held, chunks);
    }
  }

  /**
   * The exact condition for the token gate: a stream of at least five bytes is closed if and
   * only if it does not start with the token, if and only if no line is taken early or the
   * bytes behind the last line taken early do not start with the token either.
   */
  lemma {:induction false} TokenGateIff(chunks: seq<string>)
    requires |Stream(chunks)| >= TOKEN_LENGTH
    ensures (OnReads(OPENED, chunks).closed <==> !(TOKEN <= Stream(chunks)))
       <==> !EarlyLine("", chunks) ||
            var seen := Judged("", chunks); |seen| >= TOKEN_LENGTH && seen[..TOKEN_LENGTH] != TOKEN
  {
    assert "" + Stream(chunks) == Stream(chunks);
    TokenHasNoCrlf("");
    ClosedIffJudgedWrong("", chunks);
    if EarlyLine("", chunks) {
      EarlyLineRestarts("", chunks);
    }
  }

  lemma CrlfAlone()
    ensures Contains(CRLF, CRLF) && EarlyLine("", [CRLF, TOKEN])
    ensures var c := OnRead(OPENED, CRLF); c.buf == "" && !c.verified && !c.closed
  {
    assert "" + CRLF == CRLF && CRLF[0..] == CRLF;
    ContainsAt(CRLF, CRLF, 0);
    TokenHasNoCrlf("");
    OneUnverifiedRead("", CRLF);
  }

  lemma TokenAlone(c: ConnState)
    requires c.buf == "" && !c.verified && !c.closed
    ensures OnRead(c, TOKEN).verified && !OnRead(c, TOKEN).closed
  {
    assert "" + TOKEN == TOKEN && TOKEN[..TOKEN_LENGTH] == TOKEN;
  }

  /** A stream that does not start with the token and is accepted. */
  lemma EarlyLineAccepted()
    ensures var chunks := [CRLF, TOKEN];
      var c := OnReads(OPENED, chunks);
      !(TOKEN <= Stream(chunks)) && EarlyLine("", chunks) && c.verified && !c.closed
  {
    var chunks := [CRLF, TOKEN];
    assert Stream(chunks)[0] == CRLF[0];
    CrlfAlone();
    var c := OnRead(OPENED, CRLF);
    TokenAlone(c);
    assert chunks[1..] == [TOKEN] && [TOKEN][1..] == [];
    assert OnReads(c, [TOKEN]) == OnReads(OnRead(c, TOKEN), []);
  }
}
