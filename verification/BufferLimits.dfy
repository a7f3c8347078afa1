/**
 * The 2048 bytes of rBuf in ClientTcpReadCb (worker_threads.cc): bufferevent_read is asked
 * for what is free, so a buffer that is full and holds no CRLF is never emptied again. Which
 * streams can be received at all.
 */
module BufferLimits {
  import opened Text
  import opened Splitting
  import opened Framing

  /** Every read fits into the free part of the buffer, as bufferevent_read sees to. */
  predicate Fits(c: ConnState, chunks: seq<string>)
    decreases |chunks|
  {
    chunks == [] || c.closed ||
    (|c.buf| + |chunks[0]| <= DATA_BUFFER_SIZE && Fits(OnRead(c, chunks[0]), chunks[1..]))
  }

  // ---------- A full buffer ----------

  /** Whatever can still be read leaves the connection as it is. */
  ghost predicate Stuck(c: ConnState) {
    forall chunks :: Fits(c, chunks) ==> OnReads(c, chunks) == c
  }

  lemma {:induction false} FullStays(c: ConnState, chunks: seq<string>)
    requires c.verified && !c.closed && |c.buf| == DATA_BUFFER_SIZE && !Contains(c.buf, CRLF) && Fits(c, chunks)
    ensures OnReads(c, chunks) == c
    decreases |chunks|
  {
    if chunks != [] {
      assert chunks[0] == "" && OnRead(c, "") == c;
      FullStays(c, chunks[1..]);
    }
  }

  /** An open connection between two callbacks is stuck for good if and only if its buffer is full. */
  lemma StuckIffFull(c: ConnState)
    requires c.verified && !c.closed && |c.buf| <= DATA_BUFFER_SIZE && !Contains(c.buf, CRLF)
    ensures Stuck(c) <==> |c.buf| == DATA_BUFFER_SIZE
  {
    if |c.buf| == DATA_BUFFER_SIZE {
      forall chunks | Fits(c, chunks) ensures OnReads(c, chunks) == c {
        FullStays(c, chunks);
      }
    } else {
      var chunks := ["x"];
      assert chunks[1..] == [];
      var d := OnRead(c, "x");
      assert OnReads(c, chunks) == OnReads(d, []) == d;
      NoBreakAdded(c.buf);
      assert d.buf == c.buf + "x";
      assert Fits(c, chunks);
    }
  }

  function LongLine(): string {
    seq(DATA_BUFFER_SIZE, i => 'x')
  }

  lemma TokenRead()
    ensures OnRead(OPENED, TOKEN) == ConnState("", true, false, [])
  {
    assert "" + TOKEN == TOKEN && TOKEN[..TOKEN_LENGTH] == TOKEN && TOKEN[TOKEN_LENGTH..] == "";
    TokenHasNoCrlf("");
  }

  /** Behind the token, one full buffer without a break gets the connection stuck. */
  lemma LineSticks(line: string)
    requires |line| == DATA_BUFFER_SIZE && BreakFree(line)
    ensures var c := OnRead(OnRead(OPENED, TOKEN), line);
      c == ConnState(line, true, false, []) && Stuck(c)
  {
    TokenRead();
    BreakFreeHasNoCrlf(line);
    assert "" + line == line;
    StuckIffFull(ConnState(line, true, false, []));
  }

  /** Two reads that get a connection stuck: the token, and 2048 bytes of one line. */
  lemma LongLineSticks()
    ensures var chunks := [TOKEN, LongLine()];
      var c := OnReads(OPENED, chunks);
      Fits(OPENED, chunks) && c.verified && !c.closed && Stuck(c)
  {
    TokenRead();
    LineSticks(LongLine());
    TwoReads(OPENED, TOKEN, LongLine());
  }

  lemma TwoReads(c: ConnState, first: string, second: string)
    requires !c.closed && !OnRead(c, first).closed
    requires |c.buf| + |first| <= DATA_BUFFER_SIZE && |OnRead(c, first).buf| + |second| <= DATA_BUFFER_SIZE
    ensures Fits(c, [first, second]) && OnReads(c, [first, second]) == OnRead(OnRead(c, first), second)
  {
    var chunks := [first, second];
    assert chunks[1..] == [second] && [second][1..] == [];
    assert OnReads(OnRead(c, first), [second]) == OnReads(OnRead(OnRead(c, first), second), []);
  }

  lemma NoBreakAdded(s: string)
    requires !Contains(s, CRLF)
    ensures !Contains(s + "x", CRLF)
  {
    forall k: nat | k < |s + "x"| ensures !OccursAt(s + "x", CRLF, k) {
      assert !OccursAt(s, CRLF, k);
      if k + 2 <= |s| {
        assert (s + "x")[k..][..2] == s[k..][..2];
      } else if k + 2 == |s + "x"| {
        assert (s + "x")[k..][1] == 'x';
      }
    }
    FirstAtIs(s + "x", CRLF, |s + "x"|);
  }

  /** Callbacks leave no finished line behind. */
  lemma NoLineLeft(c: ConnState, data: string)
    requires !OnRead(c, data).closed
    ensures !Contains(OnRead(c, data).buf, CRLF)
  {
    var v := Received(c, data);
    if Contains(v.buf, CRLF) {
      BreakFreeHasNoCrlf(v.buf[AfterLastBreak(v.buf)..]);
    }
  }

  // ---------- Which streams can be received ----------

  /** Every line fits into the buffer with its CRLF, and so does the unfinished one. */
  predicate LinesFit(payload: string) {
    && (forall l :: l in Split(payload, CRLF) ==> |l| + |CRLF| <= DATA_BUFFER_SIZE)
    && |Remainder(payload, CRLF)| <= DATA_BUFFER_SIZE
  }

  lemma {:induction false} PieceInJoined(l: string, pieces: seq<string>)
    requires l in pieces
    ensures |l| + |CRLF| <= |Joined(pieces, CRLF)|
    decreases |pieces|
  {
    if l != pieces[0] {
      PieceInJoined(l, pieces[1..]);
    }
  }

  lemma ShortTextFits(s: string)
    requires |s| <= DATA_BUFFER_SIZE
    ensures LinesFit(s)
  {
    SplitLossless(s, CRLF);
    forall l | l in Split(s, CRLF) ensures |l| + |CRLF| <= DATA_BUFFER_SIZE {
      PieceInJoined(l, Split(s, CRLF));
    }
  }

  /** The payload so far, and behind it what a buffer full can add. */
  lemma LinesFitOn(payload: string, data: string)
    requires LinesFit(payload) && |Remainder(payload, CRLF)| + |data| <= DATA_BUFFER_SIZE
    ensures LinesFit(payload + data)
  {
    SplitResumes(payload, data, CRLF);
    ShortTextFits(Remainder(payload, CRLF) + data);
  }

  /** A clean cut keeps the ideal state. */
  lemma CleanStep(stream: string, data: string)
    requires TokenFirst(stream + data) && CleanCut(stream, data)
    ensures OnRead(Ideal(stream), data) == Ideal(stream + data)
  {
    IdealStep(stream, data);
    TailIffCut(stream, data);
  }

  lemma FittingStep(stream: string, data: string)
    requires LinesFit(Payload(stream)) && |Ideal(stream).buf| + |data| <= DATA_BUFFER_SIZE
    ensures LinesFit(Payload(stream + data))
  {
    if |stream| < TOKEN_LENGTH {
      ShortTextFits(Payload(stream + data));
    } else {
      assert Payload(stream + data) == Payload(stream) + data;
      LinesFitOn(Payload(stream), data);
    }
  }

  lemma {:induction false} FittingRunsAreShort(stream: string, chunks: seq<string>)
    requires TokenFirst(stream + Stream(chunks)) && CleanCuts(stream, chunks)
    requires Fits(Ideal(stream), chunks) && LinesFit(Payload(stream))
    ensures LinesFit(Payload(stream + Stream(chunks)))
    decreases |chunks|
  {
    if chunks == [] {
      assert stream + "" == stream;
    } else {
      var data, rest := chunks[0], Stream(chunks[1..]);
      ConcatAssoc(stream, data, rest);
      TokenFirstPrefix(stream + data, rest);
      CleanStep(stream, data);
      FittingStep(stream, data);
      FittingRunsAreShort(stream + data, chunks[1..]);
    }
  }

  /** The stream one byte at a time. */
  function Bytewise(s: string): seq<string> {
    if s == "" then [] else [s[..1]] + Bytewise(s[1..])
  }

  /** A CRLF that was not there before ends in what has been added. */
  lemma BreakIsNew(t: string, more: string)
    requires !Contains(t, CRLF) && Contains(t + more, CRLF)
    ensures |t| < FirstAt(t + more, CRLF) + |CRLF|
  {
    var i := FirstAt(t + more, CRLF);
    if i + 2 <= |t| {
      assert t[i..][..2] == (t + more)[i..][..2];
      ContainsAt(t, CRLF, i);
    }
  }

  /** As long as more is to come, the unfinished line leaves a byte free. */
  lemma RoomForMore(payload: string, more: string)
    requires more != "" && LinesFit(payload + more)
    ensures |Remainder(payload, CRLF)| < DATA_BUFFER_SIZE
  {
    var t := Remainder(payload, CRLF);
    var u := t + more;
    SplitResumes(payload, more, CRLF);
    SplitComplete(payload, CRLF);
    if Contains(u, CRLF) {
      var first, rest := SplitStep(u, CRLF);
      BreakIsNew(t, more);
      assert Split(u, CRLF)[0] == first && first in Split(payload + more, CRLF);
    }
  }

  lemma RoomInBuffer(stream: string, more: string)
    requires more != "" && LinesFit(Payload(stream + more))
    ensures |Ideal(stream).buf| < DATA_BUFFER_SIZE
  {
    if |stream| >= TOKEN_LENGTH {
      assert Payload(stream + more) == Payload(stream) + more;
      RoomForMore(Payload(stream), more);
    }
  }

  /** A line that one byte completes leaves nothing behind it. */
  lemma ByteCutIsClean(stream: string, c: string)
    requires |c| == 1
    ensures CleanCut(stream, c)
  {
    if |stream| < TOKEN_LENGTH {
      assert |Payload(stream + c)| == 0;
      NoCrlfInNothing();
    } else {
      var t := Remainder(Payload(stream), CRLF);
      assert Payload(stream + c) == Payload(stream) + c;
      SplitResumes(Payload(stream), c, CRLF);
      SplitComplete(Payload(stream), CRLF);
      if Contains(t + c, CRLF) {
        var first, rest := SplitStep(t + c, CRLF);
        BreakIsNew(t, c);
        assert rest == "";
        NoCrlfInNothing();
      }
    }
  }

  lemma NoCrlfInNothing()
    ensures !Contains("", CRLF)
  {
    TokenHasNoCrlf("");
  }

  lemma {:induction false} BytewiseFits(stream: string, rest: string)
    requires TokenFirst(stream + rest) && LinesFit(Payload(stream + rest))
    ensures Stream(Bytewise(rest)) == rest
    ensures Fits(Ideal(stream), Bytewise(rest)) && CleanCuts(stream, Bytewise(rest))
    decreases |rest|
  {
    if rest != "" {
      var c, more := rest[..1], rest[1..];
      assert rest == c + more;
      ConcatAssoc(stream, c, more);
      TokenFirstPrefix(stream + c, more);
      ByteCutIsClean(stream, c);
      CleanStep(stream, c);
      RoomInBuffer(stream, rest);
      assert Bytewise(rest) == [c] + Bytewise(more);
      BytewiseFits(stream + c, more);
    }
  }

  /**
   * A stream that starts with the token can be received whole, through reads that fit and
   * cuts that lose nothing, if and only if every line with its CRLF, and the unfinished line,
   * fits into the buffer.
   */
  lemma ReceivableIffLinesFit(stream: string)
    requires TokenFirst(stream)
    ensures (exists chunks :: Stream(chunks) == stream && Fits(OPENED, chunks) && CleanCuts("", chunks))
       <==> LinesFit(Payload(stream))
  {
    assert "" + stream == stream;
    NoCrlfInNothing();
    if chunks :| Stream(chunks) == stream && Fits(OPENED, chunks) && CleanCuts("", chunks) {
      FittingRunsAreShort("", chunks);
    }
    if LinesFit(Payload(stream)) {
      BytewiseFits("", stream);
    }
  }
}
