/**
 * The CONN of a client with its 2048-byte read buffer (worker_threads.cc) and the
 * partial-write loop of socket_wrapper.h.
 */
module ClientConn {
  import opened Text
  import opened Splitting
  import opened Framing
  import opened BufferLimits
  import opened Rounds

  /** What one write() call does: an errno other than EINTR and EAGAIN is Error. */
  datatype WriteResult = Wrote(n: nat) | Interrupted | Again | Error

  /** What one result does to the loop of WriteSfd. */
  function RoundOf(r: WriteResult): Round {
    match r
    case Wrote(n) => Moves(n)
    case Error => Stops
    case Interrupted => Moves(0)
    case Again => Moves(0)
  }

  function WriteRounds(results: nat -> WriteResult): nat -> Round {
    (i: nat) => RoundOf(results(i))
  }

  /** The results i..j accept `len` bytes or contain an error. */
  ghost predicate AcceptOrFail(results: nat -> WriteResult, i: nat, j: nat, len: nat) {
    Total(WriteRounds(results), i, j) >= len || exists t :: i <= t < j && results(t) == Error
  }

  /** WriteSfd returns if and only if write() at some point fails or has accepted every byte. */
  lemma WriteEndsIff(results: nat -> WriteResult, i: nat, len: nat)
    ensures Ends(WriteRounds(results), i, len) <==> exists j: nat :: i <= j && AcceptOrFail(results, i, j, len)
  {
    EndsIffSettles(WriteRounds(results), i, len);
    assert forall t: nat :: WriteRounds(results)(t).Stops? <==> results(t) == Error;
    assert forall j: nat :: Suffices(WriteRounds(results), i, j, len) <==> AcceptOrFail(results, i, j, len);
  }

  /** The bytes that the results i..j accept. */
  function Accepted(results: nat -> WriteResult, i: nat, j: nat): nat
    decreases j
  {
    if j <= i then 0 else Accepted(results, i, j - 1) + (if results(j - 1).Wrote? then results(j - 1).n else 0)
  }

  ghost predicate NoErrors(results: nat -> WriteResult) {
    forall i: nat :: results(i) != Error
  }

  /** One WriteSfd per line, the first from result i on, and every one returns. */
  ghost predicate LinesEnd(rounds: nat -> Round, i: nat, lines: seq<string>)
    decreases |lines|
  {
    lines == [] ||
    exists k: nat :: LeftWithin(rounds, i, |lines[0]|, k) && LinesEnd(rounds, NextRound(rounds, i, |lines[0]|, k), lines[1..])
  }

  /** Unless write() stalls for ever, any number of lines is written to the end. */
  lemma {:induction false} FairLinesEnd(rounds: nat -> Round, i: nat, lines: seq<string>)
    requires Fair(rounds)
    ensures LinesEnd(rounds, i, lines)
    decreases |lines|
  {
    if lines != [] {
      FairSettles(rounds, i, |lines[0]|);
      EndsIffSettles(rounds, i, |lines[0]|);
      var k: nat :| LeftWithin(rounds, i, |lines[0]|, k);
      FairLinesEnd(rounds, NextRound(rounds, i, |lines[0]|, k), lines[1..]);
    }
  }

  class Socket {
    const results: nat -> WriteResult
    var calls: nat
    var sent: string  // every byte write() has accepted

    constructor (results: nat -> WriteResult)
      ensures this.results == results && sent == ""
    {
      this.results, calls, sent := results, 0, "";
    }

    /** Writing these lines one after the other, every WriteSfd returns. */
    ghost predicate Takes(lines: seq<string>)
      reads this
    {
      LinesEnd(WriteRounds(results), calls, lines)
    }

    /**
     * WriteSfd: keeps writing what is left, whatever write() accepts at a time; true if
     * and only if every byte was sent, and then exactly once and in order.
     */
    method WriteSfd(buf: string) returns (ok: bool)
      requires Ends(WriteRounds(results), calls, |buf|)
      modifies this
      ensures ok ==> sent == old(sent) + buf
      ensures !ok ==> exists k: nat :: k < |buf| && sent == old(sent) + buf[..k]
      ensures NoErrors(results) ==> ok
      ensures calls >= old(calls) && (!ok ==> calls > old(calls) && results(calls - 1) == Error)
      ensures var n := Accepted(results, old(calls), calls);
        sent == old(sent) + buf[..if n < |buf| then n else |buf|]
      ensures forall k: nat :: LeftWithin(WriteRounds(results), old(calls), |buf|, k) ==>
        calls == NextRound(WriteRounds(results), old(calls), |buf|, k)
    {
      var writeLen := 0;
      ghost var steps := WriteRounds(results);
      ghost var rounds: nat :| LeftWithin(steps, calls, |buf|, rounds);
      ghost var end := NextRound(steps, calls, |buf|, rounds);
      forall k: nat | LeftWithin(steps, calls, |buf|, k) ensures NextRound(steps, calls, |buf|, k) == end {
        NextRoundUnique(steps, calls, |buf|, k, rounds);
      }
      assert buf[..0] == "" && old(sent) + "" == old(sent);
      while writeLen < |buf|
        invariant 0 <= writeLen <= |buf|
        invariant sent == old(sent) + buf[..writeLen] && calls >= old(calls)
        invariant writeLen == var n := Accepted(results, old(calls), calls); if n < |buf| then n else |buf|
        invariant LeftWithin(steps, calls, |buf| - writeLen, rounds)
        invariant NextRound(steps, calls, |buf| - writeLen, rounds) == end
        decreases rounds
      {
        var result := results(calls);
        calls := calls + 1;
        rounds := rounds - 1;
        match result
        case Interrupted => continue;
        case Again => continue;
        case Error => return false;
        case Wrote(n) =>
          var len := if n < |buf| - writeLen then n else |buf| - writeLen;
          assert buf[..writeLen] + buf[writeLen..writeLen + len] == buf[..writeLen + len];
          ConcatAssoc(old(sent), buf[..writeLen], buf[writeLen..writeLen + len]);
          sent := sent + buf[writeLen..writeLen + len];
          writeLen := writeLen + len;
      }
      assert buf[..writeLen] == buf;
      return true;
    }
  }

  function Concat(pieces: seq<string>): string {
    if pieces == [] then "" else Concat(pieces[..|pieces| - 1]) + pieces[|pieces| - 1]
  }

  lemma {:induction false} ConcatMore(a: seq<string>, b: seq<string>)
    ensures Concat(a + b) == Concat(a) + Concat(b)
    decreases |b|
  {
    if b == [] {
      assert a + b == a && Concat(b) == "";
    } else {
      var front, last := b[..|b| - 1], b[|b| - 1];
      assert (a + b)[..|a + b| - 1] == a + front;
      ConcatMore(a, front);
      ConcatAssoc(Concat(a), Concat(front), last);
    }
  }

  // ---------- What reaches the client, whether or not writes fail ----------

  /** One WriteSfd: the line, the part of it that was sent, and what WriteSfd returned. */
  datatype Attempt = Attempt(line: string, part: string, ok: bool)

  function LinesOf(attempts: seq<Attempt>): seq<string> {
    seq(|attempts|, i requires 0 <= i < |attempts| => attempts[i].line)
  }

  function PartsOf(attempts: seq<Attempt>): seq<string> {
    seq(|attempts|, i requires 0 <= i < |attempts| => attempts[i].part)
  }

  predicate AllOk(attempts: seq<Attempt>) {
    forall a :: a in attempts ==> a.ok
  }

  /**
   * Between `before` and `after` one prefix of each line was sent, in order, and it is the
   * whole line exactly where WriteSfd returned true.
   */
  predicate Sends(before: string, attempts: seq<Attempt>, lines: seq<string>, after: string) {
    && LinesOf(attempts) == lines
    && (forall a :: a in attempts ==> a.part <= a.line && (a.ok <==> a.part == a.line))
    && after == before + Concat(PartsOf(attempts))
  }

  lemma SendsNothing(before: string)
    ensures Sends(before, [], [], before)
  {
    assert before + "" == before;
  }

  lemma SendsMore(before: string, a: seq<Attempt>, linesA: seq<string>, mid: string, b: seq<Attempt>, linesB: seq<string>,
                  after: string)
    requires Sends(before, a, linesA, mid) && Sends(mid, b, linesB, after)
    ensures Sends(before, a + b, linesA + linesB, after)
    ensures AllOk(a) && AllOk(b) ==> AllOk(a + b)
  {
    assert PartsOf(a + b) == PartsOf(a) + PartsOf(b) && LinesOf(a + b) == LinesOf(a) + LinesOf(b);
    ConcatMore(PartsOf(a), PartsOf(b));
    ConcatAssoc(before, Concat(PartsOf(a)), Concat(PartsOf(b)));
  }

  lemma SendsOne(before: string, line: string, part: string, ok: bool)
    requires part <= line && (ok <==> part == line)
    ensures Sends(before, [Attempt(line, part, ok)], [line], before + part)
  {
    var one := [Attempt(line, part, ok)];
    ConcatOne(part);
    assert PartsOf(one) == [part] && LinesOf(one) == [line];
  }

  lemma ConcatOne(s: string)
    ensures Concat([s]) == s
  {
    assert [s][..0] == [];
    assert Concat([s]) == "" + s;
  }

  lemma SendsAll(before: string, attempts: seq<Attempt>, lines: seq<string>, after: string)
    requires Sends(before, attempts, lines, after) && AllOk(attempts)
    ensures after == before + Concat(lines)
  {
    assert PartsOf(attempts) == lines;
  }

  /** The lines in a buffer that the callback echoes. */
  function Lines(buf: string): seq<string> {
    if Contains(buf, CRLF) then Split(buf, CRLF) else []
  }

  /** What a read of `data` makes the callback echo. */
  function Echoes(c: ConnState, data: string): (lines: seq<string>)
    ensures OnRead(c, data).echoed == c.echoed + lines
  {
    var v := Received(c, data);
    if v.closed then [] else Lines(v.buf)
  }

  /** What a run of reads makes the callback echo, in order. */
  function AllEchoes(c: ConnState, chunks: seq<string>): (lines: seq<string>)
    decreases |chunks|
  {
    if chunks == [] || c.closed then [] else Echoes(c, chunks[0]) + AllEchoes(OnRead(c, chunks[0]), chunks[1..])
  }

  lemma {:induction false} AllEchoesOf(c: ConnState, chunks: seq<string>)
    ensures OnReads(c, chunks).echoed == c.echoed + AllEchoes(c, chunks)
    decreases |chunks|
  {
    if chunks != [] && !c.closed {
      AllEchoesOf(OnRead(c, chunks[0]), chunks[1..]);
      ConcatAssoc(c.echoed, Echoes(c, chunks[0]), AllEchoes(OnRead(c, chunks[0]), chunks[1..]));
    }
  }

  /** With clean cuts these are the finished lines of the payload. */
  lemma IdealEchoes(chunks: seq<string>)
    requires TokenFirst(Stream(chunks)) && CleanCuts("", chunks)
    ensures OnReads(OPENED, chunks) == Ideal(Stream(chunks))
    ensures AllEchoes(OPENED, chunks) == Split(Payload(Stream(chunks)), CRLF)
  {
    ChunkIndependentIffClean(chunks);
    AllEchoesOf(OPENED, chunks);
    assert [] + AllEchoes(OPENED, chunks) == AllEchoes(OPENED, chunks);
    TokenHasNoCrlf("");
  }

  class Conn {
    const rBuf: array<char>
    var rlen: nat
    var isVerify: bool
    var closed: bool
    const sfd: Socket
    ghost var echoed: seq<string>  // the arguments of WriteSfd

    ghost predicate Valid()
      reads this
    {
      rBuf.Length == DATA_BUFFER_SIZE && rlen <= DATA_BUFFER_SIZE
    }

    ghost function View(): ConnState
      reads this, rBuf
      requires Valid()
    {
      ConnState(rBuf[..rlen], isVerify, closed, echoed)
    }

    constructor (sfd: Socket)
      ensures Valid() && View() == OPENED && this.sfd == sfd && fresh(rBuf)
    {
      rBuf := new char[DATA_BUFFER_SIZE];
      rlen, isVerify, closed, echoed := 0, false, false, [];
      this.sfd := sfd;
    }

    /** memmove(rBuf, rBuf + from, len) */
    method Memmove(from: nat, len: nat)
      requires from + len <= rBuf.Length
      modifies rBuf
      ensures rBuf[..len] == old(rBuf[from..from + len])
      ensures forall i :: 0 <= i < len ==> rBuf[i] == old(rBuf[from + i])
    {
      forall i | 0 <= i < len {
        rBuf[i] := rBuf[from + i];
      }
    }

    /**
     * ClientTcpReadCb, for a bufferevent_read that delivers `data` into the free part of
     * the buffer. Every memmove stays inside the 2048 bytes. `more` are lines that the socket
     * takes after those of this read.
     */
    method ClientTcpReadCb(data: string, ghost more: seq<string>) returns (ghost attempts: seq<Attempt>)
      requires Valid() && !closed && rlen + |data| <= DATA_BUFFER_SIZE
      requires sfd.Takes(Echoes(View(), data) + more)
      modifies this, rBuf, sfd
      ensures Valid() && View() == OnRead(old(View()), data) && sfd.Takes(more)
      ensures Sends(old(sfd.sent), attempts, Echoes(old(View()), data), sfd.sent)
      ensures NoErrors(sfd.results) ==> AllOk(attempts)
      ensures NoErrors(sfd.results) ==> sfd.sent == old(sfd.sent) + Concat(Echoes(old(View()), data))
    {
      attempts := [];
      ghost var lines := Echoes(View(), data);
      Receive(data);
      if !closed {
        attempts := EchoLines(more);
      } else {
        SendsNothing(sfd.sent);
        assert [] + more == more;
      }
      if AllOk(attempts) {
        SendsAll(old(sfd.sent), attempts, lines, sfd.sent);
      }
    }

    /**
     * A run of reads, up to the one that closes the connection: the bytes sent are the lines
     * of the run on values. If the stream starts with the token, every cut is clean and
     * write() does not fail, they are the finished lines of the payload, each once and in
     * order, and the buffer holds the unfinished one.
     */
    method ServeReads(chunks: seq<string>) returns (ghost attempts: seq<Attempt>)
      requires Valid() && Fits(View(), chunks) && sfd.Takes(AllEchoes(View(), chunks))
      modifies this, rBuf, sfd
      ensures Valid() && View() == OnReads(old(View()), chunks)
      ensures Sends(old(sfd.sent), attempts, AllEchoes(old(View()), chunks), sfd.sent)
      ensures NoErrors(sfd.results) ==> AllOk(attempts)
      ensures NoErrors(sfd.results) ==> sfd.sent == old(sfd.sent) + Concat(AllEchoes(old(View()), chunks))
      ensures old(View()) == OPENED && TokenFirst(Stream(chunks)) && CleanCuts("", chunks) ==>
        && Sends(old(sfd.sent), attempts, Split(Payload(Stream(chunks)), CRLF), sfd.sent)
        && (NoErrors(sfd.results) ==> sfd.sent == old(sfd.sent) + Concat(Split(Payload(Stream(chunks)), CRLF)))
        && rBuf[..rlen] == Ideal(Stream(chunks)).buf
    {
      ghost var start, goal := View(), AllEchoes(View(), chunks);
      attempts := ServeEach(chunks);
      if AllOk(attempts) {
        SendsAll(old(sfd.sent), attempts, goal, sfd.sent);
      }
      if TokenFirst(Stream(chunks)) && CleanCuts("", chunks) {
        IdealEchoes(chunks);
      }
    }

    method ServeEach(chunks: seq<string>) returns (ghost attempts: seq<Attempt>)
      requires Valid() && Fits(View(), chunks) && sfd.Takes(AllEchoes(View(), chunks))
      modifies this, rBuf, sfd
      ensures Valid() && View() == OnReads(old(View()), chunks)
      ensures Sends(old(sfd.sent), attempts, AllEchoes(old(View()), chunks), sfd.sent)
      ensures NoErrors(sfd.results) ==> AllOk(attempts)
    {
      ghost var start, goal, sentBefore := View(), AllEchoes(View(), chunks), sfd.sent;
      ghost var done: seq<string> := [];
      attempts := [];
      SendsNothing(sentBefore);
      assert [] + goal == goal && chunks[0..] == chunks;
      var i := 0;
      while i < |chunks| && !closed
        invariant i <= |chunks| && Valid() && Fits(View(), chunks[i..])
        invariant OnReads(View(), chunks[i..]) == OnReads(start, chunks)
        invariant done + AllEchoes(View(), chunks[i..]) == goal
        invariant sfd.Takes(AllEchoes(View(), chunks[i..]))
        invariant Sends(sentBefore, attempts, done, sfd.sent) && (NoErrors(sfd.results) ==> AllOk(attempts))
      {
        ghost var before, mid := View(), sfd.sent;
        assert chunks[i..][0] == chunks[i] && chunks[i..][1..] == chunks[i + 1..];
        ghost var lines := Echoes(before, chunks[i]);
        ghost var more := AllEchoes(OnRead(before, chunks[i]), chunks[i + 1..]);
        ghost var now := ClientTcpReadCb(chunks[i], more);
        SendsMore(sentBefore, attempts, done, mid, now, lines, sfd.sent);
        ConcatAssoc(done, lines, more);
        attempts, done := attempts + now, done + lines;
        i := i + 1;
      }
      assert done + [] == done;
    }

    /** The first half of the callback: append what was read and check the token once. */
    method Receive(data: string)
      requires Valid() && !closed && rlen + |data| <= DATA_BUFFER_SIZE
      modifies this`rlen, this`isVerify, this`closed, rBuf
      ensures Valid() && View() == Received(old(View()), data)
    {
      ghost var before := View();
      forall i | 0 <= i < |data| {
        rBuf[rlen + i] := data[i];
      }
      assert rBuf[..rlen] == before.buf;
      if |data| > 0 {
        rlen := rlen + |data|;
        assert rBuf[..rlen] == before.buf + data;
        if rlen >= TOKEN_LENGTH && !isVerify {
          isVerify := true;
          assert rBuf[..rlen][..TOKEN_LENGTH] == rBuf[..TOKEN_LENGTH];
          if rBuf[..TOKEN_LENGTH] != TOKEN {
            closed := true;
            return;
          }
          rlen := rlen - TOKEN_LENGTH;
          Memmove(TOKEN_LENGTH, rlen);
          assert rBuf[..rlen] == (before.buf + data)[TOKEN_LENGTH..];
        }
      }
    }

    /** The second half of the callback: split, echo, keep what follows the last CR or LF. */
    method EchoLines(ghost more: seq<string>) returns (ghost attempts: seq<Attempt>)
      requires Valid() && sfd.Takes(Lines(rBuf[..rlen]) + more)
      modifies this, rBuf, sfd
      ensures Valid() && View() == Echo(old(View())) && sfd.Takes(more)
      ensures Sends(old(sfd.sent), attempts, Lines(old(rBuf[..rlen])), sfd.sent)
      ensures NoErrors(sfd.results) ==> AllOk(attempts)
    {
      attempts := [];
      SendsNothing(sfd.sent);
      assert [] + more == more;
      var strRecv := rBuf[..rlen];
      var pos := Find(strRecv, CRLF);
      if pos < |strRecv| {
        attempts := SplitAndEcho(strRecv, more);
      }
    }

    /** ... once there is a CRLF in the buffer. */
    method SplitAndEcho(strRecv: string, ghost more: seq<string>) returns (ghost attempts: seq<Attempt>)
      requires Valid() && strRecv == rBuf[..rlen] && Contains(strRecv, CRLF)
      requires sfd.Takes(Split(strRecv, CRLF) + more)
      modifies this`echoed, this`rlen, rBuf, sfd
      ensures Valid() && View() == Echo(old(View())) && sfd.Takes(more)
      ensures Sends(old(sfd.sent), attempts, Split(strRecv, CRLF), sfd.sent)
      ensures NoErrors(sfd.results) ==> AllOk(attempts)
    {
      var vecStr := SplitData(strRecv, CRLF, []);
      assert [] + Split(strRecv, CRLF) == Split(strRecv, CRLF);
      attempts := WriteLines(vecStr, more);
      var len := FindLastOfCrlf(strRecv);
      DropFront(len);
      assert rBuf[..rlen] == strRecv[AfterLastBreak(strRecv)..];
    }

    /** memmove of everything behind the first `len` bytes, which leave the buffer. */
    method DropFront(len: nat)
      requires Valid() && len <= rlen
      modifies this`rlen, rBuf
      ensures rlen == old(rlen) - len && rBuf[..rlen] == old(rBuf[len..rlen])
    {
      Memmove(len, DATA_BUFFER_SIZE - len);
      rlen := rlen - len;
    }

    /** One WriteSfd per line; a failure is only logged. */
    method WriteLines(vecStr: seq<string>, ghost more: seq<string>) returns (ghost attempts: seq<Attempt>)
      requires sfd.Takes(vecStr + more)
      modifies this`echoed, sfd
      ensures echoed == old(echoed) + vecStr && sfd.Takes(more)
      ensures Sends(old(sfd.sent), attempts, vecStr, sfd.sent)
      ensures NoErrors(sfd.results) ==> AllOk(attempts)
    {
      var i := 0;
      attempts := [];
      SendsNothing(sfd.sent);
      assert vecStr[..0] == [] && old(echoed) + [] == old(echoed);
      while i < |vecStr|
        invariant i <= |vecStr|
        invariant sfd.Takes(vecStr[i..] + more)
        invariant echoed == old(echoed) + vecStr[..i]
        invariant Sends(old(sfd.sent), attempts, vecStr[..i], sfd.sent)
        invariant NoErrors(sfd.results) ==> AllOk(attempts)
      {
        assert (vecStr[i..] + more)[0] == vecStr[i] && (vecStr[i..] + more)[1..] == vecStr[i + 1..] + more;
        ghost var mid := sfd.sent;
        var ok := sfd.WriteSfd(vecStr[i]);
        ghost var part := sfd.sent[|mid|..];
        assert sfd.sent == mid + part;
        SendsOne(mid, vecStr[i], part, ok);
        SendsMore(old(sfd.sent), attempts, vecStr[..i], mid, [Attempt(vecStr[i], part, ok)], [vecStr[i]], sfd.sent);
        attempts := attempts + [Attempt(vecStr[i], part, ok)];
        assert vecStr[..i + 1] == vecStr[..i] + [vecStr[i]];
        ConcatAssoc(old(echoed), vecStr[..i], [vecStr[i]]);
        echoed := echoed + [vecStr[i]];
        i := i + 1;
      }
      assert vecStr[..i] == vecStr && vecStr[i..] + more == more;
    }
  }

  /** s.find_last_of(CRLF) + 1 */
  method FindLastOfCrlf(s: string) returns (i: nat)
    ensures i == AfterLastBreak(s)
  {
    i := |s|;
    while i > 0 && !IsBreak(s[i - 1])
      invariant i <= |s|
      invariant AfterLastBreak(s[..i]) == AfterLastBreak(s)
    {
      assert s[..i][..i - 1] == s[..i - 1];
      i := i - 1;
    }
  }
}
