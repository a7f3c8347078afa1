/**
 * The functions of ssl.cpp on struct ssl_client: two buffers grown with realloc and
 * compacted with memmove, around an SSL object and two memory BIOs. OpenSSL is the oracle of
 * SslOracle. Every method brings the object to what SslCalls computes from the answers, and
 * Valid() contains the conservation law.
 */
module SslClients {
  import opened SslEndpoint
  import opened SslOracle
  import opened SslCalls
  import opened Rounds
  import opened Text

  /** realloc: a block of the new size with the old contents as far as they fit. */
  method Realloc(buf: array<byte>, size: nat) returns (r: array<byte>)
    ensures fresh(r) && r.Length == size
    ensures forall i :: 0 <= i < size && i < buf.Length ==> r[i] == buf[i]
  {
    r := new byte[size];
    forall i | 0 <= i < size && i < buf.Length {
      r[i] := buf[i];
    }
  }

  /** memcpy(buf + at, src, |src|) */
  method Memcpy(buf: array<byte>, at: nat, src: bytes)
    requires at + |src| <= buf.Length
    modifies buf
    ensures buf[..] == old(buf[..at]) + src + old(buf[at + |src|..])
  {
    forall i | 0 <= i < |src| {
      buf[at + i] := src[i];
    }
  }

  /** memmove(buf, buf + from, len) */
  method Memmove(buf: array<byte>, from: nat, len: nat)
    requires from + len <= buf.Length
    modifies buf
    ensures buf[..len] == old(buf[from..from + len])
  {
    forall i | 0 <= i < len {
      buf[i] := buf[from + i];
    }
  }

  /** Removes the first n bytes of a buffer: memmove the rest to the front, then realloc. */
  method Compact(buf: array<byte>, len: nat, n: nat) returns (r: array<byte>)
    requires n <= len == buf.Length
    modifies buf
    ensures fresh(r) && r[..] == old(buf[n..])
  {
    if n < len {
      Memmove(buf, n, len - n);
    }
    r := Realloc(buf, len - n);
    assert r[..] == buf[..len - n];
  }

  class SslClient {
    var writeBuf: array<byte>
    var writeLen: nat
    var encryptBuf: array<byte>
    var encryptLen: nat
    // the SSL object and its write BIO
    var initFinished: bool
    var wbio: bytes
    const answers: nat -> Answer
    var calls: nat
    // what the socket has accepted, what rbio has been given, what io_on_read has been given
    ghost var written: bytes
    ghost var fed: bytes
    ghost var delivered: bytes
    // the value of this end
    ghost var end: Endpoint

    /** The buffers are exactly as long as their contents, and hold what the end holds. */
    ghost predicate Shape()
      reads this, writeBuf, encryptBuf
    {
      && writeBuf != encryptBuf && writeBuf.Length == writeLen && encryptBuf.Length == encryptLen
      && encryptBuf[..] == end.encrypt && writeBuf[..] == end.queue && wbio == end.wbio
      && written == end.written && fed == end.fed && delivered == end.delivered
    }

    /** ... and no byte has been lost. */
    ghost predicate Valid()
      reads this, writeBuf, encryptBuf
    {
      Shape() && Conserved(end)
    }

    /** ssl_client_init */
    constructor (answers: nat -> Answer)
      ensures Valid() && end == Start() && !initFinished && calls == 0 && this.answers == answers
      ensures fresh(writeBuf) && fresh(encryptBuf)
    {
      writeBuf, encryptBuf := new byte[0], new byte[0];
      writeLen, encryptLen, initFinished, wbio := 0, 0, false, [];
      this.answers, calls := answers, 0;
      written, fed, delivered, end := [], [], [], Start();
    }

    method SendUnencryptedBytes(buf: bytes)
      requires Valid()
      modifies this`encryptBuf, this`encryptLen, this`end, encryptBuf
      ensures Valid() && fresh(encryptBuf)
      ensures end == Do(old(end), Submit(buf))
      ensures encryptBuf[..] == old(encryptBuf[..]) + buf
    {
      encryptBuf := Realloc(encryptBuf, encryptLen + |buf|);
      assert encryptBuf[..encryptLen] == end.encrypt;
      Memcpy(encryptBuf, encryptLen, buf);
      encryptLen := encryptLen + |buf|;
      StepConserves(end, Submit(buf));
      end := Do(end, Submit(buf));
    }

    /** queue_encrypted_bytes for the bytes that BIO_read has just taken from the front of wbio. */
    method QueueEncryptedBytes(buf: bytes)
      requires writeBuf != encryptBuf && writeBuf.Length == writeLen
      modifies this`writeBuf, this`writeLen, writeBuf
      ensures fresh(writeBuf) && writeBuf.Length == writeLen
      ensures writeBuf[..] == old(writeBuf[..]) + buf
    {
      ghost var was := writeBuf[..];
      writeBuf := Realloc(writeBuf, writeLen + |buf|);
      assert writeBuf[..writeLen] == was;
      Memcpy(writeBuf, writeLen, buf);
      writeLen := writeLen + |buf|;
    }

    /** The do-while loop that empties wbio in pieces of at most 1024 bytes. */
    method DrainWbio()
      requires Shape()
      modifies this`writeBuf, this`writeLen, this`wbio, this`end, writeBuf
      ensures Shape() && (fresh(writeBuf) || writeBuf == old(writeBuf))
      ensures end == DrainAll(old(end))
      ensures wbio == [] && writeBuf[..] == old(writeBuf[..]) + old(wbio)
    {
      var n := 1;
      while n > 0
        invariant writeBuf != encryptBuf && writeBuf.Length == writeLen
        invariant fresh(writeBuf) || writeBuf == old(writeBuf)
        invariant end == old(end) && end.queue + end.wbio == writeBuf[..] + wbio
        invariant n <= 0 ==> wbio == []
        decreases |wbio| + if n > 0 then 1 else 0
      {
        if wbio == [] {
          n := -1;  // BIO_read on an empty memory BIO; BIO_should_retry holds
        } else {
          n := if |wbio| < DEFAULT_BUF_SIZE then |wbio| else DEFAULT_BUF_SIZE;
          Cut(writeBuf[..], wbio, n);
          var buf := wbio[..n];
          wbio := wbio[n..];
          QueueEncryptedBytes(buf);
        }
      }
      assert writeBuf[..] + [] == writeBuf[..];
      end := DrainAll(end);
    }

    /**
     * One SSL_write of all of encrypt_buf, with the compaction that follows it: the bytes
     * SSL took are moved out of the buffer and the block is shrunk.
     */
    method SslWrite() returns (n: int, status: Status)
      requires Shape() && encryptLen > 0
      modifies this`encryptBuf, this`encryptLen, this`wbio, this`calls, this`end, encryptBuf
      ensures Shape() && (fresh(encryptBuf) || encryptBuf == old(encryptBuf))
      ensures calls == old(calls) + 1
      ensures var a := At(answers, old(calls));
        && n == (if a.n > old(encryptLen) then old(encryptLen) else a.n)
        && status == StatusOf(n, a)
        && end == Do(old(end), WriteStep(old(end), a))
      ensures encryptBuf[..] == if n > 0 then old(encryptBuf[..])[n..] else old(encryptBuf[..])
      ensures wbio == old(wbio) + At(answers, old(calls)).out
    {
      var answer := At(answers, calls);
      calls := calls + 1;
      n := if answer.n > encryptLen then encryptLen else answer.n;
      wbio := wbio + answer.out;
      status := StatusOf(n, answer);
      if n > 0 {
        encryptBuf := Compact(encryptBuf, encryptLen, n);
        encryptLen := encryptLen - n;
      } else {
        assert end.encrypt[0..] == end.encrypt;
      }
      end := Do(end, WriteStep(end, answer));
    }

    /** The body of the loop in do_encrypt: SSL_write, and if it took bytes, the drain of wbio. */
    method EncryptRound() returns (n: int, status: Status)
      requires Shape() && encryptLen > 0
      modifies this`encryptBuf, this`encryptLen, this`writeBuf, this`writeLen, this`wbio, this`calls, this`end
      modifies writeBuf, encryptBuf
      ensures Shape() && calls == old(calls) + 1
      ensures (fresh(writeBuf) || writeBuf == old(writeBuf)) && (fresh(encryptBuf) || encryptBuf == old(encryptBuf))
      ensures var a := At(answers, old(calls));
        && (status == Fail || n == 0 <==> Halts(a))
        && (Halts(a) ==> (status == Fail <==> !a.wantIo))
        && end == WriteCall(old(end), a)
        && encryptLen == old(encryptLen) - TakenBy(a, old(encryptLen))
        && (0 < a.n <= old(encryptLen) ==> encryptBuf[..] == old(encryptBuf[..])[a.n..])
        && (if a.n > 0 then wbio == [] && writeBuf[..] == old(writeBuf[..]) + (old(wbio) + a.out)
            else wbio == old(wbio) + a.out && writeBuf[..] == old(writeBuf[..]))
    {
      n, status := SslWrite();
      if n > 0 {
        DrainWbio();
        n := -1;  // the value the last BIO_read left
      }
    }

    /**
     * do_encrypt: once the handshake is finished it calls SSL_write until nothing is left or
     * a call returns 0 or fails; the new records are what those calls make of encrypt_buf. It
     * may be called whenever its loop ends at all (LoopEndsIff). How many bytes its calls
     * take is TakenInAll.
     */
    method DoEncrypt() returns (ret: int)
      requires Valid() && (initFinished ==> Ends(SslRounds(answers), calls, encryptLen))
      modifies this`encryptBuf, this`encryptLen, this`writeBuf, this`writeLen, this`wbio, this`calls, this`end
      modifies writeBuf, encryptBuf
      ensures Valid() && (fresh(writeBuf) || writeBuf == old(writeBuf)) && (fresh(encryptBuf) || encryptBuf == old(encryptBuf))
      ensures calls >= old(calls) && end == WriteCalls(old(end), answers, old(calls), calls)
      ensures initFinished || calls == old(calls)
      ensures !initFinished || WriteLoop(old(end), answers, old(calls), calls)
      ensures ret == if !initFinished || encryptLen == 0 || At(answers, calls - 1).wantIo then 0 else -1
      ensures var text, i := old(encryptBuf[..]), old(calls);
        var made := RecordsOf(text, answers, i, calls);
        && end.records == old(end.records) + made
        && encryptBuf[..] == LeftOver(text, answers, i, calls)
        && text == Plain(made) + encryptBuf[..]
        && writeBuf[..] + wbio == old(writeBuf[..] + wbio) + Wire(made)
      ensures initFinished && encryptLen > 0 ==> calls > old(calls) && Halts(At(answers, calls - 1))
      ensures initFinished && encryptLen == 0 ==> wbio == if old(encryptLen) == 0 then old(wbio) else []
    {
      ghost var start, i := end, calls;
      ret := EncryptIfFinished();
      EncryptResult(start, answers, i, calls);
    }

    /** do_encrypt, by the calls it makes. */
    method EncryptIfFinished() returns (ret: int)
      requires Shape() && (initFinished ==> Ends(SslRounds(answers), calls, encryptLen))
      modifies this`encryptBuf, this`encryptLen, this`writeBuf, this`writeLen, this`wbio, this`calls, this`end
      modifies writeBuf, encryptBuf
      ensures Shape() && (fresh(writeBuf) || writeBuf == old(writeBuf)) && (fresh(encryptBuf) || encryptBuf == old(encryptBuf))
      ensures calls >= old(calls) && end == WriteCalls(old(end), answers, old(calls), calls)
      ensures initFinished || calls == old(calls)
      ensures !initFinished || WriteLoop(old(end), answers, old(calls), calls)
      ensures ret == if !initFinished || encryptLen == 0 || At(answers, calls - 1).wantIo then 0 else -1
      ensures initFinished && encryptLen > 0 ==> calls > old(calls) && Halts(At(answers, calls - 1))
      ensures initFinished && encryptLen == 0 ==> wbio == if old(encryptLen) == 0 then old(wbio) else []
    {
      ret := 0;
      if initFinished {
        ghost var start, i := end, calls;
        ret := EncryptLoop();
        WriteLoopLast(start, answers, i, calls);
      }
    }

    /** The loop of do_encrypt. */
    method EncryptLoop() returns (ret: int)
      requires Shape() && Ends(SslRounds(answers), calls, encryptLen)
      modifies this`encryptBuf, this`encryptLen, this`writeBuf, this`writeLen, this`wbio, this`calls, this`end
      modifies writeBuf, encryptBuf
      ensures Shape() && (fresh(writeBuf) || writeBuf == old(writeBuf)) && (fresh(encryptBuf) || encryptBuf == old(encryptBuf))
      ensures calls >= old(calls) && end == WriteCalls(old(end), answers, old(calls), calls)
      ensures WriteLoop(old(end), answers, old(calls), calls)
      ensures ret == if encryptLen == 0 || At(answers, calls - 1).wantIo then 0 else -1
    {
      ret := 0;
      ghost var rounds: nat :| LeftWithin(SslRounds(answers), calls, encryptLen, rounds);
      ghost var last := WriteLoopWithin(end, answers, calls, rounds);
      while encryptLen > 0
        invariant Shape() && old(calls) <= calls <= last
        invariant fresh(writeBuf) || writeBuf == old(writeBuf)
        invariant fresh(encryptBuf) || encryptBuf == old(encryptBuf)
        invariant WriteLoop(end, answers, calls, last)
        invariant WriteCalls(end, answers, calls, last) == WriteCalls(old(end), answers, old(calls), last)
        decreases last - calls
      {
        var n, status := EncryptRound();
        if status == Fail || n == 0 {
          ret := if status == Fail then -1 else 0;
          break;
        }
      }
      assert calls == last;
    }

    /** do_sock_write, where write() returned n. */
    method DoSockWrite(n: int) returns (ret: int)
      requires Valid() && n <= writeLen
      modifies this`writeBuf, this`writeLen, this`written, this`end, writeBuf
      ensures Valid() && (fresh(writeBuf) || writeBuf == old(writeBuf))
      ensures n > 0 ==> ret == 0 && end == Do(old(end), SockWrite(n))
      ensures n > 0 ==> writeBuf[..] == old(writeBuf[..])[n..] && written == old(written) + old(writeBuf[..])[..n]
      ensures n <= 0 ==> ret == -1 && end == old(end)
    {
      if n > 0 {
        written := written + writeBuf[..n];
        assert writeBuf[..n] == end.queue[..n] && writeBuf[n..] == end.queue[n..];
        writeBuf := Compact(writeBuf, writeLen, n);
        writeLen := writeLen - n;
        StepConserves(end, SockWrite(n));
        end := Do(end, SockWrite(n));
        ret := 0;
      } else {
        ret := -1;
      }
    }

    /** do_ssl_handshake: one SSL_do_handshake; its output is queued if it wants more I/O. */
    method DoSslHandshake() returns (status: Status)
      requires Shape()
      modifies this`initFinished, this`calls, this`wbio, this`end, this`writeBuf, this`writeLen, writeBuf
      ensures Shape() && (fresh(writeBuf) || writeBuf == old(writeBuf))
      ensures calls == old(calls) + 1
      ensures var a := At(answers, old(calls));
        && status == StatusOf(a.n, a)
        && initFinished == (old(initFinished) || a.n > 0)
        && end == HandshakeCall(old(end), a)
        && (if a.n <= 0 && a.wantIo then wbio == [] && writeBuf[..] == old(writeBuf[..]) + (old(wbio) + a.out)
            else wbio == old(wbio) + a.out && writeBuf[..] == old(writeBuf[..]))
      ensures old(Valid()) ==> Valid()
    {
      var answer := At(answers, calls);
      calls := calls + 1;
      if answer.n > 0 {
        initFinished := true;
      }
      status := StatusOf(answer.n, answer);
      SslOutput(answer.out);
      if status == WantIo {
        DrainWbio();
      }
      if old(Valid()) {
        CallConserves(old(end), answer);
      }
    }

    /** An SSL call that takes no plaintext from encrypt_buf leaves `out` in wbio. */
    method SslOutput(out: bytes)
      requires Shape()
      modifies this`wbio, this`end
      ensures Shape() && end == Do(old(end), SslCall(0, out))
    {
      assert end.encrypt[0..] == end.encrypt;
      wbio := wbio + out;
      end := Do(end, SslCall(0, out));
    }

    /** One SSL_read into a buffer of 1024 bytes; what it returns is handed to io_on_read. */
    method SslRead() returns (n: nat)
      requires Shape()
      modifies this`wbio, this`calls, this`delivered, this`end
      ensures Shape() && calls == old(calls) + 1 && n == |Chunk(At(answers, old(calls)))|
      ensures end == ReadCall(old(end), At(answers, old(calls)))
    {
      var answer := At(answers, calls);
      calls := calls + 1;
      SslOutput(answer.out);
      var buf := Chunk(answer);
      n := |buf|;
      if n > 0 {
        delivered := delivered + buf;  // io_on_read(buf, n)
      } else {
        assert delivered + [] == delivered;
      }
      end := end.(delivered := end.delivered + buf);
    }

    /** The do-while loop around SSL_read in on_read_cb; each chunk goes to io_on_read. */
    method ReadPlain() returns (status: Status)
      requires Shape() && Empties(answers, calls)
      modifies this`wbio, this`calls, this`delivered, this`end
      ensures Shape() && ReadLoop(answers, old(calls), calls)
      ensures end == ReadCalls(old(end), answers, old(calls), calls)
      ensures status == if At(answers, calls - 1).wantIo then WantIo else Fail
    {
      ReadEndsIffEmpties(answers, calls);
      ghost var rounds: nat :| ReadWithin(answers, calls, rounds);
      ghost var last := ReadLoopWithin(answers, calls, rounds);
      var n := 1;
      var answer := At(answers, calls);
      while n > 0
        invariant Shape() && calls <= last
        invariant ReadCalls(end, answers, calls, last) == ReadCalls(old(end), answers, old(calls), last)
        invariant if n > 0 then ReadLoop(answers, calls, last) else n == 0 && calls == last > 0 && answer == At(answers, last - 1)
        decreases last - calls
      {
        answer := At(answers, calls);
        n := SslRead();
      }
      status := StatusOf(n, answer);
    }

    /**
     * on_read_cb: bytes from the peer go into rbio, which accepts them all; then the
     * handshake or SSL_read runs until SSL has nothing more to give, and all that SSL_read
     * returns goes to io_on_read. It may be called whenever its SSL_read loop, if reached,
     * ends at all (ReadEndsIffEmpties).
     */
    method OnReadCb(src: bytes) returns (ret: int)
      requires Valid()
      requires src != [] && Reaches(answers, initFinished, calls) ==> Empties(answers, FirstRead(initFinished, calls))
      modifies this`initFinished, this`wbio, this`calls, this`fed, this`delivered, this`end
      modifies this`writeBuf, this`writeLen, writeBuf
      ensures Valid() && (fresh(writeBuf) || writeBuf == old(writeBuf))
      ensures src == [] ==> ret == 0 && end == old(end) && calls == old(calls) && initFinished == old(initFinished)
      ensures src == [] || ReadCallsOf(answers, old(initFinished), old(calls), calls)
      ensures src != [] ==>
        && initFinished == (old(initFinished) || At(answers, old(calls)).n > 0)
        && end == OnRead(old(end), src, answers, old(initFinished), old(calls), calls)
        && ret == if At(answers, calls - 1).wantIo then 0 else -1
      ensures src != [] ==>
        && fed == old(fed) + src
        && delivered == old(delivered) + ReadOut(answers, FirstRead(old(initFinished), old(calls)), calls)
        && end.dry == (initFinished && At(answers, calls - 1).wantIo)
      ensures src != [] ==>
        var out := old(wbio) + Outs(answers, old(calls), calls);
        && wbio == (if ret == 0 then [] else out)
        && writeBuf[..] == old(writeBuf[..]) + (if ret == 0 then out else [])
      ensures src == [] || MadeReads(answers, old(initFinished), old(calls), calls)
      ensures src != [] && Fitting(answers, old(calls), calls) ==>
        delivered == old(delivered) + Plains(answers, if old(initFinished) then old(calls) else old(calls) + 1, calls)
    {
      if src == [] {
        return 0;
      }
      ghost var start, finished, i := end, initFinished, calls;
      ret := FeedAll(src);
      OnReadConserves(start, src, answers, finished, i, calls);
      OnReadCalls(start, src, answers, finished, i, calls);
    }

    /** on_read_cb for `src`, not empty. */
    method FeedAll(src: bytes) returns (ret: int)
      requires Shape()
      requires Reaches(answers, initFinished, calls) ==> Empties(answers, FirstRead(initFinished, calls))
      modifies this`initFinished, this`wbio, this`calls, this`fed, this`delivered, this`end
      modifies this`writeBuf, this`writeLen, writeBuf
      ensures Shape() && (fresh(writeBuf) || writeBuf == old(writeBuf))
      ensures initFinished == (old(initFinished) || At(answers, old(calls)).n > 0)
      ensures ReadCallsOf(answers, old(initFinished), old(calls), calls)
      ensures end == OnRead(old(end), src, answers, old(initFinished), old(calls), calls)
      ensures ret == if At(answers, calls - 1).wantIo then 0 else -1
    {
      if initFinished {
        ret := FeedAndRead(src);
      } else {
        ret := FeedAndShake(src);
      }
    }

    /** on_read_cb for `src`, not empty, once the handshake is finished. */
    method FeedAndRead(src: bytes) returns (ret: int)
      requires Shape() && Empties(answers, calls)
      modifies this`wbio, this`calls, this`fed, this`delivered, this`end, this`writeBuf, this`writeLen, writeBuf
      ensures Shape() && (fresh(writeBuf) || writeBuf == old(writeBuf))
      ensures ReadCallsOf(answers, true, old(calls), calls)
      ensures end == OnRead(old(end), src, answers, true, old(calls), calls)
      ensures ret == if At(answers, calls - 1).wantIo then 0 else -1
    {
      fed := fed + src;
      end := Do(end, Feed(src));
      ret := ReadAndDrain();
    }

    /** on_read_cb for `src`, not empty, while the handshake is not finished. */
    method FeedAndShake(src: bytes) returns (ret: int)
      requires Shape() && !initFinished && (At(answers, calls).n > 0 ==> Empties(answers, calls + 1))
      modifies this`initFinished, this`wbio, this`calls, this`fed, this`delivered, this`end
      modifies this`writeBuf, this`writeLen, writeBuf
      ensures Shape() && (fresh(writeBuf) || writeBuf == old(writeBuf))
      ensures initFinished == (At(answers, old(calls)).n > 0)
      ensures ReadCallsOf(answers, false, old(calls), calls)
      ensures end == OnRead(old(end), src, answers, false, old(calls), calls)
      ensures ret == if At(answers, calls - 1).wantIo then 0 else -1
    {
      fed := fed + src;
      end := Do(end, Feed(src));
      ret := ShakeAndRead();
    }

    /** The rest of on_read_cb while the handshake is not finished. */
    method ShakeAndRead() returns (ret: int)
      requires Shape() && !initFinished && (At(answers, calls).n > 0 ==> Empties(answers, calls + 1))
      modifies this`initFinished, this`wbio, this`calls, this`delivered, this`end, this`writeBuf, this`writeLen, writeBuf
      ensures Shape() && (fresh(writeBuf) || writeBuf == old(writeBuf)) && calls > old(calls)
      ensures var a, i := At(answers, old(calls)), old(calls);
        var shaken := HandshakeCall(old(end), a);
        && initFinished == (a.n > 0)
        && (a.n > 0 ==> ReadLoop(answers, i + 1, calls) && end == ReadAll(shaken, answers, i + 1, calls))
        && (a.n <= 0 ==> calls == i + 1 && end == shaken)
      ensures ret == if At(answers, calls - 1).wantIo then 0 else -1
    {
      var status := DoSslHandshake();
      if status == Fail {
        return -1;
      }
      if !initFinished {
        return 0;
      }
      ret := ReadAndDrain();
    }

    /** The rest of on_read_cb, once the handshake is finished. */
    method ReadAndDrain() returns (ret: int)
      requires Shape() && Empties(answers, calls)
      modifies this`wbio, this`calls, this`delivered, this`end, this`writeBuf, this`writeLen, writeBuf
      ensures Shape() && (fresh(writeBuf) || writeBuf == old(writeBuf))
      ensures ReadLoop(answers, old(calls), calls)
      ensures end == ReadAll(old(end), answers, old(calls), calls)
      ensures ret == if At(answers, calls - 1).wantIo then 0 else -1
    {
      var status := ReadPlain();
      if status == WantIo {
        end := end.(dry := true);
        DrainWbio();
      }
      ret := if status == Fail then -1 else 0;
    }
  }
}
