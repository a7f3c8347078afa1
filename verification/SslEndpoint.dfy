/**
 * One end of the SSL byte pump of ssl.cpp, seen as a value: the two queues, the memory BIOs
 * and the history of everything that went in and out, with the small steps that the pump's
 * functions are made of.
 */
module SslEndpoint {
  import opened Text

  newtype byte = x: int | 0 <= x < 256
  type bytes = seq<byte>

  /** What one call into SSL turned plaintext into: the bytes it left in wbio. */
  datatype Record = Record(plain: bytes, wire: bytes)

  datatype Endpoint = Endpoint(
    submitted: bytes,      // everything given to send_unencrypted_bytes
    encrypt: bytes,        // encrypt_buf
    records: seq<Record>,  // everything SSL has consumed and produced
    wbio: bytes,           // produced by SSL, not read from the BIO yet
    queue: bytes,          // write_buf
    written: bytes,        // everything the socket has accepted
    fed: bytes,            // everything written to rbio
    delivered: bytes,      // everything handed to io_on_read
    dry: bool)             // SSL_read has reported that it needs more input

  datatype Step =
    | Submit(data: bytes)                // send_unencrypted_bytes
    | SslCall(taken: nat, out: bytes)    // an SSL call consumes from encrypt_buf and writes to wbio
    | Drain(n: nat)                      // BIO_read from wbio, then queue_encrypted_bytes
    | SockWrite(n: nat)                  // write() accepts n bytes of write_buf
    | Feed(data: bytes)                  // BIO_write to rbio
    | Deliver(data: bytes)               // SSL_read returns data, io_on_read is called
    | RanDry                             // SSL_read returns WANT_IO

  function Start(): Endpoint {
    Endpoint([], [], [], [], [], [], [], [], false)
  }

  predicate CanDo(e: Endpoint, s: Step) {
    match s
    case SslCall(n, _) => n <= |e.encrypt|
    case Drain(n) => n <= |e.wbio|
    case SockWrite(n) => n <= |e.queue|
    case _ => true
  }

  function Do(e: Endpoint, s: Step): Endpoint
    requires CanDo(e, s)
  {
    match s
    case Submit(data) => e.(submitted := e.submitted + data, encrypt := e.encrypt + data)
    case SslCall(n, out) =>
      e.(encrypt := e.encrypt[n..], records := e.records + [Record(e.encrypt[..n], out)], wbio := e.wbio + out)
    case Drain(n) => e.(queue := e.queue + e.wbio[..n], wbio := e.wbio[n..])
    case SockWrite(n) => e.(written := e.written + e.queue[..n], queue := e.queue[n..])
    case Feed(data) => e.(fed := e.fed + data, dry := false)
    case Deliver(data) => e.(delivered := e.delivered + data)
    case RanDry => e.(dry := true)
  }

  ghost predicate CanDoAll(e: Endpoint, steps: seq<Step>)
    decreases |steps|
  {
    steps != [] ==> CanDo(e, steps[0]) && CanDoAll(Do(e, steps[0]), steps[1..])
  }

  ghost function DoAll(e: Endpoint, steps: seq<Step>): Endpoint
    requires CanDoAll(e, steps)
    decreases |steps|
  {
    if steps == [] then e else DoAll(Do(e, steps[0]), steps[1..])
  }

  // ---------- Conservation ----------

  function Plain(records: seq<Record>): bytes {
    if records == [] then [] else Plain(records[..|records| - 1]) + records[|records| - 1].plain
  }

  function Wire(records: seq<Record>): bytes {
    if records == [] then [] else Wire(records[..|records| - 1]) + records[|records| - 1].wire
  }

  /** No byte is lost, duplicated or reordered on the way out. */
  predicate Conserved(e: Endpoint) {
    && e.submitted == Plain(e.records) + e.encrypt
    && Wire(e.records) == e.written + e.queue + e.wbio
  }

  lemma PlainWireAppend(records: seq<Record>, r: Record)
    ensures Plain(records + [r]) == Plain(records) + r.plain
    ensures Wire(records + [r]) == Wire(records) + r.wire
  {
    assert (records + [r])[..|records|] == records;
  }

  lemma {:induction false} PlainWireConcat(first: seq<Record>, second: seq<Record>)
    ensures Plain(first + second) == Plain(first) + Plain(second)
    ensures Wire(first + second) == Wire(first) + Wire(second)
    decreases |second|
  {
    if second == [] {
      assert first + second == first;
    } else {
      var front, last := second[..|second| - 1], second[|second| - 1];
      assert first + second == (first + front) + [last];
      PlainWireAppend(first + front, last);
      PlainWireConcat(first, front);
      ConcatAssoc(Plain(first), Plain(front), last.plain);
      ConcatAssoc(Wire(first), Wire(front), last.wire);
    }
  }

  lemma StepConserves(e: Endpoint, s: Step)
    requires Conserved(e) && CanDo(e, s)
    ensures Conserved(Do(e, s))
  {
    match s
    case Submit(data) => ConcatAssoc(Plain(e.records), e.encrypt, data);
    case SslCall(n, out) =>
      PlainWireAppend(e.records, Record(e.encrypt[..n], out));
      Cut(Plain(e.records), e.encrypt, n);
      ConcatAssoc(e.written + e.queue, e.wbio, out);
    case Drain(n) =>
      Cut(e.written + e.queue, e.wbio, n);
      ConcatAssoc(e.written, e.queue, e.wbio[..n]);
    case SockWrite(n) => Cut(e.written, e.queue, n);
    case Feed(_) =>
    case Deliver(_) =>
    case RanDry =>
  }

  lemma Cut(x: bytes, y: bytes, n: nat)
    requires n <= |y|
    ensures x + y == (x + y[..n]) + y[n..]
  {
  }

  lemma {:induction false} RunConserves(e: Endpoint, steps: seq<Step>)
    requires Conserved(e) && CanDoAll(e, steps)
    ensures Conserved(DoAll(e, steps))
    decreases |steps|
  {
    if steps != [] {
      StepConserves(e, steps[0]);
      RunConserves(Do(e, steps[0]), steps[1..]);
    }
  }
}
