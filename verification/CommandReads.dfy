/**
 * start_routine keeps no bytes from one read to the next (worker_threads.cc): each read is
 * decoded by itself. When a client's commands survive being cut into reads.
 */
module CommandReads {
  import opened Text
  import opened Splitting
  import opened Framing
  import opened CommandCodec

  /** The field lists found in the reads, one read at a time. */
  function DecodeReads(chunks: seq<string>): seq<Fields> {
    if chunks == [] then [] else Decode(chunks[0]) + DecodeReads(chunks[1..])
  }

  /** The read is the encoding of the first k commands. */
  predicate HoldsFirst(chunk: string, commands: seq<Fields>, k: nat)
    requires k <= |commands|
  {
    chunk == Encode(commands[..k])
  }

  /** Every read holds whole commands: none is cut. */
  ghost predicate WholeCommands(chunks: seq<string>, commands: seq<Fields>)
    decreases |chunks|
  {
    if chunks == [] then commands == []
    else exists k :: 0 <= k <= |commands| && HoldsFirst(chunks[0], commands, k) && WholeCommands(chunks[1..], commands[k..])
  }

  ghost predicate NoneEmpty(commands: seq<Fields>) {
    forall c :: c in commands ==> c != []
  }

  lemma PartsOk(a: seq<Fields>, b: seq<Fields>)
    ensures NoneEmpty(a + b) ==> NoneEmpty(a) && NoneEmpty(b)
    ensures CommandsOk(a + b) ==> CommandsOk(a) && CommandsOk(b)
  {
    assert forall c :: c in a || c in b ==> c in a + b;
  }

  lemma {:induction false} EncodeAppend(a: seq<Fields>, b: seq<Fields>)
    ensures Encode(a + b) == Encode(a) + Encode(b)
  {
    if a == [] {
      assert a + b == b && Encode(a) == "";
    } else {
      var first, more := a[0], a[1..];
      EncodeAppend(more, b);
      EncodeCons(first, more);
      EncodeCons(first, more + b);
      assert a == [first] + more && a + b == [first] + (more + b);
      ConcatAssoc(EncodedLine(first) + CRLF, Encode(more), Encode(b));
    }
  }

  lemma EncodeCons(first: Fields, more: seq<Fields>)
    ensures Encode([first] + more) == EncodedLine(first) + CRLF + Encode(more)
  {
    assert ([first] + more)[1..] == more;
    JoinedCons(EncodedLine(first), EncodedLines(more), CRLF);
  }

  /** What is decoded from lines is no longer than the lines, unless a line yields no field at all. */
  lemma {:induction false} LinesWeight(lines: seq<string>)
    requires NoneEmpty(DecodedLines(lines))
    ensures |Encode(DecodedLines(lines))| <= |Joined(lines, CRLF)|
  {
    if lines != [] {
      var l, more := lines[0], lines[1..];
      var d := DecodedLine(l);
      assert DecodedLines(lines) == [d] + DecodedLines(more);
      PartsOk([d], DecodedLines(more));
      assert d in [d];
      LinesWeight(more);
      EncodeCons(d, DecodedLines(more));
      LineWeight(l);
    }
  }

  lemma LineWeight(l: string)
    requires DecodedLine(l) != []
    ensures |EncodedLine(DecodedLine(l))| <= |l|
  {
    NotContains("", SEPARATOR);
    SplitLossless(l[TOKEN_LENGTH..], SEPARATOR);
  }

  lemma ReadWeight(chunk: string)
    requires NoneEmpty(Decode(chunk))
    ensures |Encode(Decode(chunk))| <= |chunk|
  {
    if Contains(chunk, CRLF) && Contains(chunk, SEPARATOR) {
      LinesWeight(Split(chunk, CRLF));
      SplitLossless(chunk, CRLF);
    }
  }

  lemma {:induction false} ReadsWeight(chunks: seq<string>)
    requires NoneEmpty(DecodeReads(chunks))
    ensures |Encode(DecodeReads(chunks))| <= |Stream(chunks)|
  {
    if chunks != [] {
      var rest := DecodeReads(chunks[1..]);
      PartsOk(Decode(chunks[0]), rest);
      ReadWeight(chunks[0]);
      ReadsWeight(chunks[1..]);
      EncodeAppend(Decode(chunks[0]), rest);
    }
  }

  /** Reads of whole commands are decoded to the commands. */
  lemma {:induction false} WholeReadsDecode(chunks: seq<string>, commands: seq<Fields>)
    requires CommandsOk(commands) && NoneEmpty(commands) && WholeCommands(chunks, commands)
    ensures DecodeReads(chunks) == commands
    decreases |chunks|
  {
    if chunks != [] {
      var k :| 0 <= k <= |commands| && HoldsFirst(chunks[0], commands, k) && WholeCommands(chunks[1..], commands[k..]);
      assert commands == commands[..k] + commands[k..];
      PartsOk(commands[..k], commands[k..]);
      DecodeEncodeIff(commands[..k]);
      WholeReadsDecode(chunks[1..], commands[k..]);
    }
  }

  /** Two parts that are no longer than their share of a text are exactly their share. */
  lemma SharesExact(first: string, rest: string, a: seq<Fields>, b: seq<Fields>)
    requires first + rest == Encode(a + b)
    requires |Encode(a)| <= |first| && |Encode(b)| <= |rest|
    ensures first == Encode(a) && rest == Encode(b)
  {
    EncodeAppend(a, b);
    assert |first| == |Encode(a)|;
    assert first == (first + rest)[..|first|] && rest == (first + rest)[|first|..];
    assert Encode(a) == (Encode(a) + Encode(b))[..|first|] && Encode(b) == (Encode(a) + Encode(b))[|first|..];
  }

  /** Reads that are decoded to the encoded commands hold whole commands. */
  lemma {:induction false} DecodedReadsWhole(chunks: seq<string>)
    requires NoneEmpty(DecodeReads(chunks)) && Stream(chunks) == Encode(DecodeReads(chunks))
    ensures WholeCommands(chunks, DecodeReads(chunks))
    decreases |chunks|
  {
    if chunks != [] {
      var a, b := Decode(chunks[0]), DecodeReads(chunks[1..]);
      PartsOk(a, b);
      ReadWeight(chunks[0]);
      ReadsWeight(chunks[1..]);
      SharesExact(chunks[0], Stream(chunks[1..]), a, b);
      DecodedReadsWhole(chunks[1..]);
      assert (a + b)[..|a|] == a && (a + b)[|a|..] == b;
      assert HoldsFirst(chunks[0], a + b, |a|);
    }
  }

  /**
   * For any list of representable commands and any cutting of their encoding into reads: the
   * reads are decoded to exactly the commands, in order, if and only if no command is cut.
   */
  lemma {:induction false} ReadsDecodeIffWhole(chunks: seq<string>, commands: seq<Fields>)
    requires CommandsOk(commands) && NoneEmpty(commands)
    requires Stream(chunks) == Encode(commands)
    ensures DecodeReads(chunks) == commands <==> WholeCommands(chunks, commands)
  {
    if WholeCommands(chunks, commands) {
      WholeReadsDecode(chunks, commands);
    }
    if DecodeReads(chunks) == commands {
      DecodedReadsWhole(chunks);
    }
  }

  /** Lines that yield a command are at least as long as its encoding. */
  lemma {:induction false} LinesHold(command: Fields, lines: seq<string>)
    requires command != [] && command in DecodedLines(lines)
    ensures |Encode([command])| <= |Joined(lines, CRLF)|
    decreases |lines|
  {
    var l, more := lines[0], lines[1..];
    assert DecodedLines(lines) == [DecodedLine(l)] + DecodedLines(more);
    if command == DecodedLine(l) {
      LineWeight(l);
      EncodeCons(command, []);
      assert [command] + [] == [command];
    } else {
      LinesHold(command, more);
    }
  }

  /** A command whose encoding is longer than every read is never decoded. */
  lemma {:induction false} ShortReadsLose(command: Fields, chunks: seq<string>)
    requires command != [] && forall c :: c in chunks ==> |c| < |Encode([command])|
    ensures command !in DecodeReads(chunks)
    decreases |chunks|
  {
    if chunks != [] {
      var c := chunks[0];
      ShortReadsLose(command, chunks[1..]);
      if command in Decode(c) {
        SplitLossless(c, CRLF);
        LinesHold(command, Split(c, CRLF));
      }
    }
  }

  /** A command that arrives in pieces, none of them all of it, is never decoded. */
  lemma CutCommandIsLost(command: Fields, chunks: seq<string>)
    requires command != [] && Stream(chunks) == Encode([command])
    requires forall c :: c in chunks ==> c != Encode([command])
    ensures command !in DecodeReads(chunks)
  {
    forall c | c in chunks ensures |c| < |Encode([command])| {
      PartOfStream(c, chunks);
    }
    ShortReadsLose(command, chunks);
  }

  lemma {:induction false} PartOfStream(c: string, chunks: seq<string>)
    requires c in chunks
    ensures |c| <= |Stream(chunks)| && (|c| == |Stream(chunks)| ==> c == Stream(chunks))
    decreases |chunks|
  {
    if c != chunks[0] {
      PartOfStream(c, chunks[1..]);
    }
    if |c| == |Stream(chunks)| {
      assert chunks[0] == "" || Stream(chunks[1..]) == "";
    }
  }
}
