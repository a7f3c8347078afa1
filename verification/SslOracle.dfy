/**
 * OpenSSL as the pump of ssl.cpp sees it: an arbitrary stream of answers, one per SSL call,
 * and exactly which streams let the loops of do_encrypt and on_read_cb end.
 */
module SslOracle {
  import opened SslEndpoint
  import opened Rounds

  /**
   * What one SSL call answers: its return value, what SSL_get_error says of a return value
   * that is not positive, the bytes it writes to wbio, and the plaintext SSL_read returns.
   */
  datatype Answer = Answer(n: int, wantIo: bool, out: bytes, plain: bytes)

  /** The answer to SSL call i. */
  function At(answers: nat -> Answer, i: nat): Answer { answers(i) }

  datatype Status = Ok | WantIo | Fail

  /** get_sslstatus */
  function StatusOf(n: int, a: Answer): Status {
    if n > 0 then Ok else if a.wantIo then WantIo else Fail
  }

  // ---------- The loop of do_encrypt ----------

  /** SSL_write returned a negative value and wants I/O: the loop calls it again at once. */
  predicate Stalls(a: Answer) {
    a.n < 0 && a.wantIo
  }

  /** SSL_write returned 0 or failed: the loop is left. */
  predicate Halts(a: Answer): (halts: bool)
    ensures halts <==> a.n == 0 || (a.n < 0 && !a.wantIo)
  {
    a.n <= 0 && !Stalls(a)
  }

  /** What one SSL_write does to the loop. */
  function RoundOf(a: Answer): Round {
    if Halts(a) then Stops else Moves(if a.n > 0 then a.n else 0)
  }

  function SslRounds(answers: nat -> Answer): nat -> Round {
    (i: nat) => RoundOf(At(answers, i))
  }

  /** The positive answers among i..j add up to `len` or one of i..j is a 0 or a failure. */
  ghost predicate TakeOrHalt(answers: nat -> Answer, i: nat, j: nat, len: nat) {
    Total(SslRounds(answers), i, j) >= len || exists t :: i <= t < j && Halts(At(answers, t))
  }

  /**
   * The loop of do_encrypt ends if and only if, from its first SSL_write on, some answer is
   * 0 or a failure or the positive answers add up to the bytes that wait.
   */
  lemma LoopEndsIff(answers: nat -> Answer, i: nat, len: nat)
    ensures Ends(SslRounds(answers), i, len) <==> exists j: nat :: i <= j && TakeOrHalt(answers, i, j, len)
  {
    EndsIffSettles(SslRounds(answers), i, len);
    assert forall t: nat :: SslRounds(answers)(t).Stops? <==> Halts(At(answers, t));
    assert forall j: nat :: Suffices(SslRounds(answers), i, j, len) <==> TakeOrHalt(answers, i, j, len);
  }

  /** With progress on every SSL_write the loop ends, whatever else SSL does. */
  lemma {:induction false} ProgressEnds(answers: nat -> Answer, i: nat, len: nat)
    requires forall k: nat :: i <= k ==> At(answers, k).n > 0
    ensures LeftWithin(SslRounds(answers), i, len, len)
    decreases len
  {
    if len > 0 {
      var left := LeftAfter(SslRounds(answers)(i), len);
      ProgressEnds(answers, i + 1, left);
      MoreRounds(SslRounds(answers), i + 1, left, left, len - 1);
    }
  }

  /** SSL asks for a retry for ever. */
  function AlwaysStalls(): nat -> Answer {
    i => Answer(-1, true, [], [])
  }

  /** Takes one byte, then stalls for ever. */
  function OneByteThenStalls(): nat -> Answer {
    i => if i == 0 then Answer(1, false, [], []) else Answer(-1, true, [], [])
  }

  lemma {:induction false} StallsTakeNothing(answers: nat -> Answer, i: nat, j: nat)
    requires forall k: nat :: i <= k ==> Stalls(At(answers, k))
    ensures Total(SslRounds(answers), i, j) == 0
    decreases j - i
  {
    if i < j {
      StallsTakeNothing(answers, i + 1, j);
    }
  }

  /**
   * The loop need not end: against an SSL that keeps stalling it runs for ever on any
   * waiting byte. One byte of progress before the stall lets a one-byte loop end, but not a
   * two-byte one.
   */
  lemma StallingLoops(len: nat)
    requires len > 0
    ensures !Ends(SslRounds(AlwaysStalls()), 0, len)
    ensures Ends(SslRounds(OneByteThenStalls()), 0, len) <==> len == 1
  {
    LoopEndsIff(AlwaysStalls(), 0, len);
    forall j: nat ensures !TakeOrHalt(AlwaysStalls(), 0, j, len) {
      StallsTakeNothing(AlwaysStalls(), 0, j);
    }
    var once := OneByteThenStalls();
    LoopEndsIff(once, 0, len);
    forall j: nat ensures Total(SslRounds(once), 0, j) == if j == 0 then 0 else 1 {
      StallsTakeNothing(once, 1, j);
    }
    assert len == 1 ==> TakeOrHalt(once, 0, 1, len);
    assert forall j: nat :: TakeOrHalt(once, 0, j, len) ==> len == 1;
  }

  // ---------- The SSL_read loop of on_read_cb ----------

  /** Started at answer i, the loop around SSL_read is left within k rounds. */
  predicate ReadWithin(answers: nat -> Answer, i: nat, k: nat)
    decreases k
  {
    k > 0 && (At(answers, i).plain == [] || ReadWithin(answers, i + 1, k - 1))
  }

  ghost predicate ReadEnds(answers: nat -> Answer, i: nat) {
    exists k: nat :: ReadWithin(answers, i, k)
  }

  /** Some answer from i on returns no plaintext. */
  ghost predicate Empties(answers: nat -> Answer, i: nat) {
    exists j: nat :: i <= j && At(answers, j).plain == []
  }

  lemma {:induction false} ReadWithinIff(answers: nat -> Answer, i: nat, k: nat)
    ensures ReadWithin(answers, i, k) <==> exists j: nat :: i <= j < i + k && At(answers, j).plain == []
    decreases k
  {
    if k > 0 {
      ReadWithinIff(answers, i + 1, k - 1);
    }
  }

  /** The SSL_read loop ends if and only if SSL_read at some point returns nothing. */
  lemma ReadEndsIffEmpties(answers: nat -> Answer, i: nat)
    ensures ReadEnds(answers, i) <==> Empties(answers, i)
  {
    if ReadEnds(answers, i) {
      var k: nat :| ReadWithin(answers, i, k);
      ReadWithinIff(answers, i, k);
    }
    if Empties(answers, i) {
      var j: nat :| i <= j && At(answers, j).plain == [];
      ReadWithinIff(answers, i, j + 1 - i);
    }
  }
}
