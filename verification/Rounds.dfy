/**
 * Loops that call until some number of bytes has been accepted: do_encrypt around SSL_write
 * (ssl.cpp) and WriteSfd around write() (socket_wrapper.h). Exactly when they end.
 */
module Rounds {
  /** One call moves n bytes, possibly none and the loop calls again, or makes the loop stop. */
  datatype Round = Moves(n: nat) | Stops

  /** The bytes still waiting after one round. */
  function LeftAfter(r: Round, len: nat): nat {
    if r.Stops? then len else if r.n > len then 0 else len - r.n
  }

  /** Started at round i with `len` bytes waiting, the loop is left within k rounds. */
  predicate LeftWithin(rounds: nat -> Round, i: nat, len: nat, k: nat)
    decreases k
  {
    len == 0 || (k > 0 && (rounds(i).Stops? || LeftWithin(rounds, i + 1, LeftAfter(rounds(i), len), k - 1)))
  }

  lemma {:induction false} MoreRounds(rounds: nat -> Round, i: nat, len: nat, k: nat, m: nat)
    requires LeftWithin(rounds, i, len, k) && k <= m
    ensures LeftWithin(rounds, i, len, m)
    decreases k
  {
    if len > 0 && !rounds(i).Stops? {
      MoreRounds(rounds, i + 1, LeftAfter(rounds(i), len), k - 1, m - 1);
    }
  }

  ghost predicate Ends(rounds: nat -> Round, i: nat, len: nat) {
    exists k: nat :: LeftWithin(rounds, i, len, k)
  }

  /** The bytes that the rounds i..j are ready to move. */
  function Total(rounds: nat -> Round, i: nat, j: nat): nat
    decreases j - i
  {
    if i >= j then 0 else (if rounds(i).Stops? then 0 else rounds(i).n) + Total(rounds, i + 1, j)
  }

  ghost predicate Suffices(rounds: nat -> Round, i: nat, j: nat, len: nat) {
    Total(rounds, i, j) >= len || exists t :: i <= t < j && rounds(t).Stops?
  }

  /** Some stretch of rounds moves all the bytes or contains a stop. */
  ghost predicate Settles(rounds: nat -> Round, i: nat, len: nat) {
    exists j: nat :: i <= j && Suffices(rounds, i, j, len)
  }

  /** One round uses up the front of a sufficient stretch. */
  lemma SufficesStep(rounds: nat -> Round, i: nat, j: nat, len: nat)
    requires len > 0 && i <= j
    ensures Suffices(rounds, i, j, len) <==>
      i < j && (rounds(i).Stops? || Suffices(rounds, i + 1, j, LeftAfter(rounds(i), len)))
  {
  }

  lemma {:induction false} LeftWithinIff(rounds: nat -> Round, i: nat, len: nat, k: nat)
    ensures LeftWithin(rounds, i, len, k) <==> Suffices(rounds, i, i + k, len)
    decreases k
  {
    if len > 0 {
      SufficesStep(rounds, i, i + k, len);
      if k > 0 {
        LeftWithinIff(rounds, i + 1, LeftAfter(rounds(i), len), k - 1);
      }
    }
  }

  lemma EndsIffSettles(rounds: nat -> Round, i: nat, len: nat)
    ensures Ends(rounds, i, len) <==> Settles(rounds, i, len)
  {
    if Ends(rounds, i, len) {
      var k: nat :| LeftWithin(rounds, i, len, k);
      LeftWithinIff(rounds, i, len, k);
    }
    if Settles(rounds, i, len) {
      var j: nat :| i <= j && Suffices(rounds, i, j, len);
      LeftWithinIff(rounds, i, len, j - i);
    }
  }

  lemma {:induction false} TotalSplit(rounds: nat -> Round, i: nat, j: nat, m: nat)
    requires i <= j <= m
    ensures Total(rounds, i, m) == Total(rounds, i, j) + Total(rounds, j, m)
    decreases j - i
  {
    if i < j {
      TotalSplit(rounds, i + 1, j, m);
    }
  }

  ghost predicate AdvancesAfter(rounds: nat -> Round, i: nat) {
    exists j: nat :: i <= j && (rounds(j).Stops? || rounds(j).n > 0)
  }

  /** The calls do not stall for ever. */
  ghost predicate Fair(rounds: nat -> Round) {
    forall i: nat :: AdvancesAfter(rounds, i)
  }

  /** Then any number of bytes is moved. */
  lemma {:induction false} FairSettles(rounds: nat -> Round, i: nat, len: nat)
    requires Fair(rounds)
    ensures Settles(rounds, i, len)
    decreases len
  {
    if len == 0 {
      assert Suffices(rounds, i, i, len);
    } else {
      assert AdvancesAfter(rounds, i);
      var j: nat :| i <= j && (rounds(j).Stops? || rounds(j).n > 0);
      FairSettles(rounds, j + 1, len - 1);
      var m: nat :| j + 1 <= m && Suffices(rounds, j + 1, m, len - 1);
      TotalSplit(rounds, i, j, m);
      assert Suffices(rounds, i, m, len);
    }
  }

  /** The round after the last one that a loop over `len` bytes uses. */
  function NextRound(rounds: nat -> Round, i: nat, len: nat, k: nat): nat
    requires LeftWithin(rounds, i, len, k)
    decreases k
  {
    if len == 0 then i
    else if rounds(i).Stops? then i + 1
    else NextRound(rounds, i + 1, LeftAfter(rounds(i), len), k - 1)
  }

  lemma {:induction false} NextRoundUnique(rounds: nat -> Round, i: nat, len: nat, k: nat, m: nat)
    requires LeftWithin(rounds, i, len, k) && LeftWithin(rounds, i, len, m)
    ensures NextRound(rounds, i, len, k) == NextRound(rounds, i, len, m)
    decreases k
  {
    if len > 0 && !rounds(i).Stops? {
      NextRoundUnique(rounds, i + 1, LeftAfter(rounds(i), len), k - 1, m - 1);
    }
  }
}
