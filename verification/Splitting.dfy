/** utils::SplitData and the laws that framing and command decoding rest on. */
module Splitting {
  import opened Text

  predicate OccursAt(s: string, d: string, k: nat) {
    k <= |s| && d <= s[k..]
  }

  /** std::string::find(d): the first position where `d` occurs, or |s| for npos. */
  function FirstAt(s: string, d: string): (i: nat)
    requires d != ""
    ensures i <= |s|
    ensures forall k: nat :: k < i ==> !OccursAt(s, d, k)
    ensures i < |s| ==> OccursAt(s, d, i)
  {
    if s == "" || OccursAt(s, d, 0) then 0
    else
      var j := FirstAt(s[1..], d);
      assert forall k: nat :: 0 < k <= |s| ==> (OccursAt(s, d, k) <==> OccursAt(s[1..], d, k - 1)) by {
        assert forall k: nat :: 0 < k <= |s| ==> s[k..] == s[1..][k - 1..];
      }
      j + 1
  }

  predicate Contains(s: string, d: string)
    requires d != ""
  {
    FirstAt(s, d) < |s|
  }

  lemma FirstAtIs(s: string, d: string, i: nat)
    requires d != "" && i <= |s|
    requires forall k: nat :: k < i ==> !OccursAt(s, d, k)
    requires i < |s| ==> OccursAt(s, d, i)
    ensures FirstAt(s, d) == i
  {
    var j := FirstAt(s, d);
    assert !(j < i);
    assert !(i < j);
  }

  lemma ContainsAt(s: string, d: string, i: nat)
    requires d != "" && OccursAt(s, d, i)
    ensures Contains(s, d) && FirstAt(s, d) <= i
  {
  }

  /** The pieces that end in the delimiter ... */
  function Split(s: string, d: string): seq<string>
    requires d != ""
    decreases |s|
  {
    var i := FirstAt(s, d);
    if i == |s| then [] else [s[..i]] + Split(s[i + |d|..], d)
  }

  /** ... and what follows the last one. */
  function Remainder(s: string, d: string): string
    requires d != ""
    decreases |s|
  {
    var i := FirstAt(s, d);
    if i == |s| then s else Remainder(s[i + |d|..], d)
  }

  /** Every piece followed by the delimiter. */
  function Joined(pieces: seq<string>, d: string): string {
    if pieces == [] then "" else pieces[0] + d + Joined(pieces[1..], d)
  }

  /** A piece that is recovered when the delimiter follows it. */
  predicate Clean(piece: string, d: string)
    requires d != ""
  {
    FirstAt(piece + d, d) == |piece|
  }

  /** SplitData: cut pieces off the front of a copy and push them to vec. */
  method SplitData(str: string, delimiter: string, vec: seq<string>) returns (vecData: seq<string>)
    requires delimiter != ""
    ensures vecData == vec + Split(str, delimiter)
  {
    vecData := vec;
    var s := str;
    var pos := Find(s, delimiter);
    while pos < |s|
      invariant pos == FirstAt(s, delimiter)
      invariant vecData + Split(s, delimiter) == vec + Split(str, delimiter)
      decreases |s|
    {
      var token := s[..pos];
      ghost var p, rest := SplitStep(s, delimiter);
      ConcatAssoc(vecData, [token], Split(rest, delimiter));
      vecData := vecData + [token];
      s := s[pos + |delimiter|..];
      pos := Find(s, delimiter);
    }
  }

  method Find(s: string, d: string) returns (i: nat)
    requires d != ""
    ensures i == FirstAt(s, d)
  {
    i := 0;
    while i < |s| && !OccursAt(s, d, i)
      invariant i <= |s|
      invariant forall k: nat :: k < i ==> !OccursAt(s, d, k)
    {
      i := i + 1;
    }
    FirstAtIs(s, d, i);
  }

  /** One round of SplitData. */
  lemma SplitStep(s: string, d: string) returns (p: string, rest: string)
    requires d != "" && Contains(s, d)
    ensures s == p + d + rest && |p| == FirstAt(s, d) && |rest| < |s|
    ensures p == s[..|p|] && rest == s[|p| + |d|..]
    ensures Split(s, d) == [p] + Split(rest, d) && Remainder(s, d) == Remainder(rest, d)
  {
    var i := FirstAt(s, d);
    p, rest := s[..i], s[i + |d|..];
    assert s == s[..i] + s[i..] && s[i..] == d + rest;
  }

  lemma JoinedCons(p: string, pieces: seq<string>, d: string)
    ensures Joined([p] + pieces, d) == p + d + Joined(pieces, d)
  {
    assert ([p] + pieces)[1..] == pieces;
  }

  // ---------- Laws ----------

  /** Nothing is lost: the pieces with their delimiters and the remainder make up the input. */
  lemma {:induction false} SplitLossless(s: string, d: string)
    requires d != ""
    ensures Joined(Split(s, d), d) + Remainder(s, d) == s
    decreases |s|
  {
    if Contains(s, d) {
      var p, rest := SplitStep(s, d);
      SplitLossless(rest, d);
      JoinedCons(p, Split(rest, d), d);
      ConcatAssoc(p + d, Joined(Split(rest, d), d), Remainder(rest, d));
    }
  }

  /** No delimiter is left in a piece or in the remainder. */
  lemma {:induction false} SplitComplete(s: string, d: string)
    requires d != ""
    ensures forall p :: p in Split(s, d) ==> Clean(p, d) && !Contains(p, d)
    ensures !Contains(Remainder(s, d), d)
    decreases |s|
  {
    if Contains(s, d) {
      var p, rest := SplitStep(s, d);
      SplitComplete(rest, d);
      CleanPrefix(p, d, rest);
    }
  }

  lemma CleanPrefix(p: string, d: string, rest: string)
    requires d != ""
    ensures FirstAt(p + d + rest, d) == |p| <==> Clean(p, d)
    ensures Clean(p, d) ==> !Contains(p, d)
  {
    var s, t := p + d + rest, p + d;
    assert s[|p|..] == d + rest && t[|p|..] == d;
    forall k: nat | k < |p|
      ensures OccursAt(s, d, k) <==> OccursAt(t, d, k)
      ensures OccursAt(p, d, k) ==> OccursAt(t, d, k)
    {
      assert s[k..] == t[k..] + rest && t[k..] == p[k..] + d;
    }
    ContainsAt(s, d, |p|);
    ContainsAt(t, d, |p|);
  }

  lemma SplitFront(p: string, d: string, rest: string)
    requires d != "" && Clean(p, d)
    ensures Split(p + d + rest, d) == [p] + Split(rest, d)
    ensures Remainder(p + d + rest, d) == Remainder(rest, d)
  {
    var s := p + d + rest;
    CleanPrefix(p, d, rest);
    assert s[..|p|] == p && s[|p| + |d|..] == rest;
  }

  /** Joining and splitting are inverse on clean pieces. */
  lemma {:induction false} SplitJoined(pieces: seq<string>, d: string, t: string)
    requires d != "" && !Contains(t, d)
    requires forall p :: p in pieces ==> Clean(p, d)
    ensures Split(Joined(pieces, d) + t, d) == pieces
    ensures Remainder(Joined(pieces, d) + t, d) == t
  {
    if pieces == [] {
      assert Joined(pieces, d) + t == t;
    } else {
      var p, more := pieces[0], pieces[1..];
      assert p in pieces && pieces == [p] + more;
      SplitJoined(more, d, t);
      JoinedCons(p, more, d);
      ConcatAssoc(p + d, Joined(more, d), t);
      SplitFront(p, d, Joined(more, d) + t);
    }
  }

  /** Splitting can stop anywhere and resume with the remainder in front. */
  lemma {:induction false} SplitResumes(a: string, b: string, d: string)
    requires d != ""
    ensures Split(a + b, d) == Split(a, d) + Split(Remainder(a, d) + b, d)
    ensures Remainder(a + b, d) == Remainder(Remainder(a, d) + b, d)
    decreases |a|
  {
    var i := FirstAt(a, d);
    if i < |a| {
      var p, rest := a[..i], a[i + |d|..];
      assert a == p + d + rest;
      CleanPrefix(p, d, rest);
      SplitResumes(rest, b, d);
      ConcatAssoc(p + d, rest, b);
      SplitFront(p, d, rest);
      SplitFront(p, d, rest + b);
      ConcatAssoc([p], Split(rest, d), Split(Remainder(rest, d) + b, d));
    } else {
      assert [] + Split(a + b, d) == Split(a + b, d);
    }
  }

  /** Any part of a text without the delimiter is without it. */
  lemma PartFree(s: string, d: string, i: nat, j: nat)
    requires d != "" && !Contains(s, d) && i <= j <= |s|
    ensures !Contains(s[i..j], d)
  {
    var part := s[i..j];
    forall k: nat | k < |part| ensures !OccursAt(part, d, k) {
      assert s[i + k..] == part[k..] + s[j..];
      assert !OccursAt(s, d, i + k);
    }
    FirstAtIs(part, d, |part|);
  }
}
