/** White space, trimming and single-character search, as the C++ strings in config_file.h use them. */
module Text {

  /** The six characters listed in ConfigFile::trim. */
  predicate IsSpace(c: char) {
    c == ' ' || c == '\n' || c == '\t' || c == '\r' || c == '\U{0B}' || c == '\U{0C}'
  }

  /** Space, and the control characters from tab to carriage return. */
  lemma SpaceCodes(c: char)
    ensures IsSpace(c) <==> c as int == 32 || 9 <= c as int <= 13
  {
  }

  predicate Blank(s: string) {
    forall i :: 0 <= i < |s| ==> IsSpace(s[i])
  }

  predicate Trimmed(s: string) {
    s == "" || (!IsSpace(s[0]) && !IsSpace(s[|s| - 1]))
  }

  /** Position of the first `c` in `s`, or |s| when there is none. */
  function IndexOf(s: string, c: char): (i: nat)
    ensures i <= |s|
    ensures forall k :: 0 <= k < i ==> s[k] != c
    ensures i < |s| ==> s[i] == c
  {
    if s == "" || s[0] == c then 0 else IndexOf(s[1..], c) + 1
  }

  lemma ConcatAssoc<T>(x: seq<T>, y: seq<T>, z: seq<T>)
    ensures (x + y) + z == x + (y + z)
  {
  }

  function Trim(s: string): (t: string)
    ensures Trimmed(t)
    decreases |s|
  {
    if s == "" then ""
    else if IsSpace(s[0]) then Trim(s[1..])
    else if IsSpace(s[|s| - 1]) then Trim(s[..|s| - 1])
    else s
  }

  /** Trimming removes a blank prefix and a blank suffix ... */
  lemma {:induction false} TrimSplit(s: string) returns (a: string, b: string)
    ensures s == a + Trim(s) + b
    ensures Blank(a) && Blank(b)
    decreases |s|
  {
    if s == "" {
      a, b := "", "";
    } else if IsSpace(s[0]) {
      a, b := TrimSplit(s[1..]);
      assert s == [s[0]] + s[1..];
      a := [s[0]] + a;
    } else if IsSpace(s[|s| - 1]) {
      a, b := TrimSplit(s[..|s| - 1]);
      assert s == s[..|s| - 1] + [s[|s| - 1]];
      b := b + [s[|s| - 1]];
    } else {
      a, b := "", "";
    }
  }

  /** ... and any decomposition into blank + trimmed + blank is that one. */
  lemma {:induction false} TrimUnique(s: string, a: string, t: string, b: string)
    requires s == a + t + b
    requires Blank(a) && Blank(b) && Trimmed(t)
    ensures Trim(s) == t
    decreases |s|
  {
    if a != "" {
      assert s[1..] == a[1..] + t + b;
      TrimUnique(s[1..], a[1..], t, b);
    } else if b != "" {
      if t == "" {
        assert s[1..] == "" + "" + b[1..];
        TrimUnique(s[1..], "", "", b[1..]);
      } else {
        assert s[|s| - 1] == b[|b| - 1];
        assert s[0] == t[0];
        assert s[..|s| - 1] == a + t + b[..|b| - 1];
        TrimUnique(s[..|s| - 1], a, t, b[..|b| - 1]);
      }
    } else {
      assert s == t;
    }
  }

  lemma TrimOfBlankEnds(a: string, s: string, b: string)
    requires Blank(a) && Blank(b)
    ensures Trim(a + s + b) == Trim(s)
  {
    var x, y := TrimSplit(s);
    assert a + s + b == (a + x) + Trim(s) + (y + b);
    TrimUnique(a + s + b, a + x, Trim(s), y + b);
  }

  lemma TrimOfTrimmed(s: string)
    requires Trimmed(s)
    ensures Trim(s) == s
  {
    TrimUnique(s, "", s, "");
  }

  lemma TrimEmptyIffBlank(s: string)
    ensures Trim(s) == "" <==> Blank(s)
  {
    var a, b := TrimSplit(s);
    if Blank(s) {
      TrimUnique(s, s, "", "");
    }
  }

  // ---------- Counting the characters that trimming keeps ----------

  function Ink(s: string): nat {
    if s == "" then 0 else (if IsSpace(s[0]) then 0 else 1) + Ink(s[1..])
  }

  lemma {:induction false} InkAppend(a: string, b: string)
    ensures Ink(a + b) == Ink(a) + Ink(b)
  {
    if a == "" {
      assert a + b == b;
    } else {
      assert (a + b)[1..] == a[1..] + b;
      InkAppend(a[1..], b);
    }
  }

  lemma {:induction false} InkBlank(s: string)
    ensures Ink(s) == 0 <==> Blank(s)
  {
    if s != "" {
      InkBlank(s[1..]);
      assert s == [s[0]] + s[1..];
    }
  }

  lemma InkTrim(s: string)
    ensures Ink(Trim(s)) == Ink(s)
  {
    var a, b := TrimSplit(s);
    InkAppend(a + Trim(s), b);
    InkAppend(a, Trim(s));
    InkBlank(a);
    InkBlank(b);
  }

  /** ConfigFile::trim: erase up to the first non-space, then erase after the last one. */
  method TrimInPlace(s0: string) returns (s: string)
    ensures s == Trim(s0)
  {
    s := s0;
    var first := 0;
    while first < |s| && IsSpace(s[first])
      invariant first <= |s|
      invariant Blank(s[..first])
    {
      first := first + 1;
    }
    ghost var a := s[..first];
    s := s[first..];
    assert s0 == a + s;

    var last := |s|;
    while last > 0 && IsSpace(s[last - 1])
      invariant 0 <= last <= |s|
      invariant Blank(s[last..])
    {
      last := last - 1;
    }
    ghost var b := s[last..];
    s := s[..last];
    assert s0 == a + s + b;
    TrimUnique(s0, a, s, b);
  }
}
