/**
 * What the lines of a configuration file mean, in terms of the characters on them: which
 * part of a line is the key, which the value, what a continuation line and a comment add
 * (config_file.h).
 */
module ConfigMeaning {
  import opened Text
  import opened ConfigGrammar

  // ---------- Comments ----------

  lemma FoundAt(a: string, c: char, b: string)
    requires c !in a
    ensures IndexOf(a + [c] + b, c) == |a|
  {
    var s := a + [c] + b;
    assert s[|a|] == c && forall k :: 0 <= k < |a| ==> s[k] == a[k];
  }

  /** A comment reaches from the first '#' to the end of the line; what precedes it is kept as it is. */
  lemma CommentIsCut(a: string, b: string)
    requires '#' !in a
    ensures Strip(a + "#" + b) == a && Strip(a) == a
    ensures Opens(a + "#" + b) <==> '=' in a
    ensures Piece(a + "#" + b) == if Blank(a) then a else "\n" + a
  {
    FoundAt(a, '#', b);
    assert (a + "#" + b)[..|a|] == a;
    StripIdentity(a);
  }

  /** Two lines that are classified alike and hold the same parts. */
  predicate Alike(k: string, l: string) {
    && (Stops(k) <==> Stops(l)) && (Opens(k) <==> Opens(l)) && Piece(k) == Piece(l)
    && (Opens(k) ==> KeyOf(k) == KeyOf(l) && FirstPart(k) == FirstPart(l))
  }

  lemma {:induction false} AbsorbedAlike(x: seq<string>, k: string, l: string, y: seq<string>)
    requires Alike(k, l)
    ensures Absorbed(x + [k] + y) == Absorbed(x + [l] + y)
    decreases |x|
  {
    if x == [] {
      assert x + [k] + y == [k] + y && x + [l] + y == [l] + y;
      assert ([k] + y)[1..] == y && ([l] + y)[1..] == y;
    } else {
      assert (x + [k] + y)[1..] == x[1..] + [k] + y && (x + [l] + y)[1..] == x[1..] + [l] + y;
      AbsorbedAlike(x[1..], k, l, y);
    }
  }

  lemma {:induction false} ParseAlike(x: seq<string>, k: string, l: string, y: seq<string>, m: Contents)
    requires Alike(k, l)
    ensures Parse(x + [k] + y, m) == Parse(x + [l] + y, m)
    decreases |x|
  {
    if x == [] {
      assert x + [k] + y == [k] + y && x + [l] + y == [l] + y;
      assert ([k] + y)[1..] == y && ([l] + y)[1..] == y;
    } else {
      assert (x + [k] + y)[1..] == x[1..] + [k] + y && (x + [l] + y)[1..] == x[1..] + [l] + y;
      AbsorbedAlike(x[1..], k, l, y);
      ParseAlike(x[1..], k, l, y,
        if Opens(x[0]) then m[KeyOf(x[0]) := ValueAt(x[0], x[1..] + [k] + y)] else m);
    }
  }

  /** A comment behind anything that is not blank changes nothing, wherever the line stands. */
  lemma CommentBehindText(x: seq<string>, a: string, b: string, y: seq<string>, m: Contents)
    requires '#' !in a && !Blank(a)
    ensures Parse(x + [a + "#" + b] + y, m) == Parse(x + [a] + y, m)
  {
    CommentIsCut(a, b);
    StripStripped(a + "#" + b);
    var i :| 0 <= i < |a| && !IsSpace(a[i]);
    assert !IsSpace((a + "#" + b)[i]);
    ParseAlike(x, a + "#" + b, a, y, m);
  }

  /** A line that is all comment is as if it were not there; it does not even end a value, as a blank line does. */
  lemma {:induction false} CommentLineIsNothing(x: seq<string>, b: string, y: seq<string>, m: Contents)
    ensures Parse(x + ["#" + b] + y, m) == Parse(x + y, m)
    ensures Absorbed(x + ["#" + b] + y) == Absorbed(x + y)
    decreases |x|
  {
    CommentIsCut("", b);
    assert "" + "#" + b == "#" + b && ("#" + b)[0] == '#';
    if x == [] {
      assert x + ["#" + b] + y == ["#" + b] + y && x + y == y;
      assert (["#" + b] + y)[1..] == y;
    } else {
      assert (x + ["#" + b] + y)[1..] == x[1..] + ["#" + b] + y && (x + y)[1..] == x[1..] + y;
      CommentLineIsNothing(x[1..], b, y, if Opens(x[0]) then m[KeyOf(x[0]) := ValueAt(x[0], x[1..] + y)] else m);
    }
  }

  // ---------- Entries ----------

  /** The first '=' separates the key from the value. */
  lemma OpeningParts(k: string, r: string)
    requires '=' !in k && '#' !in k && '#' !in r
    ensures Opens(k + "=" + r) && KeyOf(k + "=" + r) == Trim(k) && FirstPart(k + "=" + r) == r
  {
    var line := k + "=" + r;
    assert '#' !in line && line[|k|] == '=';
    StripIdentity(line);
    FoundAt(k, '=', r);
    assert line[..|k|] == k && line[|k| + 1..] == r;
  }

  /** Lines as they continue a value: each after a newline. */
  function OnNewLines(lines: seq<string>): string {
    if lines == [] then "" else "\n" + lines[0] + OnNewLines(lines[1..])
  }

  ghost predicate Continuations(lines: seq<string>) {
    forall l :: l in lines ==> !Blank(l) && '=' !in l && '#' !in l
  }

  lemma {:induction false} ContinuationsAbsorbed(conts: seq<string>)
    requires Continuations(conts)
    ensures Absorbed(conts) == OnNewLines(conts) && Continues(conts)
  {
    if conts != [] {
      var l := conts[0];
      assert l in conts;
      StripIdentity(l);
      ContinuationsAbsorbed(conts[1..]);
    }
  }

  /** An entry on one line and the lines that continue it: the key and the whole value are trimmed. */
  lemma EntryMeans(k: string, r: string, conts: seq<string>, m: Contents)
    requires '=' !in k && '#' !in k && '#' !in r && Continuations(conts)
    ensures Parse([k + "=" + r] + conts, m) == m[Trim(k) := Trim(r + OnNewLines(conts))]
  {
    var line := k + "=" + r;
    OpeningParts(k, r);
    ContinuationsAbsorbed(conts);
    assert ([line] + conts)[1..] == conts;
    ContinuationsOpenNothing(conts, m[KeyOf(line) := ValueAt(line, conts)]);
  }

  /** A line of nothing but white space ends a value. */
  lemma BlankLineEnds(k: string, r: string, w: string, more: seq<string>, m: Contents)
    requires '=' !in k && '#' !in k && '#' !in r && Blank(w)
    ensures Parse([k + "=" + r] + [w] + more, m) == Parse(more, m[Trim(k) := Trim(r)])
  {
    var none: seq<string> := [];
    EntryMeans(k, r, none, m);
    assert r + OnNewLines(none) == r && [k + "=" + r] + none == [k + "=" + r];
    ConcatAssoc([k + "=" + r], [w], more);
    ParseSplit([k + "=" + r], [w] + more, m);
    assert forall c :: c in w ==> IsSpace(c);
    assert ([w] + more)[1..] == more && !Opens(w);
  }

  // ---------- Lines ----------

  /** Lines, each with its newline. */
  function Terminated(lines: seq<string>): string {
    if lines == [] then "" else lines[0] + "\n" + Terminated(lines[1..])
  }

  lemma LastLine(last: string)
    requires '\n' !in last
    ensures Lines(last) == (if last == "" then [] else [last])
    ensures LinesRead(last) == (if last == "" then [] else [last, last])
  {
  }

  /** A text is its terminated lines and, if it does not end in a newline, one more. */
  lemma {:induction false} LinesOfText(lines: seq<string>, last: string)
    requires '\n' !in last && forall l :: l in lines ==> '\n' !in l
    ensures Lines(Terminated(lines) + last) == lines + Lines(last)
    ensures LinesRead(Terminated(lines) + last) == lines + LinesRead(last)
  {
    if lines == [] {
      assert Terminated(lines) + last == last;
    } else {
      var l, more := lines[0], lines[1..];
      assert l in lines && lines == [l] + more;
      LinesOfText(more, last);
      ConcatAssoc(l + "\n", Terminated(more), last);
      FirstLineRead(l, Terminated(more) + last);
      ConcatAssoc([l], more, Lines(last));
      ConcatAssoc([l], more, LinesRead(last));
    }
  }
}
