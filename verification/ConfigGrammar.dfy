/**
 * The configuration language as a grammar over lines: what a text means, stated without
 * the look-ahead buffer and the stream flags of operator>> (config_file.h).
 * The syntax is that of ConfigFile(): delimiter '=', comment '#', no sentry.
 */
module ConfigGrammar {
  import opened Text

  const DELIM := '='
  const COMMENT := '#'

  type Contents = map<string, string>

  // ---------- From text to lines ----------

  predicate EndsInNewline(text: string) {
    text != "" && text[|text| - 1] == '\n'
  }

  /** The lines of a text; a last line without a newline is a line too. */
  function Lines(text: string): (ls: seq<string>)
    ensures text != "" ==> ls != []
  {
    if text == "" then []
    else
      var i := IndexOf(text, '\n');
      if i == |text| then [text] else [text[..i]] + Lines(text[i + 1..])
  }

  /**
   * The lines that repeated std::getline calls leave in one and the same target string.
   * Once a last line without a newline has set eofbit, the next call fails before it
   * erases the target, so that line is seen twice.
   */
  function LinesRead(text: string): seq<string> {
    if text == "" then []
    else
      var i := IndexOf(text, '\n');
      if i == |text| then [text, text] else [text[..i]] + LinesRead(text[i + 1..])
  }

  // ---------- Line classes ----------

  /** A line without its comment. */
  function Strip(line: string): (s: string)
    ensures COMMENT !in s
    ensures forall c :: c in s ==> c in line
  {
    line[..IndexOf(line, COMMENT)]
  }

  /** A line that opens an entry. */
  predicate Opens(line: string) {
    DELIM in Strip(line)
  }

  /** A line that ends the value before it. */
  predicate Stops(line: string) {
    Blank(line) || Opens(line)
  }

  function KeyOf(line: string): string
    requires Opens(line)
  {
    Trim(Strip(line)[..IndexOf(Strip(line), DELIM)])
  }

  /** What follows the first delimiter on an opening line. */
  function FirstPart(line: string): string
    requires Opens(line)
  {
    Strip(line)[IndexOf(Strip(line), DELIM) + 1..]
  }

  /** What an absorbed line adds: a line holding nothing but a comment adds no newline. */
  function Piece(line: string): string {
    if Blank(Strip(line)) then Strip(line) else "\n" + Strip(line)
  }

  /** The text a value gathers from the lines that follow its opening line. */
  function Absorbed(lines: seq<string>): string {
    if lines == [] || Stops(lines[0]) then "" else Piece(lines[0]) + Absorbed(lines[1..])
  }

  function ValueAt(line: string, following: seq<string>): string
    requires Opens(line)
  {
    Trim(FirstPart(line) + Absorbed(following))
  }

  /** The meaning of a list of lines, loaded on top of `m`. */
  function Parse(lines: seq<string>, m: Contents): Contents {
    if lines == [] then m
    else if Opens(lines[0]) then
      Parse(lines[1..], m[KeyOf(lines[0]) := ValueAt(lines[0], lines[1..])])
    else Parse(lines[1..], m)
  }

  // ---------- Strip ----------

  lemma StripStripped(line: string)
    ensures Strip(Strip(line)) == Strip(line)
    ensures Opens(Strip(line)) <==> Opens(line)
    ensures Opens(line) ==> KeyOf(Strip(line)) == KeyOf(line) && FirstPart(Strip(line)) == FirstPart(line)
    ensures Piece(Strip(line)) == Piece(line)
    ensures Blank(line) ==> Blank(Strip(line)) && !Opens(line)
  {
    StripIdentity(Strip(line));
  }

  lemma StripIdentity(line: string)
    requires COMMENT !in line
    ensures Strip(line) == line
  {
    assert line[..|line|] == line;
  }

  // ---------- Loading: last occurrence wins, override, composition ----------

  ghost predicate LastOpening(lines: seq<string>, i: int, key: string) {
    && 0 <= i < |lines|
    && Opens(lines[i]) && KeyOf(lines[i]) == key
    && forall j :: i < j < |lines| && Opens(lines[j]) ==> KeyOf(lines[j]) != key
  }

  /** A key takes the value of its last opening line. */
  lemma {:induction false} LastOccurrenceWins(lines: seq<string>, m: Contents, i: nat, key: string)
    requires LastOpening(lines, i, key)
    ensures key in Parse(lines, m)
    ensures Parse(lines, m)[key] == ValueAt(lines[i], lines[i + 1..])
    decreases |lines|
  {
    if i == 0 {
      forall j | 0 <= j < |lines[1..]| && Opens(lines[1..][j]) ensures KeyOf(lines[1..][j]) != key {
        assert lines[1..][j] == lines[j + 1];
      }
      NeverOpened(lines[1..], m[KeyOf(lines[0]) := ValueAt(lines[0], lines[1..])], key);
    } else {
      assert lines[1..][i - 1 + 1..] == lines[i + 1..];
      assert LastOpening(lines[1..], i - 1, key) by {
        forall j | i - 1 < j < |lines[1..]| && Opens(lines[1..][j]) ensures KeyOf(lines[1..][j]) != key {
          assert lines[1..][j] == lines[j + 1];
        }
      }
      LastOccurrenceWins(lines[1..],
        if Opens(lines[0]) then m[KeyOf(lines[0]) := ValueAt(lines[0], lines[1..])] else m, i - 1, key);
    }
  }

  /** A key that no line opens keeps what it had. */
  lemma {:induction false} NeverOpened(lines: seq<string>, m: Contents, key: string)
    requires forall j :: 0 <= j < |lines| && Opens(lines[j]) ==> KeyOf(lines[j]) != key
    ensures key in Parse(lines, m) <==> key in m
    ensures key in m ==> Parse(lines, m)[key] == m[key]
    decreases |lines|
  {
    if lines != [] {
      forall j | 0 <= j < |lines[1..]| && Opens(lines[1..][j]) ensures KeyOf(lines[1..][j]) != key {
        assert lines[1..][j] == lines[j + 1];
      }
      NeverOpened(lines[1..],
        if Opens(lines[0]) then m[KeyOf(lines[0]) := ValueAt(lines[0], lines[1..])] else m, key);
    }
  }

  /** Loading into existing contents overrides them with what the lines mean on their own. */
  lemma {:induction false} LoadOverrides(lines: seq<string>, m: Contents)
    ensures Parse(lines, m) == m + Parse(lines, map[])
    decreases |lines|
  {
    if lines != [] {
      if Opens(lines[0]) {
        var k, v := KeyOf(lines[0]), ValueAt(lines[0], lines[1..]);
        LoadOverrides(lines[1..], m[k := v]);
        LoadOverrides(lines[1..], map[][k := v]);
        OverrideLater(m, k, v, Parse(lines[1..], map[]));
      } else {
        LoadOverrides(lines[1..], m);
      }
    }
  }

  /** Reloading an unchanged file changes nothing, and keys it does not mention stay. */
  lemma ReloadIsIdempotent(lines: seq<string>, m: Contents)
    ensures Parse(lines, Parse(lines, m)) == Parse(lines, m)
    ensures m.Keys <= Parse(lines, m).Keys
  {
    LoadOverrides(lines, m);
    LoadOverrides(lines, Parse(lines, m));
    var p := Parse(lines, map[]);
    assert (m + p) + p == m + p;
  }

  lemma OverrideLater(m: Contents, k: string, v: string, p: Contents)
    ensures m[k := v] + p == m + (map[][k := v] + p)
  {
  }

  /** Only the lines before the next stopping line matter to a value. */
  lemma {:induction false} AbsorbedUpToStop(lines: seq<string>, next: seq<string>)
    requires next == [] || Stops(next[0])
    ensures Absorbed(lines + next) == Absorbed(lines)
    decreases |lines|
  {
    if lines == [] {
      assert lines + next == next;
    } else {
      assert (lines + next)[1..] == lines[1..] + next;
      AbsorbedUpToStop(lines[1..], next);
    }
  }

  /** Files may be split before any line that stops a value. */
  lemma {:induction false} ParseSplit(first: seq<string>, second: seq<string>, m: Contents)
    requires second == [] || Stops(second[0])
    ensures Parse(first + second, m) == Parse(second, Parse(first, m))
    decreases |first|
  {
    if first == [] {
      assert first + second == second;
    } else {
      assert (first + second)[1..] == first[1..] + second;
      AbsorbedUpToStop(first[1..], second);
      ParseSplit(first[1..], second,
        if Opens(first[0]) then m[KeyOf(first[0]) := ValueAt(first[0], first[1..])] else m);
    }
  }

  /** A text that is empty or ends in a newline contributes exactly its own lines. */
  lemma {:induction false} LinesReadAppend(a: string, b: string)
    requires a == "" || EndsInNewline(a)
    ensures LinesRead(a + b) == LinesRead(a) + LinesRead(b)
    decreases |a|
  {
    if a == "" {
      assert a + b == b;
    } else {
      var line, rest := SplitFirstLine(a);
      LinesReadAppend(rest, b);
      AppendBehindLine(line, rest, b);
    }
  }

  lemma AppendBehindLine(line: string, rest: string, b: string)
    requires '\n' !in line
    requires LinesRead(rest + b) == LinesRead(rest) + LinesRead(b)
    ensures LinesRead((line + "\n" + rest) + b) == LinesRead(line + "\n" + rest) + LinesRead(b)
  {
    FirstLineRead(line, rest);
    FirstLineRead(line, rest + b);
    ConcatAssoc(line + "\n", rest, b);
    ConcatAssoc([line], LinesRead(rest), LinesRead(b));
  }

  lemma {:induction false} TerminatedLinesRead(a: string)
    requires a == "" || EndsInNewline(a)
    ensures LinesRead(a) == Lines(a)
    decreases |a|
  {
    if a != "" {
      var line, rest := SplitFirstLine(a);
      TerminatedLinesRead(rest);
      FirstLineRead(line, rest);
    }
  }

  lemma SplitFirstLine(a: string) returns (line: string, rest: string)
    requires EndsInNewline(a)
    ensures a == line + "\n" + rest && '\n' !in line
    ensures rest == "" || EndsInNewline(rest)
  {
    var i := IndexOf(a, '\n');
    assert a[|a| - 1] == '\n';
    line, rest := a[..i], a[i + 1..];
  }

  lemma FirstLineRead(line: string, rest: string)
    requires '\n' !in line
    ensures LinesRead(line + "\n" + rest) == [line] + LinesRead(rest)
    ensures Lines(line + "\n" + rest) == [line] + Lines(rest)
  {
    var text := line + "\n" + rest;
    var i := IndexOf(text, '\n');
    assert text[|line|] == '\n';
    assert forall k :: 0 <= k < |line| ==> text[k] == line[k];
    assert i == |line|;
    assert text[..i] == line;
    assert text[i + 1..] == rest;
  }

  /**
   * Reloading: two files joined by a blank line mean the same as loading one after the
   * other into the same contents, whatever the second file is.
   */
  lemma {:induction false} BlankLineComposes(s1: string, s2: string, m: Contents)
    requires s1 == "" || EndsInNewline(s1)
    ensures Parse(LinesRead(s1 + "\n" + s2), m) == Parse(LinesRead(s2), Parse(LinesRead(s1), m))
    ensures Parse(LinesRead(s1 + "\n" + s2), m) == Parse(LinesRead(s1), m) + Parse(LinesRead(s2), map[])
  {
    var m1 := Parse(LinesRead(s1), m);
    assert s1 + "\n" + s2 == s1 + ("\n" + s2);
    LinesReadAppend(s1, "\n" + s2);
    LinesReadAppend("\n", s2);
    assert LinesRead("\n") == [""];
    var second := [""] + LinesRead(s2);
    ParseSplit(LinesRead(s1), second, m);
    assert second[1..] == LinesRead(s2);
    assert Parse(second, m1) == Parse(LinesRead(s2), m1);
    LoadOverrides(LinesRead(s2), m1);
  }

  // ---------- The unterminated last line ----------

  /** Some entry is open after these lines: an opening line with no stopping line after it. */
  predicate EntryOpen(lines: seq<string>) {
    lines != [] &&
    var last := lines[|lines| - 1];
    Opens(last) || (!Stops(last) && EntryOpen(lines[..|lines| - 1]))
  }

  /** The text ends, without a newline, in a line that continues an open entry. */
  predicate ContinuedAtEof(text: string) {
    && text != "" && !EndsInNewline(text)
    && var ls := Lines(text);
       var p := ls[|ls| - 1];
       !Stops(p) && !Blank(Strip(p)) && EntryOpen(ls[..|ls| - 1])
  }

  /** A text without a final newline reads as its lines with the last one repeated. */
  lemma {:induction false} LinesReadUnterminated(text: string)
    requires text != "" && !EndsInNewline(text)
    ensures LinesRead(text) == Lines(text) + [Lines(text)[|Lines(text)| - 1]]
    decreases |text|
  {
    var i := IndexOf(text, '\n');
    if i < |text| {
      var rest := text[i + 1..];
      assert i + 1 < |text|;
      assert rest[|rest| - 1] == text[|text| - 1];
      LinesReadUnterminated(rest);
    }
  }

  ghost predicate Continues(lines: seq<string>) {
    forall l :: l in lines ==> !Stops(l)
  }

  lemma {:induction false} ContinuationsOpenNothing(lines: seq<string>, m: Contents)
    requires Continues(lines)
    ensures Parse(lines, m) == m
  {
    if lines != [] {
      assert !Stops(lines[0]);
      ContinuationsOpenNothing(lines[1..], m);
    }
  }

  lemma {:induction false} AbsorbedAppend(lines: seq<string>, more: seq<string>)
    requires Continues(lines)
    ensures Absorbed(lines + more) == Absorbed(lines) + Absorbed(more)
  {
    if lines == [] {
      assert lines + more == more;
    } else {
      assert (lines + more)[1..] == lines[1..] + more;
      AbsorbedAppend(lines[1..], more);
      ConcatAssoc(Piece(lines[0]), Absorbed(lines[1..]), Absorbed(more));
    }
  }

  /** With no entry open, continuation lines are ignored. */
  lemma {:induction false} ClosedIgnores(pre: seq<string>, more: seq<string>, m: Contents)
    requires !EntryOpen(pre)
    requires Continues(more)
    ensures Parse(pre + more, m) == Parse(pre, m)
    decreases |pre|
  {
    if pre == [] {
      assert pre + more == more;
      ContinuationsOpenNothing(more, m);
    } else {
      var front, last := pre[..|pre| - 1], pre[|pre| - 1];
      assert pre == front + [last];
      ConcatAssoc(front, [last], more);
      if Stops(last) {
        ParseSplit(front, [last] + more, m);
        ParseSplit(front, [last], m);
        assert ([last] + more)[1..] == more;
        ContinuationsOpenNothing(more, Parse(front, m));
      } else {
        ClosedIgnores(front, [last] + more, m);
        ClosedIgnores(front, [last], m);
      }
    }
  }

  /** With an entry open since line i, continuation lines extend the value of exactly that entry. */
  lemma {:induction false} OpenExtends(pre: seq<string>, i: nat, more: seq<string>, m: Contents)
    requires i < |pre| && Opens(pre[i]) && Continues(pre[i + 1..]) && Continues(more)
    ensures Parse(pre + more, m) == Parse(pre[..i], m)[KeyOf(pre[i]) :=
      Trim(FirstPart(pre[i]) + Absorbed(pre[i + 1..]) + Absorbed(more))]
  {
    var front, line, conts := pre[..i], pre[i], pre[i + 1..];
    assert pre + more == front + ([line] + (conts + more));
    ParseSplit(front, [line] + (conts + more), m);
    OpenAlone(line, conts, more, Parse(front, m));
  }

  lemma OpenAlone(line: string, conts: seq<string>, more: seq<string>, m: Contents)
    requires Opens(line) && Continues(conts) && Continues(more)
    ensures Parse([line] + (conts + more), m)
         == m[KeyOf(line) := Trim(FirstPart(line) + Absorbed(conts) + Absorbed(more))]
  {
    assert ([line] + (conts + more))[1..] == conts + more;
    AbsorbedAppend(conts, more);
    ConcatAssoc(FirstPart(line), Absorbed(conts), Absorbed(more));
    ContinuationsOpenNothing(conts + more, m[KeyOf(line) := ValueAt(line, conts + more)]);
  }

  lemma {:induction false} OpeningLine(pre: seq<string>) returns (i: nat)
    requires EntryOpen(pre)
    ensures i < |pre| && Opens(pre[i]) && Continues(pre[i + 1..])
    decreases |pre|
  {
    var front, last := pre[..|pre| - 1], pre[|pre| - 1];
    if Opens(last) {
      i := |pre| - 1;
    } else {
      i := OpeningLine(front);
      assert pre[i + 1..] == front[i + 1..] + [last];
    }
  }

  /**
   * A missing final newline changes the meaning of a text exactly when its last line
   * continues an open entry: then that line is appended twice.
   */
  lemma {:induction false} UnterminatedExactly(text: string, m: Contents)
    ensures Parse(LinesRead(text), m) == Parse(Lines(text), m) <==> !ContinuedAtEof(text)
  {
    if text == "" || EndsInNewline(text) {
      TerminatedLinesRead(text);
    } else {
      LinesReadUnterminated(text);
      var ls := Lines(text);
      var pre, p := ls[..|ls| - 1], ls[|ls| - 1];
      assert ls == pre + [p];
      RepeatedLine(pre, p, m);
      assert (pre + [p]) + [p] == pre + [p, p];
    }
  }

  /** A repeated last line matters exactly when it continues an open entry. */
  lemma RepeatedLine(pre: seq<string>, p: string, m: Contents)
    ensures Parse(pre + [p, p], m) == Parse(pre + [p], m) <==> Stops(p) || Blank(Strip(p)) || !EntryOpen(pre)
  {
    if Stops(p) {
      StoppingLineTwice(pre, p, m);
    } else if EntryOpen(pre) {
      LastLineTwice(pre, p, m);
    } else {
      ClosedIgnores(pre, [p], m);
      ClosedIgnores(pre, [p, p], m);
    }
  }

  lemma StoppingLineTwice(pre: seq<string>, p: string, m: Contents)
    requires Stops(p)
    ensures Parse(pre + [p, p], m) == Parse(pre + [p], m)
  {
    assert (pre + [p]) + [p] == pre + [p, p];
    ParseSplit(pre + [p], [p], m);
    ParseSplit(pre, [p], m);
  }

  lemma OpenerThenContinuation(opener: string, p: string)
    requires '\n' !in opener && '\n' !in p && p != ""
    requires Opens(opener) && !Stops(p) && !Blank(Strip(p))
    ensures ContinuedAtEof(opener + "\n" + p)
  {
    var text := opener + "\n" + p;
    FirstLineRead(opener, p);
    assert text[|text| - 1] == p[|p| - 1];
    assert Lines(p) == [p] && Lines(text) == [opener] + [p];
    assert Lines(text)[..1] == [opener];
  }

  /** A text that means something else than its lines say: the last line is appended twice. */
  lemma LastLineDoubled()
    ensures var text := "k = a" + "\n" + "b";
      ContinuedAtEof(text) && Parse(LinesRead(text), map[]) != Parse(Lines(text), map[])
  {
    StripIdentity("k = a");
    StripIdentity("b");
    assert "k = a"[2] == DELIM;
    assert !IsSpace("b"[0]) && Strip("b") == "b";
    OpenerThenContinuation("k = a", "b");
    UnterminatedExactly("k = a" + "\n" + "b", map[]);
  }

  lemma {:induction false} LastLineTwice(pre: seq<string>, p: string, m: Contents)
    requires EntryOpen(pre) && !Stops(p)
    ensures Parse(pre + [p, p], m) == Parse(pre + [p], m) <==> Blank(Strip(p))
  {
    var i := OpeningLine(pre);
    var base, key, text := Parse(pre[..i], m), KeyOf(pre[i]), FirstPart(pre[i]) + Absorbed(pre[i + 1..]);
    OpenExtends(pre, i, [p], m);
    OpenExtends(pre, i, [p, p], m);
    AbsorbOnceTwice(p);
    TwiceIsMore(text, p);
    var once, twice := Trim(text + Piece(p)), Trim(text + (Piece(p) + Piece(p)));
    assert base[key := once][key] == once && base[key := twice][key] == twice;
  }

  lemma AbsorbOnceTwice(p: string)
    requires !Stops(p)
    ensures Absorbed([p]) == Piece(p) && Absorbed([p, p]) == Piece(p) + Piece(p)
  {
    assert [p][1..] == [] && [p, p][1..] == [p];
    assert Absorbed([p]) == Piece(p) + "" == Piece(p);
  }

  lemma TwiceIsMore(text: string, p: string)
    requires !Stops(p)
    ensures Trim(text + (Piece(p) + Piece(p))) == Trim(text + Piece(p)) <==> Blank(Strip(p))
  {
    var once, twice := text + Piece(p), text + (Piece(p) + Piece(p));
    ConcatAssoc(text, Piece(p), Piece(p));
    if Blank(Strip(p)) {
      TrimOfBlankEnds("", once, Piece(p));
      assert "" + once == once;
    } else {
      InkTrim(once);
      InkTrim(twice);
      InkAppend(once, Piece(p));
      InkAppend("\n", Strip(p));
      InkBlank(Strip(p));
    }
  }
}
