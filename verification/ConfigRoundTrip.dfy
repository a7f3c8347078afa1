/** What printing and parsing preserve: the round trip, its exact domain, and the normal form. */
module ConfigRoundTrip {
  import opened Text
  import opened ConfigGrammar

  type Entry = (string, string)

  /** operator<< on the entries in the order given. */
  function Printed(entries: seq<Entry>): string {
    if entries == [] then ""
    else entries[0].0 + " = " + entries[0].1 + "\n" + Printed(entries[1..])
  }

  /** Assigning the entries one after the other. */
  function Assigned(entries: seq<Entry>, m: Contents): Contents {
    if entries == [] then m else Assigned(entries[1..], m[entries[0].0 := entries[0].1])
  }

  /** `entries` lists `m`, each key once, in some order. */
  ghost predicate Lists(entries: seq<Entry>, m: Contents) {
    && (forall e :: e in entries ==> e.0 in m && m[e.0] == e.1)
    && (forall k :: k in m ==> (k, m[k]) in entries)
    && (forall i, j :: 0 <= i < j < |entries| ==> entries[i].0 != entries[j].0)
  }

  // ---------- The order in which std::map iterates ----------

  /** std::less<std::string>: lexicographic by character. */
  predicate Before(a: string, b: string) {
    b != "" && (a == "" || a[0] < b[0] || (a[0] == b[0] && Before(a[1..], b[1..])))
  }

  predicate IsLeast(k: string, keys: set<string>) {
    k in keys && forall o :: o in keys && o != k ==> Before(k, o)
  }

  lemma {:induction false} BeforeIsTotal(a: string, b: string)
    ensures a == b || Before(a, b) || Before(b, a)
    ensures !(Before(a, b) && Before(b, a))
  {
    if a != "" && b != "" && a[0] == b[0] {
      BeforeIsTotal(a[1..], b[1..]);
      assert a == [a[0]] + a[1..] && b == [b[0]] + b[1..];
    }
  }

  lemma {:induction false} BeforeIsTransitive(a: string, b: string, c: string)
    requires Before(a, b) && Before(b, c)
    ensures Before(a, c)
  {
    if a != "" && a[0] == b[0] == c[0] {
      BeforeIsTransitive(a[1..], b[1..], c[1..]);
    }
  }

  lemma {:induction false} LeastExists(keys: set<string>) returns (k: string)
    requires keys != {}
    ensures IsLeast(k, keys)
    decreases keys
  {
    k :| k in keys;
    if keys != {k} {
      var l := LeastExists(keys - {k});
      BeforeIsTotal(k, l);
      if Before(l, k) {
        k := l;
      } else {
        forall o | o in keys && o != k ensures Before(k, o) {
          if o != l { BeforeIsTransitive(k, l, o); }
        }
      }
    }
  }

  lemma LeastIsUnique(k: string, l: string, keys: set<string>)
    requires IsLeast(k, keys) && IsLeast(l, keys)
    ensures k == l
  {
    BeforeIsTotal(k, l);
  }

  lemma SomeLeast(keys: set<string>)
    requires keys != {}
    ensures exists k :: IsLeast(k, keys)
  {
    var k := LeastExists(keys);
  }

  ghost function Least(keys: set<string>): (k: string)
    requires keys != {}
    ensures IsLeast(k, keys)
  {
    SomeLeast(keys);
    var k :| IsLeast(k, keys);
    k
  }

  /** The entries of `m` in ascending key order. */
  ghost function InOrder(m: Contents): (entries: seq<Entry>)
    ensures Lists(entries, m)
    decreases m.Keys
  {
    if m == map[] then []
    else
      var k := Least(m.Keys);
      var rest := InOrder(m - {k});
      assert forall o :: o in m ==> o == k || (o in m - {k} && (o, m[o]) in rest);
      [(k, m[k])] + rest
  }

  /** a comes before b where they first differ, or is the shorter of the two. */
  predicate DifferAt(a: string, b: string, n: nat) {
    n <= |a| && n < |b| && a[..n] == b[..n] && (n == |a| || a[n] < b[n])
  }

  lemma {:induction false} BeforeIff(a: string, b: string)
    ensures Before(a, b) <==> exists n: nat :: DifferAt(a, b, n)
  {
    if a != "" && b != "" && a[0] == b[0] {
      BeforeIff(a[1..], b[1..]);
      forall n: nat ensures DifferAt(a[1..], b[1..], n) <==> DifferAt(a, b, n + 1) {
        if n <= |a[1..]| && n < |b[1..]| {
          assert a[..n + 1] == [a[0]] + a[1..][..n] && b[..n + 1] == [b[0]] + b[1..][..n];
        }
      }
      assert !DifferAt(a, b, 0);
      if n: nat :| DifferAt(a, b, n) {
        assert DifferAt(a[1..], b[1..], n - 1);
      }
      if n: nat :| DifferAt(a[1..], b[1..], n) {
        assert DifferAt(a, b, n + 1);
      }
    } else {
      if Before(a, b) {
        assert DifferAt(a, b, 0);
      }
      if n: nat :| DifferAt(a, b, n) {
        assert n > 0 ==> a[..n][0] == b[..n][0];
      }
    }
  }

  ghost predicate Ascending(entries: seq<Entry>) {
    forall i, j :: 0 <= i < j < |entries| ==> Before(entries[i].0, entries[j].0)
  }

  /** The ascending listing of contents: there is one, and only one. */
  lemma {:induction false} OnlyAscending(m: Contents, entries: seq<Entry>)
    requires Lists(entries, m)
    ensures Ascending(entries) <==> entries == InOrder(m)
    decreases |entries|
  {
    InOrderAscends(m);
    if Ascending(entries) {
      if entries == [] {
        assert m == map[];
      } else {
        var e, rest := entries[0], entries[1..];
        assert e in entries;
        FirstIsLeast(m, entries);
        LeastIsUnique(e.0, Least(m.Keys), m.Keys);
        RestLists(m, entries);
        OnlyAscending(m - {e.0}, rest);
      }
    }
  }

  lemma FirstIsLeast(m: Contents, entries: seq<Entry>)
    requires Lists(entries, m) && Ascending(entries) && entries != []
    ensures IsLeast(entries[0].0, m.Keys)
  {
    assert entries[0] in entries;
    forall o | o in m && o != entries[0].0 ensures Before(entries[0].0, o) {
      assert (o, m[o]) in entries;
      var j :| 0 <= j < |entries| && entries[j] == (o, m[o]);
    }
  }

  lemma RestLists(m: Contents, entries: seq<Entry>)
    requires Lists(entries, m) && entries != []
    ensures Lists(entries[1..], m - {entries[0].0})
  {
    var k, rest := entries[0].0, entries[1..];
    forall e | e in rest ensures e.0 in m - {k} && (m - {k})[e.0] == e.1 {
      var i :| 0 <= i < |rest| && rest[i] == e;
      assert entries[i + 1] == e && e in entries;
    }
    forall o | o in m - {k} ensures (o, m[o]) in rest {
      assert (o, m[o]) in entries && (o, m[o]) != entries[0];
    }
  }

  lemma {:induction false} InOrderAscends(m: Contents)
    ensures Ascending(InOrder(m))
    decreases m.Keys
  {
    if m != map[] {
      var k := Least(m.Keys);
      var rest := InOrder(m - {k});
      InOrderAscends(m - {k});
      forall j | 0 <= j < |rest| ensures Before(k, rest[j].0) {
        assert rest[j] in rest;
      }
    }
  }

  /** Every entry is printed on its own line, in the order given. */
  lemma {:induction false} PrintedMore(entries: seq<Entry>, key: string, value: string)
    ensures Printed(entries + [(key, value)]) == Printed(entries) + (key + " = " + value + "\n")
    ensures Printed([]) == ""
    decreases |entries|
  {
    if entries == [] {
      assert entries + [(key, value)] == [(key, value)] && [(key, value)][1..] == [];
    } else {
      var e := entries[0];
      assert (entries + [(key, value)])[1..] == entries[1..] + [(key, value)];
      PrintedMore(entries[1..], key, value);
      ConcatAssoc(e.0 + " = " + e.1 + "\n", Printed(entries[1..]), key + " = " + value + "\n");
    }
  }

  // ---------- Representable keys and values ----------

  predicate KeyOk(key: string) {
    Trimmed(key) && COMMENT !in key && DELIM !in key && '\n' !in key
  }

  predicate BlankBetween(s: string, i: int, j: int)
    requires -1 <= i < j <= |s|
  {
    forall k :: i < k < j ==> IsSpace(s[k])
  }

  /** After the first newline there is no delimiter and no blank line. */
  predicate ContinuationsOk(s: string) {
    && (forall i, j :: 0 <= i < j < |s| && s[i] == '\n' ==> s[j] != DELIM)
    && (forall i, j :: 0 <= i < j <= |s| && s[i] == '\n' && (j == |s| || s[j] == '\n') ==> !BlankBetween(s, i, j))
  }

  predicate ValueOk(value: string) {
    Trimmed(value) && COMMENT !in value && ContinuationsOk(value)
  }

  ghost predicate Representable(m: Contents) {
    forall k :: k in m ==> KeyOk(k) && ValueOk(m[k])
  }

  // ---------- Everything that is parsed is representable ----------

  lemma {:induction false} LinesReadHaveNoNewline(text: string)
    ensures forall l :: l in LinesRead(text) ==> '\n' !in l
    decreases |text|
  {
    if text != "" {
      var i := IndexOf(text, '\n');
      var line := text[..i];
      assert forall k :: 0 <= k < i ==> line[k] == text[k] != '\n';
      if i < |text| {
        LinesReadHaveNoNewline(text[i + 1..]);
        assert LinesRead(text) == [line] + LinesRead(text[i + 1..]);
      } else {
        assert text == line && LinesRead(text) == [line, line];
      }
    }
  }

  lemma ContinuationsOkAppend(s: string, line: string)
    requires ContinuationsOk(s)
    requires '\n' !in line && DELIM !in line
    ensures Blank(line) ==> ContinuationsOk(s + line)
    ensures !Blank(line) ==> ContinuationsOk(s + "\n" + line)
  {
    if Blank(line) {
      var t := s + line;
      forall i, j | 0 <= i < j <= |t| && t[i] == '\n' && (j == |t| || t[j] == '\n')
        ensures !BlankBetween(t, i, j)
      {
        var j' := if j == |t| then |s| else j;
        assert i < |s| && !BlankBetween(s, i, j');
        var k :| i < k < j' && !IsSpace(s[k]);
        assert t[k] == s[k];
      }
    } else {
      var t := s + "\n" + line;
      var ink :| 0 <= ink < |line| && !IsSpace(line[ink]);
      forall i, j | 0 <= i < j <= |t| && t[i] == '\n' && (j == |t| || t[j] == '\n')
        ensures !BlankBetween(t, i, j)
      {
        if j == |t| {
          assert t[|s| + 1 + ink] == line[ink];
        } else {
          assert !BlankBetween(s, i, j);
          var k :| i < k < j && !IsSpace(s[k]);
          assert t[k] == s[k];
        }
      }
    }
  }

  lemma ContinuationsOkDrop(a: string, s: string)
    requires ContinuationsOk(a + s)
    ensures ContinuationsOk(s)
  {
    var w := a + s;
    forall i, j | 0 <= i < j < |s| && s[i] == '\n' ensures s[j] != DELIM {
      assert w[|a| + i] == '\n' && w[|a| + j] != DELIM;
    }
    forall i, j | 0 <= i < j <= |s| && s[i] == '\n' && (j == |s| || s[j] == '\n')
      ensures !BlankBetween(s, i, j)
    {
      assert w[|a| + i] == '\n';
      assert !BlankBetween(w, |a| + i, |a| + j);
      var k :| |a| + i < k < |a| + j && !IsSpace(w[k]);
      assert s[k - |a|] == w[k];
    }
  }

  lemma ContinuationsOkCut(s: string, b: string)
    requires ContinuationsOk(s + b) && Blank(b)
    ensures ContinuationsOk(s)
  {
    var w := s + b;
    forall i, j | 0 <= i < j < |s| && s[i] == '\n' ensures s[j] != DELIM {
      assert w[i] == '\n' && w[j] != DELIM;
    }
    forall i, j | 0 <= i < j <= |s| && s[i] == '\n' && (j == |s| || s[j] == '\n')
      ensures !BlankBetween(s, i, j)
    {
      var j' := if j == |s| then |w| else j;
      assert w[i] == '\n' && !BlankBetween(w, i, j');
      assert forall n :: |s| <= n < |w| ==> w[n] == b[n - |s|];
      var k :| i < k < j' && !IsSpace(w[k]);
      assert s[k] == w[k];
    }
  }

  lemma ContinuationsOkTrim(s: string)
    requires ContinuationsOk(s)
    ensures ContinuationsOk(Trim(s))
  {
    var a, b := TrimSplit(s);
    ConcatAssoc(a, Trim(s), b);
    ContinuationsOkDrop(a, Trim(s) + b);
    ContinuationsOkCut(Trim(s), b);
  }

  lemma {:induction false} AbsorbedOk(s: string, lines: seq<string>)
    requires ContinuationsOk(s) && COMMENT !in s
    requires forall l :: l in lines ==> '\n' !in l
    ensures ContinuationsOk(s + Absorbed(lines)) && COMMENT !in s + Absorbed(lines)
    decreases |lines|
  {
    if lines == [] || Stops(lines[0]) {
      assert s + "" == s;
    } else {
      var l := lines[0];
      ContinuationsOkAppend(s, Strip(l));
      ConcatAssoc(s, "\n", Strip(l));
      ConcatAssoc(s, Piece(l), Absorbed(lines[1..]));
      AbsorbedOk(s + Piece(l), lines[1..]);
    }
  }

  lemma ParsedEntryOk(line: string, following: seq<string>)
    requires Opens(line) && '\n' !in line
    requires forall l :: l in following ==> '\n' !in l
    ensures KeyOk(KeyOf(line)) && ValueOk(ValueAt(line, following))
  {
    var s := Strip(line);
    var i := IndexOf(s, DELIM);
    var a, b := TrimSplit(s[..i]);
    assert forall c :: c in KeyOf(line) ==> c in s[..i];
    assert DELIM !in s[..i];
    var x := FirstPart(line);
    assert ContinuationsOk(x);
    AbsorbedOk(x, following);
    var y := x + Absorbed(following);
    ContinuationsOkTrim(y);
    a, b := TrimSplit(y);
    assert forall c :: c in Trim(y) ==> c in y;
  }

  lemma {:induction false} ParsedIsRepresentable(lines: seq<string>, m: Contents)
    requires forall l :: l in lines ==> '\n' !in l
    requires Representable(m)
    ensures Representable(Parse(lines, m))
    decreases |lines|
  {
    if lines != [] {
      assert '\n' !in lines[0];
      if Opens(lines[0]) {
        ParsedEntryOk(lines[0], lines[1..]);
        ParsedIsRepresentable(lines[1..], m[KeyOf(lines[0]) := ValueAt(lines[0], lines[1..])]);
      } else {
        ParsedIsRepresentable(lines[1..], m);
      }
    }
  }

  // ---------- Representable contents survive printing and parsing ----------

  lemma CutAtNewline(line: string, tail: string, rest: string)
    requires tail != "" && tail[0] == '\n'
    ensures line + tail + "\n" + rest == line + "\n" + (tail[1..] + "\n" + rest)
  {
    assert tail == "\n" + tail[1..];
  }

  lemma NextLine(tail: string) returns (line: string, tail': string)
    requires tail != "" && tail[0] == '\n'
    ensures tail == "\n" + line + tail' && tail[1..] == line + tail'
    ensures '\n' !in line && |tail'| < |tail|
    ensures tail' == "" || tail'[0] == '\n'
  {
    var n := IndexOf(tail[1..], '\n');
    line, tail' := tail[1..][..n], tail[1..][n..];
  }

  lemma ContinuationLine(line: string, tail: string)
    requires ContinuationsOk("\n" + line + tail) && COMMENT !in line
    requires tail == "" || tail[0] == '\n'
    ensures !Stops(line) && Piece(line) == "\n" + line
  {
    var whole := "\n" + line + tail;
    assert !BlankBetween(whole, 0, 1 + |line|);
    var k :| 0 < k < 1 + |line| && !IsSpace(whole[k]);
    assert line[k - 1] == whole[k];
    assert forall n :: 0 <= n < |line| ==> whole[n + 1] == line[n];
    StripIdentity(line);
  }

  /** The continuation lines of a printed value are absorbed back, newlines included. */
  lemma {:induction false} AbsorbPrinted(line: string, tail: string, rest: string)
    requires ContinuationsOk("\n" + line + tail) && COMMENT !in line + tail
    requires '\n' !in line
    requires tail == "" || tail[0] == '\n'
    requires LinesRead(rest) == [] || Stops(LinesRead(rest)[0])
    ensures Absorbed(LinesRead(line + tail + "\n" + rest)) == "\n" + line + tail
    decreases |tail|
  {
    ContinuationLine(line, tail);
    if tail == "" {
      assert line + tail == line;
      FirstLineRead(line, rest);
      assert ([line] + LinesRead(rest))[1..] == LinesRead(rest);
    } else {
      var line', tail' := NextLine(tail);
      assert COMMENT !in line' + tail';
      ContinuationsOkDrop("\n" + line, tail);
      AbsorbPrinted(line', tail', rest);
      var after := tail[1..] + "\n" + rest;
      CutAtNewline(line, tail, rest);
      FirstLineRead(line, after);
      assert ([line] + LinesRead(after))[1..] == LinesRead(after);
    }
  }

  /** The line that opens a printed entry. */
  lemma OpeningPrinted(key: string, first: string)
    requires KeyOk(key) && COMMENT !in first
    ensures Opens(key + " = " + first)
    ensures KeyOf(key + " = " + first) == key
    ensures FirstPart(key + " = " + first) == " " + first
  {
    var line := key + " = " + first;
    StripIdentity(line);
    DelimiterPrinted(key, first);
    assert line[..|key| + 1] == key + " ";
    assert "" + key + " " == key + " ";
    TrimOfBlankEnds("", key, " ");
    TrimOfTrimmed(key);
    assert line[|key| + 2..] == " " + first;
  }

  lemma DelimiterPrinted(key: string, first: string)
    requires DELIM !in key
    ensures IndexOf(key + " = " + first, DELIM) == |key| + 1
  {
    var line := key + " = " + first;
    assert line[|key| + 1] == DELIM;
    assert forall k :: 0 <= k < |key| ==> line[k] == key[k];
    assert line[|key|] == ' ';
  }

  /** Reading one printed entry in front of further printed entries. */
  lemma ParsePrintedEntry(key: string, value: string, rest: string, m: Contents)
    requires KeyOk(key) && ValueOk(value)
    requires LinesRead(rest) == [] || Stops(LinesRead(rest)[0])
    ensures var text := key + " = " + value + "\n" + rest;
      && LinesRead(text) != [] && Stops(LinesRead(text)[0])
      && Parse(LinesRead(text), m) == Parse(LinesRead(rest), m[key := value])
  {
    var n := IndexOf(value, '\n');
    var first, tail := value[..n], value[n..];
    assert value == first + tail;
    ConcatAssoc(key + " = ", first, tail);
    if tail == "" {
      assert value == first;
      PrintedOnOneLine(key, value, rest, m);
    } else {
      PrintedOnManyLines(key, first, tail, rest, m);
    }
  }

  lemma PrintedOnOneLine(key: string, value: string, rest: string, m: Contents)
    requires KeyOk(key) && ValueOk(value) && '\n' !in value
    requires LinesRead(rest) == [] || Stops(LinesRead(rest)[0])
    ensures var text := key + " = " + value + "\n" + rest;
      && LinesRead(text) != [] && Stops(LinesRead(text)[0])
      && Parse(LinesRead(text), m) == Parse(LinesRead(rest), m[key := value])
  {
    OpeningPrinted(key, value);
    PrintedValue(value);
    assert " " + value + "" == " " + value;
    OpenThen(key + " = " + value, rest, "", m);
  }

  lemma PrintedOnManyLines(key: string, first: string, tail: string, rest: string, m: Contents)
    requires KeyOk(key) && ValueOk(first + tail) && '\n' !in first && tail != "" && tail[0] == '\n'
    requires LinesRead(rest) == [] || Stops(LinesRead(rest)[0])
    ensures var text := key + " = " + first + tail + "\n" + rest;
      && LinesRead(text) != [] && Stops(LinesRead(text)[0])
      && Parse(LinesRead(text), m) == Parse(LinesRead(rest), m[key := first + tail])
  {
    OpeningPrinted(key, first);
    PrintedTail(first, tail, rest);
    CutAtNewline(key + " = " + first, tail, rest);
    ConcatAssoc(" ", first, tail);
    PrintedValue(first + tail);
    OpenThen(key + " = " + first, tail[1..] + "\n" + rest, tail, m);
    SkipAbsorbed(tail[1..], rest, m[key := first + tail]);
  }

  lemma PrintedValue(value: string)
    requires ValueOk(value)
    ensures Trim(" " + value) == value
  {
    TrimOfBlankEnds(" ", value, "");
    TrimOfTrimmed(value);
    assert " " + value + "" == " " + value;
  }

  lemma OpenThen(line: string, after: string, gathered: string, m: Contents)
    requires Opens(line) && '\n' !in line
    requires Absorbed(LinesRead(after)) == gathered
    ensures LinesRead(line + "\n" + after) != [] && LinesRead(line + "\n" + after)[0] == line
    ensures Parse(LinesRead(line + "\n" + after), m)
         == Parse(LinesRead(after), m[KeyOf(line) := Trim(FirstPart(line) + gathered)])
  {
    FirstLineRead(line, after);
    assert ([line] + LinesRead(after))[1..] == LinesRead(after);
  }

  lemma PrintedTail(first: string, tail: string, rest: string)
    requires ValueOk(first + tail) && tail != "" && tail[0] == '\n'
    requires LinesRead(rest) == [] || Stops(LinesRead(rest)[0])
    ensures Absorbed(LinesRead(tail[1..] + "\n" + rest)) == tail
    ensures DELIM !in tail[1..]
  {
    ContinuationsOkDrop(first, tail);
    var line, tail' := NextLine(tail);
    AbsorbPrinted(line, tail', rest);
  }

  /** Lines without a delimiter open nothing. */
  lemma {:induction false} SkipAbsorbed(body: string, rest: string, m: Contents)
    requires DELIM !in body
    ensures Parse(LinesRead(body + "\n" + rest), m) == Parse(LinesRead(rest), m)
    decreases |body|
  {
    var n := IndexOf(body, '\n');
    var line := body[..n];
    if n == |body| {
      assert line == body;
      SkipLine(line, rest, m);
    } else {
      var more := body[n + 1..];
      assert body == line + "\n" + more;
      ConcatAssoc(line + "\n", more, "\n");
      ConcatAssoc(line + "\n", more + "\n", rest);
      SkipLine(line, more + "\n" + rest, m);
      SkipAbsorbed(more, rest, m);
    }
  }

  lemma SkipLine(line: string, after: string, m: Contents)
    requires DELIM !in line && '\n' !in line
    ensures Parse(LinesRead(line + "\n" + after), m) == Parse(LinesRead(after), m)
  {
    FirstLineRead(line, after);
    assert ([line] + LinesRead(after))[1..] == LinesRead(after);
  }

  /** Printing entries and loading the text assigns exactly those entries. */
  lemma {:induction false} ParsePrinted(entries: seq<Entry>, m: Contents)
    requires forall e :: e in entries ==> KeyOk(e.0) && ValueOk(e.1)
    ensures LinesRead(Printed(entries)) == [] || Stops(LinesRead(Printed(entries))[0])
    ensures Parse(LinesRead(Printed(entries)), m) == Assigned(entries, m)
  {
    if entries != [] {
      var (k, v) := entries[0];
      assert entries[0] in entries;
      ParsePrinted(entries[1..], m[k := v]);
      ParsePrintedEntry(k, v, Printed(entries[1..]), m);
    }
  }

  lemma {:induction false} AssignedLists(entries: seq<Entry>, m: Contents, done: Contents)
    requires forall e :: e in entries ==> e.0 in m && m[e.0] == e.1
    requires forall k :: k in m ==> k in done || (k, m[k]) in entries
    requires forall k :: k in done ==> k in m && m[k] == done[k]
    ensures Assigned(entries, done) == m
    decreases |entries|
  {
    if entries == [] {
      assert done == m;
    } else {
      var e := entries[0];
      assert e in entries;
      AssignedLists(entries[1..], m, done[e.0 := e.1]);
    }
  }

  /**
   * The round trip and its exact domain: printing contents in any order and loading the
   * text into an empty ConfigFile restores them if and only if they are representable.
   */
  lemma {:induction false} RoundTripIffRepresentable(m: Contents, entries: seq<Entry>)
    requires Lists(entries, m)
    ensures Parse(LinesRead(Printed(entries)), map[]) == m <==> Representable(m)
  {
    if Representable(m) {
      ParsePrinted(entries, map[]);
      AssignedLists(entries, m, map[]);
    }
    LinesReadHaveNoNewline(Printed(entries));
    ParsedIsRepresentable(LinesRead(Printed(entries)), map[]);
  }

  /** Load, save, load: whatever the text, printing what was parsed and parsing it again changes nothing. */
  lemma {:induction false} LoadSaveLoad(text: string, entries: seq<Entry>)
    requires Lists(entries, Parse(LinesRead(text), map[]))
    ensures Parse(LinesRead(Printed(entries)), map[]) == Parse(LinesRead(text), map[])
  {
    LinesReadHaveNoNewline(text);
    ParsedIsRepresentable(LinesRead(text), map[]);
    RoundTripIffRepresentable(Parse(LinesRead(text), map[]), entries);
  }
}
