/**
 * The configuration file reader and writer of config_file.h: operator>> with its
 * one-line look-ahead over a stream with eof and fail flags, operator<<, and add.
 */
module ConfigFiles {
  import opened Text
  import opened ConfigGrammar
  import opened ConfigRoundTrip

  /** The part of std::istream that operator>> uses. */
  class InStream {
    var rest: string  // characters not extracted yet
    var eof: bool
    var fail: bool

    constructor (text: string)
      ensures rest == text && !eof && !fail
    {
      rest, eof, fail := text, false, false;
    }

    /** Every getline on a stream that has not failed decreases this. */
    function Measure(): nat
      reads this
    {
      |rest| + (if eof then 0 else 1) + (if fail then 0 else 1)
    }

    /** The lines still to come, for a target string that is cleared before each call. */
    ghost function Unread(): seq<string>
      reads this
    {
      if eof || fail then [] else LinesRead(rest)
    }

    /** The lines still to come, for a target string that now holds `target` and is kept between calls. */
    ghost function UnreadInto(target: string): seq<string>
      reads this
    {
      if fail then [] else if eof then [target] else LinesRead(rest)
    }

    /** `line` has just been read off `before`. */
    ghost predicate Delivered(before: seq<string>, line: string)
      reads this
    {
      if fail then before == [line] || (before == [] && line == "")
      else if eof then before == [line, line]
      else before == [line] + LinesRead(rest)
    }

    /**
     * std::getline(is, target). A stream that is not good fails before the target is
     * erased; reaching the end of the text sets eof, and fail too if nothing was extracted.
     */
    method GetLine(target: string) returns (line: string)
      modifies this
      ensures !old(fail) ==> Measure() < old(Measure())
      ensures old(fail) ==> unchanged(this)
      ensures old(eof || fail) ==> line == target && fail && eof == old(eof) && rest == old(rest)
      ensures !old(eof || fail) ==>
        var i := IndexOf(old(rest), '\n');
        line == old(rest)[..i] &&
        if i < |old(rest)| then rest == old(rest)[i + 1..] && !eof && !fail
        else rest == "" && eof && fail == (old(rest) == "")
      ensures !old(fail) ==> Delivered(old(UnreadInto(target)), line)
      ensures !old(fail) && target == "" ==> Taken(old(Unread()), line, Unread())
    {
      if eof || fail {
        fail := true;
        return target;
      }
      var i := 0;
      while i < |rest| && rest[i] != '\n'
        invariant 0 <= i <= |rest|
        invariant forall k :: 0 <= k < i ==> rest[k] != '\n'
      {
        i := i + 1;
      }
      line := rest[..i];
      assert i == IndexOf(rest, '\n');
      assert rest[..|rest|] == rest;
      if i < |rest| {
        rest := rest[i + 1..];
      } else {
        eof, fail, rest := true, rest == "", "";
      }
    }
  }

  /** What the outer loop will still process: the look-ahead line, if any, then the stream. */
  ghost function Pending(nextline: string): seq<string> {
    if nextline == "" then [] else [nextline]
  }

  /** `line` is the next of `lines`, leaving `unread`: a last line without newline counts once. */
  predicate Taken(lines: seq<string>, line: string, unread: seq<string>) {
    || lines == [line] + unread
    || (lines == [line, line] && unread == [])
    || (lines == [] && unread == [] && line == "")
  }

  /** One iteration of the outer loop. */
  lemma OuterStep(lines: seq<string>, line: string, unread: seq<string>, into: seq<string>, m: Contents)
    requires Taken(lines, line, unread)
    requires into == unread || (unread == [] && into == [""])
    ensures !Opens(line) ==> Parse(lines, m) == Parse(unread, m)
    ensures Opens(line) ==>
      Parse(lines, m) == Parse(into, m[KeyOf(line) := Trim(FirstPart(line) + Absorbed(into))])
  {
    assert Absorbed([""]) == Absorbed([]) == "";
    if lines == [line] + unread {
      ParseCons(line, unread, m);
    } else if lines == [line, line] {
      ParseTwice(line, m);
      if Opens(line) {
        assert FirstPart(line) + "" == FirstPart(line);
      }
    }
  }

  lemma ParseCons(line: string, rest: seq<string>, m: Contents)
    ensures Opens(line) ==> Parse([line] + rest, m) == Parse(rest, m[KeyOf(line) := ValueAt(line, rest)])
    ensures !Opens(line) ==> Parse([line] + rest, m) == Parse(rest, m)
    ensures Absorbed([line] + rest) == if Stops(line) then "" else Piece(line) + Absorbed(rest)
  {
    assert ([line] + rest)[1..] == rest;
  }

  /** Reading an opening line twice is reading it once. */
  lemma ParseTwice(line: string, m: Contents)
    ensures Parse([line, line], m) == Parse([line], m)
    ensures Parse([line], m) == if Opens(line) then m[KeyOf(line) := Trim(FirstPart(line))] else m
  {
    assert [line, line] == [line] + [line];
    assert [line] == [line] + [];
    ParseCons(line, [line], m);
    ParseCons(line, [], m);
    if Opens(line) {
      assert FirstPart(line) + "" == FirstPart(line);
      ParseCons(line, [], m[KeyOf(line) := Trim(FirstPart(line))]);
    }
  }

  lemma PartsOf(raw: string, delimPos: nat)
    requires delimPos == IndexOf(Strip(raw), DELIM)
    ensures Opens(raw) <==> delimPos < |Strip(raw)|
    ensures Opens(raw) ==> KeyOf(raw) == Trim(Strip(raw)[..delimPos]) && FirstPart(raw) == Strip(raw)[delimPos + 1..]
  {
  }

  /** One iteration of the inner loop: the look-ahead line either ends the value or extends it. */
  lemma InnerStep(before: seq<string>, next: string, unread: seq<string>, into: seq<string>,
                  value: string, key: string, m: Contents)
    requires || (before == [next] + unread && into == unread)
             || (before == [next, next] && unread == [] && into == [Strip(next)])
             || (before == [] && unread == [] && into == [] && next == "")
    ensures var goal := Parse(before, m[key := Trim(value + Absorbed(before))]);
      && (Blank(next) ==> goal == Parse(Pending(next) + unread, m[key := Trim(value)]))
      && (Opens(next) ==> goal == Parse(Pending(Strip(next)) + unread, m[key := Trim(value)]))
      && (!Stops(next) ==> goal == Parse(into, m[key := Trim(value + Piece(next) + Absorbed(into))]))
  {
    StripStripped(next);
    var s := Strip(next);
    assert value + "" == value;
    if before == [next] + unread {
      ParseCons(next, unread, m[key := Trim(value)]);
      ParseCons(next, unread, m[key := Trim(value + Absorbed(before))]);
      ParseCons(s, unread, m[key := Trim(value)]);
      ConcatAssoc(value, Piece(next), Absorbed(into));
      if next == "" {
        assert Pending(next) + unread == unread;
      }
    } else if before == [next, next] {
      ParseTwice(next, m[key := Trim(value)]);
      ParseTwice(s, m[key := Trim(value)]);
      assert Pending(next) + unread == Pending(next);
      assert Pending(s) + unread == Pending(s);
      if !Stops(next) {
        ParseTwice(next, m[key := Trim(value + Absorbed(before))]);
        ParseTwice(s, m[key := Trim(value + Absorbed(before))]);
        RepeatedLast(next, value);
      }
    } else {
      assert Pending(next) + unread == [];
    }
  }

  lemma LeftOver(nextline: string, m: Contents)
    requires !Opens(nextline)
    ensures Parse(Pending(nextline), m) == m
  {
    ParseTwice(nextline, m);
  }

  lemma RepeatedLast(p: string, value: string)
    requires !Stops(p)
    ensures Trim(value + Absorbed([p, p])) == Trim(value + Piece(p) + Absorbed([Strip(p)]))
  {
    StripStripped(p);
    AbsorbOnceTwice(p);
    TwiceIsMore(value, p);
    if Blank(Strip(p)) {
      assert Absorbed([Strip(p)]) == "";
      assert value + Piece(p) + "" == value + Piece(p);
    } else {
      AbsorbOnceTwice(Strip(p));
      ConcatAssoc(value, Piece(p), Piece(p));
    }
  }

  class ConfigFile {
    var contents: Contents

    constructor ()
      ensures contents == map[]
    {
      contents := map[];
    }

    /**
     * operator>>: two nested loops around one look-ahead line. Whatever the state of the
     * stream, the result is what the grammar says of the lines the stream will deliver.
     */
    method Load(ins: InStream)
      modifies this, ins
      ensures contents == Parse(old(ins.Unread()), old(contents))
    {
      ghost var goal := Parse(ins.Unread(), contents);
      var nextline := "";
      assert Pending(nextline) + ins.Unread() == ins.Unread();
      while !ins.fail || nextline != ""
        invariant Parse(Pending(nextline) + ins.Unread(), contents) == goal
        decreases ins.Measure(), |nextline|
      {
        var line;
        ghost var lines := Pending(nextline) + ins.Unread();
        if nextline != "" {
          line, nextline := nextline, "";
        } else {
          assert lines == ins.Unread();
          line := ins.GetLine("");
        }
        assert Taken(lines, line, ins.Unread());
        ghost var raw := line;
        OuterStep(lines, raw, ins.Unread(), ins.UnreadInto(""), contents);
        line := UpTo(line, COMMENT);
        assert line == Strip(raw);
        var delimPos := Find(line, DELIM);
        PartsOf(raw, delimPos);
        if delimPos < |line| {
          var key := line[..delimPos];
          line := line[delimPos + 1..];
          line, nextline := ReadValue(ins, line, Trim(key), contents);
          assert Parse(Pending(nextline) + ins.Unread(), contents[Trim(key) := Trim(line)]) == goal;
          key := TrimInPlace(key);
          line := TrimInPlace(line);
          contents := contents[key := line];
        } else {
          assert Pending(nextline) + ins.Unread() == ins.Unread();
        }
      }
      assert Pending(nextline) + ins.Unread() == [];
    }

    /**
     * The inner loop of operator>>: gathers the lines that continue a value and keeps the
     * line that ended it for the outer loop. `key` and `m` only serve the specification.
     */
    method ReadValue(ins: InStream, first: string, ghost key: string, ghost m: Contents)
      returns (line: string, nextline: string)
      modifies ins
      ensures Parse(Pending(nextline) + ins.Unread(), m[key := Trim(line)])
           == Parse(old(ins.UnreadInto("")), m[key := Trim(first + Absorbed(old(ins.UnreadInto(""))))])
      ensures ins.Measure() < old(ins.Measure()) || (old(ins.fail) && unchanged(ins) && nextline == "")
    {
      ghost var goal := Parse(ins.UnreadInto(""), m[key := Trim(first + Absorbed(ins.UnreadInto("")))]);
      line, nextline := first, "";
      var terminate := false;
      while !terminate && !ins.fail
        invariant !terminate ==>
          Parse(ins.UnreadInto(nextline), m[key := Trim(line + Absorbed(ins.UnreadInto(nextline)))]) == goal
        invariant terminate ==> Parse(Pending(nextline) + ins.Unread(), m[key := Trim(line)]) == goal
        invariant !terminate && ins.fail ==> !Opens(nextline)
        invariant ins.Measure() < old(ins.Measure()) || (unchanged(ins) && nextline == "" && !terminate)
        decreases ins.Measure(), !terminate
      {
        ghost var unread := ins.UnreadInto(nextline);
        nextline := ins.GetLine(nextline);
        InnerStep(unread, nextline, ins.Unread(), ins.UnreadInto(Strip(nextline)), line, key, m);
        terminate := true;
        var nlcopy := TrimInPlace(nextline);
        TrimEmptyIffBlank(nextline);
        if nlcopy == "" { continue; }
        ghost var read, was := nextline, line;
        StripStripped(nextline);
        nextline := UpTo(nextline, COMMENT);
        if DELIM in nextline { continue; }
        nlcopy := TrimInPlace(nextline);
        TrimEmptyIffBlank(nextline);
        if nlcopy != "" { line := line + "\n"; }
        line := line + nextline;
        ConcatAssoc(was, "\n", nextline);
        assert line == was + Piece(read);
        terminate := false;
      }
      if !terminate {
        LeftOver(nextline, m[key := Trim(line)]);
        assert line + "" == line;
        assert Pending(nextline) + ins.Unread() == Pending(nextline);
      }
    }

    /** operator<<: one "key = value" line per entry, in the order of the keys. */
    method Save() returns (os: string)
      ensures os == Printed(InOrder(contents))
      ensures forall entries :: Lists(entries, contents) && Ascending(entries) ==> os == Printed(entries)
    {
      os := "";
      var keys := contents.Keys;
      ghost var left := contents;
      assert os + Printed(InOrder(left)) == Printed(InOrder(contents));
      while keys != {}
        invariant left.Keys == keys && keys <= contents.Keys
        invariant forall k :: k in left ==> left[k] == contents[k]
        invariant os + Printed(InOrder(left)) == Printed(InOrder(contents))
        decreases keys
      {
        SomeLeast(keys);
        var k :| IsLeast(k, keys);
        LeastIsUnique(k, Least(keys), keys);
        ghost var entry := (k, left[k]);
        assert InOrder(left) == [entry] + InOrder(left - {k});
        assert ([entry] + InOrder(left - {k}))[1..] == InOrder(left - {k});
        ConcatAssoc(os, k + " = " + contents[k] + "\n", Printed(InOrder(left - {k})));
        os := os + (k + " = " + contents[k] + "\n");
        keys := keys - {k};
        left := left - {k};
      }
      assert os + Printed(InOrder(left)) == os;
      forall entries | Lists(entries, contents) && Ascending(entries) ensures os == Printed(entries) {
        OnlyAscending(contents, entries);
      }
    }

    /** add: the key and the value are trimmed before they are stored. */
    method Add(key: string, value: string)
      modifies this
      ensures contents == old(contents)[Trim(key) := Trim(value)]
      ensures old(Representable(contents)) ==>
        (Representable(contents) <==> KeyOk(Trim(key)) && ValueOk(Trim(value)))
    {
      var k := TrimInPlace(key);
      var v := TrimInPlace(value);
      contents := contents[k := v];
      assert k in contents;
    }
  }

  /**
   * Load, save and load again: the saved text restores what the first load produced, and
   * saving once more produces the same text.
   */
  method LoadSaveLoadAgain(text: string)
    returns (first: ConfigFile, second: ConfigFile, saved: string, savedAgain: string)
    ensures fresh(first) && fresh(second)
    ensures first.contents == Parse(LinesRead(text), map[])
    ensures second.contents == first.contents
    ensures savedAgain == saved
  {
    first := new ConfigFile();
    second := new ConfigFile();
    var ins := new InStream(text);
    first.Load(ins);
    saved := first.Save();
    ins := new InStream(saved);
    second.Load(ins);
    LoadSaveLoad(text, InOrder(first.contents));
    savedAgain := second.Save();
  }

  /** Contents that add accepts and that saving and loading does not restore. */
  method AddedKeyIsLost() returns (first: ConfigFile, second: ConfigFile)
    ensures fresh(first) && fresh(second)
    ensures first.contents == map["a=b" := "c"] && second.contents != first.contents
  {
    first := new ConfigFile();
    second := new ConfigFile();
    TrimOfTrimmed("a=b");
    TrimOfTrimmed("c");
    first.Add("a=b", "c");
    assert "a=b" in first.contents && "a=b"[1] == DELIM && !KeyOk("a=b");
    var saved := first.Save();
    var ins := new InStream(saved);
    second.Load(ins);
    RoundTripIffRepresentable(first.contents, InOrder(first.contents));
  }

  /** line.substr(0, line.find(c)) */
  method UpTo(line: string, c: char) returns (s: string)
    ensures s == line[..IndexOf(line, c)]
  {
    var i := Find(line, c);
    s := line[..i];
  }

  method Find(line: string, c: char) returns (i: nat)
    ensures i == IndexOf(line, c)
  {
    i := 0;
    while i < |line| && line[i] != c
      invariant i <= |line|
      invariant forall k :: 0 <= k < i ==> line[k] != c
    {
      i := i + 1;
    }
  }
}
