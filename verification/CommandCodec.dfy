/**
 * The command format that start_routine decodes (worker_threads.cc): bytes masked with
 * 0xff, lines that end in CRLF and start with the token, fields that end in three spaces.
 */
module CommandCodec {
  import opened Text
  import opened Splitting
  import opened Framing

  const SEPARATOR := "   "

  type Fields = seq<string>

  // ---------- The mask ----------

  predicate IsBytes(s: string) {
    forall i :: 0 <= i < |s| ==> s[i] as int < 256
  }

  /** Exclusive or of a byte with 0xff. */
  function MaskChar(c: char): (m: char)
    requires c as int < 256
    ensures m as int < 256
  {
    (255 - c as int) as char
  }

  /** On the eight bits of a byte, MaskChar is exclusive or with 0xff. */
  lemma MaskIsXor(b: bv8)
    ensures b as int < 256 && MaskChar((b as int) as char) as int == (b ^ 0xFF) as int
  {
    assert b ^ 0xFF == 0xFF - b;
  }

  function Mask(s: string): (m: string)
    requires IsBytes(s)
    ensures IsBytes(m) && |m| == |s|
  {
    seq(|s|, i requires 0 <= i < |s| => MaskChar(s[i]))
  }

  /** The mask works on each byte by itself. */
  lemma MaskEach(s: string, i: nat, b: bv8)
    requires IsBytes(s) && i < |s| && s[i] as int == b as int
    ensures Mask(s)[i] as int == (b ^ 0xFF) as int
  {
    MaskIsXor(b);
  }

  lemma MaskTwice(s: string)
    requires IsBytes(s)
    ensures Mask(Mask(s)) == s
  {
    assert forall i :: 0 <= i < |s| ==> Mask(Mask(s))[i] == s[i];
  }

  // ---------- Encoding and decoding ----------

  /** A client's message: per command the token, every field with its separator, and CRLF. */
  function Encode(commands: seq<Fields>): string {
    Joined(EncodedLines(commands), CRLF)
  }

  function EncodedLines(commands: seq<Fields>): seq<string> {
    if commands == [] then [] else [EncodedLine(commands[0])] + EncodedLines(commands[1..])
  }

  function EncodedLine(fields: Fields): string {
    TOKEN + Joined(fields, SEPARATOR)
  }

  /** vec_str[i].erase(0, TOKEN_LENGTH), then SplitData. */
  function DecodedLine(line: string): Fields {
    Split(if |line| < TOKEN_LENGTH then "" else line[TOKEN_LENGTH..], SEPARATOR)
  }

  function DecodedLines(lines: seq<string>): seq<Fields> {
    if lines == [] then [] else [DecodedLine(lines[0])] + DecodedLines(lines[1..])
  }

  /** The field lists that start_routine finds in the bytes of one read. */
  function Decode(msg: string): seq<Fields> {
    if Contains(msg, CRLF) && Contains(msg, SEPARATOR) then DecodedLines(Split(msg, CRLF)) else []
  }

  // ---------- Fields that survive ----------

  predicate FieldOk(f: string) {
    !Contains(f, SEPARATOR) && !Contains(f, CRLF) && (f == "" || f[|f| - 1] != ' ')
  }

  ghost predicate CommandsOk(commands: seq<Fields>) {
    forall c, f :: c in commands && f in c ==> FieldOk(f)
  }

  lemma NotContains(s: string, d: string)
    requires d != ""
    requires forall k: nat :: k < |s| ==> !OccursAt(s, d, k)
    ensures !Contains(s, d)
  {
    FirstAtIs(s, d, |s|);
  }

  lemma CleanField(f: string)
    ensures Clean(f, SEPARATOR) <==> !Contains(f, SEPARATOR) && (f == "" || f[|f| - 1] != ' ')
  {
    CleanPrefix(f, SEPARATOR, "");
    if f != "" && f[|f| - 1] == ' ' {
      assert (f + SEPARATOR)[|f| - 1..][..3] == SEPARATOR;
      ContainsAt(f + SEPARATOR, SEPARATOR, |f| - 1);
    } else if !Contains(f, SEPARATOR) {
      FieldThenSeparator(f);
    }
  }

  lemma FieldThenSeparator(f: string)
    requires !Contains(f, SEPARATOR) && (f == "" || f[|f| - 1] != ' ')
    ensures Clean(f, SEPARATOR)
  {
    var t := f + SEPARATOR;
    forall k: nat | k < |f| ensures !OccursAt(t, SEPARATOR, k) {
      assert !OccursAt(f, SEPARATOR, k);
      if k + 3 <= |f| {
        assert t[k..][..3] == f[k..][..3];
      } else {
        assert t[k..][|f| - 1 - k] == f[|f| - 1];
      }
    }
    assert t[|f|..] == SEPARATOR;
    FirstAtIs(t, SEPARATOR, |f|);
  }

  lemma CleanLine(l: string)
    ensures Clean(l, CRLF) <==> !Contains(l, CRLF)
  {
    var t := l + CRLF;
    CleanPrefix(l, CRLF, "");
    if !Contains(l, CRLF) {
      forall k: nat | k < |l| ensures !OccursAt(t, CRLF, k) {
        assert !OccursAt(l, CRLF, k);
        if k + 2 <= |l| {
          assert t[k..][..2] == l[k..][..2];
        } else {
          assert t[k..][1] == '\r';
        }
      }
      assert t[|l|..] == CRLF;
      FirstAtIs(t, CRLF, |l|);
    }
  }

  lemma AppendFree(a: string, b: string)
    requires !Contains(a, CRLF) && !Contains(b, CRLF)
    requires a == "" || b == "" || a[|a| - 1] != '\r' || b[0] != '\n'
    ensures !Contains(a + b, CRLF)
  {
    var t := a + b;
    forall k: nat | k < |t| ensures !OccursAt(t, CRLF, k) {
      assert k < |a| ==> !OccursAt(a, CRLF, k);
      assert k >= |a| ==> !OccursAt(b, CRLF, k - |a|);
      if k >= |a| {
        assert t[k..] == b[k - |a|..];
      } else if k + 2 <= |a| {
        assert t[k..][..2] == a[k..][..2];
      } else if b != "" {
        assert t[k..][0] == a[|a| - 1] && t[k..][1] == b[0];
      }
    }
    NotContains(t, CRLF);
  }

  lemma SeparatorFree()
    ensures !Contains(SEPARATOR, CRLF)
  {
    forall k: nat | k < 3 ensures !OccursAt(SEPARATOR, CRLF, k) {
      assert SEPARATOR[k..][0] == ' ';
    }
    NotContains(SEPARATOR, CRLF);
  }

  /** Fields without CRLF make a line without CRLF: no CRLF arises where parts meet. */
  lemma {:induction false} LineFree(prefix: string, fields: Fields)
    requires !Contains(prefix, CRLF) && prefix != "" && prefix[|prefix| - 1] != '\r'
    requires forall f :: f in fields ==> !Contains(f, CRLF)
    ensures !Contains(prefix + Joined(fields, SEPARATOR), CRLF)
    decreases |fields|
  {
    if fields == [] {
      assert prefix + "" == prefix;
    } else {
      var f, more := fields[0], fields[1..];
      assert f in fields && fields == [f] + more;
      AppendFree(prefix, f);
      SeparatorFree();
      AppendFree(prefix + f, SEPARATOR);
      LineFree(prefix + f + SEPARATOR, more);
      JoinedCons(f, more, SEPARATOR);
      ConcatAssoc(prefix, f, SEPARATOR);
      ConcatAssoc(prefix, f + SEPARATOR, Joined(more, SEPARATOR));
    }
  }

  lemma DecodeEncodedLine(fields: Fields)
    ensures DecodedLine(EncodedLine(fields)) == Split(Joined(fields, SEPARATOR), SEPARATOR)
    ensures (forall f :: f in fields ==> FieldOk(f)) ==>
      Clean(EncodedLine(fields), CRLF) && DecodedLine(EncodedLine(fields)) == fields
  {
    assert EncodedLine(fields)[TOKEN_LENGTH..] == Joined(fields, SEPARATOR);
    if forall f :: f in fields ==> FieldOk(f) {
      TokenHasNoCrlf(TOKEN);
      LineFree(TOKEN, fields);
      CleanLine(EncodedLine(fields));
      forall f | f in fields ensures Clean(f, SEPARATOR) {
        assert FieldOk(f);
        CleanField(f);
      }
      NotContains("", SEPARATOR);
      SplitJoined(fields, SEPARATOR, "");
      assert Joined(fields, SEPARATOR) + "" == Joined(fields, SEPARATOR);
    }
  }

  lemma {:induction false} DecodeEncodedLines(commands: seq<Fields>)
    requires CommandsOk(commands)
    ensures DecodedLines(EncodedLines(commands)) == commands
    ensures forall l :: l in EncodedLines(commands) ==> Clean(l, CRLF)
  {
    if commands != [] {
      assert commands[0] in commands;
      DecodeEncodedLine(commands[0]);
      DecodeEncodedLines(commands[1..]);
      assert EncodedLines(commands)[1..] == EncodedLines(commands[1..]);
    }
  }

  lemma {:induction false} DecodedFieldsOk(lines: seq<string>)
    requires forall l :: l in lines ==> !Contains(l, CRLF)
    ensures CommandsOk(DecodedLines(lines))
  {
    if lines != [] {
      var l := lines[0];
      assert l in lines;
      DecodedFieldsOk(lines[1..]);
      var body := if |l| < TOKEN_LENGTH then "" else l[TOKEN_LENGTH..];
      PartFree(l, CRLF, |l| - |body|, |l|);
      assert body == l[|l| - |body|..|l|];
      SplitComplete(body, SEPARATOR);
      SplitPartsFree(body, SEPARATOR, CRLF);
      forall f | f in DecodedLine(l) ensures FieldOk(f) {
        CleanField(f);
      }
    }
  }

  lemma {:induction false} SplitPartsFree(s: string, d: string, e: string)
    requires d != "" && e != "" && !Contains(s, e)
    ensures forall p :: p in Split(s, d) ==> !Contains(p, e)
    decreases |s|
  {
    if Contains(s, d) {
      var p, rest := SplitStep(s, d);
      PartsFree(p + d, rest, e);
      PartsFree(p, d, e);
      SplitPartsFree(rest, d, e);
    }
  }

  lemma PartsFree(a: string, b: string, e: string)
    requires e != "" && !Contains(a + b, e)
    ensures !Contains(a, e) && !Contains(b, e)
  {
    PartFree(a + b, e, 0, |a|);
    PartFree(a + b, e, |a|, |a + b|);
    assert (a + b)[0..|a|] == a && (a + b)[|a|..|a + b|] == b;
  }

  lemma ContainsMiddle(a: string, d: string, b: string)
    requires d != ""
    ensures Contains(a + d + b, d)
  {
    assert (a + d + b)[|a|..] == d + b;
    ContainsAt(a + d + b, d, |a|);
  }

  lemma EncodedContains(commands: seq<Fields>)
    requires commands != [] && commands[0] != []
    ensures Contains(Encode(commands), CRLF) && Contains(Encode(commands), SEPARATOR)
  {
    var line, rest := EncodedLine(commands[0]), Joined(EncodedLines(commands[1..]), CRLF);
    var f, more := commands[0][0], Joined(commands[0][1..], SEPARATOR);
    assert EncodedLines(commands) == [line] + EncodedLines(commands[1..]);
    JoinedCons(line, EncodedLines(commands[1..]), CRLF);
    ContainsMiddle(line, CRLF, rest);
    assert commands[0] == [f] + commands[0][1..];
    JoinedCons(f, commands[0][1..], SEPARATOR);
    ConcatAssoc(TOKEN, f + SEPARATOR, more);
    ConcatAssoc(TOKEN, f, SEPARATOR);
    assert line == TOKEN + f + SEPARATOR + more;
    ConcatAssoc(TOKEN + f + SEPARATOR, more, CRLF);
    ConcatAssoc(TOKEN + f + SEPARATOR, more + CRLF, rest);
    ContainsMiddle(TOKEN + f, SEPARATOR, more + CRLF + rest);
  }

  /**
   * The codec round trip and its exact domain: commands with at least one field each are
   * decoded to exactly the same fields, in order, if and only if no field contains the
   * separator or CRLF or ends in a space.
   */
  lemma {:induction false} DecodeEncodeIff(commands: seq<Fields>)
    requires forall c :: c in commands ==> c != []
    ensures Decode(Encode(commands)) == commands <==> CommandsOk(commands)
  {
    var msg := Encode(commands);
    if commands == [] {
      NotContains("", CRLF);
    } else {
      assert commands[0] in commands;
      EncodedContains(commands);
      if CommandsOk(commands) {
        DecodeEncodedLines(commands);
        NotContains("", CRLF);
        SplitJoined(EncodedLines(commands), CRLF, "");
        assert msg + "" == msg;
      }
      SplitComplete(msg, CRLF);
      DecodedFieldsOk(Split(msg, CRLF));
    }
  }
}
