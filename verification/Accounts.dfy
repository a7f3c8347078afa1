/**
 * The account commands of start_routine (worker_threads.cc) over MySQL tables, with the
 * delimiter-encoded result of SelectData (printertomysql.cpp) and the backward scan that
 * reads a password out of it.
 *
 * Tables are sequences of rows. For every statement the outcome says what MySQL decides:
 * whether the query and the write succeed, and the id of a new row.
 */
module Accounts {
  import opened Text
  import opened Splitting
  import opened CommandCodec

  datatype Option<T> = None | Some(value: T)

  datatype User = User(id: string, name: string, passwd: string)
  datatype Device = Device(name: string, deviceId: string, p2pId: string, ip: string)
  datatype Db = Db(users: seq<User>, devices: seq<Device>)

  datatype Outcome = Outcome(selectOk: bool, writeOk: bool, id: string)

  const NUL := '\0'
  const COLUMN_END := '\U{06}'  // rg
  const ROW_END := '\U{05}'     // cg

  const INSERT := 1
  const SELECT := 2
  const UPDATE := 3
  const DELETE := 4

  const OK := "f0:ok"
  const EXISTS := "e1:fail"    // also: no such user
  const WRITE_FAILED := "e2:fail"
  const REFUSED := "e3:fail"
  const ANY := "0000"

  // ---------- SelectData and the backward scan ----------

  /** Every column followed by 0x06, the row by 0x05. */
  function EncodedRow(u: User): string {
    u.id + [COLUMN_END] + u.name + [COLUMN_END] + u.passwd + [COLUMN_END] + [ROW_END]
  }

  function EncodedRows(rows: seq<User>): string {
    if rows == [] then "" else EncodedRows(rows[..|rows| - 1]) + EncodedRow(rows[|rows| - 1])
  }

  /** The three columns of a row, each behind its mark. */
  function Columns(u: User): string {
    Joined([u.id, u.name, u.passwd], "\U{06}")
  }

  lemma MarkClean(p: string, mark: char)
    requires mark !in p
    ensures Clean(p, [mark])
  {
    var t := p + [mark];
    forall k: nat | k < |p| ensures !OccursAt(t, [mark], k) {
      assert t[k..][0] == p[k];
    }
    assert t[|p|..] == [mark];
    FirstAtIs(t, [mark], |p|);
  }

  lemma ColumnsSpelled(u: User)
    ensures EncodedRow(u) == Columns(u) + "\U{05}"
  {
    var mark := "\U{06}";
    JoinedCons(u.passwd, [], mark);
    JoinedCons(u.name, [u.passwd], mark);
    JoinedCons(u.id, [u.name, u.passwd], mark);
    assert [u.passwd] + [] == [u.passwd] && [u.name] + [u.passwd] == [u.name, u.passwd];
    assert [u.id] + [u.name, u.passwd] == [u.id, u.name, u.passwd];
    ConcatAssoc(u.id + mark, u.name + mark, u.passwd + mark);
    ConcatAssoc(u.id + mark, u.name, mark);
    ConcatAssoc(u.id + mark + u.name + mark, u.passwd, mark);
  }

  /** What SelectData writes of a row holds its id, its name and its password, in that order. */
  lemma RowColumns(u: User)
    requires COLUMN_END !in u.id && COLUMN_END !in u.name && COLUMN_END !in u.passwd
    ensures Split(EncodedRow(u), "\U{06}") == [u.id, u.name, u.passwd]
  {
    var columns := [u.id, u.name, u.passwd];
    ColumnsSpelled(u);
    forall p | p in columns ensures Clean(p, "\U{06}") {
      MarkClean(p, COLUMN_END);
    }
    assert "\U{05}"[0..][0] != COLUMN_END;
    FirstAtIs("\U{05}", "\U{06}", 1);
    SplitJoined(columns, "\U{06}", "\U{05}");
  }

  /** Table contents are the rows one after the other. */
  lemma EncodedRowsMore(rows: seq<User>, u: User)
    ensures EncodedRows([]) == "" && EncodedRows(rows + [u]) == EncodedRows(rows) + EncodedRow(u)
  {
    assert (rows + [u])[..|rows|] == rows;
  }

  /** The last 0x06 at or before p. */
  function ScanBack(s: string, p: nat): (q: nat)
    requires p < |s| && COLUMN_END in s[..p + 1]
    ensures q <= p && s[q] == COLUMN_END && forall k :: q < k <= p ==> s[k] != COLUMN_END
  {
    if s[p] == COLUMN_END then p
    else
      assert s[..p + 1] == s[..p] + [s[p]];
      ScanBack(s, p - 1)
  }

  predicate Scannable(s: string) {
    |s| >= 3 && NUL !in s && COLUMN_END in s[..|s| - 2]
  }

  /** Scan back from the third last character; drop what precedes, and the last two characters. */
  function LastColumn(s: string): string
    requires Scannable(s)
  {
    s[ScanBack(s, |s| - 3) + 1..|s| - 2]
  }

  predicate NulFree(u: User) {
    NUL !in u.id && NUL !in u.name && NUL !in u.passwd
  }

  ghost predicate TableOk(users: seq<User>) {
    forall u :: u in users ==> NulFree(u)
  }

  lemma {:induction false} EncodedHasNoNul(rows: seq<User>)
    requires TableOk(rows)
    ensures NUL !in EncodedRows(rows)
  {
    if rows != [] {
      EncodedHasNoNul(rows[..|rows| - 1]);
      assert NulFree(rows[|rows| - 1]);
    }
  }

  lemma EncodedSplit(rows: seq<User>) returns (front: string)
    requires rows != [] && TableOk(rows)
    ensures EncodedRows(rows) == front + [COLUMN_END] + rows[|rows| - 1].passwd + [COLUMN_END, ROW_END]
    ensures Scannable(EncodedRows(rows))
  {
    var u := rows[|rows| - 1];
    front := EncodedRows(rows[..|rows| - 1]) + (u.id + [COLUMN_END] + u.name);
    var s := EncodedRows(rows);
    assert s == front + [COLUMN_END] + u.passwd + [COLUMN_END, ROW_END];
    EncodedHasNoNul(rows);
    assert s[|front|] == COLUMN_END && |front| < |s| - 2;
    assert s[..|s| - 2][|front|] == COLUMN_END;
  }

  /** What stands behind the last column mark; all of it if there is none. */
  function AfterMark(s: string): (t: string)
    ensures |t| <= |s| && s[|s| - |t|..] == t && COLUMN_END !in t
    ensures |t| == |s| || s[|s| - |t| - 1] == COLUMN_END
    ensures t == s <==> COLUMN_END !in s
  {
    if s == "" || s[|s| - 1] == COLUMN_END then ""
    else
      assert s == s[..|s| - 1] + [s[|s| - 1]];
      AfterMark(s[..|s| - 1]) + [s[|s| - 1]]
  }

  /** The scan finds what stands behind the last mark in the last column of the last row. */
  lemma LastColumnExact(rows: seq<User>)
    requires rows != [] && TableOk(rows)
    ensures Scannable(EncodedRows(rows))
    ensures LastColumn(EncodedRows(rows)) == AfterMark(rows[|rows| - 1].passwd)
  {
    var front := EncodedSplit(rows);
    ScanOf(front, rows[|rows| - 1].passwd, EncodedRows(rows));
  }

  lemma ScanOf(front: string, pw: string, s: string)
    requires s == front + [COLUMN_END] + pw + [COLUMN_END, ROW_END] && Scannable(s)
    ensures LastColumn(s) == AfterMark(pw)
  {
    var head := BeforeMark(pw);
    ConcatAssoc(front + [COLUMN_END], head, AfterMark(pw));
    MarkEnds(front + [COLUMN_END], head);
    ScanBehind(front + [COLUMN_END] + head, AfterMark(pw), s);
  }

  /** What the last column mark ends; empty if there is none. */
  function BeforeMark(s: string): (head: string)
    ensures s == head + AfterMark(s)
    ensures head == "" || head[|head| - 1] == COLUMN_END
  {
    s[..|s| - |AfterMark(s)|]
  }

  lemma MarkEnds(a: string, b: string)
    requires a != "" && a[|a| - 1] == COLUMN_END && (b == "" || b[|b| - 1] == COLUMN_END)
    ensures a + b != "" && (a + b)[|a + b| - 1] == COLUMN_END
  {
  }

  lemma ScanBehind(pre: string, t: string, s: string)
    requires s == pre + t + [COLUMN_END, ROW_END] && Scannable(s)
    requires pre != "" && pre[|pre| - 1] == COLUMN_END && COLUMN_END !in t
    ensures LastColumn(s) == t
  {
    var m := |pre| - 1;
    forall k | m < k <= |s| - 3 ensures s[k] != COLUMN_END {
      assert s[k] == t[k - |pre|];
    }
    ScanBackIs(s, |s| - 3, m);
    assert s[m + 1..|s| - 2] == t;
  }

  lemma {:induction false} ScanBackIs(s: string, p: nat, m: nat)
    requires m <= p < |s| && s[m] == COLUMN_END && forall k :: m < k <= p ==> s[k] != COLUMN_END
    ensures COLUMN_END in s[..p + 1] && ScanBack(s, p) == m
  {
    assert s[..p + 1][m] == COLUMN_END;
  }

  /**
   * The scan recovers the last column of the last row if and only if that column does not
   * contain the column mark itself; the other columns may.
   */
  lemma LastColumnIff(rows: seq<User>)
    requires rows != [] && TableOk(rows)
    ensures Scannable(EncodedRows(rows))
    ensures LastColumn(EncodedRows(rows)) == rows[|rows| - 1].passwd <==> COLUMN_END !in rows[|rows| - 1].passwd
  {
    LastColumnExact(rows);
  }

  // ---------- Commands ----------

  datatype Command = Command(op: int, name: string, passwd: string, deviceId: string, p2pId: string)

  /** Three fields leave device_id and p2p_id empty. */
  function ToCommand(f: Fields): Command
    requires |f| == 3 || |f| == 6
  {
    Command(Atoi(f[0]), f[1], f[2], if |f| == 6 then f[3] else "", if |f| == 6 then f[4] else "")
  }

  predicate IsDigit(c: char) { '0' <= c <= '9' }

  function DigitOf(c: char): (d: nat)
    requires IsDigit(c)
    ensures d < 10 && "0123456789"[d] == c
  {
    c as int - '0' as int
  }

  /** atoi: leading white space, an optional sign, then digits up to the first other character. */
  function Atoi(s: string): int {
    if s != "" && IsSpace(s[0]) then Atoi(s[1..])
    else if s != "" && s[0] == '-' then 0 - Digits(s[1..], 0)
    else if s != "" && s[0] == '+' then Digits(s[1..], 0)
    else Digits(s, 0)
  }

  function Digits(s: string, n: nat): nat {
    if s != "" && IsDigit(s[0]) then Digits(s[1..], 10 * n + DigitOf(s[0])) else n
  }

  /** The number that a row of decimal digits writes, behind the digits of n. */
  function Decimal(n: nat, digits: string): nat
    requires forall c :: c in digits ==> IsDigit(c)
  {
    if digits == "" then n
    else 10 * Decimal(n, digits[..|digits| - 1]) + DigitOf(digits[|digits| - 1])
  }

  lemma {:induction false} DecimalFront(n: nat, digits: string)
    requires digits != "" && forall c :: c in digits ==> IsDigit(c)
    ensures Decimal(n, digits) == Decimal(10 * n + DigitOf(digits[0]), digits[1..])
    decreases |digits|
  {
    if |digits| > 1 {
      var front := digits[..|digits| - 1];
      DecimalFront(n, front);
      assert digits[1..][..|digits| - 2] == front[1..];
    } else {
      assert digits[..0] == "" && digits[1..] == "";
    }
  }

  lemma {:induction false} DigitsRead(digits: string, rest: string, n: nat)
    requires (forall c :: c in digits ==> IsDigit(c)) && (rest == "" || !IsDigit(rest[0]))
    ensures Digits(digits + rest, n) == Decimal(n, digits)
    decreases |digits|
  {
    if digits == "" {
      assert digits + rest == rest;
    } else {
      assert digits[0] in digits && (digits + rest)[1..] == digits[1..] + rest;
      DigitsRead(digits[1..], rest, 10 * n + DigitOf(digits[0]));
      DecimalFront(n, digits);
    }
  }

  lemma {:induction false} AtoiSkipsBlank(blank: string, s: string)
    requires Blank(blank)
    ensures Atoi(blank + s) == Atoi(s)
    decreases |blank|
  {
    if blank == "" {
      assert blank + s == s;
    } else {
      AtoiSkipsBlank(blank[1..], s);
      assert (blank + s)[1..] == blank[1..] + s;
    }
  }

  /** atoi reads the decimal number behind white space and a sign, up to the first other character. */
  lemma AtoiReads(blank: string, digits: string, rest: string)
    requires Blank(blank) && digits != "" && (forall c :: c in digits ==> IsDigit(c))
    requires rest == "" || !IsDigit(rest[0])
    ensures Atoi(blank + (digits + rest)) == Decimal(0, digits)
    ensures Atoi(blank + ("-" + (digits + rest))) == 0 - Decimal(0, digits)
    ensures Atoi(blank + ("+" + (digits + rest))) == Decimal(0, digits)
  {
    var d := digits + rest;
    AtoiSkipsBlank(blank, d);
    AtoiSkipsBlank(blank, "-" + d);
    AtoiSkipsBlank(blank, "+" + d);
    assert digits[0] in digits && d[0] == digits[0];
    assert ("-" + d)[1..] == d && ("+" + d)[1..] == d;
    DigitsRead(digits, rest, 0);
  }

  /** SELECT * FROM user_info WHERE name = ... */
  function Matching(users: seq<User>, name: string): (rows: seq<User>)
    ensures forall u :: u in rows ==> u in users && u.name == name
  {
    if users == [] then []
    else Matching(users[..|users| - 1], name) + (if users[|users| - 1].name == name then [users[|users| - 1]] else [])
  }

  /** Every row of that name, and no other, in the order of the table. */
  lemma MatchingParts(users: seq<User>, u: User, name: string)
    ensures Matching([], name) == []
    ensures Matching(users + [u], name) == Matching(users, name) + (if u.name == name then [u] else [])
  {
    assert (users + [u])[..|users|] == users;
  }

  /** What SelectData returns: empty when the query fails. */
  function Selected(db: Db, name: string, o: Outcome): string {
    if o.selectOk then EncodedRows(Matching(db.users, name)) else ""
  }

  /** UPDATE user_info SET passwd = ... WHERE name = ... */
  function Updated(users: seq<User>, name: string, passwd: string): seq<User> {
    if users == [] then []
    else
      var u := users[|users| - 1];
      Updated(users[..|users| - 1], name, passwd) + [if u.name == name then u.(passwd := passwd) else u]
  }

  /** Only the passwords of that name change. */
  lemma {:induction false} UpdatedRows(users: seq<User>, name: string, passwd: string)
    ensures |Updated(users, name, passwd)| == |users|
    ensures forall i :: 0 <= i < |users| ==>
      var u := users[i];
      Updated(users, name, passwd)[i] == User(u.id, u.name, if u.name == name then passwd else u.passwd)
  {
    if users != [] {
      UpdatedRows(users[..|users| - 1], name, passwd);
    }
  }

  /** An INSERT goes to user_info instead of device_info. */
  predicate Registers(c: Command) {
    c.op == INSERT && (c.name == ANY || c.deviceId == ANY)
  }

  ghost predicate DbOk(db: Db) {
    TableOk(db.users)
  }

  predicate CommandOk(c: Command) {
    NUL !in c.name && NUL !in c.passwd
  }

  lemma SelectedScannable(db: Db, name: string, o: Outcome)
    requires DbOk(db)
    ensures Selected(db, name, o) == "" <==> !o.selectOk || Matching(db.users, name) == []
    ensures Selected(db, name, o) != "" ==> Scannable(Selected(db, name, o))
  {
    var rows := Matching(db.users, name);
    if rows != [] {
      var front := EncodedSplit(rows);
    }
  }

  /** One command under mutex_: the new tables and the reply, if any. */
  function Execute(db: Db, c: Command, ip: string, o: Outcome): (Db, Option<string>)
    requires DbOk(db)
  {
    var found := Selected(db, c.name, o);
    if c.op == INSERT then
      if !Registers(c) then
        if o.writeOk then (db.(devices := db.devices + [Device(c.name, c.deviceId, c.p2pId, ip)]), Some(OK))
        else (db, Some(WRITE_FAILED))
      else if found != "" then (db, Some(EXISTS))
      else if o.writeOk then (db.(users := db.users + [User(o.id, c.name, c.passwd)]), Some(OK))
      else (db, Some(WRITE_FAILED))
    else if c.op == SELECT then
      SelectedScannable(db, c.name, o);
      (db, Some(if found == "" then EXISTS else if LastColumn(found) == c.passwd then OK else REFUSED))
    else if c.op == UPDATE then
      if o.writeOk then (db.(users := Updated(db.users, c.name, c.passwd)), Some(OK)) else (db, Some(REFUSED))
    else if c.op == DELETE then (db, None)
    else (db, Some(REFUSED))
  }

  // ---------- The dictionary that the tables implement ----------

  type Dictionary = map<string, string>

  function Dict(users: seq<User>): Dictionary {
    if users == [] then map[]
    else Dict(users[..|users| - 1])[users[|users| - 1].name := users[|users| - 1].passwd]
  }

  function DictNext(d: Dictionary, c: Command, o: Outcome): Dictionary {
    if !o.writeOk then d
    else if Registers(c) && !(o.selectOk && c.name in d) then d[c.name := c.passwd]
    else if c.op == UPDATE && c.name in d then d[c.name := c.passwd]
    else d
  }

  /** What the client is told, for a look-up that did or did not find a row with that password. */
  function ReplyFor(known: bool, passwd: string, c: Command, o: Outcome): Option<string> {
    if c.op == DELETE then None
    else Some(
      if c.op == SELECT then if !known then EXISTS else if passwd == c.passwd then OK else REFUSED
      else if Registers(c) && known then EXISTS
      else if c.op == INSERT then if o.writeOk then OK else WRITE_FAILED
      else if c.op == UPDATE && o.writeOk then OK
      else REFUSED)
  }

  /** The reply that the dictionary calls for. A failed look-up reads like an empty one. */
  function DictReply(d: Dictionary, c: Command, o: Outcome): Option<string> {
    ReplyFor(o.selectOk && c.name in d, if c.name in d then d[c.name] else "", c, o)
  }

  lemma {:induction false} MatchingDict(users: seq<User>, name: string)
    ensures var rows := Matching(users, name);
      && (rows == [] <==> name !in Dict(users))
      && (rows != [] ==> rows[|rows| - 1].passwd == Dict(users)[name])
  {
    if users != [] {
      MatchingDict(users[..|users| - 1], name);
    }
  }

  lemma {:induction false} UpdatedDict(users: seq<User>, name: string, passwd: string)
    ensures Dict(Updated(users, name, passwd)) ==
      if name in Dict(users) then Dict(users)[name := passwd] else Dict(users)
  {
    if users != [] {
      var front, u := users[..|users| - 1], users[|users| - 1];
      UpdatedDict(front, name, passwd);
      DictAppend(Updated(front, name, passwd), if u.name == name then u.(passwd := passwd) else u);
    }
  }

  lemma {:induction false} UpdatedNames(users: seq<User>, name: string, passwd: string)
    ensures |Updated(users, name, passwd)| == |users|
    ensures forall i :: 0 <= i < |users| ==> Updated(users, name, passwd)[i].name == users[i].name
  {
    if users != [] {
      UpdatedNames(users[..|users| - 1], name, passwd);
    }
  }

  lemma {:induction false} UpdatedTableOk(users: seq<User>, name: string, passwd: string)
    requires TableOk(users) && NUL !in passwd
    ensures TableOk(Updated(users, name, passwd))
  {
    if users != [] {
      assert NulFree(users[|users| - 1]);
      UpdatedTableOk(users[..|users| - 1], name, passwd);
    }
  }

  /** One command refines one step of the dictionary ... */
  lemma ExecuteRefines(db: Db, c: Command, ip: string, o: Outcome)
    requires DbOk(db) && CommandOk(c) && NUL !in o.id
    ensures var (db', reply) := Execute(db, c, ip, o);
      DbOk(db') && Dict(db'.users) == DictNext(Dict(db.users), c, o) && (reply.None? <==> c.op == DELETE)
  {
    if c.op == UPDATE {
      UpdatedDict(db.users, c.name, c.passwd);
      UpdatedTableOk(db.users, c.name, c.passwd);
    } else if Registers(c) {
      MatchingDict(db.users, c.name);
      SelectedScannable(db, c.name, o);
      AddedUser(db.users, User(o.id, c.name, c.passwd));
    }
  }

  lemma AddedUser(users: seq<User>, u: User)
    requires TableOk(users) && NulFree(u)
    ensures TableOk(users + [u])
    ensures Dict(users + [u]) == Dict(users)[u.name := u.passwd]
  {
    DictAppend(users, u);
  }

  lemma DictAppend(users: seq<User>, u: User)
    ensures Dict(users + [u]) == Dict(users)[u.name := u.passwd]
  {
    assert (users + [u])[..|users|] == users;
  }

  /** The dictionary as the backward scan reads it. */
  function AsScanned(d: Dictionary): Dictionary {
    map name | name in d :: AfterMark(d[name])
  }

  /** ... and for every table the reply is that of the dictionary as the scan reads it. */
  lemma ReplyRefines(db: Db, c: Command, ip: string, o: Outcome)
    requires DbOk(db)
    ensures Execute(db, c, ip, o).1 == DictReply(AsScanned(Dict(db.users)), c, o)
  {
    LookupFinds(db, c.name, o);
    ExecuteReplies(db, c, ip, o);
    assert forall p, q :: ReplyFor(false, p, c, o) == ReplyFor(false, q, c, o);
  }

  lemma ExecuteReplies(db: Db, c: Command, ip: string, o: Outcome)
    requires DbOk(db)
    ensures var found := Selected(db, c.name, o);
      && (found != "" ==> Scannable(found))
      && Execute(db, c, ip, o).1 == ReplyFor(found != "", if found != "" then LastColumn(found) else "", c, o)
  {
    SelectedScannable(db, c.name, o);
  }

  /** A look-up is non-empty for a known name, and the scan reads its password as the dictionary has it. */
  lemma LookupFinds(db: Db, name: string, o: Outcome)
    requires DbOk(db)
    ensures Selected(db, name, o) != "" <==> o.selectOk && name in Dict(db.users)
    ensures Selected(db, name, o) != "" ==>
      Scannable(Selected(db, name, o)) && LastColumn(Selected(db, name, o)) == AfterMark(Dict(db.users)[name])
  {
    MatchingDict(db.users, name);
    SelectedScannable(db, name, o);
    var rows := Matching(db.users, name);
    if rows != [] {
      assert rows[|rows| - 1] in rows;
      LastColumnExact(rows);
    }
  }

  /** A SELECT submits, for a stored password with a column mark, that password or what the scan makes of it. */
  predicate Misread(d: Dictionary, c: Command, o: Outcome) {
    && c.op == SELECT && o.selectOk && c.name in d
    && COLUMN_END in d[c.name] && (c.passwd == d[c.name] || c.passwd == AfterMark(d[c.name]))
  }

  /** The reply is that of the dictionary itself if and only if it is not to a misread SELECT. */
  lemma ReplyIffNotMisread(db: Db, c: Command, ip: string, o: Outcome)
    requires DbOk(db)
    ensures Execute(db, c, ip, o).1 == DictReply(Dict(db.users), c, o) <==> !Misread(Dict(db.users), c, o)
  {
    ReplyRefines(db, c, ip, o);
    ScannedReply(Dict(db.users), c, o);
  }

  lemma ScannedReply(d: Dictionary, c: Command, o: Outcome)
    ensures DictReply(AsScanned(d), c, o) == DictReply(d, c, o) <==> !Misread(d, c, o)
  {
  }

  // ---------- Any interleaving of commands ----------

  /** Commands hold mutex_ from start to end, so a run of all workers is one sequence of them. */
  datatype Event = Event(command: Command, ip: string, outcome: Outcome)

  predicate EventOk(e: Event) {
    CommandOk(e.command) && NUL !in e.outcome.id
  }

  ghost predicate EventsOk(events: seq<Event>) {
    forall e :: e in events ==> EventOk(e)
  }

  /** The tables after a sequence of events. */
  ghost function RunOn(db: Db, events: seq<Event>): (after: Db)
    requires DbOk(db) && EventsOk(events)
    ensures DbOk(after)
  {
    if events == [] then db
    else
      var e := events[|events| - 1];
      var before := RunOn(db, events[..|events| - 1]);
      assert EventOk(e);
      ExecuteRefines(before, e.command, e.ip, e.outcome);
      Execute(before, e.command, e.ip, e.outcome).0
  }

  lemma RunOnOneMore(db: Db, events: seq<Event>, e: Event)
    requires DbOk(db) && EventsOk(events) && EventOk(e)
    ensures EventsOk(events + [e])
    ensures RunOn(db, events + [e]) == Execute(RunOn(db, events), e.command, e.ip, e.outcome).0
  {
    assert (events + [e])[..|events|] == events;
  }

  lemma {:induction false} RunOnMore(db: Db, events: seq<Event>, more: seq<Event>)
    requires DbOk(db) && EventsOk(events) && EventsOk(more)
    ensures EventsOk(events + more)
    ensures RunOn(db, events + more) == RunOn(RunOn(db, events), more)
    decreases |more|
  {
    if more == [] {
      assert events + more == events;
    } else {
      var front, e := more[..|more| - 1], more[|more| - 1];
      assert events + more == (events + front) + [e];
      RunOnMore(db, events, front);
      assert EventOk(e);
      RunOnOneMore(db, events + front, e);
    }
  }

  /** The tables after a sequence of events on empty tables. */
  ghost function After(events: seq<Event>): (db: Db)
    requires EventsOk(events)
    ensures DbOk(db)
  {
    RunOn(Db([], []), events)
  }

  lemma AfterOneMore(events: seq<Event>, e: Event)
    requires EventsOk(events) && EventOk(e)
    ensures EventsOk(events + [e])
    ensures After(events + [e]) == Execute(After(events), e.command, e.ip, e.outcome).0
  {
    RunOnOneMore(Db([], []), events, e);
  }

  /**
   * The password last set for a name, read off the history alone: by the latest successful
   * UPDATE after a successful registering INSERT, or by that INSERT.
   */
  function LastSet(events: seq<Event>, name: string): Option<string> {
    if events == [] then None
    else
      var e := events[|events| - 1];
      var before := LastSet(events[..|events| - 1], name);
      if e.command.name != name || !e.outcome.writeOk then before
      else if Registers(e.command) && (before == None || !e.outcome.selectOk) then Some(e.command.passwd)
      else if e.command.op == UPDATE && before != None then Some(e.command.passwd)
      else before
  }

  lemma {:induction false} AfterRefines(events: seq<Event>, name: string)
    requires EventsOk(events)
    ensures LastSet(events, name) == if name in Dict(After(events).users) then Some(Dict(After(events).users)[name]) else None
  {
    if events != [] {
      var front, e := events[..|events| - 1], events[|events| - 1];
      AfterRefines(front, name);
      assert EventOk(e);
      ExecuteRefines(After(front), e.command, e.ip, e.outcome);
    }
  }

  /** The reply that the history alone calls for. */
  function HistoryReply(events: seq<Event>, c: Command, o: Outcome): Option<string> {
    var d := match LastSet(events, c.name) case None => map[] case Some(p) => map[c.name := p];
    DictReply(AsScanned(d), c, o)
  }

  /**
   * Whatever commands have been executed in whatever order by whatever workers, every reply
   * follows from the history: from the password last set for the name, as the scan reads it.
   */
  lemma ReplyFollowsHistory(events: seq<Event>, c: Command, ip: string, o: Outcome)
    requires EventsOk(events)
    ensures Execute(After(events), c, ip, o).1 == HistoryReply(events, c, o)
  {
    AfterRefines(events, c.name);
    ReplyRefines(After(events), c, ip, o);
    var d := match LastSet(events, c.name) case None => map[] case Some(p) => map[c.name := p];
    ReplyIsLocal(Dict(After(events).users), d, c, o);
  }

  lemma ReplyIsLocal(d: Dictionary, e: Dictionary, c: Command, o: Outcome)
    requires c.name in d <==> c.name in e
    requires c.name in d ==> d[c.name] == e[c.name]
    ensures DictReply(AsScanned(d), c, o) == DictReply(AsScanned(e), c, o)
  {
  }

  /**
   * A SELECT that reaches MySQL answers e1:fail when no password was ever set for the name;
   * otherwise it answers f0:ok or e3:fail by comparing with the password last set, if and
   * only if that password has no 0x06 or the submitted one is neither it nor what stands
   * behind its last 0x06.
   */
  lemma SelectAnswersLastSet(events: seq<Event>, c: Command, ip: string, o: Outcome)
    requires EventsOk(events) && c.op == SELECT && o.selectOk
    ensures var reply := Execute(After(events), c, ip, o).1;
      match LastSet(events, c.name)
      case None => reply == Some(EXISTS)
      case Some(p) =>
        && reply == Some(if AfterMark(p) == c.passwd then OK else REFUSED)
        && (reply == Some(if p == c.passwd then OK else REFUSED) <==>
             COLUMN_END !in p || (c.passwd != p && c.passwd != AfterMark(p)))
  {
    ReplyFollowsHistory(events, c, ip, o);
  }

  /** A registration of `name` whose look-up and write have the given outcome. */
  function Registration(name: string, passwd: string, selectOk: bool): Event {
    Event(Command(INSERT, name, passwd, ANY, ""), "", Outcome(selectOk, true, ""))
  }

  /** A password that was never set is accepted, and the one that was is refused. */
  lemma WrongPasswordAccepted()
    ensures var events := [Registration("n", "a\U{06}b", true)];
      var select := (passwd: string) => Command(SELECT, "n", passwd, "", "");
      var o := Outcome(true, true, "");
      && EventsOk(events) && LastSet(events, "n") == Some("a\U{06}b")
      && Execute(After(events), select("b"), "", o).1 == Some(OK)
      && Execute(After(events), select("a\U{06}b"), "", o).1 == Some(REFUSED)
  {
    var pw := "a\U{06}b";
    var events := [Registration("n", pw, true)];
    var o := Outcome(true, true, "");
    assert LastSet(events[..0], "n") == None;
    assert pw[1] == COLUMN_END && AfterMark(pw) == "b" by {
      assert pw[..2] == ['a', COLUMN_END] && AfterMark(pw[..2]) == "";
    }
    SelectAnswersLastSet(events, Command(SELECT, "n", "b", "", ""), "", o);
    SelectAnswersLastSet(events, Command(SELECT, "n", pw, "", ""), "", o);
  }

  // ---------- What the tables hold ----------

  /** The devices of the successful INSERTs that are not registrations, in order. */
  function DevicesInserted(events: seq<Event>): seq<Device> {
    if events == [] then []
    else
      var e := events[|events| - 1];
      var c := e.command;
      DevicesInserted(events[..|events| - 1]) +
      if c.op == INSERT && !Registers(c) && e.outcome.writeOk then [Device(c.name, c.deviceId, c.p2pId, e.ip)] else []
  }

  /** The i-th event adds a row for its name. */
  predicate AddsUser(events: seq<Event>, i: int)
    requires 0 <= i < |events|
  {
    var e := events[i];
    Registers(e.command) && e.outcome.writeOk && !(e.outcome.selectOk && LastSet(events[..i], e.command.name) != None)
  }

  /** The names of the events that add a row, in order. */
  function NamesRegistered(events: seq<Event>): seq<string> {
    if events == [] then []
    else
      var n := |events| - 1;
      NamesRegistered(events[..n]) + if AddsUser(events, n) then [events[n].command.name] else []
  }

  function Names(users: seq<User>): seq<string> {
    seq(|users|, i requires 0 <= i < |users| => users[i].name)
  }

  /** Over any history the tables hold, in order, the inserted devices and the registered names. */
  lemma {:induction false} TablesAfter(events: seq<Event>)
    requires EventsOk(events)
    ensures After(events).devices == DevicesInserted(events)
    ensures Names(After(events).users) == NamesRegistered(events)
  {
    if events != [] {
      var front, e := events[..|events| - 1], events[|events| - 1];
      TablesAfter(front);
      AfterRefines(front, e.command.name);
      NamesStep(After(front), e.command, e.ip, e.outcome);
    }
  }

  lemma NamesStep(db: Db, c: Command, ip: string, o: Outcome)
    requires DbOk(db)
    ensures Names(Execute(db, c, ip, o).0.users) == Names(db.users) +
      if Registers(c) && o.writeOk && !(o.selectOk && c.name in Dict(db.users)) then [c.name] else []
  {
    MatchingDict(db.users, c.name);
    SelectedScannable(db, c.name, o);
    UpdatedNames(db.users, c.name, c.passwd);
  }

  // ---------- Names stay distinct ----------

  predicate NamesDistinct(users: seq<User>) {
    forall i, j :: 0 <= i < j < |users| ==> users[i].name != users[j].name
  }

  lemma {:induction false} NamesInDict(users: seq<User>, name: string)
    ensures name in Dict(users) <==> exists i :: 0 <= i < |users| && users[i].name == name
  {
    if users != [] {
      var n := |users| - 1;
      NamesInDict(users[..n], name);
      if name in Dict(users[..n]) {
        var i :| 0 <= i < n && users[..n][i].name == name;
        assert users[i].name == name;
      }
      if i :| 0 <= i < |users| && users[i].name == name {
        if i < n {
          assert users[..n][i].name == name;
        }
      }
    }
  }

  /**
   * A command keeps names pairwise distinct if and only if it is not a registration whose
   * look-up failed, for a name that is taken, and whose write succeeded: a failed look-up
   * is indistinguishable from an empty one.
   */
  lemma NamesStayDistinctIff(db: Db, c: Command, ip: string, o: Outcome)
    requires DbOk(db) && NamesDistinct(db.users)
    ensures NamesDistinct(Execute(db, c, ip, o).0.users)
       <==> !(Registers(c) && !o.selectOk && o.writeOk && c.name in Dict(db.users))
  {
    MatchingDict(db.users, c.name);
    SelectedScannable(db, c.name, o);
    NamesInDict(db.users, c.name);
    var users := Execute(db, c, ip, o).0.users;
    if c.op == UPDATE {
      UpdatedNames(db.users, c.name, c.passwd);
    } else if |users| > |db.users| {
      assert users[|db.users|].name == c.name;
      if i :| 0 <= i < |db.users| && db.users[i].name == c.name {
        assert users[i].name == users[|db.users|].name;
      }
    }
  }

  /** Duplicates are never removed. */
  lemma DuplicatesStay(db: Db, c: Command, ip: string, o: Outcome)
    requires DbOk(db) && !NamesDistinct(db.users)
    ensures !NamesDistinct(Execute(db, c, ip, o).0.users)
  {
    var i, j :| 0 <= i < j < |db.users| && db.users[i].name == db.users[j].name;
    UpdatedNames(db.users, c.name, c.passwd);
    var users := Execute(db, c, ip, o).0.users;
    assert users[i].name == users[j].name;
  }

  /** The i-th event registers a taken name past a failed look-up. */
  predicate RegistersTwice(events: seq<Event>, i: int)
    requires 0 <= i < |events|
  {
    var e := events[i];
    Registers(e.command) && !e.outcome.selectOk && e.outcome.writeOk && LastSet(events[..i], e.command.name) != None
  }

  /** After any history names are pairwise distinct if and only if no event registered one twice. */
  lemma {:induction false} NamesDistinctIff(events: seq<Event>)
    requires EventsOk(events)
    ensures NamesDistinct(After(events).users) <==> forall i :: 0 <= i < |events| ==> !RegistersTwice(events, i)
  {
    if events != [] {
      var n := |events| - 1;
      var front, e := events[..n], events[n];
      NamesDistinctIff(front);
      forall i | 0 <= i < n ensures RegistersTwice(events, i) <==> RegistersTwice(front, i) {
        assert events[..i] == front[..i];
      }
      AfterRefines(front, e.command.name);
      assert RegistersTwice(events, n) <==>
        Registers(e.command) && !e.outcome.selectOk && e.outcome.writeOk && e.command.name in Dict(After(front).users);
      assert After(events) == Execute(After(front), e.command, e.ip, e.outcome).0;
      if NamesDistinct(After(front).users) {
        NamesStayDistinctIff(After(front), e.command, e.ip, e.outcome);
      } else {
        DuplicatesStay(After(front), e.command, e.ip, e.outcome);
      }
    }
  }

  /** Two registrations of one name, the second past a failed look-up, leave two rows. */
  lemma NameRegisteredTwice()
    ensures var events := [Registration("n", "p", true), Registration("n", "q", false)];
      EventsOk(events) && !NamesDistinct(After(events).users)
  {
    var events := [Registration("n", "p", true), Registration("n", "q", false)];
    assert events[..1] == [events[0]] && LastSet([events[0]][..0], "n") == None;
    assert LastSet(events[..1], "n") == Some("p");
    assert RegistersTwice(events, 1);
    NamesDistinctIff(events);
  }
}
