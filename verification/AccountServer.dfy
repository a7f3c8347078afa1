/** start_routine (worker_threads.cc) and SelectData (printertomysql.cpp) as they run. */
module AccountServer {
  import opened Text
  import opened Splitting
  import opened Framing
  import opened CommandCodec
  import opened CommandReads
  import opened Accounts

  const BUFSIZE := 1024

  // ---------- Serving the requests of one read, on values ----------

  predicate RightSize(f: Fields) {
    |f| == 3 || |f| == 6
  }

  /**
   * The requests of one read. mutex_ is free between them: others(i) are the commands that
   * other workers execute just before the i-th request, which meets the outcome os(i).
   */
  ghost function ServeAll(db: Db, requests: seq<Fields>, ip: string, os: nat -> Outcome, others: nat -> seq<Event>, i: nat)
    : (r: (Db, seq<string>))
    requires DbOk(db) && Servable(requests) && CleanIds(os) && CleanOthers(others)
    ensures DbOk(r.0) && AllBytes(r.1)
    decreases |requests|
  {
    if requests == [] then (db, [])
    else
      assert requests[0] in requests;
      var (db1, first) := ServeOne(RunOn(db, others(i)), requests[0], ip, os(i));
      var (db2, rest) := ServeAll(db1, requests[1..], ip, os, others, i + 1);
      (db2, first + rest)
  }

  /** No field that reaches a statement contains NUL. */
  ghost predicate Servable(requests: seq<Fields>) {
    forall f :: f in requests && RightSize(f) ==> CommandOk(ToCommand(f))
  }

  ghost predicate CleanIds(os: nat -> Outcome) {
    forall k: nat :: NUL !in os(k).id
  }

  ghost predicate CleanOthers(others: nat -> seq<Event>) {
    forall k: nat :: EventsOk(others(k))
  }

  predicate AllBytes(replies: seq<string>) {
    forall r :: r in replies ==> IsBytes(r)
  }

  /** Every reply xored with the key, as WriteSfd gets it. */
  function Masked(replies: seq<string>): seq<string>
    requires AllBytes(replies)
  {
    seq(|replies|, i requires 0 <= i < |replies| => Mask(replies[i]))
  }

  /** Unmasking what is sent gives the replies, one by one. */
  lemma MaskedReplies(replies: seq<string>, i: nat)
    requires AllBytes(replies) && i < |replies|
    ensures |Masked(replies)| == |replies| && IsBytes(Masked(replies)[i]) && Mask(Masked(replies)[i]) == replies[i]
  {
    MaskTwice(replies[i]);
  }

  lemma MaskedAppend(a: seq<string>, b: seq<string>)
    requires AllBytes(a) && AllBytes(b)
    ensures AllBytes(a + b) && Masked(a + b) == Masked(a) + Masked(b)
  {
  }

  lemma RepliesAreBytes()
    ensures IsBytes(OK) && IsBytes(EXISTS) && IsBytes(WRITE_FAILED) && IsBytes(REFUSED) && IsBytes("")
  {
  }

  /** The peer's address is looked up for six fields only; for three it stays empty. */
  function IpFor(f: Fields, ip: string): string {
    if |f| == 6 then ip else ""
  }

  /** A request of any other size is answered e3:fail; a DELETE is not answered at all. */
  function ServeOne(db: Db, f: Fields, ip: string, o: Outcome): (r: (Db, seq<string>))
    requires DbOk(db) && (RightSize(f) ==> CommandOk(ToCommand(f))) && NUL !in o.id
    ensures DbOk(r.0) && AllBytes(r.1)
  {
    RepliesAreBytes();
    if RightSize(f) then
      ExecuteRefines(db, ToCommand(f), IpFor(f, ip), o);
      var (db1, reply) := Execute(db, ToCommand(f), IpFor(f, ip), o);
      (db1, if reply == None then [] else [reply.value])
    else (db, [REFUSED])
  }

  lemma ServeOneIs(db: Db, f: Fields, ip: string, o: Outcome)
    requires DbOk(db) && RightSize(f) && CommandOk(ToCommand(f)) && NUL !in o.id
    ensures ServeOne(db, f, ip, o).0 == Execute(db, ToCommand(f), IpFor(f, ip), o).0
    ensures ServeOne(db, f, ip, o).1 == match Execute(db, ToCommand(f), IpFor(f, ip), o).1
      case None => [] case Some(reply) => [reply]
  {
  }

  function Unanswered(requests: seq<Fields>): nat {
    if requests == [] then 0
    else (if RightSize(requests[0]) && ToCommand(requests[0]).op == DELETE then 1 else 0) + Unanswered(requests[1..])
  }

  /** One reply per request, in order, except for DELETE. */
  lemma {:induction false} OneReplyEach(db: Db, requests: seq<Fields>, ip: string, os: nat -> Outcome,
                                        others: nat -> seq<Event>, i: nat)
    requires DbOk(db) && Servable(requests) && CleanIds(os) && CleanOthers(others)
    ensures |ServeAll(db, requests, ip, os, others, i).1| + Unanswered(requests) == |requests|
    decreases |requests|
  {
    if requests != [] {
      assert requests[0] in requests;
      var db0 := RunOn(db, others(i));
      if RightSize(requests[0]) {
        ExecuteRefines(db0, ToCommand(requests[0]), IpFor(requests[0], ip), os(i));
      }
      OneReplyEach(ServeOne(db0, requests[0], ip, os(i)).0, requests[1..], ip, os, others, i + 1);
    }
  }

  // ---------- The replies of one read, from the history of all workers ----------

  /** The commands of all workers up to and including request i. */
  function HistoryWith(events: seq<Event>, f: Fields, ip: string, o: Outcome): seq<Event> {
    if RightSize(f) then events + [Event(ToCommand(f), IpFor(f, ip), o)] else events
  }

  /** `events`, then the read's requests, each after what the other workers did before it. */
  function Merged(events: seq<Event>, requests: seq<Fields>, ip: string, os: nat -> Outcome,
                  others: nat -> seq<Event>, i: nat): seq<Event>
    decreases |requests|
  {
    if requests == [] then events
    else Merged(HistoryWith(events + others(i), requests[0], ip, os(i)), requests[1..], ip, os, others, i + 1)
  }

  /** Each request's reply, read off the merged history up to it and nothing else. */
  function RepliesByHistory(events: seq<Event>, requests: seq<Fields>, ip: string, os: nat -> Outcome,
                            others: nat -> seq<Event>, i: nat): seq<string>
    decreases |requests|
  {
    if requests == [] then []
    else
      var f, h := requests[0], events + others(i);
      (if !RightSize(f) then [REFUSED]
       else match HistoryReply(h, ToCommand(f), os(i)) case None => [] case Some(reply) => [reply]) +
      RepliesByHistory(HistoryWith(h, f, ip, os(i)), requests[1..], ip, os, others, i + 1)
  }

  lemma ServeOneByHistory(events: seq<Event>, f: Fields, ip: string, o: Outcome)
    requires EventsOk(events) && (RightSize(f) ==> CommandOk(ToCommand(f))) && NUL !in o.id
    ensures EventsOk(HistoryWith(events, f, ip, o))
    ensures ServeOne(After(events), f, ip, o) == (After(HistoryWith(events, f, ip, o)),
      if !RightSize(f) then [REFUSED]
      else match HistoryReply(events, ToCommand(f), o) case None => [] case Some(reply) => [reply])
  {
    if RightSize(f) {
      var c := ToCommand(f);
      ServeOneIs(After(events), f, ip, o);
      ReplyFollowsHistory(events, c, IpFor(f, ip), o);
      AfterOneMore(events, Event(c, IpFor(f, ip), o));
    }
  }

  /**
   * Any interleaving of one read's requests with the other workers' commands: the tables end
   * as the merged history leaves them, and every reply is the one that history calls for.
   */
  lemma {:induction false} ReadServedByHistory(events: seq<Event>, requests: seq<Fields>, ip: string,
                                               os: nat -> Outcome, others: nat -> seq<Event>, i: nat)
    requires EventsOk(events) && Servable(requests) && CleanIds(os) && CleanOthers(others)
    ensures EventsOk(Merged(events, requests, ip, os, others, i))
    ensures ServeAll(After(events), requests, ip, os, others, i)
         == (After(Merged(events, requests, ip, os, others, i)), RepliesByHistory(events, requests, ip, os, others, i))
    decreases |requests|
  {
    if requests != [] {
      var f := requests[0];
      assert f in requests;
      RunOnMore(Db([], []), events, others(i));
      ServeOneByHistory(events + others(i), f, ip, os(i));
      ReadServedByHistory(HistoryWith(events + others(i), f, ip, os(i)), requests[1..], ip, os, others, i + 1);
    }
  }

  /**
   * From the client's field lists to the replies: commands of three or six representable
   * fields, encoded and masked, are served exactly as the commands themselves.
   */
  lemma EncodedCommandsAreServed(db: Db, commands: seq<Fields>, ip: string, os: nat -> Outcome, others: nat -> seq<Event>)
    requires DbOk(db) && CommandsOk(commands) && IsBytes(Encode(commands))
    requires forall f :: f in commands ==> RightSize(f) && CommandOk(ToCommand(f))
    requires CleanIds(os) && CleanOthers(others)
    ensures Decode(Mask(Mask(Encode(commands)))) == commands
    ensures |ServeAll(db, commands, ip, os, others, 0).1| + Unanswered(commands) == |commands|
  {
    MaskTwice(Encode(commands));
    DecodeEncodeIff(commands);
    OneReplyEach(db, commands, ip, os, others, 0);
  }

  const LOGIN := "2"  // SELECT, as a field

  /**
   * The login, from the client's bytes to the reply: whatever commands have run before in
   * whatever order, a SELECT for `name` and `passwd`, encoded and masked, is answered e1:fail
   * when no password was ever set for the name, and otherwise by comparing with the password
   * last set as the scan reads it: f0:ok for a wrong password, or e3:fail for the right one,
   * exactly in the cases that SelectAnswersLastSet names.
   */
  lemma LoginAnswered(events: seq<Event>, name: string, passwd: string, ip: string, os: nat -> Outcome,
                      others: nat -> seq<Event>)
    requires EventsOk(events) && CleanIds(os) && CleanOthers(others) && os(0).selectOk
    requires FieldOk(name) && FieldOk(passwd) && NUL !in name && NUL !in passwd
    requires IsBytes(Encode([[LOGIN, name, passwd]]))
    ensures var requests := Decode(Mask(Mask(Encode([[LOGIN, name, passwd]]))));
      && Servable(requests)
      && ServeAll(After(events), requests, ip, os, others, 0).1 == [
           match LastSet(events + others(0), name)
           case None => EXISTS
           case Some(p) => if AfterMark(p) == passwd then OK else REFUSED]
  {
    var fields := [LOGIN, name, passwd];
    DigitIsField();
    LoginDecoded(fields);
    var h := events + others(0);
    RunOnMore(Db([], []), events, others(0));
    ReadServedByHistory(events, [fields], ip, os, others, 0);
    OnlyReply(events, fields, ip, os, others);
    ReplyFollowsHistory(h, ToCommand(fields), ip, os(0));
    SelectAnswersLastSet(h, ToCommand(fields), ip, os(0));
  }

  lemma OnlyReply(events: seq<Event>, f: Fields, ip: string, os: nat -> Outcome, others: nat -> seq<Event>)
    requires RightSize(f) && HistoryReply(events + others(0), ToCommand(f), os(0)) != None
    ensures RepliesByHistory(events, [f], ip, os, others, 0) == [HistoryReply(events + others(0), ToCommand(f), os(0)).value]
  {
    var h := HistoryWith(events + others(0), f, ip, os(0));
    var none: seq<string> := [];
    assert [f][1..] == [] && RepliesByHistory(h, [], ip, os, others, 1) == none;
    var first := [HistoryReply(events + others(0), ToCommand(f), os(0)).value];
    assert first + none == first;
  }

  lemma LoginDecoded(fields: Fields)
    requires fields != [] && IsBytes(Encode([fields])) && forall f :: f in fields ==> FieldOk(f)
    ensures Decode(Mask(Mask(Encode([fields])))) == [fields]
  {
    MaskTwice(Encode([fields]));
    DecodeEncodeIff([fields]);
  }

  lemma DigitIsField()
    ensures FieldOk(LOGIN) && Atoi(LOGIN) == SELECT
  {
    NotContains(LOGIN, SEPARATOR);
    NotContains(LOGIN, CRLF);
    assert Digits(LOGIN[1..], 2) == 2;
  }

  // ---------- The token, over the reads of a connection ----------

  /** The token check fails, and the connection is closed. */
  predicate Rejected(msg: string, verified: bool) {
    |msg| >= TOKEN_LENGTH && !verified && msg[..TOKEN_LENGTH] != TOKEN
  }

  /** The reads that get past the token check, up to one that fails it. */
  function Served(msgs: seq<string>, verified: bool): seq<string>
    decreases |msgs|
  {
    if msgs == [] || Rejected(msgs[0], verified) then []
    else [msgs[0]] + Served(msgs[1..], verified || |msgs[0]| >= TOKEN_LENGTH)
  }

  /** Some read fails the check. */
  predicate Closes(msgs: seq<string>, verified: bool)
    decreases |msgs|
  {
    msgs != [] && (Rejected(msgs[0], verified) || Closes(msgs[1..], verified || |msgs[0]| >= TOKEN_LENGTH))
  }

  /** The first read of at least five bytes starts with the token. */
  predicate Opened(msgs: seq<string>)
    decreases |msgs|
  {
    msgs != [] && if |msgs[0]| >= TOKEN_LENGTH then msgs[0][..TOKEN_LENGTH] == TOKEN else Opened(msgs[1..])
  }

  /** Fewer than five bytes hold no request: CRLF and the separator do not overlap. */
  lemma ShortReadIsEmpty(msg: string)
    ensures Decode(msg) != [] ==> |msg| >= TOKEN_LENGTH
  {
    if Contains(msg, CRLF) && Contains(msg, SEPARATOR) {
      var i, k := FirstAt(msg, CRLF), FirstAt(msg, SEPARATOR);
      assert OccursAt(msg, CRLF, i) && OccursAt(msg, SEPARATOR, k);
      assert msg[i..][0] == '\r' && msg[i..][1] == '\n';
      assert msg[k..][0] == ' ' && msg[k..][1] == ' ' && msg[k..][2] == ' ';
    }
  }

  lemma {:induction false} ServedAll(msgs: seq<string>)
    ensures Served(msgs, true) == msgs && !Closes(msgs, true)
    decreases |msgs|
  {
    if msgs != [] {
      ServedAll(msgs[1..]);
    }
  }

  /**
   * Short reads are let through unchecked, but hold no request: for every sequence of reads
   * the commands that are executed are all of the reads' commands if the first read of at
   * least five bytes starts with the token, and none otherwise.
   */
  lemma {:induction false} GateOverReads(msgs: seq<string>)
    ensures DecodeReads(Served(msgs, false)) == if Opened(msgs) then DecodeReads(msgs) else []
    ensures Closes(msgs, false) <==> !Opened(msgs) && exists m :: m in msgs && |m| >= TOKEN_LENGTH
    decreases |msgs|
  {
    if msgs != [] {
      var m, rest := msgs[0], msgs[1..];
      if |m| < TOKEN_LENGTH {
        ShortReadIsEmpty(m);
        GateOverReads(rest);
        assert msgs == [m] + rest;
      } else if m[..TOKEN_LENGTH] == TOKEN {
        ServedAll(rest);
      } else {
        assert m in msgs;
      }
    }
  }

  /** What the k-th read of a connection meets. */
  function Kth<T>(f: nat -> T, k: nat): T { f(k) }

  ghost predicate AllServable(msgs: seq<string>) {
    forall m :: m in msgs ==> Servable(Decode(m))
  }

  /** Every read meets clean outcomes and clean commands of other workers. */
  ghost predicate AllClean(oss: nat -> nat -> Outcome, otherss: nat -> nat -> seq<Event>) {
    forall k: nat :: CleanIds(Kth(oss, k)) && CleanOthers(Kth(otherss, k))
  }

  /** Serving one read after the other, the first being the k-th of the connection. */
  ghost function ServeRun(db: Db, msgs: seq<string>, ip: string, oss: nat -> nat -> Outcome,
                          otherss: nat -> nat -> seq<Event>, k: nat): (r: (Db, seq<string>))
    requires DbOk(db) && AllServable(msgs) && AllClean(oss, otherss)
    ensures DbOk(r.0) && AllBytes(r.1)
    decreases |msgs|
  {
    if msgs == [] then (db, [])
    else
      assert msgs[0] in msgs;
      var (db1, first) := ServeAll(db, Decode(msgs[0]), ip, Kth(oss, k), Kth(otherss, k), 0);
      Prepend(first, ServeRun(db1, msgs[1..], ip, oss, otherss, k + 1))
  }

  lemma {:induction false} NothingDecodedNothingServed(db: Db, msgs: seq<string>, ip: string, oss: nat -> nat -> Outcome,
                                                       otherss: nat -> nat -> seq<Event>, k: nat)
    requires DbOk(db) && AllServable(msgs) && AllClean(oss, otherss) && DecodeReads(msgs) == []
    ensures ServeRun(db, msgs, ip, oss, otherss, k) == (db, [])
    decreases |msgs|
  {
    if msgs != [] {
      assert Decode(msgs[0]) == [];
      assert ServeAll(db, Decode(msgs[0]), ip, Kth(oss, k), Kth(otherss, k), 0) == (db, []);
      NothingDecodedNothingServed(db, msgs[1..], ip, oss, otherss, k + 1);
    }
  }

  function Unmasked(received: seq<string>): (msgs: seq<string>)
    requires AllBytes(received)
    ensures |msgs| == |received|
  {
    seq(|received|, i requires 0 <= i < |received| => Mask(received[i]))
  }

  /** One more read that gets past the token check. */
  lemma ServeRead(db: Db, done: seq<string>, msgs: seq<string>, verified: bool, ip: string, oss: nat -> nat -> Outcome,
                  otherss: nat -> nat -> seq<Event>, k: nat)
    requires msgs != [] && !Rejected(msgs[0], verified)
    requires DbOk(db) && AllServable(Served(msgs, verified)) && AllClean(oss, otherss)
    ensures Servable(Decode(msgs[0]))
    ensures var rest := Served(msgs[1..], verified || |msgs[0]| >= TOKEN_LENGTH);
      var (db1, first) := ServeAll(db, Decode(msgs[0]), ip, Kth(oss, k), Kth(otherss, k), 0);
      && AllServable(rest)
      && Prepend(done, ServeRun(db, Served(msgs, verified), ip, oss, otherss, k))
         == Prepend(done + first, ServeRun(db1, rest, ip, oss, otherss, k + 1))
  {
    var all, rest := Served(msgs, verified), Served(msgs[1..], verified || |msgs[0]| >= TOKEN_LENGTH);
    assert all == [msgs[0]] + rest && all[0] in all && all[1..] == rest;
    var (db1, first) := ServeAll(db, Decode(msgs[0]), ip, Kth(oss, k), Kth(otherss, k), 0);
    ConcatAssoc(done, first, ServeRun(db1, rest, ip, oss, otherss, k + 1).1);
  }

  function Prepend(replies: seq<string>, r: (Db, seq<string>)): (Db, seq<string>) {
    (r.0, replies + r.1)
  }

  /** Serving the first of the remaining lines. */
  lemma ServeNext(db: Db, done: seq<string>, lines: seq<string>, ip: string, os: nat -> Outcome,
                  others: nat -> seq<Event>, i: nat)
    requires lines != [] && DbOk(db) && Servable(DecodedLines(lines)) && CleanIds(os) && CleanOthers(others)
    ensures RightSize(DecodedLine(lines[0])) ==> CommandOk(ToCommand(DecodedLine(lines[0])))
    ensures Servable(DecodedLines(lines[1..]))
    ensures var (db1, first) := ServeOne(RunOn(db, others(i)), DecodedLine(lines[0]), ip, os(i));
      Prepend(done, ServeAll(db, DecodedLines(lines), ip, os, others, i))
        == Prepend(done + first, ServeAll(db1, DecodedLines(lines[1..]), ip, os, others, i + 1))
  {
    var requests := DecodedLines(lines);
    assert requests[0] in requests && requests[1..] == DecodedLines(lines[1..]);
    var (db1, first) := ServeOne(RunOn(db, others(i)), requests[0], ip, os(i));
    ConcatAssoc(done, first, ServeAll(db1, requests[1..], ip, os, others, i + 1).1);
  }

  // ---------- The code ----------

  /** SelectData: append every column and its mark, row by row. */
  method SelectData(rows: seq<User>) returns (str: string)
    ensures str == EncodedRows(rows)
  {
    str := "";
    var r := 0;
    while r < |rows|
      invariant r <= |rows|
      invariant str == EncodedRows(rows[..r])
    {
      ghost var before := str;
      var row := [rows[r].id, rows[r].name, rows[r].passwd];
      var i := 0;
      while i < 3
        invariant i <= 3
        invariant i == 0 ==> str == before
        invariant i == 1 ==> str == before + (row[0] + [COLUMN_END])
        invariant i == 2 ==> str == before + (row[0] + [COLUMN_END] + row[1] + [COLUMN_END])
        invariant i == 3 ==> str == before + (row[0] + [COLUMN_END] + row[1] + [COLUMN_END] + row[2] + [COLUMN_END])
      {
        str := str + row[i];
        str := str + [COLUMN_END];
        i := i + 1;
      }
      str := str + [ROW_END];
      assert str == before + EncodedRow(rows[r]);
      assert rows[..r + 1][..r] == rows[..r];
      r := r + 1;
    }
    assert rows[..r] == rows;
  }

  /** The pointer loop of the SELECT case. */
  method RecoverPassword(strval: string) returns (passwd: string)
    requires Scannable(strval)
    ensures passwd == LastColumn(strval)
  {
    var p := |strval| - 3;
    assert strval[..|strval| - 3 + 1] == strval[..|strval| - 2];
    while strval[p] != COLUMN_END
      invariant 0 <= p <= |strval| - 3
      invariant COLUMN_END in strval[..p + 1]
      invariant ScanBack(strval, p) == ScanBack(strval, |strval| - 3)
      decreases p
    {
      assert strval[..p + 1] == strval[..p] + [strval[p]];
      p := p - 1;
    }
    passwd := strval[p + 1..];
    passwd := passwd[..|passwd| - 1];
    passwd := passwd[..|passwd| - 1];
  }

  /** readbuf[i] ^= key, for the bytes that were read. */
  method Unmask(readbuf: array<char>, bytes: nat)
    requires bytes <= readbuf.Length && IsBytes(readbuf[..bytes])
    modifies readbuf
    ensures readbuf[..bytes] == Mask(old(readbuf[..bytes]))
  {
    var i := 0;
    assert forall k :: 0 <= k < bytes ==> readbuf[..bytes][k] == readbuf[k];
    while i < bytes
      invariant i <= bytes
      invariant forall k :: 0 <= k < i ==> readbuf[k] == MaskChar(old(readbuf[..bytes])[k])
      invariant forall k :: i <= k < bytes ==> readbuf[k] == old(readbuf[..bytes])[k]
    {
      readbuf[i] := (255 - readbuf[i] as int) as char;
      i := i + 1;
    }
  }

  class Server {
    var db: Db

    constructor ()
      ensures DbOk(db) && db == Db([], [])
    {
      db := Db([], []);
    }

    method Query(name: string, o: Outcome) returns (strval: string)
      ensures strval == Selected(db, name, o)
    {
      if !o.selectOk {
        return "";
      }
      var rows := [];
      var r := 0;
      while r < |db.users|
        invariant r <= |db.users|
        invariant rows == Matching(db.users[..r], name)
      {
        assert db.users[..r + 1][..r] == db.users[..r];
        if db.users[r].name == name {
          rows := rows + [db.users[r]];
        }
        r := r + 1;
      }
      assert db.users[..r] == db.users;
      strval := SelectData(rows);
    }

    /** UPDATE: rows are changed in place. */
    method Update(name: string, passwd: string)
      modifies this
      ensures db == old(db).(users := Updated(old(db.users), name, passwd))
    {
      var users := [];
      var r := 0;
      while r < |db.users|
        invariant r <= |db.users| && db == old(db)
        invariant users == Updated(db.users[..r], name, passwd)
      {
        assert db.users[..r + 1][..r] == db.users[..r];
        var u := db.users[r];
        users := users + [if u.name == name then u.(passwd := passwd) else u];
        r := r + 1;
      }
      assert db.users[..r] == db.users;
      db := db.(users := users);
    }

    /** The switch of start_routine; each case holds mutex_. */
    method Handle(c: Command, ip: string, o: Outcome) returns (reply: Option<string>)
      requires DbOk(db)
      modifies this
      ensures (db, reply) == Execute(old(db), c, ip, o)
    {
      if c.op == INSERT {
        if c.name != ANY && c.deviceId != ANY {
          if o.writeOk {
            db := db.(devices := db.devices + [Device(c.name, c.deviceId, c.p2pId, ip)]);
            return Some(OK);
          }
          return Some(WRITE_FAILED);
        }
        var strval := Query(c.name, o);
        if |strval| != 0 {
          return Some(EXISTS);
        }
        if o.writeOk {
          db := db.(users := db.users + [User(o.id, c.name, c.passwd)]);
          return Some(OK);
        }
        return Some(WRITE_FAILED);
      } else if c.op == SELECT {
        var strval := Query(c.name, o);
        if |strval| == 0 {
          return Some(EXISTS);
        }
        SelectedScannable(db, c.name, o);
        var newPasswd := RecoverPassword(strval);
        return Some(if newPasswd != c.passwd then REFUSED else OK);
      } else if c.op == UPDATE {
        if o.writeOk {
          Update(c.name, c.passwd);
          return Some(OK);
        }
        return Some(REFUSED);
      } else if c.op == DELETE {
        return None;
      }
      return Some(REFUSED);
    }

    /** Commands that other workers execute while this one does not hold mutex_. */
    method Interfere(events: seq<Event>)
      requires DbOk(db) && EventsOk(events)
      modifies this
      ensures DbOk(db) && db == RunOn(old(db), events)
    {
      var i := 0;
      assert events[..0] == [];
      while i < |events|
        invariant i <= |events|
        invariant DbOk(db) && EventsOk(events[..i]) && db == RunOn(old(db), events[..i])
      {
        var e := events[i];
        assert EventOk(e) && events[..i + 1] == events[..i] + [e];
        RunOnOneMore(old(db), events[..i], e);
        var reply := Handle(e.command, e.ip, e.outcome);
        i := i + 1;
      }
      assert events[..i] == events;
    }

    /**
     * start_routine for one read of `bytes` masked bytes, with any commands of other workers
     * before each of its requests: unmask, check the token once, split into lines and fields,
     * execute, reply. `replies` are the masked strings given to WriteSfd.
     */
    method StartRoutine(readbuf: array<char>, bytes: nat, isVerify: bool, ip: string, os: nat -> Outcome,
                        others: nat -> seq<Event>)
      returns (verified: bool, closed: bool, replies: seq<string>)
      requires DbOk(db) && readbuf.Length == BUFSIZE && bytes <= BUFSIZE && IsBytes(readbuf[..bytes])
      requires CleanIds(os) && CleanOthers(others)
      requires var msg := Mask(readbuf[..bytes]); Rejected(msg, isVerify) || Servable(Decode(msg))
      modifies this, readbuf
      ensures DbOk(db)
      ensures var msg := Mask(old(readbuf[..bytes]));
        && closed == (bytes >= 5 && !isVerify && msg[..5] != "12345")
        && verified == (isVerify || bytes >= TOKEN_LENGTH)
        && (closed ==> replies == [] && db == old(db))
        && (!closed ==>
             Servable(Decode(msg)) &&
             var served := ServeAll(old(db), Decode(msg), ip, os, others, 0);
             db == served.0 && replies == Masked(served.1))
    {
      Unmask(readbuf, bytes);
      verified, closed, replies := isVerify, false, [];
      var strRecv := readbuf[..bytes];
      if bytes >= TOKEN_LENGTH && !isVerify {
        verified := true;
        if strRecv[..TOKEN_LENGTH] != TOKEN {
          closed := true;
          return;
        }
      }
      replies := ServeMessage(strRecv, ip, os, others);
    }

    /**
     * start_routine for the reads of one connection, up to the one that closes it: the reads
     * that get past the token check are served one after the other. Unless the first read of
     * at least five bytes starts with the token, nothing is executed and nothing is answered.
     */
    method ServeReads(received: seq<string>, ip: string, oss: nat -> nat -> Outcome, otherss: nat -> nat -> seq<Event>)
      returns (closed: bool, replies: seq<string>)
      requires DbOk(db) && AllBytes(received) && (forall r :: r in received ==> |r| <= BUFSIZE)
      requires AllServable(Served(Unmasked(received), false)) && AllClean(oss, otherss)
      modifies this
      ensures DbOk(db)
      ensures var served := ServeRun(old(db), Served(Unmasked(received), false), ip, oss, otherss, 0);
        db == served.0 && replies == Masked(served.1)
      ensures closed == Closes(Unmasked(received), false)
      ensures !Opened(Unmasked(received)) ==> db == old(db) && replies == []
    {
      ghost var msgs := Unmasked(received);
      GateOverReads(msgs);
      if !Opened(msgs) {
        NothingDecodedNothingServed(db, Served(msgs, false), ip, oss, otherss, 0);
      }
      closed, replies := ServeEach(received, ip, oss, otherss);
    }

    method ServeEach(received: seq<string>, ip: string, oss: nat -> nat -> Outcome, otherss: nat -> nat -> seq<Event>)
      returns (closed: bool, replies: seq<string>)
      requires DbOk(db) && AllBytes(received) && (forall r :: r in received ==> |r| <= BUFSIZE)
      requires AllServable(Served(Unmasked(received), false)) && AllClean(oss, otherss)
      modifies this
      ensures DbOk(db)
      ensures var served := ServeRun(old(db), Served(Unmasked(received), false), ip, oss, otherss, 0);
        db == served.0 && replies == Masked(served.1)
      ensures closed == Closes(Unmasked(received), false)
    {
      ghost var msgs := Unmasked(received);
      ghost var left, closes := Served(msgs, false), Closes(msgs, false);
      ghost var goal := ServeRun(db, left, ip, oss, otherss, 0);
      closed, replies := false, [];
      var verified := false;
      ghost var plain: seq<string> := [];
      var i := 0;
      assert msgs[0..] == msgs && [] + goal.1 == goal.1;
      while i < |received| && !closed
        invariant i <= |received| && DbOk(db) && AllServable(left)
        invariant AllBytes(plain) && replies == Masked(plain)
        invariant left == if closed then [] else Served(msgs[i..], verified)
        invariant closes == (closed || Closes(msgs[i..], verified))
        invariant goal == Prepend(plain, ServeRun(db, left, ip, oss, otherss, i))
        decreases |received| - i
      {
        assert msgs[i..][0] == msgs[i] && msgs[i..][1..] == msgs[i + 1..];
        var answer;
        ghost var first;
        verified, closed, answer, first := ServeNextRead(received[i], verified, ip, oss, otherss, i, msgs[i..], plain);
        left := if closed then [] else Served(msgs[i + 1..], verified);
        MaskedAppend(plain, first);
        plain := plain + first;
        replies := replies + answer;
        i := i + 1;
      }
      assert left == [] && plain + [] == plain;
    }

    /** One more read, the k-th: `msgs` is it and those behind it, `done` the replies so far. */
    method ServeNextRead(data: string, isVerify: bool, ip: string, oss: nat -> nat -> Outcome, otherss: nat -> nat -> seq<Event>,
                         k: nat, ghost msgs: seq<string>, ghost done: seq<string>)
      returns (verified: bool, closed: bool, replies: seq<string>, ghost first: seq<string>)
      requires DbOk(db) && |data| <= BUFSIZE && IsBytes(data) && msgs != [] && msgs[0] == Mask(data)
      requires AllServable(Served(msgs, isVerify)) && AllClean(oss, otherss)
      modifies this
      ensures DbOk(db)
      ensures closed == Rejected(msgs[0], isVerify) && verified == (isVerify || |msgs[0]| >= TOKEN_LENGTH)
      ensures AllBytes(first) && replies == Masked(first)
      ensures var left := if closed then [] else Served(msgs[1..], verified);
        && AllServable(left)
        && Prepend(done, ServeRun(old(db), Served(msgs, isVerify), ip, oss, otherss, k))
           == Prepend(done + first, ServeRun(db, left, ip, oss, otherss, k + 1))
    {
      first := [];
      if !Rejected(msgs[0], isVerify) {
        ServeRead(db, done, msgs, isVerify, ip, oss, otherss, k);
        first := ServeAll(db, Decode(msgs[0]), ip, Kth(oss, k), Kth(otherss, k), 0).1;
      } else {
        assert done + [] == done;
      }
      verified, closed, replies := ServeBuffer(data, isVerify, ip, Kth(oss, k), Kth(otherss, k));
    }

    /** start_routine with its own buffer, into which the read is put. */
    method ServeBuffer(data: string, isVerify: bool, ip: string, os: nat -> Outcome, others: nat -> seq<Event>)
      returns (verified: bool, closed: bool, replies: seq<string>)
      requires DbOk(db) && |data| <= BUFSIZE && IsBytes(data) && CleanIds(os) && CleanOthers(others)
      requires Rejected(Mask(data), isVerify) || Servable(Decode(Mask(data)))
      modifies this
      ensures DbOk(db)
      ensures closed == Rejected(Mask(data), isVerify) && verified == (isVerify || |data| >= TOKEN_LENGTH)
      ensures closed ==> replies == [] && db == old(db)
      ensures !closed ==>
        var served := ServeAll(old(db), Decode(Mask(data)), ip, os, others, 0);
        db == served.0 && replies == Masked(served.1)
    {
      var readbuf := new char[BUFSIZE];
      forall i | 0 <= i < |data| {
        readbuf[i] := data[i];
      }
      assert readbuf[..|data|] == data;
      verified, closed, replies := StartRoutine(readbuf, |data|, isVerify, ip, os, others);
    }

    method ServeMessage(strRecv: string, ip: string, os: nat -> Outcome, others: nat -> seq<Event>)
      returns (replies: seq<string>)
      requires DbOk(db) && CleanIds(os) && CleanOthers(others) && Servable(Decode(strRecv))
      modifies this
      ensures DbOk(db)
      ensures var served := ServeAll(old(db), Decode(strRecv), ip, os, others, 0);
        db == served.0 && replies == Masked(served.1)
    {
      replies := [];
      var crlf := Splitting.Find(strRecv, CRLF);
      var space := Splitting.Find(strRecv, SEPARATOR);
      if crlf < |strRecv| && space < |strRecv| {
        var vecStr := SplitData(strRecv, CRLF, []);
        assert vecStr == Split(strRecv, CRLF);
        replies := ServeLines(vecStr, ip, os, others);
      } else {
        assert replies == Masked([]);
      }
    }

    /** The loop over the lines of one read. */
    method ServeLines(vecStr: seq<string>, ip: string, os: nat -> Outcome, others: nat -> seq<Event>)
      returns (replies: seq<string>)
      requires DbOk(db) && CleanIds(os) && CleanOthers(others) && Servable(DecodedLines(vecStr))
      modifies this
      ensures DbOk(db)
      ensures var served := ServeAll(old(db), DecodedLines(vecStr), ip, os, others, 0);
        db == served.0 && replies == Masked(served.1)
    {
      replies := [];
      ghost var plain: seq<string> := [];
      ghost var goal := ServeAll(db, DecodedLines(vecStr), ip, os, others, 0);
      var i := 0;
      assert vecStr[0..] == vecStr && [] + goal.1 == goal.1;
      while i < |vecStr|
        invariant i <= |vecStr| && DbOk(db)
        invariant Servable(DecodedLines(vecStr[i..]))
        invariant AllBytes(plain) && replies == Masked(plain)
        invariant goal == Prepend(plain, ServeAll(db, DecodedLines(vecStr[i..]), ip, os, others, i))
      {
        ServeNext(db, plain, vecStr[i..], ip, os, others, i);
        assert vecStr[i..][1..] == vecStr[i + 1..];
        var answer := ServeLine(vecStr[i], ip, os(i), others(i));
        MaskedAppend(plain, answer);
        plain := plain + answer;
        replies := replies + Masked(answer);
        i := i + 1;
      }
      assert vecStr[i..] == [] && plain + [] == plain;
    }

    /** One line of a message, after other workers' commands: cut off five characters, split, execute. */
    method ServeLine(line: string, ip: string, o: Outcome, others: seq<Event>) returns (answer: seq<string>)
      requires EventsOk(others)
      requires DbOk(db) && (RightSize(DecodedLine(line)) ==> CommandOk(ToCommand(DecodedLine(line)))) && NUL !in o.id
      modifies this
      ensures DbOk(db) && AllBytes(answer)
      ensures (db, answer) == ServeOne(RunOn(old(db), others), DecodedLine(line), ip, o)
    {
      RepliesAreBytes();
      Interfere(others);
      var body := if |line| < TOKEN_LENGTH then "" else line[TOKEN_LENGTH..];
      var vecCommand := SplitData(body, SEPARATOR, []);
      assert vecCommand == DecodedLine(line);
      if |vecCommand| == 6 || |vecCommand| == 3 {
        var c := ToCommand(vecCommand);
        ServeOneIs(db, vecCommand, ip, o);
        var reply := Handle(c, IpFor(vecCommand, ip), o);
        answer := if reply.Some? then [reply.value] else [];
      } else {
        answer := [REFUSED];
      }
    }
  }
}
