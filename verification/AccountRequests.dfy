/**
 * Each account command from the client's masked bytes to the reply and the tables
 * (worker_threads.cc), with the fields, replies and opcodes spelled out.
 */
module AccountRequests {
  import opened Text
  import opened Splitting
  import opened Framing
  import opened CommandCodec
  import opened Accounts
  import opened AccountServer

  /** The tables and the unmasked replies after one read that holds one command. */
  ghost function Served(events: seq<Event>, fields: Fields, ip: string, os: nat -> Outcome, others: nat -> seq<Event>)
    : (Db, seq<string>)
    requires Sendable(fields) && Clean(events, os, others)
  {
    ServableCommand(fields);
    ServeAll(After(events), Decode(Mask(Mask(Encode([fields])))), ip, os, others, 0)
  }

  /** Fields that a client can send and that reach the statements unharmed. */
  ghost predicate Sendable(fields: Fields) {
    && IsBytes(Encode([fields])) && fields != []
    && forall f :: f in fields ==> FieldOk(f) && NUL !in f
  }

  ghost predicate Clean(events: seq<Event>, os: nat -> Outcome, others: nat -> seq<Event>) {
    EventsOk(events) && CleanIds(os) && CleanOthers(others)
  }

  lemma ServableCommand(fields: Fields)
    requires Sendable(fields)
    ensures Decode(Mask(Mask(Encode([fields])))) == [fields] && Servable([fields])
  {
    LoginDecoded(fields);
    assert RightSize(fields) ==> fields[1] in fields && fields[2] in fields;
  }

  /** The tables that the command meets: other workers may have been at them since the last one. */
  ghost function Met(events: seq<Event>, others: nat -> seq<Event>): Db
    requires EventsOk(events) && CleanOthers(others)
  {
    RunOnMore(Db([], []), events, others(0));
    After(events + others(0))
  }

  lemma ServedIs(events: seq<Event>, fields: Fields, ip: string, os: nat -> Outcome, others: nat -> seq<Event>)
    requires Sendable(fields) && Clean(events, os, others)
    ensures Served(events, fields, ip, os, others) ==
      (ServeOne(Met(events, others), fields, ip, os(0)).0, ServeOne(Met(events, others), fields, ip, os(0)).1)
  {
    ServableCommand(fields);
    RunOnMore(Db([], []), events, others(0));
    var (db1, first) := ServeOne(Met(events, others), fields, ip, os(0));
    assert [fields][1..] == [] && ServeAll(db1, [], ip, os, others, 1) == (db1, []);
    assert first + [] == first;
  }

  // ---------- The opcode ----------

  lemma OneDigit(d: string)
    requires |d| == 1 && IsDigit(d[0])
    ensures Atoi(d) == DigitOf(d[0])
  {
    assert d[..0] == "" && Decimal(0, "") == 0;
    AtoiReads("", d, "");
    assert "" + (d + "") == d;
  }

  // ---------- INSERT ----------

  /** Six fields and neither the name nor the device 0000: a device row. */
  lemma DeviceInserted(events: seq<Event>, name: string, passwd: string, device: string, p2p: string, last: string,
                       ip: string, os: nat -> Outcome, others: nat -> seq<Event>)
    requires Sendable(["1", name, passwd, device, p2p, last]) && Clean(events, os, others)
    requires name != "0000" && device != "0000"
    ensures Served(events, ["1", name, passwd, device, p2p, last], ip, os, others) ==
      var db := Met(events, others);
      if os(0).writeOk then (db.(devices := db.devices + [Device(name, device, p2p, ip)]), ["f0:ok"]) else (db, ["e2:fail"])
  {
    ServedIs(events, ["1", name, passwd, device, p2p, last], ip, os, others);
    OneDigit("1");
  }

  /** Three fields leave the device, the p2p id and the address of the row empty. */
  lemma BareDeviceInserted(events: seq<Event>, name: string, passwd: string, ip: string, os: nat -> Outcome,
                           others: nat -> seq<Event>)
    requires Sendable(["1", name, passwd]) && Clean(events, os, others) && name != "0000"
    ensures Served(events, ["1", name, passwd], ip, os, others) ==
      var db := Met(events, others);
      if os(0).writeOk then (db.(devices := db.devices + [Device(name, "", "", "")]), ["f0:ok"]) else (db, ["e2:fail"])
  {
    ServedIs(events, ["1", name, passwd], ip, os, others);
    OneDigit("1");
  }

  /**
   * Name or device 0000: a user row, unless the look-up finds the name. The password is then
   * the one last set for it.
   */
  lemma UserRegistered(events: seq<Event>, name: string, passwd: string, device: string, p2p: string, last: string,
                       ip: string, os: nat -> Outcome, others: nat -> seq<Event>)
    requires Sendable(["1", name, passwd, device, p2p, last]) && Clean(events, os, others)
    requires name == "0000" || device == "0000"
    ensures Served(events, ["1", name, passwd, device, p2p, last], ip, os, others) ==
      var db := Met(events, others);
      if os(0).selectOk && LastSet(events + others(0), name) != None then (db, ["e1:fail"])
      else if os(0).writeOk then (db.(users := db.users + [User(os(0).id, name, passwd)]), ["f0:ok"])
      else (db, ["e2:fail"])
    ensures os(0).writeOk && !(os(0).selectOk && LastSet(events + others(0), name) != None) ==>
      var e := Event(Command(1, name, passwd, device, p2p), ip, os(0));
      EventsOk(events + others(0) + [e]) &&
      After(events + others(0) + [e]) == Served(events, ["1", name, passwd, device, p2p, last], ip, os, others).0 &&
      LastSet(events + others(0) + [e], name) == Some(passwd)
  {
    var fields := ["1", name, passwd, device, p2p, last];
    var h := events + others(0);
    ServedIs(events, fields, ip, os, others);
    OneDigit("1");
    RunOnMore(Db([], []), events, others(0));
    AfterRefines(h, name);
    LookupFinds(After(h), name, os(0));
    var e := Event(Command(1, name, passwd, device, p2p), ip, os(0));
    assert name in fields && passwd in fields;
    AfterOneMore(h, e);
    assert (h + [e])[..|h|] == h;
  }

  // ---------- SELECT ----------

  /** A SELECT compares with the password last set as the scan reads it; a failed look-up is like none. */
  lemma PasswordSelected(events: seq<Event>, name: string, passwd: string, ip: string, os: nat -> Outcome,
                         others: nat -> seq<Event>)
    requires Sendable(["2", name, passwd]) && Clean(events, os, others)
    ensures Served(events, ["2", name, passwd], ip, os, others) ==
      (Met(events, others),
       if !os(0).selectOk then ["e1:fail"]
       else match LastSet(events + others(0), name)
         case None => ["e1:fail"]
         case Some(p) => if AfterMark(p) == passwd then ["f0:ok"] else ["e3:fail"])
  {
    ServedIs(events, ["2", name, passwd], ip, os, others);
    OneDigit("2");
    RunOnMore(Db([], []), events, others(0));
    if os(0).selectOk {
      SelectAnswersLastSet(events + others(0), Command(SELECT, name, passwd, "", ""), "", os(0));
    }
  }

  // ---------- UPDATE, DELETE and the rest ----------

  /** An UPDATE sets the password of every row of the name; LastSet follows if there is one. */
  lemma PasswordUpdated(events: seq<Event>, name: string, passwd: string, ip: string, os: nat -> Outcome,
                        others: nat -> seq<Event>)
    requires Sendable(["3", name, passwd]) && Clean(events, os, others)
    ensures var db := Met(events, others);
      var (db', replies) := Served(events, ["3", name, passwd], ip, os, others);
      && replies == (if os(0).writeOk then ["f0:ok"] else ["e3:fail"])
      && (!os(0).writeOk ==> db' == db)
      && (os(0).writeOk ==>
           && db'.devices == db.devices && |db'.users| == |db.users|
           && forall i :: 0 <= i < |db.users| ==>
                var u := db.users[i]; db'.users[i] == User(u.id, u.name, if u.name == name then passwd else u.passwd))
    ensures os(0).writeOk ==>
      var e := Event(Command(3, name, passwd, "", ""), "", os(0));
      LastSet(events + others(0) + [e], name) == if LastSet(events + others(0), name) == None then None else Some(passwd)
  {
    ServedIs(events, ["3", name, passwd], ip, os, others);
    OneDigit("3");
    UpdatedRows(Met(events, others).users, name, passwd);
    var h, e := events + others(0), Event(Command(3, name, passwd, "", ""), "", os(0));
    assert (h + [e])[..|h|] == h;
  }

  /** A DELETE changes nothing and is not answered. */
  lemma DeleteIsSilent(events: seq<Event>, name: string, passwd: string, ip: string, os: nat -> Outcome,
                       others: nat -> seq<Event>)
    requires Sendable(["4", name, passwd]) && Clean(events, os, others)
    ensures Served(events, ["4", name, passwd], ip, os, others) == (Met(events, others), [])
  {
    ServedIs(events, ["4", name, passwd], ip, os, others);
    OneDigit("4");
  }

  /** Any other number, and any number of fields but three and six, is refused. */
  lemma OthersRefused(events: seq<Event>, fields: Fields, ip: string, os: nat -> Outcome, others: nat -> seq<Event>)
    requires Sendable(fields) && Clean(events, os, others)
    requires (|fields| != 3 && |fields| != 6) || !(1 <= Atoi(fields[0]) <= 4)
    ensures Served(events, fields, ip, os, others) == (Met(events, others), ["e3:fail"])
  {
    ServedIs(events, fields, ip, os, others);
  }

  /** Any five characters may stand where a command line has its token: they are cut off unseen. */
  lemma HeadIsCutOff(head: string, fields: Fields)
    requires |head| == 5 && forall f :: f in fields ==> FieldOk(f)
    ensures DecodedLine(head + Joined(fields, "   ")) == fields
  {
    var line := head + Joined(fields, SEPARATOR);
    assert line[5..] == Joined(fields, SEPARATOR);
    DecodeEncodedLine(fields);
    assert EncodedLine(fields)[5..] == Joined(fields, SEPARATOR);
  }
}
