/** The request loops of the graphical client and of the admin console. Between any two of their exchanges other
    sessions run whatever database calls they like. */
module QtClient {
  import opened Text
  import opened Records
  import opened Timestamps
  import opened Pool
  import opened Tables
  import opened TableLaws
  import opened Readers
  import opened Session
  import opened MessageStream
  import opened Listing
  import opened ClientConnection

  /** What surrounds one exchange: the calls other sessions make before it, and how its own calls go. */
  datatype World = World(before: seq<DbOp>, call: Call)

  /** The circumstances of all exchanges of a loop. */
  type Worlds = nat -> World

  /** The database after the calls of others before the first k exchanges. */
  function Others(db: Db, worlds: Worlds, k: nat): Db {
    if k == 0 then db else RunOps(Others(db, worlds, k - 1), worlds(k - 1).before)
  }

  /** Sends a message to the server and reads the reply. */
  method Exchange(conn: ClientConnection, m: IoMsg, world: World) returns (reply: IoMsg)
    requires NoNullRead(RunOps(conn.hDB.db, world.before), conn.View(), m)
    modifies conn, conn.hDB
    ensures var h := Handle(RunOps(old(conn.hDB.db), world.before), old(conn.View()), m, world.call);
            conn.hDB.db == h.db && conn.View() == h.session && reply == h.reply
  {
    conn.hDB.RunOthers(world.before);
    var exitLoop;
    reply, exitLoop := conn.ProcessClientMsg(m, world.call);
  }

  // Draining messages

  /** A request for a message takes the first one off the pool, or reports that there is none. */
  lemma MessageRequest(db: Db, s: Session, m: IoMsg, call: Call)
    requires AsksForMessage(m.mtype)
    ensures NoNullRead(db, s, m)
    ensures var h, p := Handle(db, s, m, call), PoolFor(db, s, m, call.first.env);
            && h.db == db
            && (p == [] ==> h.reply.mtype == eNoMsg && h.session == s.(pool := []))
            && (p != [] ==>
                  && h.reply.mtype == eMsgNext && h.reply.body == BodyOf(p[0])
                  && h.session == s.(pool := p[1..]))
  {
  }

  lemma TakeBody(v: seq<string>, p: Pool)
    requires p != []
    ensures v + [BodyOf(p[0])] + Bodies(p[1..]) == v + Bodies(p)
  {
  }

  /** An exchange that asks for a message. */
  method NextMessage(conn: ClientConnection, m: IoMsg, world: World) returns (reply: IoMsg)
    requires AsksForMessage(m.mtype)
    modifies conn, conn.hDB
    ensures conn.hDB.db == RunOps(old(conn.hDB.db), world.before)
    ensures var p := PoolFor(conn.hDB.db, old(conn.View()), m, world.call.first.env);
            if p == [] then reply.mtype == eNoMsg && conn.View() == old(conn.View()).(pool := [])
            else
              && reply.mtype == eMsgNext && reply.body == BodyOf(p[0])
              && conn.View() == old(conn.View()).(pool := p[1..])
  {
    MessageRequest(RunOps(conn.hDB.db, world.before), conn.View(), m, world.call);
    reply := Exchange(conn, m, world);
  }

  /** A request for the next message. */
  method FollowingMessage(conn: ClientConnection, m: IoMsg, world: World) returns (reply: IoMsg)
    requires m.mtype == eGetNextMsg
    modifies conn, conn.hDB
    ensures conn.hDB.db == RunOps(old(conn.hDB.db), world.before)
    ensures var p := old(conn.msgPool);
            if p == [] then reply.mtype == eNoMsg && conn.View() == old(conn.View())
            else
              && reply.mtype == eMsgNext && reply.body == BodyOf(p[0])
              && conn.View() == old(conn.View()).(pool := p[1..])
  {
    reply := NextMessage(conn, m, world);
  }

  /** What a drain has got so far and what is still to come. */
  ghost predicate Draining(fetched: Pool, v: seq<string>, msg: IoMsg, left: Pool) {
    if msg.mtype == eMsgNext then v + [msg.body] + Bodies(left) == Bodies(fetched)
    else msg.mtype == eNoMsg && v == Bodies(fetched) && left == []
  }

  /** Reads messages, and asks for the next one, until there is none. */
  method ReadMessages(conn: ClientConnection, reply: IoMsg, worlds: Worlds, ghost db: Db, ghost fetched: Pool)
    returns (v: seq<string>)
    requires Draining(fetched, [], reply, conn.msgPool) && conn.hDB.db == Others(db, worlds, 1)
    modifies conn, conn.hDB
    ensures v == Bodies(fetched) && conn.View() == old(conn.View()).(pool := [])
    ensures conn.hDB.db == Others(db, worlds, |v| + 1)
  {
    var msg := reply;
    v := [];
    var k := 1;
    while msg.mtype == eMsgNext
      invariant k == |v| + 1 && conn.hDB.db == Others(db, worlds, k) &&
                conn.View() == old(conn.View()).(pool := conn.msgPool)
      invariant Draining(fetched, v, msg, conn.msgPool)
      decreases |conn.msgPool| + if msg.mtype == eMsgNext then 1 else 0
    {
      v := v + [msg.body];
      msg := msg.(mtype := eGetNextMsg, body := "");
      if conn.msgPool != [] {
        TakeBody(v, conn.msgPool);
      }
      msg := FollowingMessage(conn, msg, worlds(k));
      k := k + 1;
    }
  }

  /** Asks for the messages of all users, or for those of one, and reads them. */
  method GetMessages(conn: ClientConnection, receiver: Option<string>, userId: string, worlds: Worlds)
    returns (v: seq<string>)
    modifies conn, conn.hDB
    ensures var first := if receiver.None? then IoMsg(eGetMsgAdmin, "", "", "") else IoMsg(eGetUserMsg, "", "", userId);
            v == Bodies(PoolFor(Others(old(conn.hDB.db), worlds, 1), old(conn.View()), first, worlds(0).call.first.env))
    ensures conn.View() == old(conn.View()).(pool := [])
    ensures conn.hDB.db == Others(old(conn.hDB.db), worlds, |v| + 1)
  {
    hide PoolFor, BodyOf;
    var msg := CLEARED;
    if receiver.None? {
      msg := msg.(mtype := eGetMsgAdmin);
    } else {
      msg := msg.(mtype := eGetUserMsg, userId := userId);
    }
    ghost var db, s := conn.hDB.db, conn.View();
    assert Others(db, worlds, 1) == RunOps(Others(db, worlds, 0), worlds(0).before);
    ghost var fetched := PoolFor(Others(db, worlds, 1), s, msg, worlds(0).call.first.env);
    msg := NextMessage(conn, msg, worlds(0));
    if fetched != [] {
      TakeBody([], fetched);
      assert [] + Bodies(fetched) == Bodies(fetched);
    }
    v := ReadMessages(conn, msg, worlds, db, fetched);
  }

  // What the drained messages say

  /** The five fields of a pool entry, in the order of the text. */
  function EntryFields(e: Entry): seq<string> {
    [e.msg.timestamp, e.msg.sender, e.msg.receiver, e.msg.body, e.msg.messageId]
  }

  /** The fields of a message in the admin view. */
  function AdminFields(db: Db, m: Msg): seq<string>
    requires VisibleToAdmin(db, m)
  {
    [Stamp(m.created), FindUser(db.users, m.fromId).value.login, FindUser(db.users, m.toId).value.login, m.body,
        Decimal(m.id)]
  }

  /** Both logins and the body are free of the divider and of NUL. */
  predicate PlainForAdmin(db: Db, m: Msg)
    requires VisibleToAdmin(db, m)
  {
    && Plain(FindUser(db.users, m.fromId).value.login)
    && Plain(FindUser(db.users, m.toId).value.login)
    && Plain(m.body)
  }

  /** The body of a pool entry with a database time and id splits into its fields exactly when the rest is plain. */
  lemma SplitEntry(e: Entry, t: Seconds, id: nat)
    requires e.msg.timestamp == Stamp(t) && e.msg.messageId == Decimal(id)
    ensures Fields(BodyOf(e)) == EntryFields(e) <==> Plain(e.msg.sender) && Plain(e.msg.receiver) && Plain(e.msg.body)
  {
    MessageRoundTrip(e.msg);
    StampIsPlain(t);
    DecimalChars(id);
  }

  lemma SplitAdminEntry(db: Db, m: Msg)
    requires VisibleToAdmin(db, m)
    ensures EntryFields(AdminEntry(db.users, m)) == AdminFields(db, m)
    ensures Fields(BodyOf(AdminEntry(db.users, m))) == AdminFields(db, m) <==> PlainForAdmin(db, m)
  {
    SplitEntry(AdminEntry(db.users, m), m.created, m.id);
  }

  /** A body of the text-id reader: the time is that of the state row, the receiver is the session's user name. */
  lemma SplitUserEntry(sender: User, m: Msg, state: MsgState, userName: string)
    ensures Fields(BodyOf(UserEntry(sender, m, state, userName))) ==
            [Stamp(state.tsChanged), sender.login, userName, m.body, Decimal(m.id)]
            <==> Plain(sender.login) && Plain(userName) && Plain(m.body)
  {
    SplitEntry(UserEntry(sender, m, state, userName), state.tsChanged, m.id);
  }

  /** A body of the inbox has the same fields, although its key is the time. */
  lemma SplitInboxEntry(sender: User, m: Msg, state: MsgState, userName: string)
    ensures Fields(BodyOf(InboxEntry(sender, m, state, userName))) ==
            [Stamp(state.tsChanged), sender.login, userName, m.body, Decimal(m.id)]
            <==> Plain(sender.login) && Plain(userName) && Plain(m.body)
  {
    SplitEntry(InboxEntry(sender, m, state, userName), state.tsChanged, m.id);
  }

  /** The visible message that the i-th drained body is about. */
  lemma AdminSource(db: Db, s: Session, env: Env, i: nat) returns (k: nat)
    requires DbOk(db) && !Fails(env, 0) && i < |GetAllMsgs(db, s.pool, env)|
    ensures k < |db.messages| && VisibleToAdmin(db, db.messages[k])
    ensures GetAllMsgs(db, s.pool, env)[i] == AdminEntry(db.users, db.messages[k])
  {
    AdminPoolInKeyOrder(db);
    var p := GetAllMsgs(db, s.pool, env);
    assert p[i] in p;
    var m :| m in db.messages && IsAdminEntryOf(db, m, p[i]);
    k :| 0 <= k < |db.messages| && db.messages[k] == m;
  }

  /** The pool holds the admin entries of these messages, in this order. */
  ghost predicate DrawnFrom(db: Db, ks: seq<nat>, p: Pool) {
    && |ks| <= |p|
    && forall i :: 0 <= i < |ks| ==>
         ks[i] < |db.messages| && VisibleToAdmin(db, db.messages[ks[i]]) &&
           p[i] == AdminEntry(db.users, db.messages[ks[i]])
  }

  /** Every visible message is in the list. */
  ghost predicate AllVisible(db: Db, ks: seq<nat>) {
    forall k :: 0 <= k < |db.messages| && VisibleToAdmin(db, db.messages[k]) ==> k in ks
  }

  lemma AdminSources(db: Db, s: Session, env: Env) returns (ks: seq<nat>)
    requires DbOk(db) && !Fails(env, 0)
    ensures |ks| == |GetAllMsgs(db, s.pool, env)| && DrawnFrom(db, ks, GetAllMsgs(db, s.pool, env))
  {
    hide GetAllMsgs, DbOk, VisibleToAdmin, AdminEntry;
    var p := GetAllMsgs(db, s.pool, env);
    ks := [];
    while |ks| < |p|
      invariant DrawnFrom(db, ks, p)
    {
      var k := AdminSource(db, s, env, |ks|);
      ks := ks + [k];
    }
  }

  lemma NoneLeftOut(db: Db, s: Session, env: Env, ks: seq<nat>)
    requires DbOk(db) && !Fails(env, 0)
    requires |ks| == |GetAllMsgs(db, s.pool, env)| && DrawnFrom(db, ks, GetAllMsgs(db, s.pool, env))
    ensures AllVisible(db, ks)
  {
    var p := GetAllMsgs(db, s.pool, env);
    AdminPoolInKeyOrder(db);
    forall k | 0 <= k < |db.messages| && VisibleToAdmin(db, db.messages[k]) ensures k in ks {
      var e := AdminEntry(db.users, db.messages[k]);
      assert IsAdminEntryOf(db, db.messages[k], e);
      assert e in p;
      var i :| 0 <= i < |p| && p[i] == e;
      DecimalInjective(db.messages[ks[i]].id, db.messages[k].id);
      assert ks[i] == k;
    }
  }

  /** Main result, with the contract of GetMessages: what the admin drains, whatever others do during the drain, are
      the messages visible at the first request and no others, in strictly increasing text order of their ids, and so
      each once. A body splits into the message's five fields exactly when the two logins and the text are plain. */
  lemma AdminDrain(db: Db, s: Session, m: IoMsg, env: Env) returns (ks: seq<nat>)
    requires DbOk(db) && !Fails(env, 0) && m.mtype == eGetMsgAdmin
    ensures var v := Bodies(PoolFor(db, s, m, env));
            && |v| == |ks| && AllVisible(db, ks)
            && (forall i :: 0 <= i < |ks| ==>
                  && ks[i] < |db.messages| && VisibleToAdmin(db, db.messages[ks[i]])
                  && v[i] == BodyOf(AdminEntry(db.users, db.messages[ks[i]]))
                  && (Fields(v[i]) == AdminFields(db, db.messages[ks[i]]) <==> PlainForAdmin(db, db.messages[ks[i]])))
            && (forall i, j :: 0 <= i < j < |ks| ==>
                 Less(Decimal(db.messages[ks[i]].id), Decimal(db.messages[ks[j]].id)))
  {
    ks := AdminSources(db, s, env);
    NoneLeftOut(db, s, env, ks);
    AdminPoolInKeyOrder(db);
    var p := PoolFor(db, s, m, env);
    forall i | 0 <= i < |ks|
      ensures Fields(Bodies(p)[i]) == AdminFields(db, db.messages[ks[i]]) <==> PlainForAdmin(db, db.messages[ks[i]])
    {
      SplitAdminEntry(db, db.messages[ks[i]]);
    }
    assert forall i :: 0 <= i < |ks| ==> p[i].key == Decimal(db.messages[ks[i]].id);
  }

  // Draining the user listing

  /** The listing a request for the first row leaves in the buffer before the row is taken off. */
  function RowsFor(db: Db, s: Session, m: IoMsg, env: Env): seq<string>
    requires m.mtype == eAuthAdmin ==> NoNullHash(UserRows(db))
  {
    if m.mtype == eAuthAdmin then Fetched(db, s, env).buffer else s.buffer
  }

  /** A request for a row is refused when its query fails, even if rows are left. */
  predicate Refused(m: IoMsg, env: Env) { m.mtype == eAuthAdmin && Fails(env, 0) }

  lemma RowRequest(db: Db, s: Session, m: IoMsg, call: Call)
    requires m.mtype == eUserNextAdmin || (m.mtype == eAuthAdmin && NoNullHash(UserRows(db)))
    ensures NoNullRead(db, s, m)
    ensures var h, rows := Handle(db, s, m, call), RowsFor(db, s, m, call.first.env);
            && h.db == db
            && if Refused(m, call.first.env) || rows == []
               then h.reply.mtype == eNoMsg && h.session == s.(buffer := rows)
               else
                 && h.reply.mtype == eUserNextAdmin && h.reply.body == CStr(rows[0])
                 && h.session == s.(buffer := rows[1..])
  {
  }

  /** An exchange that asks for a row. */
  method NextRow(conn: ClientConnection, m: IoMsg, world: World) returns (reply: IoMsg)
    requires m.mtype == eUserNextAdmin ||
             (m.mtype == eAuthAdmin && NoNullHash(UserRows(RunOps(conn.hDB.db, world.before))))
    modifies conn, conn.hDB
    ensures conn.hDB.db == RunOps(old(conn.hDB.db), world.before)
    ensures var rows := RowsFor(conn.hDB.db, old(conn.View()), m, world.call.first.env);
            if Refused(m, world.call.first.env) || rows == []
            then reply.mtype == eNoMsg && conn.View() == old(conn.View()).(buffer := rows)
            else
              && reply.mtype == eUserNextAdmin && reply.body == CStr(rows[0])
              && conn.View() == old(conn.View()).(buffer := rows[1..])
  {
    RowRequest(RunOps(conn.hDB.db, world.before), conn.View(), m, world.call);
    reply := Exchange(conn, m, world);
  }

  /** A request for the next row. */
  method FollowingRow(conn: ClientConnection, m: IoMsg, world: World) returns (reply: IoMsg)
    requires m.mtype == eUserNextAdmin
    modifies conn, conn.hDB
    ensures var rows := old(conn.buffer);
            if rows == [] then reply.mtype == eNoMsg && conn.View() == old(conn.View())
            else
              && reply.mtype == eUserNextAdmin && reply.body == CStr(rows[0])
              && conn.View() == old(conn.View()).(buffer := rows[1..])
  {
    reply := NextRow(conn, m, world);
  }

  /** The client reads the second field of every row that has a first one. */
  predicate TwoFields(row: string) { |Fields(row)| != 1 }

  predicate AllTwoFields(rows: seq<string>) { forall i :: 0 <= i < |rows| ==> TwoFields(rows[i]) }

  /** The logins of the rows, in order. */
  function ListedLogins(rows: seq<string>): seq<string>
    requires AllTwoFields(rows)
  {
    if rows == [] then []
    else
      var front, row := rows[..|rows| - 1], rows[|rows| - 1];
      assert TwoFields(row);
      ListedLogins(front) + if Fields(row) == [] then [] else [Fields(row)[1]]
  }

  /** The ids by login; the first row of a login counts. */
  function ListedIds(rows: seq<string>): map<string, string>
    requires AllTwoFields(rows)
  {
    if rows == [] then map[]
    else
      var front, row := rows[..|rows| - 1], rows[|rows| - 1];
      assert TwoFields(row);
      if Fields(row) == [] || Fields(row)[1] in ListedIds(front) then ListedIds(front)
      else ListedIds(front)[Fields(row)[1] := Fields(row)[0]]
  }

  lemma ListedSnoc(rows: seq<string>, k: nat)
    requires k < |rows| && AllTwoFields(rows)
    ensures TwoFields(rows[k])
    ensures ListedLogins(rows[..k + 1]) ==
            ListedLogins(rows[..k]) + if Fields(rows[k]) == [] then [] else [Fields(rows[k])[1]]
    ensures ListedIds(rows[..k + 1]) ==
            if Fields(rows[k]) == [] || Fields(rows[k])[1] in ListedIds(rows[..k]) then ListedIds(rows[..k])
            else ListedIds(rows[..k])[Fields(rows[k])[1] := Fields(rows[k])[0]]
  {
    assert rows[..k + 1][..k] == rows[..k];
  }

  /** One row of the listing, added to the list and to the map. */
  method AddRow(ul0: seq<string>, usersMap0: map<string, string>, r: string, ghost rows: seq<string>, ghost k: nat)
    returns (ul: seq<string>, usersMap: map<string, string>)
    requires AllTwoFields(rows) && k < |rows| && r == rows[k]
    requires ul0 == ListedLogins(rows[..k]) && usersMap0 == ListedIds(rows[..k])
    ensures ul == ListedLogins(rows[..k + 1]) && usersMap == ListedIds(rows[..k + 1])
  {
    ListedSnoc(rows, k);
    ul, usersMap := ul0, usersMap0;
    var ok, fields := SplitMsgData(r);
    if ok {
      if fields[1] !in usersMap {
        usersMap := usersMap[fields[1] := fields[0]];
      }
      ul := ul + [fields[1]];
    }
  }

  /** Reads rows, and asks for the next one, until there is none. */
  method ReadRows(conn: ClientConnection, reply: IoMsg, worlds: Worlds, ghost rows: seq<string>)
    returns (ul: seq<string>, usersMap: map<string, string>)
    requires AllTwoFields(Shown(rows))
    requires if rows == [] then reply.mtype == eNoMsg && conn.buffer == []
             else reply.mtype == eUserNextAdmin && reply.body == CStr(rows[0]) && conn.buffer == rows[1..]
    modifies conn, conn.hDB
    ensures ul == ListedLogins(Shown(rows)) && usersMap == ListedIds(Shown(rows))
    ensures conn.View() == old(conn.View()).(buffer := [])
  {
    var msg := reply;
    ul, usersMap := [], map[];
    ghost var shown := Shown(rows);
    var k := 0;
    while msg.mtype == eUserNextAdmin
      invariant k <= |rows| && ul == ListedLogins(shown[..k]) && usersMap == ListedIds(shown[..k])
      invariant conn.View() == old(conn.View()).(buffer := conn.buffer)
      invariant if msg.mtype == eUserNextAdmin then k < |rows| && msg.body == shown[k] && conn.buffer == rows[k + 1..]
                else k == |rows| && conn.buffer == []
      decreases |rows| - k
    {
      ul, usersMap := AddRow(ul, usersMap, msg.body, shown, k);
      msg := msg.(mtype := eUserNextAdmin, body := "");
      k := k + 1;
      msg := FollowingRow(conn, msg, worlds(k));
    }
    assert shown[..|rows|] == shown;
  }

  /** Asks for the listing and reads its rows. */
  method GetUserList(conn: ClientConnection, worlds: Worlds) returns (ul: seq<string>, usersMap: map<string, string>)
    requires NoNullHash(UserRows(Others(conn.hDB.db, worlds, 1)))
    requires var first, env := CLEARED.(mtype := eAuthAdmin), worlds(0).call.first.env;
             AllTwoFields(Shown(RowsFor(Others(conn.hDB.db, worlds, 1), conn.View(), first, env)))
    modifies conn, conn.hDB
    ensures var first, env := CLEARED.(mtype := eAuthAdmin), worlds(0).call.first.env;
            var rows := RowsFor(Others(old(conn.hDB.db), worlds, 1), old(conn.View()), first, env);
            if Fails(env, 0) then ul == [] && usersMap == map[] && conn.View() == old(conn.View())
            else
              && ul == ListedLogins(Shown(rows)) && usersMap == ListedIds(Shown(rows))
              && conn.View() == old(conn.View()).(buffer := [])
  {
    ghost var db, s := conn.hDB.db, conn.View();
    var msg := CLEARED.(mtype := eAuthAdmin);
    assert Others(db, worlds, 1) == RunOps(Others(db, worlds, 0), worlds(0).before);
    ghost var rows := RowsFor(Others(db, worlds, 1), s, msg, worlds(0).call.first.env);
    ghost var refused := Refused(msg, worlds(0).call.first.env);
    msg := NextRow(conn, msg, worlds(0));
    if msg.mtype == eNoMsg {
      return [], map[];
    }
    assert !refused;
    ul, usersMap := ReadRows(conn, msg, worlds, rows);
  }

  /** The rows name these ids and logins, in this order. */
  ghost predicate Names(rows: seq<string>, ids: seq<string>, logins: seq<string>) {
    && |rows| == |ids| == |logins|
    && forall i :: 0 <= i < |rows| ==>
         |Fields(rows[i])| >= 2 && Fields(rows[i])[0] == ids[i] && Fields(rows[i])[1] == logins[i]
  }

  lemma NamesFront(rows: seq<string>, ids: seq<string>, logins: seq<string>, n: nat)
    requires Names(rows, ids, logins) && n < |rows|
    ensures Names(rows[..n], ids[..n], logins[..n])
    ensures TwoFields(rows[n]) && Fields(rows[n]) != [] && Fields(rows[n])[0] == ids[n] &&
            Fields(rows[n])[1] == logins[n]
    ensures logins[..n + 1] == logins[..n] + [logins[n]]
  {
  }

  lemma NamesTwoFields(rows: seq<string>, ids: seq<string>, logins: seq<string>)
    requires Names(rows, ids, logins)
    ensures AllTwoFields(rows)
  {
  }

  lemma {:induction false} ListedNames(rows: seq<string>, ids: seq<string>, logins: seq<string>, n: nat)
    requires Names(rows, ids, logins) && n <= |rows|
    ensures AllTwoFields(rows) && ListedLogins(rows[..n]) == logins[..n]
  {
    NamesTwoFields(rows, ids, logins);
    if n > 0 {
      NamesFront(rows, ids, logins, n - 1);
      ListedNames(rows, ids, logins, n - 1);
      ListedSnoc(rows, n - 1);
    }
  }

  lemma {:induction false} ListedKeys(rows: seq<string>, ids: seq<string>, logins: seq<string>, n: nat, login: string)
    requires Names(rows, ids, logins) && n <= |rows|
    ensures AllTwoFields(rows) && (login in ListedIds(rows[..n]) <==> login in logins[..n])
  {
    NamesTwoFields(rows, ids, logins);
    if n > 0 {
      NamesFront(rows, ids, logins, n - 1);
      ListedKeys(rows, ids, logins, n - 1, login);
      ListedSnoc(rows, n - 1);
    }
  }

  /** No earlier row has this name. */
  ghost predicate FirstNamed(names: seq<string>, i: nat)
    requires i < |names|
  {
    forall j :: 0 <= j < i ==> names[j] != names[i]
  }

  lemma {:induction false} ListedId(rows: seq<string>, ids: seq<string>, names: seq<string>, k: nat, i: nat)
    requires Names(rows, ids, names) && i <= k < |rows| && FirstNamed(names, i)
    ensures AllTwoFields(rows) && names[i] in ListedIds(rows[..k + 1]) && ListedIds(rows[..k + 1])[names[i]] == ids[i]
  {
    NamesTwoFields(rows, ids, names);
    NamesFront(rows, ids, names, k);
    ListedSnoc(rows, k);
    if i < k {
      ListedId(rows, ids, names, k - 1, i);
    } else {
      ListedKeys(rows, ids, names, k, names[k]);
      assert names[k] !in names[..k];
    }
  }

  /** The first row with the name of row i. */
  lemma FirstWithName(names: seq<string>, i: nat) returns (f: nat)
    requires i < |names|
    ensures f <= i && names[f] == names[i] && FirstNamed(names, f)
  {
    f := 0;
    while names[f] != names[i]
      invariant f <= i && forall j :: 0 <= j < f ==> names[j] != names[i]
      decreases i - f
    {
      f := f + 1;
    }
  }

  /** The name of a user in the list: the login up to its first divider. */
  function ListName(login: string): string { login[..Find(login, DIVIDER)] }

  function ListNames(us: seq<User>): (names: seq<string>)
    ensures |names| == |us|
  {
    seq(|us|, i requires 0 <= i < |us| => ListName(us[i].login))
  }

  function IdTexts(us: seq<User>): (ids: seq<string>)
    ensures |ids| == |us|
  {
    seq(|us|, i requires 0 <= i < |us| => Decimal(us[i].id))
  }

  lemma NameCut(login: string, more: string)
    requires NUL !in login
    ensures Fields(login + [DIVIDER] + more) != [] && Fields(login + [DIVIDER] + more)[0] == ListName(login)
  {
    var s, p := login + [DIVIDER] + more, Find(login, DIVIDER);
    FindIsFirst(login, DIVIDER);
    if Has(login, DIVIDER) {
      assert s == login[..p] + [DIVIDER] + (login[p + 1..] + [DIVIDER] + more);
      FindInConcat(login[..p], DIVIDER, login[p + 1..] + [DIVIDER] + more);
    } else {
      FindInConcat(login, DIVIDER, more);
    }
    assert s[..p] == login[..p];
  }

  /** The id and the name a client reads from the row of a user, whatever its other fields hold. */
  lemma FirstTwoFields(r: UserRow)
    requires r.pwdhash.Some? && NUL !in r.user.login
    ensures var fs := Fields(CStr(RowText(RowFields(r))));
            |fs| >= 2 && fs[0] == Decimal(r.user.id) && fs[1] == ListName(r.user.login)
  {
    var all, id, login := RowFields(r), Decimal(r.user.id), r.user.login;
    DecimalChars(r.user.id);
    var rest := Terminated(all[2..]) + [NUL];
    assert all[1..][1..] == all[2..];
    assert Terminated(all[1..]) == login + [DIVIDER] + Terminated(all[2..]);
    assert RowText(all) == (id + [DIVIDER] + login + [DIVIDER]) + rest;
    CStrPast(id + [DIVIDER] + login + [DIVIDER], rest);
    assert CStr(RowText(all)) == id + [DIVIDER] + (login + [DIVIDER] + CStr(rest));
    FirstCut(id, login + [DIVIDER] + CStr(rest));
    NameCut(login, CStr(rest));
  }

  /** No login holds a NUL, as no text of the program does. */
  predicate NulFree(us: seq<User>) { forall i :: 0 <= i < |us| ==> NUL !in us[i].login }

  lemma NamesUsers(db: Db)
    requires DbOk(db) && NoNullHash(UserRows(db)) && NulFree(db.users)
    ensures Names(Shown(RowTexts(UserRows(db))), IdTexts(db.users), ListNames(db.users))
  {
    OneRowPerUser(db);
    var rows := Shown(RowTexts(UserRows(db)));
    forall i | 0 <= i < |rows|
      ensures |Fields(rows[i])| >= 2 && Fields(rows[i])[0] == Decimal(db.users[i].id) &&
              Fields(rows[i])[1] == ListName(db.users[i].login)
    {
      FirstTwoFields(UserRows(db)[i]);
    }
  }

  /** The lists and maps a client builds from rows that have these ids and names. */
  lemma ListedAll(rows: seq<string>, ids: seq<string>, names: seq<string>)
    requires Names(rows, ids, names)
    ensures AllTwoFields(rows) && ListedLogins(rows) == names
    ensures forall l :: l in ListedIds(rows) <==> l in names
    ensures forall i :: 0 <= i < |names| && FirstNamed(names, i) ==> ListedIds(rows)[names[i]] == ids[i]
  {
    var n := |rows|;
    assert rows[..n] == rows && names[..n] == names;
    ListedNames(rows, ids, names, n);
    forall l ensures l in ListedIds(rows) <==> l in names {
      ListedKeys(rows, ids, names, n, l);
    }
    forall i | 0 <= i < n && FirstNamed(names, i) ensures ListedIds(rows)[names[i]] == ids[i] {
      ListedId(rows, ids, names, n - 1, i);
    }
  }

  /** Main result, with the contract of GetUserList: a drained listing names every user once, in order, by its login up
      to the first divider; a name is mapped to the id of its user exactly when no earlier user has the same name. */
  lemma ListedUsers(db: Db, i: nat)
    requires DbOk(db) && NoNullHash(UserRows(db)) && NulFree(db.users) && i < |db.users|
    ensures var rows, name := Shown(RowTexts(UserRows(db))), ListName(db.users[i].login);
            && AllTwoFields(rows)
            && ListedLogins(rows) == ListNames(db.users)
            && (forall l :: l in ListedIds(rows) <==> l in ListNames(db.users))
            && name in ListedIds(rows)
            && (ListedIds(rows)[name] == Decimal(db.users[i].id) <==> FirstNamed(ListNames(db.users), i))
  {
    NamesUsers(db);
    var names := ListNames(db.users);
    ListedAll(Shown(RowTexts(UserRows(db))), IdTexts(db.users), names);
    assert names[i] == ListName(db.users[i].login);
    var f := FirstWithName(names, i);
    if f < i && Decimal(db.users[f].id) == Decimal(db.users[i].id) {
      DecimalInjective(db.users[f].id, db.users[i].id);
    }
  }

  /** Logins without a divider are their own names, so that every login is mapped to its user. */
  lemma PlainLoginsAreNames(db: Db, i: nat)
    requires DbOk(db) && i < |db.users| && forall j :: 0 <= j < |db.users| ==> DIVIDER !in db.users[j].login
    ensures ListName(db.users[i].login) == db.users[i].login && FirstNamed(ListNames(db.users), i)
  {
    forall j | 0 <= j <= i ensures ListName(db.users[j].login) == db.users[j].login {
      FindIsFirst(db.users[j].login, DIVIDER);
    }
    forall j | 0 <= j < i ensures db.users[j].login != db.users[i].login {
      assert !SameLogin(db.users[j].login, db.users[i].login);
    }
  }

  /** An input at which the map is wrong: behind a first user "a", a user "a~b" is listed as "a" and leads to the
      first. */
  lemma ClashingNames(db: Db, j: nat)
    requires DbOk(db) && NoNullHash(UserRows(db)) && NulFree(db.users) && 0 < j < |db.users|
    requires db.users[0].login == "a" && db.users[j].login == "a~b"
    ensures var rows := Shown(RowTexts(UserRows(db)));
            && AllTwoFields(rows) && "a" in ListedIds(rows)
            && ListNames(db.users)[0] == ListNames(db.users)[j] == "a"
            && ListedIds(rows)["a"] == Decimal(db.users[0].id) != Decimal(db.users[j].id)
  {
    FindIsFirst("a", DIVIDER);
    assert "a~b" == "a" + [DIVIDER] + "b";
    FindInConcat("a", DIVIDER, "b");
    assert ListName("a") == "a" && ListName("a~b") == "a";
    hide ListName, UserRows;
    assert ListNames(db.users)[0] == ListName(db.users[0].login);
    assert ListNames(db.users)[j] == ListName(db.users[j].login);
    ListedUsers(db, 0);
    ListedUsers(db, j);
  }
}
