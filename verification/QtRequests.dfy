/** The single requests of the graphical clients: bans, sending, login and registration. */
module QtRequests {
  import opened Text
  import opened TypedText
  import opened Tables
  import opened TableLaws
  import opened Accounts
  import opened Readers
  import opened Delivery
  import opened Listing
  import opened Session
  import opened Server
  import opened Password
  import opened ClientConnection
  import opened QtClient
  import F = Fips180

  /** The password buffer of the graphical client, with its NUL. */
  const PWD_BUFFER := 32

  /** Sets or lifts the ban of one user. The ban is set, with the deadline the database computes, or lifted, exactly if
      the client is told so. */
  method SetBan(conn: ClientConnection, userId: string, banFlag: bool, world: World) returns (ok: bool)
    modifies conn, conn.hDB
    ensures var db, call := RunOps(old(conn.hDB.db), world.before), world.call;
            (conn.hDB.db, ok) == BanUser(db, userId, if banFlag then "1" else "0", call.deadline, call.first.env)
    ensures conn.View() == old(conn.View())
    ensures var env := world.call.first.env;
            ok <==> ParseId(userId).Some? && !Fails(env, 0) && (banFlag ==> !Fails(env, 1))
    ensures ok ==> BansOf(conn.hDB.db.bans, ParseId(userId).value) ==
                     if banFlag then [Ban(ParseId(userId).value, world.call.deadline)] else []
  {
    var msg := CLEARED.(mtype := eSetUserBanFlag, user := userId, body := if banFlag then "1" else "0");
    BanSet(RunOps(conn.hDB.db, world.before), userId, msg.body, world.call.deadline, world.call.first.env);
    msg := Exchange(conn, msg, world);
    ok := msg.mtype == eUserBanFlagSet;
  }

  lemma BanSet(db: Db, userId: string, action: string, deadline: string, env: Env)
    requires action == "1" || action == "0"
    ensures var (db', ok) := BanUser(db, userId, action, deadline, env);
            && (ok <==> ParseId(userId).Some? && !Fails(env, 0) && (action == "1" ==> !Fails(env, 1)))
            && (ok ==> BansOf(db'.bans, ParseId(userId).value) ==
                         if action == "1" then [Ban(ParseId(userId).value, deadline)] else [])
  {
    if ParseId(userId).Some? {
      var id := ParseId(userId).value;
      BansOfDeleted(db.bans, id, id);
      BansOfSnoc(DeleteBan(db.bans, id), Ban(id, deadline), id);
    }
  }

  /** The receiver's id as the client looks it up; an unknown login leaves the sender's own id in the message. */
  function ReceiverId(usersMap: map<string, string>, sender: string, receiver: string): string {
    if receiver in usersMap then usersMap[receiver] else sender
  }

  /** The call that sending leads to. A session that has an id of its own, which a batch login does not give it, is the
      sender itself, and takes the sender of the message for the receiver. */
  function SendCall(s: Session, usersMap: map<string, string>, sender: string, text: string, receiver: Option<string>,
      env: Env): DbOp
  {
    if receiver.None? then OpDeliver(text, sender, None, env)
    else if s.usrDbId == 0 then OpDeliver(text, sender, Some(ReceiverId(usersMap, sender, receiver.value)), env)
    else OpDeliver(text, Decimal(s.usrDbId), Some(sender), env)
  }

  /** What a send leads to when it is delivered: messages of the sender that is named, to the user the map gives or to
      all others. A session with an id is the sender itself, and writes to the one that is named. */
  lemma SendCallDelivers(db: Db, s: Session, usersMap: map<string, string>, sender: string, text: string,
                         receiver: Option<string>, env: Env)
    requires DbOk(db)
    requires var op := SendCall(s, usersMap, sender, text, receiver, env);
             DeliverMsg(db, op.body, op.from, op.to, op.env).1
    ensures var op := SendCall(s, usersMap, sender, text, receiver, env);
            Sent(db, DeliverMsg(db, op.body, op.from, op.to, op.env).0, s.usrDbId, usersMap, sender, text, receiver)
  {
    hide DbOk, SentBy, DeliverMsg, ParseId;
    var op := SendCall(s, usersMap, sender, text, receiver, env);
    DeliveredFrom(db, op.body, op.from, op.to, op.env);
    ParseDecimal(s.usrDbId);
  }

  ghost predicate Sent(db: Db, db': Db, sessionId: nat, usersMap: map<string, string>, sender: string, text: string,
                       receiver: Option<string>)
  {
    match receiver
    case None => ParseId(sender).Some? && SentBy(db, db', ParseId(sender).value, None, text)
    case Some(name) =>
      ParseId(sender).Some? &&
      if sessionId != 0 then SentBy(db, db', sessionId, ParseId(sender), text)
      else
        var to := ParseId(if name in usersMap then usersMap[name] else sender);
        to.Some? && SentBy(db, db', ParseId(sender).value, to, text)
  }

  /** Sends to one user of the map, or to all. */
  method SendMessage(conn: ClientConnection, usersMap: map<string, string>, sender: string, text: string,
                     receiver: Option<string>, world: World)
    returns (delivered: bool)
    modifies conn, conn.hDB
    ensures var op := SendCall(old(conn.View()), usersMap, sender, text, receiver, world.call.first.env);
            (conn.hDB.db, delivered) ==
                DeliverMsg(RunOps(old(conn.hDB.db), world.before), op.body, op.from, op.to, op.env)
    ensures conn.View() == old(conn.View())
    ensures var db := RunOps(old(conn.hDB.db), world.before);
            delivered && DbOk(db) ==> Sent(db, conn.hDB.db, old(conn.usrDbId), usersMap, sender, text, receiver)
  {
    hide Sent, DbOk;
    ghost var db, s := RunOps(conn.hDB.db, world.before), conn.View();
    var msg := CLEARED.(mtype := eSendToAll, userId := sender, body := text);
    if receiver.Some? {
      msg := msg.(mtype := eSendToUserMsgReady, user := sender);
      if receiver.value in usersMap {
        msg := msg.(userId := usersMap[receiver.value]);
      }
    }
    SendHandled(RunOps(conn.hDB.db, world.before), conn.View(), msg, world.call);
    msg := Exchange(conn, msg, world);
    delivered := msg.mtype == eMsgDelivered;
    if delivered && DbOk(db) {
      SendCallDelivers(db, s, usersMap, sender, text, receiver, world.call.first.env);
    }
  }

  lemma SendHandled(db: Db, s: Session, m: IoMsg, call: Call)
    requires m.mtype == eSendToAll || m.mtype == eSendToUserMsgReady
    ensures NoNullRead(db, s, m)
    ensures var h, env := Handle(db, s, m, call), call.first.env;
            var sent := if m.mtype == eSendToAll then DeliverMsg(db, m.body, m.userId, None, env)
                        else if s.usrDbId == 0 then DeliverMsg(db, m.body, m.user, Some(m.userId), env)
                        else DeliverMsg(db, m.body, Decimal(s.usrDbId), Some(m.user), env);
            h.db == sent.0 && h.session == s && (h.reply.mtype == eMsgDelivered <==> sent.1)
  {
  }

  /** Main result, with the contracts of GetUserList and SendMessage: for a session without an id, which every batch
      login leaves, picking the name of user i from a drained listing sends from the client's id to the first user with
      that name, even if others run in between; only these two are shown the message. The receiver is user i exactly
      when no earlier login is the same up to its first divider. */
  lemma PickedReceiver(db: Db, s: Session, ops: seq<DbOp>, i: nat, sender: nat, text: string, env: Env, id: nat)
    returns (f: nat)
    requires DbOk(db) && NoNullHash(UserRows(db)) && NulFree(db.users) && i < |db.users| && s.usrDbId == 0 &&
             FindUser(db.users, sender).Some?
    ensures f <= i && ListNames(db.users)[f] == ListNames(db.users)[i]
    ensures f == i <==> FirstNamed(ListNames(db.users), i)
    ensures var rows := Shown(RowTexts(UserRows(db)));
            AllTwoFields(rows) &&
            var op := SendCall(s, ListedIds(rows), Decimal(sender), text, Some(ListNames(db.users)[i]), env);
            var db1 := RunOps(db, ops);
            var (db2, delivered) := DeliverMsg(db1, op.body, op.from, op.to, op.env);
            delivered ==>
              && SentBy(db1, db2, sender, Some(db.users[f].id), text)
              && |db2.messages| == |db1.messages| + 1
              && (VisibleTo(db2, db2.messages[|db1.messages|], id) <==> id == sender || id == db.users[f].id)
  {
    f := FirstWithName(ListNames(db.users), i);
    ListedUsers(db, f);
    ListedUsers(db, i);
    SentTo(db, ops, sender, db.users[f].id, text, env, id);
  }

  lemma SentTo(db: Db, ops: seq<DbOp>, sender: nat, to: nat, text: string, env: Env, id: nat)
    requires DbOk(db) && FindUser(db.users, sender).Some?
    ensures var db1 := RunOps(db, ops);
            var (db2, delivered) := DeliverMsg(db1, text, Decimal(sender), Some(Decimal(to)), env);
            delivered ==>
              && SentBy(db1, db2, sender, Some(to), text)
              && |db2.messages| == |db1.messages| + 1
              && (VisibleTo(db2, db2.messages[|db1.messages|], id) <==> id == sender || id == to)
  {
    hide SentBy, VisibleTo, DbOk;
    ParseDecimal(sender);
    ParseDecimal(to);
    RunOpsOk(db, ops);
    RunOpsAppends(db, ops);
    FindUserStays(db.users, RunOps(db, ops).users, sender);
    if SendPrivate(RunOps(db, ops), text, sender, to, env).1 {
      PrivateDelivery(RunOps(db, ops), text, sender, to, env, id);
      DeliveredFrom(RunOps(db, ops), text, Decimal(sender), Some(Decimal(to)), env);
    }
  }

  /** The hash of the password in the buffer. */
  method BatchHash(pwd: string) returns (hash: string)
    requires |pwd| < PWD_BUFFER
    ensures hash == PasswordText(pwd)
  {
    hash := TextOfPassword(pwd);
  }

  /** What the login form gets to know: the id on success, the text of a refusal, and nothing where the
      request comes back. */
  function AuthResult(reply: IoMsg): (bool, Option<string>) {
    if reply.mtype == eAuthOK then (true, Some(reply.userId))
    else if reply.mtype == eError then (false, Some(reply.body))
    else (false, None)
  }

  /** What the form gets to know from a batch login. */
  function BatchAnswer(db: Db, s: Session, m: IoMsg, call: Call): (bool, Option<string>)
    requires m.mtype == eBatchAuth
  {
    AuthResult(Handle(db, s, m, call).reply)
  }

  lemma AuthHandled(db: Db, s: Session, m: IoMsg, call: Call, id: nat, passes: bool)
    requires m.mtype == eBatchAuth
    requires Begin(db, s, m, call.deadline, call.first) ==
             if passes then Outcome(db, s, AwaitBan(Decimal(id)), m, false) else ReplyTo(db, s, m)
    ensures var till := if passes then UserIsBanned(RunOps(db, call.between), Decimal(id), call.second.env) else None;
            BatchAnswer(db, s, m, call) ==
              if !passes then (false, None)
              else if till.Some? then (false, Some(BANNED_TEXT + till.value))
              else (true, Some(Decimal(id)))
  {
  }

  /** What the login form gets for a hash text. */
  function AuthOutcome(db: Db, id: nat, passes: bool, call: Call): (bool, Option<string>) {
    var bans := BansOf(RunOps(db, call.between).bans, id);
    if !passes then (false, None)
    else if bans == [] || Fails(call.second.env, 0) then (true, Some(Decimal(id)))
    else (false, Some(BANNED_TEXT + bans[0].deadline))
  }

  /** The deadline only matters to a ban. */
  lemma BatchDeadline(db: Db, s: Session, m: IoMsg, deadline: string, around: Around)
    requires m.mtype == eBatchAuth
    ensures Begin(db, s, m, deadline, around) == Begin(db, s, m, "", around)
  {
  }

  /** A batch login is checked against the one row with this login, and refused without one. */
  lemma AuthByRow(db: Db, s: Session, m: IoMsg, call: Call)
    requires DbOk(db) && m.mtype == eBatchAuth && !Fails(call.first.env, 0)
    ensures forall u :: u in db.users && SameLogin(u.login, m.user) ==>
              BatchAnswer(db, s, m, call) == AuthOutcome(db, u.id, HashMatches(db, u.id, m.body), call)
    ensures (forall u :: u in db.users ==> !SameLogin(u.login, m.user)) ==> BatchAnswer(db, s, m, call) == (false, None)
  {
    BatchDeadline(db, s, m, call.deadline, call.first);
    FindLoginFinds(db.users, m.user);
    if FindLogin(db.users, m.user).Some? {
      OnlyRow(db, m.user);
      var u := FindLogin(db.users, m.user).value;
      var i :| 0 <= i < |db.users| && db.users[i] == u;
      HashOfAt(db.users, db.userData, i);
      AuthHandled(db, s, m, call, u.id, HashMatches(db, u.id, m.body));
      ParseDecimal(u.id);
    } else {
      AuthHandled(db, s, m, call, 0, false);
    }
  }

  method CheckAuth(conn: ClientConnection, login: string, pwd: string, world: World)
    returns (ok: bool, extData: Option<string>)
    requires |pwd| < PWD_BUFFER
    modifies conn, conn.hDB
    ensures var db, m := RunOps(old(conn.hDB.db), world.before), IoMsg(eBatchAuth, PasswordText(pwd), login, "");
            var h := Handle(db, old(conn.View()), m, world.call);
            conn.hDB.db == h.db && conn.View() == h.session && (ok, extData) == AuthResult(h.reply)
    ensures var db := RunOps(old(conn.hDB.db), world.before);
            DbOk(db) && !Fails(world.call.first.env, 0) ==>
              && (forall u :: u in db.users && SameLogin(u.login, login) ==>
                    (ok, extData) == AuthOutcome(db, u.id, HashMatches(db, u.id, PasswordText(pwd)), world.call))
              && ((forall u :: u in db.users ==> !SameLogin(u.login, login)) ==> (ok, extData) == (false, None))
  {
    ghost var db, s := RunOps(conn.hDB.db, world.before), conn.View();
    ghost var request := IoMsg(eBatchAuth, PasswordText(pwd), login, "");
    if DbOk(db) && !Fails(world.call.first.env, 0) {
      AuthByRow(db, s, request, world.call);
    }
    hide AuthOutcome, HashMatches, Handle, DbOk, UserAuthOk, SameLogin;
    var hash := BatchHash(pwd);
    var msg := IoMsg(eBatchAuth, hash, login, "");
    msg := Exchange(conn, msg, world);
    match msg.mtype {
      case eAuthOK => return true, Some(msg.userId);
      case eError => return false, Some(msg.body);
      case _ => return false, None;
    }
  }

  lemma AuthAgainst(v: Server, a: Accepted, s: Session, m: IoMsg, call: Call)
    requires ServerOk(v) && a in v.accepted && SameLogin(m.user, a.login)
    requires m.mtype == eBatchAuth && !Fails(call.first.env, 0) && IsHashText(m.body) && IsHashText(a.hash)
    ensures BatchAnswer(v.db, s, m, call) == AuthOutcome(v.db, a.id, a.hash == m.body, call)
  {
    BatchDeadline(v.db, s, m, call.deadline, call.first);
    BatchAgainst(v, a, s, m, call.first);
    AuthHandled(v.db, s, m, call, a.id, a.hash == m.body);
    ParseDecimal(a.id);
  }

  lemma AuthMatchesDigest(v: Server, a: Accepted, p: string, q: string, s: Session, m: IoMsg, call: Call)
    requires |p| < PWD_BUFFER && |q| < PWD_BUFFER
    requires ServerOk(v) && a in v.accepted && SameLogin(m.user, a.login) && a.hash == PasswordText(p)
    requires m.mtype == eBatchAuth && !Fails(call.first.env, 0) && m.body == PasswordText(q)
    ensures BatchAnswer(v.db, s, m, call) == AuthOutcome(v.db, a.id, F.Digest(Bytes(p)) == F.Digest(Bytes(q)), call)
  {
    PasswordTextChars(p);
    PasswordTextChars(q);
    AuthAgainst(v, a, s, m, call);
    SameDigest(p, q);
  }

  lemma RunConcat(db: Db, a: seq<DbOp>, b: seq<DbOp>)
    ensures RunOps(RunOps(db, a), b) == RunOps(db, a + b)
  {
    RunSplit(db, a + b, |a|);
    assert (a + b)[..|a|] == a && (a + b)[|a|..] == b;
  }

  /** The outcome by the history of the bans: calls of the run, and of other sessions between the two halves. */
  lemma OutcomeFollowsBans(evs: seq<Event>, id: nat, passes: bool, call: Call)
    ensures var last := LastBan(CallsOf(START, evs) + call.between, id);
            && AuthOutcome(Run(START, evs).db, id, passes, call) ==
                 (if !passes then (false, None)
                  else if last.Some? && BanEffect(last.value, id) == Some(true) && !Fails(call.second.env, 0)
                  then (false, Some(BANNED_TEXT + last.value.deadline))
                  else (true, Some(Decimal(id))))
            && (last.Some? ==> last.value.OpBan?)
  {
    RunIsCalls(START, evs);
    RunConcat(EMPTY_DB, CallsOf(START, evs), call.between);
    BanHistory(CallsOf(START, evs) + call.between, id);
  }

  /** Main result, with the contract of CheckAuth: in every run, against a registration with password p, the login form
      is let in with password q exactly when the SHA-1 digests are the same and the last effective call on that user's
      ban, up to the second half of the login, was not a full ban. It gets the id then, and that ban's deadline
      otherwise. A ban query that fails counts as no ban. */
  lemma BatchLogin(evs: seq<Event>, a: Accepted, p: string, q: string, s: Session, m: IoMsg, call: Call)
    requires |p| < PWD_BUFFER && |q| < PWD_BUFFER
    requires a in Run(START, evs).accepted && SameLogin(m.user, a.login) && a.hash == PasswordText(p)
    requires m.mtype == eBatchAuth && !Fails(call.first.env, 0) && m.body == PasswordText(q)
    ensures var last := LastBan(CallsOf(START, evs) + call.between, a.id);
            && (last.Some? ==> last.value.OpBan?)
            && BatchAnswer(Run(START, evs).db, s, m, call) ==
                 (if F.Digest(Bytes(p)) != F.Digest(Bytes(q)) then (false, None)
                  else if last.Some? && BanEffect(last.value, a.id) == Some(true) && !Fails(call.second.env, 0)
                  then (false, Some(BANNED_TEXT + last.value.deadline))
                  else (true, Some(Decimal(a.id))))
    ensures OfBytes(p) && OfBytes(q) ==> Spelled(Bytes(p)) == p && Spelled(Bytes(q)) == q
  {
    hide ServerOk, Run, CallsOf, F.Digest, Bytes, Spelled, OfBytes, PasswordText, BatchAnswer, AuthOutcome, LastBan,
         BanEffect;
    if OfBytes(p) && OfBytes(q) {
      BytesSpellTheText(p, q);
    }
    StartOk();
    RunOk(START, evs);
    AuthMatchesDigest(Run(START, evs), a, p, q, s, m, call);
    OutcomeFollowsBans(evs, a.id, F.Digest(Bytes(p)) == F.Digest(Bytes(q)), call);
  }

  function RegResult(login: string, reply: IoMsg): (bool, Option<string>) {
    if reply.mtype == eExistingUser then (false, Some("user " + login + " already exists"))
    else if reply.mtype == eError then (false, Some(reply.body))
    else if reply.mtype == eAuthOK then (true, Some(reply.userId))
    else (false, None)
  }

  /** The database after both calls of a batch registration. */
  function Registered(db: Db, login: string, hash: string, call: Call): Db {
    var db1 := RunOps(AddUser(db, login, call.first.env).0, call.between);
    SetUserPwdhash(db1, db.nextUser, hash, call.second.env).0
  }

  lemma RegHandled(db: Db, s: Session, login: string, hash: string, call: Call)
    ensures var h := Handle(db, s, IoMsg(eBatchReg, hash, login, ""), call);
            && h.session == s
            && if AddUser(db, login, call.first.env).1.None? then h.reply.mtype == eExistingUser
               else
                 && h.db == Registered(db, login, hash, call)
                 && if Fails(call.second.env, 0) then h.reply.mtype == eError
                    else h.reply.mtype == eAuthOK && h.reply.userId == Decimal(db.nextUser)
  {
  }

  lemma RegisteredRow(db: Db, login: string, hash: string, call: Call)
    requires DbOk(db) && AddUser(db, login, call.first.env).1.Some? && !Fails(call.second.env, 0)
    ensures HasRow(Registered(db, login, hash, call), db.nextUser, login, Some(hash))
  {
    var db1 := AddUser(db, login, call.first.env).0;
    NewRow(db, login);
    ApplyOk(db, OpAddUser(login, call.first.env));
    AddedRowStays(db1, call.between, db.nextUser);
    HashOfUpdated(RunOps(db1, call.between).userData, db.nextUser, hash, db.nextUser);
  }

  /** Main result, with the contract of RegUser: a registration succeeds exactly when both of its calls do; then the
      login belongs to the reported id and its hash is the password's, whatever others did between the two calls. */
  lemma RegistrationRegisters(db: Db, s: Session, login: string, hash: string, call: Call)
    requires DbOk(db)
    ensures var h := Handle(db, s, IoMsg(eBatchReg, hash, login, ""), call);
            var (ok, ext) := RegResult(login, h.reply);
            && (ok <==> AddUser(db, login, call.first.env).1.Some? && !Fails(call.second.env, 0))
            && (ok ==>
                  && ext == Some(Decimal(db.nextUser)) && FindLogin(db.users, login).None?
                  && HasRow(h.db, db.nextUser, login, Some(hash)))
            && h.session == s
  {
    RegHandled(db, s, login, hash, call);
    if AddUser(db, login, call.first.env).1.Some? && !Fails(call.second.env, 0) {
      RegisteredRow(db, login, hash, call);
    }
  }

  method RegUser(conn: ClientConnection, login: string, pwd: string, world: World)
    returns (ok: bool, extData: Option<string>)
    requires |pwd| < PWD_BUFFER
    modifies conn, conn.hDB
    ensures var db, m := RunOps(old(conn.hDB.db), world.before), IoMsg(eBatchReg, PasswordText(pwd), login, "");
            var h := Handle(db, old(conn.View()), m, world.call);
            conn.hDB.db == h.db && conn.View() == h.session && (ok, extData) == RegResult(login, h.reply)
    ensures var db := RunOps(old(conn.hDB.db), world.before);
            DbOk(db) ==>
              && (ok <==> AddUser(db, login, world.call.first.env).1.Some? && !Fails(world.call.second.env, 0))
              && (ok ==> extData == Some(Decimal(db.nextUser)) &&
                         HasRow(conn.hDB.db, db.nextUser, login, Some(PasswordText(pwd))))
  {
    ghost var db, s := RunOps(conn.hDB.db, world.before), conn.View();
    if DbOk(db) {
      RegistrationRegisters(db, s, login, PasswordText(pwd), world.call);
    }
    hide Handle, HasRow, DbOk, AddUser;
    var hash := BatchHash(pwd);
    var msg := IoMsg(eBatchReg, hash, login, "");
    msg := Exchange(conn, msg, world);
    match msg.mtype {
      case eExistingUser => return false, Some("user " + login + " already exists");
      case eError => return false, Some(msg.body);
      case eAuthOK => return true, Some(msg.userId);
      case _ => return false, None;
    }
  }
}
