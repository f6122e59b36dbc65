/** Login safety of the console client and its session, together. */
module ConsoleLogin {
  import opened Text
  import opened Recipients
  import opened Tables
  import opened TableLaws
  import opened Accounts
  import opened Session
  import V = Server
  import opened Password
  import opened ClientConnection
  import opened QtClient
  import opened Console

  /** The id belongs to the row that the login finds. */
  ghost predicate Owns(db: Db, login: string, id: nat) {
    FindLogin(db.users, login).Some? && FindLogin(db.users, login).value.id == id
  }

  /** The messages a client has in hand while nobody is logged in. */
  predicate Outside(t: MsgType) {
    t == eWelcome || t == eChooseLogin || t == eLogin || t == eChoosePassword || t == ePassword || t == eWrongLogin ||
    t == eWrongPassword
  }

  /** The messages a client has in hand while a user is logged in. */
  predicate Inside(t: MsgType) {
    t == eNoMsg || t == eMsgNext || t == eMsgMainMenu || t == eMsgDelivered || t == eErrMsgNotDelivered ||
    t == eAvailableUsers || t == eError || t == eNone
  }

  /** What the message in hand says about the two ids; a password is asked for when the login has a row. */
  ghost predicate PhaseOk(c: Chat) {
    && (Outside(c.inbox.mtype) ==> c.session.usrDbId == 0)
    && (c.inbox.mtype == ePassword ==> FindLogin(c.db.users, c.session.user).Some?)
    && (c.inbox.mtype == eAuthOK ==> c.session.usrDbId != 0 && c.inbox.user == Decimal(c.session.usrDbId))
    && (Inside(c.inbox.mtype) ==> c.session.usrDbId != 0 && c.usrDbId == c.session.usrDbId)
    && (Outside(c.inbox.mtype) || c.inbox.mtype == eAuthOK || Inside(c.inbox.mtype) || c.inbox.mtype == eQuit)
  }

  /** A non-zero id of the session is the id of the row whose login the session holds. */
  ghost predicate LoginOk(c: Chat) {
    && DbOk(c.db)
    && (c.session.usrDbId != 0 ==> Owns(c.db, c.session.user, c.session.usrDbId))
    && PhaseOk(c)
  }

  // Rows that stay

  lemma {:induction false} FindLoginNew(us: seq<User>, u: User)
    requires FindLogin(us, u.login).None?
    ensures FindLogin(us + [u], u.login) == Some(u)
  {
    if us == [] {
      assert us + [u] == [u];
    } else {
      assert (us + [u])[1..] == us[1..] + [u];
      FindLoginNew(us[1..], u);
    }
  }

  lemma OwnsStays(db: Db, db': Db, login: string, id: nat)
    requires db.users <= db'.users && Owns(db, login, id)
    ensures Owns(db', login, id)
  {
    FindLoginStays(db.users, db'.users, login);
  }

  /** Ids in the table are positive and fit a long. */
  lemma OwnedId(db: Db, login: string, id: nat)
    requires DbOk(db) && Owns(db, login, id)
    ensures 1 <= id <= INT_MAX && FindUser(db.users, id).Some?
  {
    FindLoginFinds(db.users, login);
    FindUserFinds(db.users, id);
  }

  /** Handling a message keeps the database well formed, and its users in place. */
  lemma HandleKeeps(db: Db, s: Session, m: IoMsg, call: Call)
    requires DbOk(db) && NoNullRead(db, s, m)
    ensures DbOk(Handle(db, s, m, call).db) && db.users <= Handle(db, s, m, call).db.users
  {
    var begun := V.BeginCall(s, m, call.deadline, call.first);
    V.BeginIsCall(db, s, m, call.deadline, call.first);
    if begun.Some? {
      ApplyOk(db, begun.value);
      ApplyAppends(db, begun.value);
    }
    var out := Begin(db, s, m, call.deadline, call.first);
    if out.pending != Idle {
      FinishKeeps(out.db, out.session, out.pending, call);
    }
  }

  lemma FinishKeeps(db: Db, s: Session, p: Pending, call: Call)
    requires DbOk(db) && p != Idle
    ensures var end := Finish(RunOps(db, call.between), s, p, call.second);
            DbOk(end.db) && db.users <= end.db.users
  {
    RunOpsOk(db, call.between);
    RunOpsAppends(db, call.between);
    if p.AwaitHash? {
      ApplyOk(RunOps(db, call.between), OpSetHash(p.id, p.request.body, call.second.env));
    }
  }

  // What the client sends

  lemma HashTextsAreNotEmpty(pwd: Line)
    ensures PwdHash(pwd) == "" <==> pwd == ""
  {
    if pwd != "" {
      PasswordTextChars(pwd);
    }
  }

  predicate OutsideRequest(t: MsgType) {
    t == eNewUser || t == eExistingUser || t == eLogin || t == eChooseLogin
  }

  predicate InsideRequest(t: MsgType) {
    t == eGetMainMenu || t == eGetNextMsg || t == eSendToUser || t == eSendToAll || t == eSendToUserMsgReady ||
    t == eNone || t == eError
  }

  lemma OutsideAnswer(c: Chat)
    requires Outside(c.inbox.mtype)
    ensures var r := React(c.usrDbId, c.inbox, c.lines);
            && (r.Sends? || r.Waits?)
            && (r.Sends? ==>
                  && r.usrDbId == c.usrDbId
                  && (OutsideRequest(r.msg.mtype) || r.msg.mtype == ePassword || r.msg.mtype == eQuit))
            && (r.Sends? && r.msg.mtype == ePassword ==>
                  && c.lines != [] && r.msg.body == PwdHash(c.lines[0])
                  && r.msg.user == if c.inbox.mtype == eChoosePassword then "" else "e")
  {
    hide PwdHash;
  }

  lemma AuthAnswer(c: Chat, id: nat)
    requires c.inbox.mtype == eAuthOK && c.inbox.user == Decimal(id) && id <= INT_MAX
    ensures React(c.usrDbId, c.inbox, c.lines) == Sends(id, CLEARED.(mtype := eGetUserMsg), c.lines)
  {
    StolDecimal(id, "");
    assert Decimal(id) + "" == Decimal(id);
  }

  lemma InsideAnswer(c: Chat)
    requires Inside(c.inbox.mtype)
    ensures var r := React(c.usrDbId, c.inbox, c.lines);
            && !r.Ends?
            && (r.Sends? ==>
                  && r.usrDbId == c.usrDbId
                  && (InsideRequest(r.msg.mtype) || r.msg.mtype == eLogOut || r.msg.mtype == eQuit))
  {
  }

  lemma QuitAnswer(c: Chat)
    requires c.inbox.mtype == eQuit
    ensures React(c.usrDbId, c.inbox, c.lines) == Ends
  {
  }

  // What the session makes of it

  lemma OutsideHandled(db: Db, s: Session, m: IoMsg, call: Call)
    requires OutsideRequest(m.mtype)
    ensures NoNullRead(db, s, m)
    ensures var h := Handle(db, s, m, call);
            && h.db == db && h.session.usrDbId == s.usrDbId && Outside(h.reply.mtype)
            && (h.reply.mtype == ePassword ==> FindLogin(db.users, h.session.user).Some?)
  {
    hide OnAuthAdmin, OnBatchAuth, OnBatchReg, OnBan, OnPassword, OnUserMsgs, OnSendToAll, OnSendToUser, OnPrivate,
         PoolReply, NextUser, Fetched;
  }

  lemma InsideHandled(db: Db, s: Session, m: IoMsg, call: Call)
    requires InsideRequest(m.mtype) || m.mtype == eGetUserMsg
    ensures NoNullRead(db, s, m)
    ensures var h := Handle(db, s, m, call);
            h.session.usrDbId == s.usrDbId && h.session.user == s.user &&
              (Inside(h.reply.mtype) || h.reply.mtype == eQuit)
  {
    hide OnAuthAdmin, OnBatchAuth, OnBatchReg, OnBan, OnLogin, OnPassword, DeliverMsg, PackUsers, GetAllMsgs,
         GetUserMsgsText, GetUserMsgsNumber;
  }

  lemma EndHandled(db: Db, s: Session, m: IoMsg, call: Call)
    requires m.mtype == eLogOut || m.mtype == eQuit
    ensures NoNullRead(db, s, m)
    ensures var h := Handle(db, s, m, call);
            if m.mtype == eQuit then h.session == s && h.reply == m
            else h.session.usrDbId == 0 && h.session.user == "" && h.reply.mtype == eLogin
  {
    hide OnAuthAdmin, OnBatchAuth, OnBatchReg, OnBan, OnLogin, OnPassword, OnUserMsgs, OnSendToAll, OnSendToUser,
         OnPrivate, PoolReply, NextUser, Fetched;
  }

  /** The empty password for a login without a row: the query succeeds all the same, and its empty hash matches. */
  predicate EmptyForUnknown(db: Db, s: Session, m: IoMsg, call: Call) {
    m.mtype == ePassword && StartsWithE(m.user) && m.body == "" && FindLogin(db.users, s.user).None? &&
      !Fails(call.first.env, 0)
  }

  /** What a login without a row, or with one, is checked against. */
  lemma RecordOf(db: Db, s: Session, around: Around)
    requires DbOk(db)
    requires FindLogin(db.users, s.user).Some? ==>
               HashOf(db.userData, FindLogin(db.users, s.user).value.id) != Some(None)
    ensures LoginRecord(db, s, around) ==
            if Fails(around.env, 0) then None
            else if FindLogin(db.users, s.user).None? then Some((around.garbage, ""))
            else
              var u := FindLogin(db.users, s.user).value;
              if HashOf(db.userData, u.id).None? then Some((around.garbage, ""))
              else Some((u.id, HashOf(db.userData, u.id).value.value))
    ensures FindLogin(db.users, s.user).Some? ==> HashOf(db.userData, FindLogin(db.users, s.user).value.id).Some?
  {
    if FindLogin(db.users, s.user).Some? {
      var u := FindLogin(db.users, s.user).value;
      FindLoginFinds(db.users, s.user);
      var i :| 0 <= i < |db.users| && db.users[i] == u;
      HashOfAt(db.users, db.userData, i);
    }
  }

  lemma ExistingHandled(db: Db, s: Session, m: IoMsg, call: Call)
    requires DbOk(db) && m.mtype == ePassword && StartsWithE(m.user) && NoNullRead(db, s, m) && s.usrDbId == 0
    ensures var h := Handle(db, s, m, call);
            && h.db == db && h.session.user == s.user
            && (h.reply.mtype == eAuthOK || h.reply.mtype == eWrongPassword || h.reply.mtype == eQuit)
            && (h.reply.mtype != eAuthOK ==> h.session.usrDbId == 0)
            && (h.reply.mtype == eAuthOK ==> h.reply.user == Decimal(h.session.usrDbId))
            && (h.reply.mtype == eAuthOK ==>
                 (Owns(db, s.user, h.session.usrDbId) <==> !EmptyForUnknown(db, s, m, call)))
            && (EmptyForUnknown(db, s, m, call) ==> h.reply.mtype == eAuthOK)
  {
    hide OnAuthAdmin, OnBatchAuth, OnBatchReg, OnBan, OnLogin, OnUserMsgs, OnSendToAll, OnSendToUser, OnPrivate,
         PoolReply, NextUser, Fetched;
    RecordOf(db, s, call.first);
    hide DbOk, LoginRecord;
  }

  lemma NewHandled(db: Db, s: Session, m: IoMsg, call: Call)
    requires DbOk(db) && m.mtype == ePassword && m.user == "" && s.usrDbId == 0
    ensures NoNullRead(db, s, m)
    ensures var h := Handle(db, s, m, call);
            && h.session.user == s.user
            && (h.reply.mtype == eAuthOK || h.reply.mtype == eWrongPassword || h.reply.mtype == eQuit)
            && (h.reply.mtype != eAuthOK ==> h.session.usrDbId == 0)
            && (h.reply.mtype == eAuthOK ==>
                 h.reply.user == Decimal(h.session.usrDbId) && Owns(h.db, s.user, h.session.usrDbId))
  {
    hide DbOk;
    var (db1, id) := AddUser(db, s.user, call.first.env);
    if m.body != "" && id.Some? {
      FindLoginNew(db.users, User(id.value, s.user, "", ""));
      ApplyOk(db, OpAddUser(s.user, call.first.env));
      RunOpsAppends(db1, call.between);
      OwnsStays(db1, RunOps(db1, call.between), s.user, id.value);
      OwnsStays(db1, SetUserPwdhash(RunOps(db1, call.between), id.value, m.body, call.second.env).0, s.user, id.value);
    }
  }

  // The invariant

  /** The client is about to send the empty password for a login that has no row by then. */
  ghost predicate EmptyGuess(c: Chat, world: World) {
    var r := React(c.usrDbId, c.inbox, c.lines);
    c.status == Talking && r.Sends? && EmptyForUnknown(RunOps(c.db, world.before), c.session, r.msg, world.call)
  }

  /** The database before the session's own calls. */
  lemma WorldOk(c: Chat, world: World)
    requires LoginOk(c)
    ensures var db := RunOps(c.db, world.before);
            DbOk(db) && c.db.users <= db.users && LoginOk(c.(db := db))
  {
    RunOpsOk(c.db, world.before);
    RunOpsAppends(c.db, world.before);
    if c.inbox.mtype == ePassword {
      FindLoginStays(c.db.users, RunOps(c.db, world.before).users, c.session.user);
    }
    if c.session.usrDbId != 0 {
      OwnsStays(c.db, RunOps(c.db, world.before), c.session.user, c.session.usrDbId);
    }
  }

  /** A reply to a password: the login is safe exactly if an accepted one is for a row. */
  lemma PasswordReply(c: Chat, db: Db, h: Handled, rest: seq<Line>)
    requires DbOk(h.db)
    requires h.reply.mtype == eAuthOK || h.reply.mtype == eWrongPassword || h.reply.mtype == eQuit
    requires h.reply.mtype != eAuthOK ==> h.session.usrDbId == 0
    requires h.reply.mtype == eAuthOK ==> h.reply.user == Decimal(h.session.usrDbId)
    ensures LoginOk(Answered(c, db, c.usrDbId, h, rest)) <==>
            h.reply.mtype == eAuthOK ==> Owns(h.db, h.session.user, h.session.usrDbId)
  {
    hide DbOk, Owns;
    if Owns(h.db, h.session.user, h.session.usrDbId) {
      OwnedId(h.db, h.session.user, h.session.usrDbId);
    }
  }

  /** Any other reply keeps the login safe, if it keeps the user or logs it out. */
  lemma OtherReply(c: Chat, db: Db, id: nat, h: Handled, rest: seq<Line>)
    requires LoginOk(c) && DbOk(h.db) && c.db.users <= h.db.users
    requires h.session.usrDbId == 0 || (h.session.usrDbId == c.session.usrDbId && h.session.user == c.session.user)
    requires if h.session.usrDbId == 0 then Outside(h.reply.mtype) || h.reply.mtype == eQuit
             else id == h.session.usrDbId && (Inside(h.reply.mtype) || h.reply.mtype == eQuit)
    requires h.reply.mtype == ePassword ==> FindLogin(h.db.users, h.session.user).Some?
    ensures LoginOk(Answered(c, db, id, h, rest))
  {
    hide DbOk, Owns;
    if h.session.usrDbId != 0 {
      OwnsStays(c.db, h.db, c.session.user, c.session.usrDbId);
    }
  }

  lemma PasswordSent(c: Chat, msg: IoMsg, rest: seq<Line>, call: Call)
    requires LoginOk(c) && c.session.usrDbId == 0 && msg.mtype == ePassword && (msg.user == "e" || msg.user == "")
    requires NoNullRead(c.db, c.session, msg)
    ensures LoginOk(Answered(c, c.db, c.usrDbId, Handle(c.db, c.session, msg, call), rest)) <==>
            !EmptyForUnknown(c.db, c.session, msg, call)
  {
    hide DbOk, Owns, Handle, NoNullRead;
    HandleKeeps(c.db, c.session, msg, call);
    if msg.user == "e" {
      ExistingHandled(c.db, c.session, msg, call);
    } else {
      NewHandled(c.db, c.session, msg, call);
    }
    PasswordReply(c, c.db, Handle(c.db, c.session, msg, call), rest);
  }

  lemma OutsideSent(c: Chat, msg: IoMsg, rest: seq<Line>, call: Call)
    requires LoginOk(c) && c.session.usrDbId == 0 && (OutsideRequest(msg.mtype) || msg.mtype == eQuit)
    ensures NoNullRead(c.db, c.session, msg)
    ensures LoginOk(Answered(c, c.db, c.usrDbId, Handle(c.db, c.session, msg, call), rest))
  {
    hide DbOk, Owns, Handle, NoNullRead;
    if msg.mtype == eQuit {
      EndHandled(c.db, c.session, msg, call);
    } else {
      OutsideHandled(c.db, c.session, msg, call);
    }
    HandleKeeps(c.db, c.session, msg, call);
    OtherReply(c, c.db, c.usrDbId, Handle(c.db, c.session, msg, call), rest);
  }

  lemma InsideSent(c: Chat, id: nat, msg: IoMsg, rest: seq<Line>, call: Call)
    requires LoginOk(c) && c.session.usrDbId == id != 0
    requires InsideRequest(msg.mtype) || msg.mtype == eGetUserMsg || msg.mtype == eLogOut || msg.mtype == eQuit
    ensures NoNullRead(c.db, c.session, msg)
    ensures LoginOk(Answered(c, c.db, id, Handle(c.db, c.session, msg, call), rest))
  {
    hide DbOk, Owns, Handle, NoNullRead;
    if msg.mtype == eQuit || msg.mtype == eLogOut {
      EndHandled(c.db, c.session, msg, call);
    } else {
      InsideHandled(c.db, c.session, msg, call);
    }
    HandleKeeps(c.db, c.session, msg, call);
    OtherReply(c, c.db, id, Handle(c.db, c.session, msg, call), rest);
  }

  lemma NoGuess(db: Db, s: Session, m: IoMsg, call: Call)
    ensures m.mtype != ePassword || !NoNullRead(db, s, m) ==> !EmptyForUnknown(db, s, m, call)
  {
  }

  lemma SentOutside(c: Chat, r: Reaction, call: Call)
    requires LoginOk(c) && Outside(c.inbox.mtype) && r == React(c.usrDbId, c.inbox, c.lines) && r.Sends?
    ensures LoginOk(Served(c, c.db, r.usrDbId, r.msg, r.rest, call)) <==> !EmptyForUnknown(c.db, c.session, r.msg, call)
  {
    hide DbOk, Owns, React, Handle, NoNullRead, EmptyForUnknown, PwdHash;
    OutsideAnswer(c);
    NoGuess(c.db, c.session, r.msg, call);
    if r.msg.mtype != ePassword {
      OutsideSent(c, r.msg, r.rest, call);
    } else if NoNullRead(c.db, c.session, r.msg) {
      PasswordSent(c, r.msg, r.rest, call);
    } else {
      StatusOk(c, Crashed);
    }
  }

  lemma SentInside(c: Chat, r: Reaction, call: Call)
    requires LoginOk(c) && !Outside(c.inbox.mtype) && r == React(c.usrDbId, c.inbox, c.lines) && r.Sends?
    ensures LoginOk(Served(c, c.db, r.usrDbId, r.msg, r.rest, call)) && r.msg.mtype != ePassword
  {
    if c.inbox.mtype == eQuit {
      QuitAnswer(c);
    } else {
      hide React, Handle, NoNullRead, DbOk, Owns;
      if c.inbox.mtype == eAuthOK {
        OwnedId(c.db, c.session.user, c.session.usrDbId);
        AuthAnswer(c, c.session.usrDbId);
      } else {
        InsideAnswer(c);
      }
      InsideSent(c, c.session.usrDbId, r.msg, r.rest, call);
    }
  }

  /** The session's part of an exchange, on the database it finds. */
  lemma SentStep(c: Chat, r: Reaction, call: Call)
    requires LoginOk(c) && r == React(c.usrDbId, c.inbox, c.lines) && r.Sends?
    ensures LoginOk(Served(c, c.db, r.usrDbId, r.msg, r.rest, call)) <==> !EmptyForUnknown(c.db, c.session, r.msg, call)
  {
    hide LoginOk, React, Handle, NoNullRead;
    if Outside(c.inbox.mtype) {
      SentOutside(c, r, call);
    } else {
      SentInside(c, r, call);
    }
  }

  lemma StatusOk(c: Chat, status: Status)
    requires LoginOk(c)
    ensures LoginOk(c.(status := status))
  {
  }

  /** Main result: an exchange keeps the login safe exactly unless the client sends the empty password for a login
      without a row; then the session takes an id that belongs to nobody. */
  lemma LoginStep(c: Chat, world: World)
    requires LoginOk(c)
    ensures LoginOk(Step(c, world)) <==> !EmptyGuess(c, world)
  {
    hide LoginOk, React, Handle, EmptyForUnknown, NoNullRead;
    if c.status == Talking {
      WorldOk(c, world);
      var r := React(c.usrDbId, c.inbox, c.lines);
      if r.Sends? {
        SentStep(c.(db := RunOps(c.db, world.before)), r, world.call);
      } else {
        StatusOk(c, Step(c, world).status);
      }
    }
  }

  // Whole conversations

  /** The empty password is typed after a refused one. */
  predicate TypesEmpty(c: Chat) {
    c.inbox.mtype == eWrongPassword && c.lines != [] && c.lines[0] == ""
  }

  lemma TypedPassword(c: Chat, world: World)
    requires LoginOk(c) && !TypesEmpty(c)
    ensures !EmptyGuess(c, world)
  {
    hide LoginOk, Handle, PwdHash;
    var r := React(c.usrDbId, c.inbox, c.lines);
    if r.Sends? && r.msg.mtype == ePassword {
      if !Outside(c.inbox.mtype) {
        InsideRequests(c);
      } else if c.inbox.mtype == ePassword {
        KnownLogin(c, world);
      } else {
        OutsideAnswer(c);
        HashTextsAreNotEmpty(c.lines[0]);
        PasswordPrompts(c);
      }
    }
  }

  lemma KnownLogin(c: Chat, world: World)
    requires LoginOk(c) && c.inbox.mtype == ePassword
    ensures FindLogin(RunOps(c.db, world.before).users, c.session.user).Some?
  {
    WorldOk(c, world);
  }

  /** Passwords are sent at these prompts. */
  lemma PasswordPrompts(c: Chat)
    requires Outside(c.inbox.mtype)
    ensures var r := React(c.usrDbId, c.inbox, c.lines);
            r.Sends? && r.msg.mtype == ePassword ==>
              c.inbox.mtype == eChoosePassword || c.inbox.mtype == ePassword || c.inbox.mtype == eWrongPassword
  {
    hide PwdHash;
  }

  /** The login is safe after every exchange. */
  ghost predicate SafeThroughout(c: Chat, worlds: seq<World>) {
    LoginOk(Run(c, worlds)) && (worlds == [] || SafeThroughout(c, worlds[..|worlds| - 1]))
  }

  /** No exchange sends the empty password for a login without a row. */
  ghost predicate NeverGuesses(c: Chat, worlds: seq<World>) {
    worlds == [] ||
    (NeverGuesses(c, worlds[..|worlds| - 1]) && !EmptyGuess(Run(c, worlds[..|worlds| - 1]), worlds[|worlds| - 1]))
  }

  /** Main result: a conversation stays safe exactly as long as the empty password is not sent for a login without a
      row. */
  lemma {:induction false} SafeExactly(c: Chat, worlds: seq<World>)
    requires LoginOk(c)
    ensures SafeThroughout(c, worlds) <==> NeverGuesses(c, worlds)
  {
    hide LoginOk, Step, EmptyGuess;
    if worlds != [] {
      var front := worlds[..|worlds| - 1];
      SafeExactly(c, front);
      if LoginOk(Run(c, front)) {
        LoginStep(Run(c, front), worlds[|front|]);
      }
    }
  }

  /** Main result: in every conversation where no empty password is typed after a refused one, whatever other sessions
      do and whatever calls fail, a non-zero id of the session is that of the row whose login it holds; the client's id
      is the same once it has taken in eAuthOK; and it is zero from the log-out to the next accepted password. */
  lemma {:induction false} LoginIsSafe(db: Db, lines: seq<Line>, worlds: seq<World>)
    requires DbOk(db)
    requires forall k :: 0 <= k < |worlds| ==> !TypesEmpty(Run(Opened(db, lines), worlds[..k]))
    ensures LoginOk(Run(Opened(db, lines), worlds))
  {
    hide LoginOk, Step, EmptyGuess, TypesEmpty;
    if worlds == [] {
      OpenedOk(db, lines);
    } else {
      var front := worlds[..|worlds| - 1];
      assert forall k :: 0 <= k < |front| ==> front[..k] == worlds[..k];
      LoginIsSafe(db, lines, front);
      var c := Run(Opened(db, lines), front);
      assert !TypesEmpty(Run(Opened(db, lines), worlds[..|front|]));
      TypedPassword(c, worlds[|front|]);
      LoginStep(c, worlds[|front|]);
    }
  }

  lemma OpenedOk(db: Db, lines: seq<Line>)
    requires DbOk(db)
    ensures LoginOk(Opened(db, lines))
  {
  }

  /** The line for the log-out at the main menu. */
  predicate TypesLogOut(c: Chat) {
    c.inbox.mtype == eMsgMainMenu && c.lines != [] && c.lines[0] != "" && c.lines[0][0] == 'l'
  }

  lemma MenuLogsOut(c: Chat)
    requires c.inbox.mtype == eMsgMainMenu
    ensures var r := React(c.usrDbId, c.inbox, c.lines); r.Sends? && r.msg.mtype == eLogOut <==> TypesLogOut(c)
  {
  }

  lemma ListLogsNobodyOut(c: Chat)
    requires c.inbox.mtype == eAvailableUsers
    ensures var r := React(c.usrDbId, c.inbox, c.lines); !(r.Sends? && r.msg.mtype == eLogOut)
  {
    hide Unpack;
  }

  /** Only that line sends the request to log out. */
  lemma LogOutAnswer(c: Chat)
    requires Inside(c.inbox.mtype)
    ensures var r := React(c.usrDbId, c.inbox, c.lines); r.Sends? && r.msg.mtype == eLogOut <==> TypesLogOut(c)
  {
    if c.inbox.mtype == eMsgMainMenu {
      MenuLogsOut(c);
    } else if c.inbox.mtype == eAvailableUsers {
      ListLogsNobodyOut(c);
    }
  }

  /** The session's id changes only when a password is accepted, from zero, and when the user logs out, to zero; and
      that is exactly when the line at the main menu starts with 'l'. */
  lemma IdChanges(c: Chat, world: World)
    requires LoginOk(c) && c.status == Talking
    ensures Step(c, world).session.usrDbId != c.session.usrDbId ==>
              if c.session.usrDbId == 0 then
                React(c.usrDbId, c.inbox, c.lines).Sends? &&
                React(c.usrDbId, c.inbox, c.lines).msg.mtype == ePassword && Step(c, world).inbox.mtype == eAuthOK
              else
                && Step(c, world).session.usrDbId == 0 && Step(c, world).session.user == ""
                && Step(c, world).inbox.mtype == eLogin
    ensures c.session.usrDbId != 0 ==> (Step(c, world).session.usrDbId == 0 <==> TypesLogOut(c))
  {
    hide LoginOk, React, Handle, NoNullRead, TypesLogOut;
    WorldOk(c, world);
    var d, r := c.(db := RunOps(c.db, world.before)), React(c.usrDbId, c.inbox, c.lines);
    if Outside(c.inbox.mtype) {
      NobodyOutside(c);
      if r.Sends? && NoNullRead(d.db, c.session, r.msg) {
        OutsideChange(d, r, world.call);
      }
    } else {
      InsideLogsOut(c);
      if r.Sends? {
        InsideChange(d, r, world.call);
      }
    }
  }

  lemma NobodyOutside(c: Chat)
    requires LoginOk(c) && Outside(c.inbox.mtype)
    ensures c.session.usrDbId == 0
  {
  }

  lemma InsideLogsOut(c: Chat)
    requires LoginOk(c) && !Outside(c.inbox.mtype)
    ensures var r := React(c.usrDbId, c.inbox, c.lines); r.Sends? && r.msg.mtype == eLogOut <==> TypesLogOut(c)
  {
    if c.inbox.mtype == eQuit {
      QuitAnswer(c);
    } else if c.inbox.mtype == eAuthOK {
      OwnedId(c.db, c.session.user, c.session.usrDbId);
      AuthAnswer(c, c.session.usrDbId);
    } else {
      LogOutAnswer(c);
    }
  }

  lemma OutsideChange(c: Chat, r: Reaction, call: Call)
    requires LoginOk(c) && Outside(c.inbox.mtype) && r == React(c.usrDbId, c.inbox, c.lines) && r.Sends?
    requires NoNullRead(c.db, c.session, r.msg)
    ensures var h := Handle(c.db, c.session, r.msg, call);
            h.session.usrDbId != c.session.usrDbId ==>
              c.session.usrDbId == 0 && r.msg.mtype == ePassword && h.reply.mtype == eAuthOK
  {
    hide DbOk, Owns, React, Handle, NoNullRead, PwdHash;
    OutsideAnswer(c);
    if OutsideRequest(r.msg.mtype) {
      OutsideHandled(c.db, c.session, r.msg, call);
    } else if r.msg.mtype == eQuit {
      EndHandled(c.db, c.session, r.msg, call);
    } else if r.msg.user == "e" {
      ExistingHandled(c.db, c.session, r.msg, call);
    } else {
      NewHandled(c.db, c.session, r.msg, call);
    }
  }

  lemma InsideChange(c: Chat, r: Reaction, call: Call)
    requires LoginOk(c) && !Outside(c.inbox.mtype) && r == React(c.usrDbId, c.inbox, c.lines) && r.Sends?
    ensures NoNullRead(c.db, c.session, r.msg)
    ensures var h := Handle(c.db, c.session, r.msg, call);
            if r.msg.mtype == eLogOut
            then h.session.usrDbId == 0 && h.session.user == "" && h.reply.mtype == eLogin
            else h.session.usrDbId == c.session.usrDbId
  {
    InsideRequests(c);
    hide LoginOk, React, Handle, NoNullRead;
    if InsideRequest(r.msg.mtype) || r.msg.mtype == eGetUserMsg {
      InsideHandled(c.db, c.session, r.msg, call);
    } else {
      EndHandled(c.db, c.session, r.msg, call);
    }
  }

  /** What the client sends while a user is logged in. */
  lemma InsideRequests(c: Chat)
    requires LoginOk(c) && !Outside(c.inbox.mtype)
    ensures var r := React(c.usrDbId, c.inbox, c.lines);
            r.Sends? ==>
              InsideRequest(r.msg.mtype) || r.msg.mtype == eGetUserMsg || r.msg.mtype == eLogOut || r.msg.mtype == eQuit
  {
    hide DbOk, Owns;
    if c.inbox.mtype == eQuit {
      QuitAnswer(c);
    } else if c.inbox.mtype == eAuthOK {
      OwnedId(c.db, c.session.user, c.session.usrDbId);
      AuthAnswer(c, c.session.usrDbId);
    } else {
      InsideAnswer(c);
    }
  }

  lemma FirstEmpty(c: Chat, world: World)
    requires c.status == Talking && c.inbox.mtype == eChoosePassword && c.lines != [] && c.lines[0] == ""
    ensures Step(c, world) ==
            c.(db := RunOps(c.db, world.before), inbox := IoMsg(eWrongPassword, EMPTY_PASSWORD_TEXT, "", ""),
                lines := c.lines[1..])
  {
    hide OnUsers, OnMessage, OnAuthOk, OnMenu, CStr, RunOps, Handle, NoNullRead;
    var m := IoMsg(ePassword, "", "", "");
    assert React(c.usrDbId, c.inbox, c.lines) == Sends(c.usrDbId, m, c.lines[1..]);
    EmptyRefused(RunOps(c.db, world.before), c.session, m, world.call);
  }

  lemma EmptyRefused(db: Db, s: Session, m: IoMsg, call: Call)
    requires m == IoMsg(ePassword, "", "", "")
    ensures NoNullRead(db, s, m)
    ensures Handle(db, s, m, call) == Handled(db, s, IoMsg(eWrongPassword, EMPTY_PASSWORD_TEXT, "", ""), false)
  {
    hide OnAuthAdmin, OnBatchAuth, OnBatchReg, OnBan, OnLogin, OnUserMsgs, OnSendToAll, OnSendToUser, OnPrivate,
         PoolReply, NextUser, Fetched, LoginRecord;
  }

  lemma SecondEmpty(c: Chat, world: World)
    requires c.status == Talking && c.inbox.mtype == eWrongPassword && c.lines != [] && c.lines[0] == ""
    requires !Fails(world.call.first.env, 0) && FindLogin(RunOps(c.db, world.before).users, c.session.user).None?
    ensures var d := Step(c, world);
            d.inbox.mtype == eAuthOK && d.session.usrDbId == world.call.first.garbage &&
              d.session.user == c.session.user
  {
    var m := IoMsg(ePassword, "", "e", "");
    assert React(c.usrDbId, c.inbox, c.lines) == Sends(c.usrDbId, m, c.lines[1..]);
    EmptyAccepted(RunOps(c.db, world.before), c.session, m, world.call);
  }

  lemma EmptyAccepted(db: Db, s: Session, m: IoMsg, call: Call)
    requires m == IoMsg(ePassword, "", "e", "") && !Fails(call.first.env, 0) && FindLogin(db.users, s.user).None?
    ensures NoNullRead(db, s, m)
    ensures var h := Handle(db, s, m, call);
            h.reply.mtype == eAuthOK && h.session == s.(usrDbId := call.first.garbage)
  {
    hide OnAuthAdmin, OnBatchAuth, OnBatchReg, OnBan, OnLogin, OnUserMsgs, OnSendToAll, OnSendToUser, OnPrivate,
         PoolReply, NextUser, Fetched;
  }

  /** Typing the empty password twice at a registration logs in as nobody: the id is whatever the variable held. */
  lemma EmptyPasswordTwice(c: Chat, first: World, second: World)
    requires c.status == Talking && c.inbox.mtype == eChoosePassword && |c.lines| >= 2 && c.lines[0] == c.lines[1] == ""
    requires !Fails(second.call.first.env, 0)
    requires FindLogin(RunOps(RunOps(c.db, first.before), second.before).users, c.session.user).None?
    ensures var d := Step(Step(c, first), second);
            d.inbox.mtype == eAuthOK && d.session.usrDbId == second.call.first.garbage &&
              d.session.user == c.session.user
  {
    hide Step;
    FirstEmpty(c, first);
    SecondEmpty(Step(c, first), second);
  }

  lemma GreetedStep(c: Chat, world: World)
    requires c.status == Talking && c.inbox.mtype == eWelcome && c.lines != [] && c.lines[0] == "y"
    ensures Step(c, world) ==
            c.(db := RunOps(c.db, world.before), inbox := IoMsg(eChooseLogin, CHOOSE_LOGIN_TEXT, "", ""),
                lines := c.lines[1..])
  {
    hide OnAuthAdmin, OnBatchAuth, OnBatchReg, OnBan, OnLogin, OnPassword, OnUserMsgs, OnSendToAll, OnSendToUser,
         OnPrivate, PoolReply, NextUser, Fetched, OnUsers, OnMessage, OnAuthOk, OnMenu, PwdHash, CStr, RunOps;
  }

  lemma NamedHandled(db: Db, s: Session, m: IoMsg, call: Call)
    requires m.mtype == eLogin && m.user == "n" && FindLogin(db.users, m.body).None?
    ensures NoNullRead(db, s, m)
    ensures Handle(db, s, m, call) ==
            Handled(db, s.(user := m.body), m.(mtype := eChoosePassword, body := CHOOSE_PASSWORD_TEXT), false)
  {
    hide OnAuthAdmin, OnBatchAuth, OnBatchReg, OnBan, OnPassword, OnUserMsgs, OnSendToAll, OnSendToUser, OnPrivate,
         PoolReply, NextUser, Fetched;
  }

  lemma NamedStep(c: Chat, world: World)
    requires c.status == Talking && c.inbox.mtype == eChooseLogin && c.lines != [] && c.lines[0] != "x"
    requires FindLogin(RunOps(c.db, world.before).users, CStr(c.lines[0])).None?
    ensures Step(c, world) ==
            c.(db := RunOps(c.db, world.before), session := c.session.(user := CStr(c.lines[0])),
               inbox := IoMsg(eChoosePassword, CHOOSE_PASSWORD_TEXT, "n", ""), lines := c.lines[1..])
  {
    hide PwdHash, CStr, FindLogin, OnUsers, OnMessage, OnAuthOk, OnMenu, Handle, NoNullRead, RunOps;
    var m := IoMsg(eLogin, CStr(c.lines[0]), "n", "");
    assert React(c.usrDbId, c.inbox, c.lines) == Sends(c.usrDbId, m, c.lines[1..]);
    hide React;
    NamedHandled(RunOps(c.db, world.before), c.session, m, world.call);
  }

  lemma StillFree(db: Db, ops: seq<DbOp>, login: string)
    requires DbOk(db) && FindLogin(RunOps(db, ops).users, login).None?
    ensures DbOk(RunOps(db, ops)) && FindLogin(db.users, login).None?
  {
    RunOpsOk(db, ops);
    RunOpsAppends(db, ops);
    if FindLogin(db.users, login).Some? {
      FindLoginStays(db.users, RunOps(db, ops).users, login);
    }
  }

  /** The whole conversation: a new user types a free login and the empty password twice, and is logged in as nobody. */
  lemma NobodyLogsIn(db: Db, login: Line, worlds: seq<World>)
    requires DbOk(db) && login != "x" && |worlds| == 4 && !Fails(worlds[3].call.first.env, 0)
    requires var db3 := RunOps(RunOps(RunOps(db, worlds[0].before), worlds[1].before), worlds[2].before);
             FindLogin(RunOps(db3, worlds[3].before).users, CStr(login)).None?
    ensures var d := Run(Opened(db, ["y", login, "", ""]), worlds);
            d.inbox.mtype == eAuthOK && d.session.usrDbId == worlds[3].call.first.garbage &&
              d.session.user == CStr(login)
  {
    hide Step, FindLogin, CStr, DbOk;
    var db1 := RunOps(db, worlds[0].before);
    var db2 := RunOps(db1, worlds[1].before);
    RunOpsOk(db, worlds[0].before);
    RunOpsOk(db1, worlds[1].before);
    RunOpsOk(db2, worlds[2].before);
    StillFree(RunOps(db2, worlds[2].before), worlds[3].before, CStr(login));
    StillFree(db2, worlds[2].before, CStr(login));
    var c0 := Opened(db, ["y", login, "", ""]);
    GreetedStep(c0, worlds[0]);
    assert c0.lines[1..] == [login, "", ""];
    var c1 := Step(c0, worlds[0]);
    NamedStep(c1, worlds[1]);
    assert c1.lines[1..] == ["", ""];
    EmptyPasswordTwice(Step(c1, worlds[1]), worlds[2], worlds[3]);
    FourSteps(c0, worlds);
  }

  lemma FourSteps(c: Chat, worlds: seq<World>)
    requires |worlds| == 4
    ensures Run(c, worlds) == Step(Step(Step(Step(c, worlds[0]), worlds[1]), worlds[2]), worlds[3])
  {
    hide Step;
    assert worlds[..3][..2] == worlds[..2] && worlds[..2][..1] == worlds[..1] && worlds[..1][..0] == [];
    assert Run(c, []) == c;
    assert Run(c, worlds[..1]) == Step(c, worlds[0]);
    assert Run(c, worlds[..2]) == Step(Run(c, worlds[..1]), worlds[1]);
    assert Run(c, worlds[..3]) == Step(Run(c, worlds[..2]), worlds[2]);
  }
}
