/** What the user's choices at the main menu do, and whole logins and registrations at the console. */
module ConsoleMenu {
  import opened Text
  import opened Recipients
  import opened Tables
  import opened TableLaws
  import opened Accounts
  import opened Session
  import opened Password
  import opened ClientConnection
  import opened QtClient
  import opened QtRequests
  import opened Console
  import opened ConsoleLogin
  import opened ConsolePhases
  import opened ConsoleRecipients
  import TcpServer

  /** The client reads a line of the main menu. */
  predicate AtMenu(c: Chat) { c.status == Talking && c.inbox.mtype == eMsgMainMenu && c.lines != [] }

  /** The line starts with this letter. */
  predicate Letter(line: string, letter: char) { line != "" && line[0] == letter }

  lemma LogOutHandled(db: Db, s: Session, m: IoMsg, call: Call)
    requires m.mtype == eLogOut
    ensures NoNullRead(db, s, m)
    ensures Handle(db, s, m, call) ==
            Handled(db, s.(user := "", usrDbId := 0), m.(mtype := eLogin, body := TYPE_LOGIN_TEXT), false)
  {
    hide OnAuthAdmin, OnBatchAuth, OnBatchReg, OnBan, OnLogin, OnPassword, OnUserMsgs, OnSendToAll, OnSendToUser,
         OnPrivate, PoolReply, NextUser, Fetched;
  }

  /** Main result: a line that starts with 'l' logs the user out, and the client is asked for a login. */
  lemma LogOutChosen(c: Chat, world: World)
    requires AtMenu(c) && Letter(c.lines[0], 'l')
    ensures Step(c, world) ==
            c.(db := RunOps(c.db, world.before), session := c.session.(user := "", usrDbId := 0),
               inbox := IoMsg(eLogin, TYPE_LOGIN_TEXT, "", ""), lines := c.lines[1..])
  {
    hide OnUsers, OnMessage, OnAuthOk, PwdHash, CStr, RunOps, Handle, NoNullRead;
    var m := CLEARED.(mtype := eLogOut);
    assert React(c.usrDbId, c.inbox, c.lines) == Sends(c.usrDbId, m, c.lines[1..]);
    hide React;
    LogOutHandled(RunOps(c.db, world.before), c.session, m, world.call);
  }

  lemma ListHandled(db: Db, s: Session, id: nat, call: Call)
    ensures var m := CLEARED.(mtype := eSendToUser, user := Decimal(id));
            NoNullRead(db, s, m) &&
            Handle(db, s, m, call) ==
                Handled(db, s,
                  if Fails(call.first.env, 0) then CLEARED.(mtype := eQuit, body := NO_USERS_TEXT)
                  else m.(mtype := eAvailableUsers, body := CStr(Packed(OtherUsers(db.users, id)))), false)
  {
    hide OnAuthAdmin, OnBatchAuth, OnBatchReg, OnBan, OnLogin, OnPassword, OnUserMsgs, OnSendToAll, OnPrivate,
         PoolReply, NextUser, Fetched;
    ParseDecimal(id);
  }

  lemma ListStep(c: Chat, world: World)
    requires AtMenu(c) && Letter(c.lines[0], 'u')
    ensures var db := RunOps(c.db, world.before);
            Step(c, world) ==
              if Fails(world.call.first.env, 0)
              then c.(db := db, inbox := CLEARED.(mtype := eQuit, body := NO_USERS_TEXT), lines := c.lines[1..])
              else
                var list := CStr(Packed(OtherUsers(db.users, c.usrDbId)));
                c.(db := db, listed := db.users, lines := c.lines[1..],
                   inbox := IoMsg(eAvailableUsers, list, Decimal(c.usrDbId), ""))
  {
    hide OnUsers, OnMessage, OnAuthOk, PwdHash, RunOps, Handle, NoNullRead, Packed, OtherUsers;
    var m := CLEARED.(mtype := eSendToUser, user := Decimal(c.usrDbId));
    assert React(c.usrDbId, c.inbox, c.lines) == Sends(c.usrDbId, m, c.lines[1..]);
    hide React;
    ListHandled(RunOps(c.db, world.before), c.session, c.usrDbId, world.call);
  }

  /** Main result: a line that starts with 'u' keeps the session and, if the query succeeds, puts the list of the other
      users in the client's hand: whatever is typed then, a text can go to these users, and to the stray keys of the
      list, and to nobody else, unless a login makes the client throw. A failed query ends the session. */
  lemma ListChosen(c: Chat, world: World)
    requires AtMenu(c) && Letter(c.lines[0], 'u') && StateOk(c) && NulFree(RunOps(c.db, world.before).users)
    ensures var d, db := Step(c, world), RunOps(c.db, world.before);
            && d.status == Talking && d.session == c.session && d.usrDbId == c.usrDbId && d.db == db
            && d.lines == c.lines[1..]
            && if Fails(world.call.first.env, 0) then d.inbox.mtype == eQuit
               else
                 && ListInHand(d) && d.listed == db.users
                 && (!BadLogins(OthersOf(d)) ==>
                       forall uid: nat :: CanBePicked(d, uid) <==>
                         (uid != c.usrDbId && FindUser(db.users, uid).Some?) || StrayKey(OthersOf(d), uid))
  {
    ListStep(c, world);
    StateStep(c, world);
    hide Step, StateOk, CanBePicked, BadLogins, StrayKey, OtherUsers, FindUser, RunOps;
    if !Fails(world.call.first.env, 0) && !BadLogins(OthersOf(Step(c, world))) {
      OnlyOthersExactly(Step(c, world));
    }
  }

  lemma QuitTyped(c: Chat)
    requires IsPrompt(c.inbox.mtype) && c.inbox.mtype != eAvailableUsers && c.lines != [] && c.lines[0] == "x"
    ensures var r := React(c.usrDbId, c.inbox, c.lines);
            r.Sends? && r.usrDbId == c.usrDbId && r.msg.mtype == eQuit && r.rest == c.lines[1..]
  {
    hide PwdHash;
  }

  lemma QuitWrites(db: Db, s: Session, m: IoMsg, call: Call)
    requires m.mtype == eQuit && NoNullRead(db, s, m)
    ensures Handle(db, s, m, call).db == db
  {
    hide Begin;
    TcpServer.BeginExit(db, s, m, call.deadline, call.first);
  }

  lemma QuitStep(c: Chat, world: World)
    requires c.status == Talking && IsPrompt(c.inbox.mtype) && c.inbox.mtype != eAvailableUsers
    requires c.lines != [] && c.lines[0] == "x"
    ensures var d := Step(c, world);
            && d.status == Talking && d.inbox.mtype == eQuit && d.session == c.session && d.lines == c.lines[1..]
            && d.db == RunOps(c.db, world.before)
  {
    hide React, Handle, NoNullRead, RunOps, IsPrompt;
    QuitTyped(c);
    EndHandled(RunOps(c.db, world.before), c.session, React(c.usrDbId, c.inbox, c.lines).msg, world.call);
    QuitWrites(RunOps(c.db, world.before), c.session, React(c.usrDbId, c.inbox, c.lines).msg, world.call);
  }

  lemma ClosedStep(c: Chat, world: World)
    requires c.status == Talking && c.inbox.mtype == eQuit
    ensures Step(c, world) == c.(status := Closed)
  {
    QuitAnswer(c);
    hide React;
  }

  /** Main result: x at any prompt for one line ends the conversation with the second exchange; nothing is written. */
  lemma QuitChosen(c: Chat, first: World, second: World)
    requires c.status == Talking && IsPrompt(c.inbox.mtype) && c.inbox.mtype != eAvailableUsers
    requires c.lines != [] && c.lines[0] == "x"
    ensures var d := Step(Step(c, first), second);
            && d.status == Closed && d.session == c.session && d.lines == c.lines[1..]
            && d.db == RunOps(c.db, first.before)
  {
    QuitStep(c, first);
    hide Step;
    ClosedStep(Step(c, first), second);
  }

  lemma RefusedHandled(db: Db, s: Session, m: IoMsg, call: Call)
    requires m.mtype == eSendToAll && m.userId == ""
    ensures NoNullRead(db, s, m)
    ensures Handle(db, s, m, call) == Handled(db, s, m.(mtype := eError, body := call.first.error), false)
  {
    hide OnAuthAdmin, OnBatchAuth, OnBatchReg, OnBan, OnLogin, OnPassword, OnUserMsgs, OnSendToUser, OnPrivate,
         PoolReply, NextUser, Fetched;
  }

  /** A line that starts with 'a' and a text: the server refuses, and writes nothing, as the sender's id is missing. */
  lemma BroadcastChosen(c: Chat, world: World)
    requires AtMenu(c) && Letter(c.lines[0], 'a') && |c.lines| >= 2 && c.lines[1] != "x"
    ensures var d := Step(c, world);
            && d.status == Talking && d.inbox.mtype == eError && d.session == c.session
            && d.db == RunOps(c.db, world.before) && d.lines == c.lines[2..]
  {
    hide OnUsers, OnMessage, OnAuthOk, PwdHash, RunOps, Handle, NoNullRead;
    var m := IoMsg(eSendToAll, CStr(c.lines[1]), Decimal(c.usrDbId), "");
    assert c.lines[1..][1..] == c.lines[2..];
    assert React(c.usrDbId, c.inbox, c.lines) == Sends(c.usrDbId, m, c.lines[2..]);
    hide React;
    RefusedHandled(RunOps(c.db, world.before), c.session, m, world.call);
  }

  // Logging in

  lemma OtherGreeting(c: Chat, world: World)
    requires c.status == Talking && c.inbox.mtype == eWelcome && c.lines != [] && c.lines[0] != "y" && c.lines[0] != "x"
    ensures Step(c, world) ==
            c.(db := RunOps(c.db, world.before), inbox := IoMsg(eLogin, TYPE_LOGIN_TEXT, "", ""), lines := c.lines[1..])
  {
    hide OnAuthAdmin, OnBatchAuth, OnBatchReg, OnBan, OnLogin, OnPassword, OnUserMsgs, OnSendToAll, OnSendToUser,
         OnPrivate, PoolReply, NextUser, Fetched, OnUsers, OnMessage, OnAuthOk, OnMenu, PwdHash, CStr;
  }

  lemma LoginHandled(db: Db, s: Session, m: IoMsg, call: Call)
    requires m.mtype == eLogin && m.user == "e"
    ensures NoNullRead(db, s, m)
    ensures Handle(db, s, m, call) ==
            if m.body != "" && FindLogin(db.users, m.body).Some? && !Fails(call.first.env, 0)
            then Handled(db, s.(user := m.body), m.(mtype := ePassword, body := TYPE_PASSWORD_TEXT), false)
            else Handled(db, s, m.(mtype := eWrongLogin, body := WRONG_LOGIN_TEXT), false)
  {
    hide OnAuthAdmin, OnBatchAuth, OnBatchReg, OnBan, OnPassword, OnUserMsgs, OnSendToAll, OnSendToUser, OnPrivate,
         PoolReply, NextUser, Fetched;
    hide FindLogin;
  }

  /** Where the client asks an existing user for the login. */
  predicate AsksLogin(c: Chat) {
    c.status == Talking && c.lines != [] && c.lines[0] != "x" &&
    (c.inbox.mtype == eLogin || (c.inbox.mtype == eWrongLogin && c.inbox.user == "e"))
  }

  /** A typed login is accepted exactly if it is not empty and the database has it; the client is then asked for the
      password, and otherwise for another login. */
  lemma LoginTyped(c: Chat, world: World)
    requires AsksLogin(c)
    ensures var d, db, login := Step(c, world), RunOps(c.db, world.before), CStr(c.lines[0]);
            && d.status == Talking && d.db == db && d.lines == c.lines[1..] && d.inbox.user == "e"
            && if login != "" && FindLogin(db.users, login).Some? && !Fails(world.call.first.env, 0)
               then d.inbox.mtype == ePassword && d.session == c.session.(user := login)
               else d.inbox.mtype == eWrongLogin && d.session == c.session
  {
    hide CStr, FindLogin, OnUsers, OnMessage, OnAuthOk, OnMenu, Handle, NoNullRead, RunOps;
    var r := React(c.usrDbId, c.inbox, c.lines);
    assert r.Sends? && r.msg.mtype == eLogin && r.msg.user == "e" && r.msg.body == CStr(c.lines[0]);
    assert r.usrDbId == c.usrDbId && r.rest == c.lines[1..];
    hide React;
    LoginHandled(RunOps(c.db, world.before), c.session, r.msg, world.call);
  }

  /** The row a login is checked against. */
  lemma RecordFound(db: Db, login: string, env: Env, u: User, hash: string)
    requires DbOk(db) && !Fails(env, 0)
    requires u in db.users && SameLogin(u.login, login) && HashOf(db.userData, u.id) == Some(Some(hash))
    ensures FindLogin(db.users, login) == Some(u) && GetUser(db, login, env) == Some(Some((u.id, Some(hash))))
  {
    FindLoginFinds(db.users, login);
    var i :| 0 <= i < |db.users| && db.users[i] == u;
    assert FindLogin(db.users, login).Some?;
    OnlyRow(db, login);
  }

  lemma PasswordHandled(db: Db, s: Session, m: IoMsg, call: Call, u: User, hash: string)
    requires DbOk(db) && m.mtype == ePassword && m.user == "e" && !Fails(call.first.env, 0)
    requires u in db.users && SameLogin(u.login, s.user) && HashOf(db.userData, u.id) == Some(Some(hash))
    ensures NoNullRead(db, s, m)
    ensures Handle(db, s, m, call) ==
            if hash == m.body
            then Handled(db, s.(usrDbId := u.id), IoMsg(eAuthOK, LOGIN_OK_TEXT, Decimal(u.id), ""), false)
            else Handled(db, s, m.(mtype := eWrongPassword, body := WRONG_PASSWORD_TEXT), false)
  {
    hide OnAuthAdmin, OnBatchAuth, OnBatchReg, OnBan, OnLogin, OnUserMsgs, OnSendToAll, OnSendToUser, OnPrivate,
         PoolReply, NextUser, Fetched, DbOk, FindLogin, HashOf, SameLogin, GetUser, Finish;
    RecordFound(db, s.user, call.first.env, u, hash);
  }

  /** Where the client asks for the password of an existing user. */
  predicate AsksPassword(c: Chat) {
    c.status == Talking && c.lines != [] && c.lines[0] != "x" &&
    (c.inbox.mtype == ePassword || c.inbox.mtype == eWrongPassword)
  }

  /** A typed password is accepted exactly if its hash is the one stored for the user of the session's login, and the
      session takes this user's id; otherwise the client is asked again. */
  lemma PasswordTyped(c: Chat, world: World, u: User, hash: string)
    requires AsksPassword(c) && DbOk(RunOps(c.db, world.before)) && !Fails(world.call.first.env, 0)
    requires var db := RunOps(c.db, world.before);
             u in db.users && SameLogin(u.login, c.session.user) && HashOf(db.userData, u.id) == Some(Some(hash))
    ensures var d, db := Step(c, world), RunOps(c.db, world.before);
            && d.status == Talking && d.db == db && d.lines == c.lines[1..]
            && if hash == PwdHash(c.lines[0])
               then
                 d.inbox.mtype == eAuthOK && d.inbox.user == Decimal(u.id) && d.session == c.session.(usrDbId := u.id)
               else d.inbox.mtype == eWrongPassword && d.session == c.session
  {
    hide PwdHash, OnUsers, OnMessage, OnAuthOk, OnMenu, Handle, NoNullRead, RunOps, DbOk, HashOf, SameLogin;
    var m := IoMsg(ePassword, PwdHash(c.lines[0]), "e", "");
    assert React(c.usrDbId, c.inbox, c.lines) == Sends(c.usrDbId, m, c.lines[1..]);
    hide React;
    PasswordHandled(RunOps(c.db, world.before), c.session, m, world.call, u, hash);
  }

  lemma ThreeSteps(c: Chat, worlds: seq<World>)
    requires |worlds| == 3
    ensures Run(c, worlds) == Step(Step(Step(c, worlds[0]), worlds[1]), worlds[2])
  {
    hide Step;
    assert worlds[..2][..1] == worlds[..1] && worlds[..1][..0] == [];
    assert Run(c, []) == c;
    assert Run(c, worlds[..1]) == Step(c, worlds[0]);
    assert Run(c, worlds[..2]) == Step(Run(c, worlds[..1]), worlds[1]);
  }

  /** Main result: the whole conversation of an existing user. Whatever others do meanwhile, and if its queries succeed,
      it ends in eAuthOK with that user's id exactly if the typed password has the hash that is stored when it arrives;
      otherwise nobody is logged in and the password is asked for again. */
  lemma UserLogsIn(db: Db, answer: Line, login: Line, pwd: Line, worlds: seq<World>, u: User, hash: string)
    requires DbOk(db) && |worlds| == 3 && answer != "x" && answer != "y" && login != "x" && pwd != "x"
    requires !Fails(worlds[1].call.first.env, 0) && !Fails(worlds[2].call.first.env, 0) && CStr(login) != ""
    requires var db1 := RunOps(RunOps(db, worlds[0].before), worlds[1].before);
             && u in db1.users && SameLogin(u.login, CStr(login))
             && HashOf(RunOps(db1, worlds[2].before).userData, u.id) == Some(Some(hash))
    ensures var d := Run(Opened(db, [answer, login, pwd]), worlds);
            && d.status == Talking && d.session.user == CStr(login)
            && if hash == PwdHash(pwd)
               then d.inbox.mtype == eAuthOK && d.inbox.user == Decimal(u.id) && d.session.usrDbId == u.id
               else d.inbox.mtype == eWrongPassword && d.session.usrDbId == 0
  {
    hide Step, CStr, PwdHash, HashOf, SameLogin, DbOk, RunOps;
    var c0 := Opened(db, [answer, login, pwd]);
    var c1 := Step(c0, worlds[0]);
    OtherGreeting(c0, worlds[0]);
    assert c1.lines == [login, pwd];
    var c2 := Step(c1, worlds[1]);
    LoginTyped(c1, worlds[1]);
    assert c2.lines == [pwd];
    RunOpsOk(db, worlds[0].before);
    RunOpsOk(c1.db, worlds[1].before);
    FindLoginFinds(c2.db.users, CStr(login));
    RunOpsOk(c2.db, worlds[2].before);
    RunOpsAppends(c2.db, worlds[2].before);
    PasswordTyped(c2, worlds[2], u, hash);
    ThreeSteps(c0, worlds);
  }

  // Registering

  lemma NewLoginHandled(db: Db, s: Session, m: IoMsg, call: Call)
    requires m.mtype == eLogin && m.user == "n"
    ensures NoNullRead(db, s, m)
    ensures Handle(db, s, m, call) ==
            if m.body != "" && FindLogin(db.users, m.body).Some? && !Fails(call.first.env, 0)
            then Handled(db, s, m.(mtype := eWrongLogin, body := LOGIN_USED_TEXT), false)
            else Handled(db, s.(user := m.body), m.(mtype := eChoosePassword, body := CHOOSE_PASSWORD_TEXT), false)
  {
    hide FindLogin, OnAuthAdmin, OnBatchAuth, OnBatchReg, OnBan, OnPassword, OnUserMsgs, OnSendToAll, OnSendToUser,
         OnPrivate, PoolReply, NextUser, Fetched;
  }

  /** A new login is refused exactly if the database has it and the query succeeds; otherwise the session remembers
      it, and the client is asked for a password. */
  lemma NewLoginTyped(c: Chat, world: World)
    requires c.status == Talking && c.inbox.mtype == eChooseLogin && c.lines != [] && c.lines[0] != "x"
    ensures var d, db, login := Step(c, world), RunOps(c.db, world.before), CStr(c.lines[0]);
            && d.status == Talking && d.db == db && d.lines == c.lines[1..] && d.inbox.user == "n"
            && if login != "" && FindLogin(db.users, login).Some? && !Fails(world.call.first.env, 0)
               then d.inbox.mtype == eWrongLogin && d.session == c.session
               else d.inbox.mtype == eChoosePassword && d.session == c.session.(user := login)
  {
    hide PwdHash, CStr, FindLogin, OnUsers, OnMessage, OnAuthOk, OnMenu, Handle, NoNullRead, RunOps;
    var m := IoMsg(eLogin, CStr(c.lines[0]), "n", "");
    assert React(c.usrDbId, c.inbox, c.lines) == Sends(c.usrDbId, m, c.lines[1..]);
    hide React;
    NewLoginHandled(RunOps(c.db, world.before), c.session, m, world.call);
  }

  lemma RegisterBegins(db: Db, s: Session, m: IoMsg, deadline: string, around: Around)
    requires m.mtype == ePassword && m.user == "" && m.body != "" && AddUser(db, s.user, around.env).1.Some?
    ensures NoNullRead(db, s, m)
    ensures var (db1, id) := AddUser(db, s.user, around.env);
            Begin(db, s, m, deadline, around) == Outcome(db1, s, AwaitHash(id.value, m), m, false)
  {
    hide OnAuthAdmin, OnBatchAuth, OnBatchReg, OnBan, OnLogin, OnUserMsgs, OnSendToAll, OnSendToUser, OnPrivate,
         PoolReply, NextUser, Fetched, AddUser;
  }

  lemma RegisterHandled(db: Db, s: Session, m: IoMsg, call: Call)
    requires DbOk(db) && m.mtype == ePassword && m.user == "" && m.body != "" && FindLogin(db.users, s.user).None?
    requires call.first.env.fault == NoFault && !Fails(call.second.env, 0) && db.nextUser <= INT_MAX
    ensures NoNullRead(db, s, m)
    ensures var h := Handle(db, s, m, call);
            && h.session == s.(usrDbId := db.nextUser) && h.reply.mtype == eAuthOK
            && h.reply.user == Decimal(db.nextUser) && HasRow(h.db, db.nextUser, s.user, Some(m.body))
  {
    RegisteredRow(db, s.user, m.body, call);
    RegisterBegins(db, s, m, call.deadline, call.first);
    hide Begin, NoNullRead, DbOk, HasRow, FindLogin, InsertUser, UpdateHash, RunOps;
  }

  /** A typed new password, if it is not empty and the calls succeed, registers the user with its hash. */
  lemma NewPasswordTyped(c: Chat, world: World)
    requires c.status == Talking && c.inbox.mtype == eChoosePassword
    requires c.lines != [] && c.lines[0] != "x" && c.lines[0] != ""
    requires var db := RunOps(c.db, world.before);
             DbOk(db) && FindLogin(db.users, c.session.user).None? && db.nextUser <= INT_MAX
    requires world.call.first.env.fault == NoFault && !Fails(world.call.second.env, 0)
    ensures var d, id := Step(c, world), RunOps(c.db, world.before).nextUser;
            && d.status == Talking && d.inbox.mtype == eAuthOK && d.inbox.user == Decimal(id)
            && d.session == c.session.(usrDbId := id)
            && HasRow(d.db, id, c.session.user, Some(PwdHash(c.lines[0])))
  {
    hide PwdHash, OnUsers, OnMessage, OnAuthOk, OnMenu, Handle, NoNullRead, RunOps, DbOk, FindLogin, HasRow;
    var m := IoMsg(ePassword, PwdHash(c.lines[0]), "", "");
    assert React(c.usrDbId, c.inbox, c.lines) == Sends(c.usrDbId, m, c.lines[1..]);
    HashTextsAreNotEmpty(c.lines[0]);
    hide React;
    RegisterHandled(RunOps(c.db, world.before), c.session, m, world.call);
  }

  /** Main result: the whole conversation of a new user whose login is free, whatever others do meanwhile: if the calls
      succeed it ends in eAuthOK with a new row for the login and the hash of the password, and the session has its
      id. */
  lemma UserRegisters(db: Db, login: Line, pwd: Line, worlds: seq<World>)
    requires DbOk(db) && |worlds| == 3 && login != "x" && pwd != "x" && pwd != ""
    requires worlds[2].call.first.env.fault == NoFault && !Fails(worlds[2].call.second.env, 0)
    requires var db2 := RunOps(RunOps(RunOps(db, worlds[0].before), worlds[1].before), worlds[2].before);
             FindLogin(db2.users, CStr(login)).None? && db2.nextUser <= INT_MAX
    ensures var d := Run(Opened(db, ["y", login, pwd]), worlds);
            && d.status == Talking && d.inbox.mtype == eAuthOK && d.inbox.user == Decimal(d.session.usrDbId)
            && d.session.user == CStr(login)
            && HasRow(d.db, d.session.usrDbId, CStr(login), Some(PwdHash(pwd)))
  {
    hide Step, CStr, PwdHash, FindLogin, DbOk, RunOps, HasRow;
    var db0 := RunOps(db, worlds[0].before);
    var db1 := RunOps(db0, worlds[1].before);
    RunOpsOk(db, worlds[0].before);
    RunOpsOk(db0, worlds[1].before);
    StillFree(db1, worlds[2].before, CStr(login));
    var c0 := Opened(db, ["y", login, pwd]);
    var c1 := Step(c0, worlds[0]);
    GreetedStep(c0, worlds[0]);
    assert c1.lines == [login, pwd];
    var c2 := Step(c1, worlds[1]);
    NamedStep(c1, worlds[1]);
    assert c2.lines == [pwd];
    NewPasswordTyped(c2, worlds[2]);
    ThreeSteps(c0, worlds);
  }
}
