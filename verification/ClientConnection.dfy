/** A client's connection on the server: one whole message handled, with what other sessions do meanwhile. */
module ClientConnection {
  import opened Text
  import opened Records
  import opened Pool
  import opened Tables
  import opened Session
  import opened DbAccess

  /** What surrounds the handling of one message: the deadline a ban would get, the circumstances of its two database
      calls, and the calls of other sessions between them. */
  datatype Call = Call(deadline: string, first: Around, between: seq<DbOp>, second: Around)

  datatype Handled = Handled(db: Db, session: Session, reply: IoMsg, exit: bool)

  /** The two steps of a message, one after the other. */
  function Handle(db: Db, s: Session, m: IoMsg, call: Call): Handled
    requires NoNullRead(db, s, m)
  {
    var out := Begin(db, s, m, call.deadline, call.first);
    if out.pending == Idle then Handled(out.db, out.session, out.reply, out.exit)
    else
      var end := Finish(RunOps(out.db, call.between), out.session, out.pending, call.second);
      Handled(end.db, end.session, end.reply, end.exit)
  }

  class ClientConnection {
    var usrDbId: nat
    var user: string
    var buffer: seq<string>
    var msgPool: Pool
    const hDB: DBAccess

    constructor (db: DBAccess)
      ensures hDB == db && View() == NEW_SESSION
    {
      usrDbId, user, buffer, msgPool := 0, "", [], [];
      hDB := db;
    }

    function View(): Session
      reads this
    {
      Session(usrDbId, user, buffer, msgPool)
    }

    /** The head of the buffer, which is taken off it. */
    method NextRow(in0: IoMsg) returns (in1: IoMsg)
      requires buffer != []
      modifies this`buffer
      ensures (View(), in1) == NextUser(old(View()), in0)
    {
      in1 := in0.(mtype := eUserNextAdmin, body := CStr(buffer[0]));
      buffer := buffer[1..];
    }

    /** The head of the pool, which is erased, or the end of messages. */
    method NextPooled(userText: string, emptyText: string) returns (in1: IoMsg)
      modifies this`msgPool
      ensures (View(), in1) == PoolReply(old(View()), userText, emptyText)
    {
      in1 := CLEARED;
      if |msgPool| == 0 {
        in1 := in1.(mtype := eNoMsg, body := emptyText);
      } else {
        var currMsg := msgPool[0];
        var body := SerializeMsg(currMsg.msg);
        in1 := in1.(mtype := eMsgNext, body := CStr(body), user := userText);
        msgPool := msgPool[1..];
      }
    }

    method AuthAdmin(in0: IoMsg, env: Env) returns (in1: IoMsg)
      requires NoNullHash(UserRows(hDB.db))
      modifies this
      ensures Outcome(hDB.db, View(), Idle, in1, false) == OnAuthAdmin(hDB.db, old(View()), in0, env)
    {
      in1 := in0.(mtype := eUserNextAdmin, body := "");
      var more;
      more, buffer := hDB.GetUsers(buffer, env);
      if more {
        in1 := NextRow(in1);
      } else {
        in1 := in1.(mtype := eNoMsg);
      }
    }

    method Login(in0: IoMsg, around: Around) returns (in1: IoMsg)
      modifies this
      ensures Outcome(hDB.db, View(), Idle, in1, false) == OnLogin(hDB.db, old(View()), in0, around)
    {
      in1 := in0;
      var existingUser := StartsWithE(in0.user);
      var used := false;
      if |in0.body| > 0 {
        used := hDB.LoginUsed(in0.body, around.env);
      }
      if existingUser {
        if used {
          user := in0.body;
          in1 := in1.(mtype := ePassword, body := TYPE_PASSWORD_TEXT);
        } else {
          in1 := in1.(mtype := eWrongLogin, body := WRONG_LOGIN_TEXT);
        }
      } else if used {
        in1 := in1.(body := LOGIN_USED_TEXT, mtype := eWrongLogin);
      } else {
        user := in0.body;
        in1 := in1.(mtype := eChoosePassword, body := CHOOSE_PASSWORD_TEXT);
      }
    }

    /** The password of an existing user. */
    method CheckPassword(in0: IoMsg, around: Around) returns (in1: IoMsg)
      requires in0.mtype == ePassword && StartsWithE(in0.user) && NoNullRead(hDB.db, View(), in0)
      modifies this
      ensures Outcome(hDB.db, View(), Idle, in1, false) == OnPassword(hDB.db, old(View()), in0, around)
    {
      in1 := in0;
      var ok, id, pwdHash := hDB.GetUser(user, around.garbage, "", around.env);
      if ok {
        if pwdHash == in0.body {
          usrDbId := id;
          in1 := CLEARED;
          in1 := in1.(mtype := eAuthOK, body := LOGIN_OK_TEXT, user := Decimal(usrDbId));
        } else {
          in1 := in1.(mtype := eWrongPassword, body := WRONG_PASSWORD_TEXT);
        }
      } else {
        in1 := CLEARED;
        in1 := in1.(mtype := eQuit, body := NOT_CONFIRMED_TEXT);
      }
    }

    /** Inserting the user and saving the hash, for the password of a new user. */
    method Register(in0: IoMsg, call: Call) returns (in1: IoMsg)
      requires in0.mtype == ePassword && !StartsWithE(in0.user) && in0.body != ""
      modifies this, hDB
      ensures Handled(hDB.db, View(), in1, false) == Handle(old(hDB.db), old(View()), in0, call)
    {
      in1 := in0;
      var id := hDB.AddUser(user, call.first.env);
      if id.None? {
        in1 := in1.(mtype := eQuit, body := NOT_CREATED_TEXT);
        return;
      }
      hDB.RunOthers(call.between);
      var saved := hDB.SetUserPwdhash(id.value, in0.body, call.second.env);
      in1 := CLEARED;
      if saved {
        usrDbId := id.value;
        in1 := in1.(mtype := eAuthOK, body := REGISTERED_TEXT, user := Decimal(usrDbId));
      } else {
        in1 := in1.(mtype := eQuit, body := NOT_SAVED_TEXT + call.second.error + "\n");
      }
    }

    method BatchRegister(in0: IoMsg, call: Call) returns (in1: IoMsg)
      requires in0.mtype == eBatchReg
      modifies this, hDB
      ensures Handled(hDB.db, View(), in1, false) == Handle(old(hDB.db), old(View()), in0, call)
    {
      in1 := in0;
      var id := hDB.AddUser(in0.user, call.first.env);
      if id.None? {
        in1 := in1.(body := "", mtype := eExistingUser);
        return;
      }
      hDB.RunOthers(call.between);
      var saved := hDB.SetUserPwdhash(id.value, in0.body, call.second.env);
      if saved {
        in1 := in1.(body := "", mtype := eAuthOK, userId := Decimal(id.value));
      } else {
        in1 := in1.(mtype := eError, body := call.second.error);
      }
    }

    method BatchAuth(in0: IoMsg, call: Call) returns (in1: IoMsg)
      requires in0.mtype == eBatchAuth
      modifies this, hDB
      ensures Handled(hDB.db, View(), in1, false) == Handle(old(hDB.db), old(View()), in0, call)
    {
      in1 := in0;
      var userId := hDB.UserAuthOk(in0.user, in0.body, call.first.env);
      if userId.Some? {
        in1 := CLEARED;
        in1 := in1.(userId := Decimal(userId.value));
        hDB.RunOthers(call.between);
        var banDl := hDB.UserIsBanned(in1.userId, call.second.env);
        if banDl.Some? {
          in1 := in1.(mtype := eError, body := BANNED_TEXT + banDl.value);
        } else {
          in1 := in1.(mtype := eAuthOK);
        }
      }
    }

    method UserMessages(in0: IoMsg, env: Env) returns (in1: IoMsg)
      modifies this`msgPool
      ensures (View(), in1) == PoolReply(OnUserMsgs(hDB.db, old(View()), in0, env), NEW_MESSAGES_TEXT, NO_NEW_TEXT)
    {
      if usrDbId == 0 {
        msgPool := hDB.GetUserMsgsText(in0.userId, user, msgPool, env);
      } else {
        msgPool := hDB.GetUserMsgsNumber(usrDbId, user, msgPool, env);
      }
      in1 := NextPooled(NEW_MESSAGES_TEXT, NO_NEW_TEXT);
    }

    method SendPrivately(in0: IoMsg, around: Around) returns (in1: IoMsg)
      modifies hDB
      ensures Outcome(hDB.db, View(), Idle, in1, false) == OnPrivate(old(hDB.db), View(), in0, around)
    {
      var res;
      if usrDbId == 0 {
        res := hDB.DeliverMsg(in0.body, in0.user, Some(in0.userId), around.env);
      } else {
        res := hDB.DeliverMsg(in0.body, Decimal(usrDbId), Some(in0.user), around.env);
      }
      in1 := CLEARED;
      if res {
        in1 := in1.(mtype := eMsgDelivered, body := SENT_TEXT);
      } else {
        in1 := in1.(mtype := eErrMsgNotDelivered, body := around.error);
      }
    }

    method SetBanFlag(in0: IoMsg, call: Call) returns (in1: IoMsg)
      modifies hDB
      ensures Outcome(hDB.db, View(), Idle, in1, false) == OnBan(old(hDB.db), View(), in0, call.deadline, call.first)
    {
      var done := hDB.BanUser(in0.user, in0.body, call.deadline, call.first.env);
      in1 := in0.(mtype := if done then eUserBanFlagSet else eNone);
    }

    method SendToAll(in0: IoMsg, around: Around) returns (in1: IoMsg)
      modifies hDB
      ensures Outcome(hDB.db, View(), Idle, in1, false) == OnSendToAll(old(hDB.db), View(), in0, around)
    {
      var msgSent := hDB.DeliverMsg(in0.body, in0.userId, None, around.env);
      if msgSent {
        in1 := CLEARED.(mtype := eMsgDelivered);
      } else {
        in1 := in0.(mtype := eError, body := around.error);
      }
    }

    method ListUsers(in0: IoMsg, around: Around) returns (in1: IoMsg)
      ensures Outcome(hDB.db, View(), Idle, in1, false) == OnSendToUser(hDB.db, View(), in0, around)
    {
      var availableUsers := hDB.PackUsers(in0.user, around.env);
      if availableUsers.None? {
        in1 := CLEARED.(mtype := eQuit, body := NO_USERS_TEXT);
      } else {
        in1 := in0.(mtype := eAvailableUsers, body := CStr(availableUsers.value));
      }
    }

    /** Handles one message: the reply replaces it. */
    method ProcessClientMsg(in0: IoMsg, call: Call) returns (in1: IoMsg, exitLoop: bool)
      requires NoNullRead(hDB.db, View(), in0)
      modifies this, hDB
      ensures Handled(hDB.db, View(), in1, exitLoop) == Handle(old(hDB.db), old(View()), in0, call)
    {
      hide OnAuthAdmin, OnBan, OnLogin, OnSendToAll, OnSendToUser, OnPrivate, PoolReply, OnUserMsgs, UserRows;
      in1, exitLoop := in0, false;
      match in0.mtype {
        case eAuthAdmin => in1 := AuthAdmin(in0, call.first.env);
        case eBatchAuth => in1 := BatchAuth(in0, call);
        case eBatchReg => in1 := BatchRegister(in0, call);
        case eUserNextAdmin =>
          in1 := in1.(body := "");
          if |buffer| > 0 {
            in1 := NextRow(in1);
          } else {
            in1 := in1.(mtype := eNoMsg);
          }
        case eSetUserBanFlag => in1 := SetBanFlag(in0, call);
        case eAuth => in1 := in1.(mtype := eWelcome, body := WELCOME_TEXT);
        case eNewUser => in1 := in1.(mtype := eChooseLogin, body := CHOOSE_LOGIN_TEXT);
        case eExistingUser => in1 := in1.(mtype := eLogin, body := TYPE_LOGIN_TEXT);
        case eLogin => in1 := Login(in0, call.first);
        case ePassword =>
          if StartsWithE(in0.user) {
            in1 := CheckPassword(in0, call.first);
          } else if in0.body == "" {
            in1 := in1.(mtype := eWrongPassword, body := EMPTY_PASSWORD_TEXT);
          } else {
            in1 := Register(in0, call);
          }
        case eGetMsgAdmin =>
          msgPool := hDB.GetAllMsgs(msgPool, call.first.env);
          in1 := NextPooled("", NO_MESSAGES_TEXT);
        case eGetUserMsg => in1 := UserMessages(in0, call.first.env);
        case eGetNextMsg => in1 := NextPooled("", "");
        case eGetMainMenu => in1 := CLEARED.(mtype := eMsgMainMenu, body := MENU_TEXT);
        case eLogOut =>
          user, usrDbId := "", 0;
          in1 := in1.(mtype := eLogin, body := TYPE_LOGIN_TEXT);
        case eSendToAll => in1 := SendToAll(in0, call.first);
        case eSendToUser => in1 := ListUsers(in0, call.first);
        case eSendToUserMsgReady => in1 := SendPrivately(in0, call.first);
        case eQuit => exitLoop := true;
        case _ =>
      }
    }
  }
}
