/** The messages on the wire, and what the server does with each of them. Handling a message makes at most two
    database calls; other sessions may run between the two. */
module Session {
  import opened Text
  import opened Records
  import opened Pool
  import opened Tables

  datatype MsgType =
    | eAuthAdmin | eAuth | eBatchAuth | eBatchReg | eNewUser | eGetAvailableUsers | eGetUsersAdmin | eSetUserBanFlag
    | eGetMsgAdmin | eGetUserMsg | eGetNextMsg | eGetMainMenu | eSendToAll | eSendToUser | eSendToUserMsgReady | eLogOut
    | eWelcome | eChooseLogin | eChoosePassword | eWrongLogin | eWrongPassword | eLoginUsed | eLoginOK | eAuthOK
    | eAvailableUsers | eMsgDelivered | eErrMsgNotDelivered | eErrMsgBadFormat | eNoMsg | eMsgNext | eMsgMainMenu
    | eUserBanFlagSet | eExistingUser | eError | eUserNextAdmin | eNone | eLogin | ePassword | eQuit

  /** An IOMSG; its three buffers are read as NUL-terminated strings. */
  datatype IoMsg = IoMsg(mtype: MsgType, body: string, user: string, userId: string)

  const CLEARED := IoMsg(eNone, "", "", "")

  /** The fields of a ClientConnection that message handling uses. */
  datatype Session = Session(usrDbId: nat, user: string, buffer: seq<string>, pool: Pool)

  const NEW_SESSION := Session(0, "", [], [])

  /** The second database call a message still needs. */
  datatype Pending =
    | Idle
    | AwaitHash(id: nat, request: IoMsg)
    | AwaitBan(userId: string)

  /** What a session gets from its surroundings while it handles a message: the circumstances of its database call,
      the error text the database would report, and the value an uninitialised id happens to have. */
  datatype Around = Around(env: Env, error: string, garbage: nat)

  /** The state after a step. The reply is meaningful when nothing is pending. */
  datatype Outcome = Outcome(db: Db, session: Session, pending: Pending, reply: IoMsg, exit: bool)

  const WELCOME_TEXT := "Welcome to chat session. New user?(y/n, x - exit):\n"
  const CHOOSE_LOGIN_TEXT := "Choose your login(x - exit):\n"
  const TYPE_LOGIN_TEXT := "Type your login(x - exit):\n"
  const TYPE_PASSWORD_TEXT := "Type your password(x - exit):\n"
  const WRONG_LOGIN_TEXT := "Wrong login. Try again(x - exit):\n"
  const LOGIN_USED_TEXT := "Login provided is already used. Choose another(x - exit):\n"
  const CHOOSE_PASSWORD_TEXT := "Choose your password(x - exit):\n"
  const LOGIN_OK_TEXT := "Login successful. (x - exit):\n"
  const WRONG_PASSWORD_TEXT := "Invalid password. Type again(x - exit):\n"
  const NOT_CONFIRMED_TEXT := "Server failed to reconfirm user existence:\n"
  const EMPTY_PASSWORD_TEXT := "Empty password not permited. Type one(x - exit):\n"
  const REGISTERED_TEXT := "Registration successful.\n"
  const NOT_SAVED_TEXT := "Failed to save user pwd:"
  const NOT_CREATED_TEXT := "Failed to create user record in database!\n"
  const NO_MESSAGES_TEXT := "No messages found.\n"
  const NO_NEW_TEXT := "You have no new messages.\n"
  const NEW_MESSAGES_TEXT := "You have new messages:\n"
  const MENU_TEXT := "Choose action : \n\twrite to user(u)\n\twrite to all(a)\n\tLog out(l)\n\tQuit(x) :\n"
  const NO_USERS_TEXT := "Sorry, no users available.\n"
  const SENT_TEXT := "The message sent\n"
  const BANNED_TEXT := "Sorry, you are banned till:"

  predicate StartsWithE(s: string) { s != "" && s[0] == 'e' }

  /** get_users appends the listing to the buffer; it reports whether the buffer is non-empty then. */
  function Fetched(db: Db, s: Session, env: Env): Session
    requires NoNullHash(UserRows(db))
  {
    if Fails(env, 0) then s else s.(buffer := s.buffer + RowTexts(UserRows(db)))
  }

  /** The head of the listing buffer goes into the reply. */
  function NextUser(s: Session, m: IoMsg): (Session, IoMsg)
    requires s.buffer != []
  {
    (s.(buffer := s.buffer[1..]), m.(mtype := eUserNextAdmin, body := CStr(s.buffer[0])))
  }

  /** The head of the message pool goes into the reply. */
  function NextMessage(s: Session, user: string): (Session, IoMsg)
    requires s.pool != []
  {
    (s.(pool := s.pool[1..]), IoMsg(eMsgNext, CStr(Serialized(s.pool[0].msg)), user, ""))
  }

  function PoolReply(s: Session, user: string, emptyText: string): (Session, IoMsg) {
    if s.pool == [] then (s, CLEARED.(mtype := eNoMsg, body := emptyText)) else NextMessage(s, user)
  }

  /** A NULL hash is read by the listing, and by the login of a user whose registration is not finished. */
  predicate NoNullRead(db: Db, s: Session, m: IoMsg) {
    && (m.mtype == eAuthAdmin ==> NoNullHash(UserRows(db)))
    && (m.mtype == ePassword && StartsWithE(m.user) && FindLogin(db.users, s.user).Some? ==>
          HashOf(db.userData, FindLogin(db.users, s.user).value.id) != Some(None))
  }

  function ReplyTo(db: Db, s: Session, m: IoMsg): Outcome { Outcome(db, s, Idle, m, false) }

  function OnLogin(db: Db, s: Session, m: IoMsg, around: Around): Outcome {
    var used := m.body != "" && LoginUsed(db, m.body, around.env);
    if StartsWithE(m.user) then
      if used then ReplyTo(db, s.(user := m.body), m.(mtype := ePassword, body := TYPE_PASSWORD_TEXT))
      else ReplyTo(db, s, m.(mtype := eWrongLogin, body := WRONG_LOGIN_TEXT))
    else if used then ReplyTo(db, s, m.(mtype := eWrongLogin, body := LOGIN_USED_TEXT))
    else ReplyTo(db, s.(user := m.body), m.(mtype := eChoosePassword, body := CHOOSE_PASSWORD_TEXT))
  }

  /** The id and hash a login is checked against. Where get_user finds no row it still succeeds; the hash is then
      empty and the id whatever the variable held. */
  function LoginRecord(db: Db, s: Session, around: Around): Option<(nat, string)>
    requires FindLogin(db.users, s.user).Some? ==>
               HashOf(db.userData, FindLogin(db.users, s.user).value.id) != Some(None)
  {
    match GetUser(db, s.user, around.env)
    case None => None
    case Some(None) => Some((around.garbage, ""))
    case Some(Some((id, hash))) => Some((id, hash.value))
  }

  function OnPassword(db: Db, s: Session, m: IoMsg, around: Around): Outcome
    requires NoNullRead(db, s, m) && m.mtype == ePassword
  {
    if StartsWithE(m.user) then
      match LoginRecord(db, s, around)
      case None => ReplyTo(db, s, CLEARED.(mtype := eQuit, body := NOT_CONFIRMED_TEXT))
      case Some((id, hash)) =>
        if hash == m.body
        then ReplyTo(db, s.(usrDbId := id), IoMsg(eAuthOK, LOGIN_OK_TEXT, Decimal(id), ""))
        else ReplyTo(db, s, m.(mtype := eWrongPassword, body := WRONG_PASSWORD_TEXT))
    else if m.body == "" then ReplyTo(db, s, m.(mtype := eWrongPassword, body := EMPTY_PASSWORD_TEXT))
    else
      match AddUser(db, s.user, around.env)
      case (db1, Some(id)) => Outcome(db1, s, AwaitHash(id, m), m, false)
      case (db1, None) => ReplyTo(db1, s, m.(mtype := eQuit, body := NOT_CREATED_TEXT))
  }

  function OnBatchAuth(db: Db, s: Session, m: IoMsg, around: Around): Outcome {
    match UserAuthOk(db, m.user, m.body, around.env)
    case Some(id) => Outcome(db, s, AwaitBan(Decimal(id)), m, false)
    case None => ReplyTo(db, s, m)
  }

  function OnBatchReg(db: Db, s: Session, m: IoMsg, around: Around): Outcome {
    match AddUser(db, m.user, around.env)
    case (db1, Some(id)) => Outcome(db1, s, AwaitHash(id, m), m, false)
    case (db1, None) => ReplyTo(db1, s, m.(mtype := eExistingUser, body := ""))
  }

  function OnUserMsgs(db: Db, s: Session, m: IoMsg, env: Env): Session {
    if s.usrDbId == 0 then s.(pool := GetUserMsgsText(db, m.userId, s.user, s.pool, env))
    else s.(pool := GetUserMsgsNumber(db, s.usrDbId, s.user, s.pool, env))
  }

  function OnPrivate(db: Db, s: Session, m: IoMsg, around: Around): Outcome {
    var (db1, sent) :=
      if s.usrDbId == 0 then DeliverMsg(db, m.body, m.user, Some(m.userId), around.env)
      else DeliverMsg(db, m.body, Decimal(s.usrDbId), Some(m.user), around.env);
    ReplyTo(db1, s, if sent then CLEARED.(mtype := eMsgDelivered, body := SENT_TEXT)
                    else CLEARED.(mtype := eErrMsgNotDelivered, body := around.error))
  }

  function OnSendToAll(db: Db, s: Session, m: IoMsg, around: Around): Outcome {
    var (db1, sent) := DeliverMsg(db, m.body, m.userId, None, around.env);
    ReplyTo(db1, s, if sent then CLEARED.(mtype := eMsgDelivered) else m.(mtype := eError, body := around.error))
  }

  function OnSendToUser(db: Db, s: Session, m: IoMsg, around: Around): Outcome {
    match PackUsers(db, m.user, around.env)
    case None => ReplyTo(db, s, CLEARED.(mtype := eQuit, body := NO_USERS_TEXT))
    case Some(packed) => ReplyTo(db, s, m.(mtype := eAvailableUsers, body := CStr(packed)))
  }

  function OnBan(db: Db, s: Session, m: IoMsg, deadline: string, around: Around): Outcome {
    var (db1, done) := BanUser(db, m.user, m.body, deadline, around.env);
    ReplyTo(db1, s, m.(mtype := if done then eUserBanFlagSet else eNone))
  }

  function OnAuthAdmin(db: Db, s: Session, m: IoMsg, env: Env): Outcome
    requires NoNullHash(UserRows(db))
  {
    var s1 := Fetched(db, s, env);
    if Fails(env, 0) || s1.buffer == [] then ReplyTo(db, s1, m.(mtype := eNoMsg, body := ""))
    else
      var (s2, reply) := NextUser(s1, m);
      ReplyTo(db, s2, reply)
  }

  /** Handling a message, up to and including its first database call. A ban carries the deadline the database
      would compute. */
  function Begin(db: Db, s: Session, m: IoMsg, deadline: string, around: Around): Outcome
    requires NoNullRead(db, s, m)
  {
    match m.mtype
    case eAuthAdmin => OnAuthAdmin(db, s, m, around.env)
    case eBatchAuth => OnBatchAuth(db, s, m, around)
    case eBatchReg => OnBatchReg(db, s, m, around)
    case eUserNextAdmin =>
      if s.buffer == [] then ReplyTo(db, s, m.(mtype := eNoMsg, body := ""))
      else
        var (s1, reply) := NextUser(s, m);
        ReplyTo(db, s1, reply)
    case eSetUserBanFlag => OnBan(db, s, m, deadline, around)
    case eAuth => ReplyTo(db, s, m.(mtype := eWelcome, body := WELCOME_TEXT))
    case eNewUser => ReplyTo(db, s, m.(mtype := eChooseLogin, body := CHOOSE_LOGIN_TEXT))
    case eExistingUser => ReplyTo(db, s, m.(mtype := eLogin, body := TYPE_LOGIN_TEXT))
    case eLogin => OnLogin(db, s, m, around)
    case ePassword => OnPassword(db, s, m, around)
    case eGetMsgAdmin =>
      var (s1, reply) := PoolReply(s.(pool := GetAllMsgs(db, s.pool, around.env)), "", NO_MESSAGES_TEXT);
      ReplyTo(db, s1, reply)
    case eGetUserMsg =>
      var (s1, reply) := PoolReply(OnUserMsgs(db, s, m, around.env), NEW_MESSAGES_TEXT, NO_NEW_TEXT);
      ReplyTo(db, s1, reply)
    case eGetNextMsg =>
      var (s1, reply) := PoolReply(s, "", "");
      ReplyTo(db, s1, reply)
    case eGetMainMenu => ReplyTo(db, s, CLEARED.(mtype := eMsgMainMenu, body := MENU_TEXT))
    case eLogOut => ReplyTo(db, s.(user := "", usrDbId := 0), m.(mtype := eLogin, body := TYPE_LOGIN_TEXT))
    case eSendToAll => OnSendToAll(db, s, m, around)
    case eSendToUser => OnSendToUser(db, s, m, around)
    case eSendToUserMsgReady => OnPrivate(db, s, m, around)
    case eQuit => Outcome(db, s, Idle, m, true)
    case _ => ReplyTo(db, s, m)
  }

  function HashSaved(s: Session, id: nat, m: IoMsg): (Session, IoMsg) {
    if m.mtype == eBatchReg then (s, m.(mtype := eAuthOK, body := "", userId := Decimal(id)))
    else (s.(usrDbId := id), IoMsg(eAuthOK, REGISTERED_TEXT, Decimal(id), ""))
  }

  function HashNotSaved(m: IoMsg, error: string): IoMsg {
    if m.mtype == eBatchReg then m.(mtype := eError, body := error)
    else CLEARED.(mtype := eQuit, body := NOT_SAVED_TEXT + error + "\n")
  }

  /** The second database call of a message, and its reply. */
  function Finish(db: Db, s: Session, p: Pending, around: Around): Outcome
    requires p != Idle
  {
    match p
    case AwaitHash(id, m) =>
      var (db1, saved) := SetUserPwdhash(db, id, m.body, around.env);
      if saved then
        var (s1, reply) := HashSaved(s, id, m);
        ReplyTo(db1, s1, reply)
      else ReplyTo(db1, s, HashNotSaved(m, around.error))
    case AwaitBan(userId) =>
      match UserIsBanned(db, userId, around.env)
      case Some(till) => ReplyTo(db, s, IoMsg(eError, BANNED_TEXT + till, "", userId))
      case None => ReplyTo(db, s, IoMsg(eAuthOK, "", "", userId))
  }
}
