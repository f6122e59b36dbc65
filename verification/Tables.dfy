/** The chat database: its tables, and the effect of every DBAccess call as one atomic step. */
module Tables {
  import opened Text
  import opened Records
  import opened Recipients
  import opened Timestamps
  import opened Pool

  datatype User = User(id: nat, login: string, name: string, email: string)
  datatype UserData = UserData(userId: nat, pwdhash: Option<string>)
  datatype Ban = Ban(userId: nat, deadline: string)
  datatype Msg = Msg(id: nat, fromId: nat, toId: nat, body: string, created: Seconds)
  datatype MsgState = MsgState(id: nat, messageId: nat, status: nat, tsChanged: Seconds)

  /** The tables in primary key order, the next automatic ids, and the clock. */
  datatype Db = Db(users: seq<User>, userData: seq<UserData>, bans: seq<Ban>,
                   messages: seq<Msg>, states: seq<MsgState>,
                   nextUser: nat, nextMsg: nat, nextState: nat, now: Seconds)

  const EMPTY_DB := Db([], [], [], [], [], 1, 1, 1, 0)

  /** The largest value of an INT column. */
  const INT_MAX := 0x7FFF_FFFF

  /** Status of a delivered message. */
  const DELIVERED := 1

  /** Which SQL statement of a call fails, counted from 0. The call gives up there. */
  datatype Fault = NoFault | FailAt(statement: nat)

  /** What a call gets from its surroundings: its fault, and the seconds that pass before each statement. */
  datatype Env = Env(fault: Fault, delay: nat -> nat)

  predicate Fails(env: Env, statement: nat) { env.fault == FailAt(statement) }

  /** Logins compare without regard to the case of letters and to trailing spaces. */
  function LoginKey(s: string): string {
    if s == "" then ""
    else if s[|s| - 1] == ' ' then LoginKey(s[..|s| - 1])
    else FoldCase(s)
  }

  function FoldCase(s: string): string {
    seq(|s|, i requires 0 <= i < |s| => if 'A' <= s[i] <= 'Z' then s[i] - 'A' + 'a' else s[i])
  }

  predicate SameLogin(a: string, b: string) { LoginKey(a) == LoginKey(b) }

  function Tick(db: Db, d: nat): Db { db.(now := db.now + d) }

  // users and user_data

  function FindLogin(us: seq<User>, login: string): Option<User> {
    if us == [] then None
    else if SameLogin(us[0].login, login) then Some(us[0])
    else FindLogin(us[1..], login)
  }

  function FindUser(us: seq<User>, id: nat): Option<User> {
    if us == [] then None
    else if us[0].id == id then Some(us[0])
    else FindUser(us[1..], id)
  }

  /** The hash column of a user's row in user_data; the outer None stands for no row. */
  function HashOf(ds: seq<UserData>, id: nat): Option<Option<string>> {
    if ds == [] then None
    else if ds[0].userId == id then Some(ds[0].pwdhash)
    else HashOf(ds[1..], id)
  }

  function LoginUsed(db: Db, login: string, env: Env): bool {
    !Fails(env, 0) && FindLogin(db.users, login).Some?
  }

  /** The insert on users, with the row its trigger adds to user_data. */
  function InsertUser(db: Db, login: string): Db {
    db.(users := db.users + [User(db.nextUser, login, "", "")],
        userData := db.userData + [UserData(db.nextUser, None)],
        nextUser := db.nextUser + 1)
  }

  function AddUser(db: Db, login: string, env: Env): (Db, Option<nat>) {
    if Fails(env, 0) || FindLogin(db.users, login).Some? || Fails(env, 1) || db.nextUser > INT_MAX then (db, None)
    else (InsertUser(db, login), Some(db.nextUser))
  }

  function UpdateHash(ds: seq<UserData>, id: nat, hash: string): (r: seq<UserData>)
    ensures |r| == |ds|
  {
    seq(|ds|, i requires 0 <= i < |ds| => if ds[i].userId == id then UserData(id, Some(hash)) else ds[i])
  }

  function SetUserPwdhash(db: Db, id: nat, hash: string, env: Env): (Db, bool) {
    if Fails(env, 0) then (db, false) else (db.(userData := UpdateHash(db.userData, id, hash)), true)
  }

  /** get_user: None is a failed query; the inner None is an empty result, which still counts as success. */
  function GetUser(db: Db, login: string, env: Env): Option<Option<(nat, Option<string>)>> {
    if Fails(env, 0) then None
    else
      match FindLogin(db.users, login)
      case None => Some(None)
      case Some(u) =>
        match HashOf(db.userData, u.id)
        case None => Some(None)
        case Some(h) => Some(Some((u.id, h)))
  }

  /** user_auth_ok: the id of the user with this login and hash; the hash column ignores case too. */
  function UserAuthOk(db: Db, login: string, hash: string, env: Env): Option<nat> {
    match GetUser(db, login, env)
    case Some(Some((id, Some(h)))) => if SameLogin(h, hash) then Some(id) else None
    case _ => None
  }

  // user_ban

  function DeleteBan(bs: seq<Ban>, id: nat): seq<Ban> {
    if bs == [] then []
    else if bs[0].userId == id then DeleteBan(bs[1..], id)
    else [bs[0]] + DeleteBan(bs[1..], id)
  }

  function BanUser(db: Db, userId: string, action: string, deadline: string, env: Env): (Db, bool) {
    match ParseId(userId)
    case None => (db, false)
    case Some(id) =>
      if Fails(env, 0) then (db, false)
      else
        var db1 := db.(bans := DeleteBan(db.bans, id));
        if action == "" || action[0] != '1' then (db1, true)
        else if Fails(env, 1) then (db1, false)
        else (db1.(bans := db1.bans + [Ban(id, deadline)]), true)
  }

  function BansOf(bs: seq<Ban>, id: nat): seq<Ban> {
    if bs == [] then []
    else if bs[0].userId == id then [bs[0]] + BansOf(bs[1..], id)
    else BansOf(bs[1..], id)
  }

  /** user_is_banned: the deadline of a ban row, if the query succeeds and finds one. */
  function UserIsBanned(db: Db, userId: string, env: Env): Option<string> {
    match ParseId(userId)
    case None => None
    case Some(id) =>
      if Fails(env, 0) || BansOf(db.bans, id) == [] then None else Some(BansOf(db.bans, id)[0].deadline)
  }

  // The user listing

  datatype UserRow = UserRow(user: User, pwdhash: Option<string>, bannedTill: string)

  function LeftJoinBans(u: User, h: Option<string>, bs: seq<Ban>): seq<UserRow> {
    if bs == [] then [UserRow(u, h, "")] else JoinBans(u, h, bs)
  }

  function JoinBans(u: User, h: Option<string>, bs: seq<Ban>): seq<UserRow> {
    if bs == [] then [] else [UserRow(u, h, bs[0].deadline)] + JoinBans(u, h, bs[1..])
  }

  function JoinData(u: User, ds: seq<UserData>, bs: seq<Ban>): seq<UserRow> {
    if ds == [] then []
    else
      var rows := if ds[0].userId == u.id then LeftJoinBans(u, ds[0].pwdhash, BansOf(bs, u.id)) else [];
      rows + JoinData(u, ds[1..], bs)
  }

  /** users join user_data left join user_ban. */
  function JoinUsers(us: seq<User>, ds: seq<UserData>, bs: seq<Ban>): seq<UserRow> {
    if us == [] then [] else JoinData(us[0], ds, bs) + JoinUsers(us[1..], ds, bs)
  }

  function UserRows(db: Db): seq<UserRow> {
    JoinUsers(db.users, db.userData, db.bans)
  }

  /** Reading a NULL column into a string has no defined effect. */
  predicate NoNullHash(rows: seq<UserRow>) {
    forall i :: 0 <= i < |rows| ==> rows[i].pwdhash.Some?
  }

  function RowFields(r: UserRow): seq<string>
    requires r.pwdhash.Some?
  {
    [Decimal(r.user.id), r.user.login, r.user.name, r.user.email, r.pwdhash.value, r.bannedTill]
  }

  function RowTexts(rows: seq<UserRow>): (v: seq<string>)
    requires NoNullHash(rows)
    ensures |v| == |rows|
  {
    seq(|rows|, i requires 0 <= i < |rows| => RowText(RowFields(rows[i])))
  }

  // The recipient list

  function OtherUsers(us: seq<User>, id: nat): seq<Recipient> {
    if us == [] then []
    else if us[0].id == id then OtherUsers(us[1..], id)
    else [Recipient(us[0].id, us[0].login)] + OtherUsers(us[1..], id)
  }

  function PackUsers(db: Db, clientId: string, env: Env): Option<string> {
    match ParseId(clientId)
    case None => None
    case Some(id) => if Fails(env, 0) then None else Some(Packed(OtherUsers(db.users, id)))
  }

  // messages and message_state

  function InsertMessage(db: Db, fromId: nat, toId: nat, body: string): Db {
    db.(messages := db.messages + [Msg(db.nextMsg, fromId, toId, body, db.now)], nextMsg := db.nextMsg + 1)
  }

  function InsertState(db: Db, messageId: nat): Db {
    db.(states := db.states + [MsgState(db.nextState, messageId, DELIVERED, db.now)], nextState := db.nextState + 1)
  }

  /** The insert that selects one row for every user but the sender. */
  function InsertForAll(db: Db, fromId: nat, to: seq<User>, body: string): Db {
    if to == [] then db
    else
      var db1 := InsertForAll(db, fromId, to[..|to| - 1], body);
      if to[|to| - 1].id == fromId then db1 else InsertMessage(db1, fromId, to[|to| - 1].id, body)
  }

  /** The messages of a sender that were created at an instant or later. */
  function SelectIds(ms: seq<Msg>, fromId: nat, start: Seconds): seq<nat> {
    if ms == [] then []
    else
      var ids := SelectIds(ms[..|ms| - 1], fromId, start);
      var m := ms[|ms| - 1];
      if m.fromId == fromId && m.created >= start then ids + [m.id] else ids
  }

  /** The loop of state inserts; the k-th of them is statement 2 + k of the call. */
  function InsertStates(db: Db, ids: seq<nat>, k: nat, env: Env): (Db, bool)
    decreases |ids|
  {
    if ids == [] then (db, true)
    else
      var db1 := Tick(db, env.delay(2 + k));
      if Fails(env, 2 + k) then (db1, false)
      else InsertStates(InsertState(db1, ids[0]), ids[1..], k + 1, env)
  }

  /** The second when the broadcast looked at its clock, and the database when its insert ran. */
  function BroadcastStart(db: Db, env: Env): Seconds { db.now + env.delay(0) }

  function BroadcastInserted(db: Db, fromId: nat, body: string, env: Env): Db {
    InsertForAll(Tick(Tick(db, env.delay(0)), env.delay(1)), fromId, db.users, body)
  }

  predicate HasOtherUser(us: seq<User>, id: nat) { exists i :: 0 <= i < |us| && us[i].id != id }

  function Broadcast(db: Db, body: string, fromId: nat, env: Env): (Db, bool) {
    if Fails(env, 0) || !HasOtherUser(db.users, fromId) then (Tick(Tick(db, env.delay(0)), env.delay(1)), false)
    else
      var db1 := BroadcastInserted(db, fromId, body, env);
      if Fails(env, 1) then (db1, false)
      else InsertStates(db1, SelectIds(db1.messages, fromId, BroadcastStart(db, env)), 0, env)
  }

  function SendPrivate(db: Db, body: string, fromId: nat, toId: nat, env: Env): (Db, bool) {
    var db0 := Tick(Tick(db, env.delay(0)), env.delay(1));
    if Fails(env, 0) then (db0, false)
    else
      var db1 := Tick(InsertMessage(db0, fromId, toId, body), env.delay(2));
      if Fails(env, 1) then (db1, false)
      else (InsertState(db1, db.nextMsg), true)
  }

  /** deliver_msg: to one user, or to all others where there is no recipient. */
  function DeliverMsg(db: Db, body: string, fromId: string, toId: Option<string>, env: Env): (Db, bool) {
    match ParseId(fromId)
    case None => (db, false)
    case Some(f) =>
      match toId
      case None => Broadcast(db, body, f, env)
      case Some(t) =>
        match ParseId(t)
        case None => (db, false)
        case Some(to) => SendPrivate(db, body, f, to, env)
  }

  // The message readers

  function StatesOf(ss: seq<MsgState>, messageId: nat): seq<MsgState> {
    if ss == [] then []
    else
      var front := StatesOf(ss[..|ss| - 1], messageId);
      if ss[|ss| - 1].messageId == messageId then front + [ss[|ss| - 1]] else front
  }

  /** The pool entry of a message in the admin view: keyed by id, stamped with its creation. */
  function AdminEntry(us: seq<User>, m: Msg): Entry
    requires FindUser(us, m.fromId).Some? && FindUser(us, m.toId).Some?
  {
    var id := Decimal(m.id);
    Entry(id, Message(Stamp(m.created), id, FindUser(us, m.fromId).value.login, FindUser(us, m.toId).value.login,
        m.body))
  }

  function Repeat(e: Entry, n: nat): seq<Entry> {
    if n == 0 then [] else [e] + Repeat(e, n - 1)
  }

  /** messages join users (sender) join users (receiver) join message_state. */
  function AdminRows(db: Db, ms: seq<Msg>): seq<Entry> {
    if ms == [] then []
    else
      var m := ms[|ms| - 1];
      AdminRows(db, ms[..|ms| - 1]) +
      if FindUser(db.users, m.fromId).Some? && FindUser(db.users, m.toId).Some?
      then Repeat(AdminEntry(db.users, m), |StatesOf(db.states, m.id)|)
      else []
  }

  function GetAllMsgs(db: Db, pool: Pool, env: Env): Pool {
    if Fails(env, 0) then pool else PutAll([], AdminRows(db, db.messages))
  }

  /** The entry of one state row in the id-keyed user view, stamped with the state's change. */
  function UserEntry(sender: User, m: Msg, s: MsgState, userName: string): Entry {
    var id := Decimal(m.id);
    Entry(id, Message(Stamp(s.tsChanged), id, sender.login, userName, m.body))
  }

  function UserEntries(sender: User, m: Msg, ss: seq<MsgState>, userName: string): (es: seq<Entry>)
    ensures |es| == |ss|
  {
    seq(|ss|, i requires 0 <= i < |ss| => UserEntry(sender, m, ss[i], userName))
  }

  /** messages join users (sender) join message_state, sent to or by the user. */
  function UserRowsOf(db: Db, ms: seq<Msg>, id: nat, userName: string): seq<Entry> {
    if ms == [] then []
    else
      var m := ms[|ms| - 1];
      UserRowsOf(db, ms[..|ms| - 1], id, userName) +
      if FindUser(db.users, m.fromId).Some? && (m.toId == id || m.fromId == id)
      then UserEntries(FindUser(db.users, m.fromId).value, m, StatesOf(db.states, m.id), userName)
      else []
  }

  /** get_user_msgs with a text id. */
  function GetUserMsgsText(db: Db, id: string, userName: string, pool: Pool, env: Env): Pool {
    match ParseId(id)
    case None => pool
    case Some(n) => if Fails(env, 0) then pool else PutAll([], UserRowsOf(db, db.messages, n, userName))
  }

  /** The entry of one state row in the inbox view: keyed by the text of the change. */
  function InboxEntry(sender: User, m: Msg, s: MsgState, userName: string): Entry {
    Entry(Stamp(s.tsChanged), Message(Stamp(s.tsChanged), Decimal(m.id), sender.login, userName, m.body))
  }

  function InboxEntries(sender: User, m: Msg, ss: seq<MsgState>, userName: string): seq<Entry> {
    if ss == [] then []
    else
      InboxEntries(sender, m, ss[..|ss| - 1], userName) +
      if ss[|ss| - 1].status == DELIVERED then [InboxEntry(sender, m, ss[|ss| - 1], userName)] else []
  }

  /** messages join users (sender) join message_state, delivered to the user. */
  function InboxRows(db: Db, ms: seq<Msg>, id: nat, userName: string): seq<Entry> {
    if ms == [] then []
    else
      var m := ms[|ms| - 1];
      InboxRows(db, ms[..|ms| - 1], id, userName) +
      if FindUser(db.users, m.fromId).Some? && m.toId == id
      then InboxEntries(FindUser(db.users, m.fromId).value, m, StatesOf(db.states, m.id), userName)
      else []
  }

  /** get_user_msgs with a numeric id. */
  function GetUserMsgsNumber(db: Db, id: nat, userName: string, pool: Pool, env: Env): Pool {
    if Fails(env, 0) then pool else PutAll([], InboxRows(db, db.messages, id, userName))
  }

  // Runs of writing calls

  /** A call that may change the database. */
  datatype DbOp =
    | OpAddUser(login: string, env: Env)
    | OpSetHash(id: nat, hash: string, env: Env)
    | OpBan(user: string, action: string, deadline: string, env: Env)
    | OpDeliver(body: string, from: string, to: Option<string>, env: Env)

  function Apply(db: Db, op: DbOp): Db {
    match op
    case OpAddUser(login, env) => AddUser(db, login, env).0
    case OpSetHash(id, hash, env) => SetUserPwdhash(db, id, hash, env).0
    case OpBan(user, action, deadline, env) => BanUser(db, user, action, deadline, env).0
    case OpDeliver(body, from, to, env) => DeliverMsg(db, body, from, to, env).0
  }

  function RunOps(db: Db, ops: seq<DbOp>): Db {
    if ops == [] then db else Apply(RunOps(db, ops[..|ops| - 1]), ops[|ops| - 1])
  }
}
