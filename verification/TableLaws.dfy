/** What every database call keeps. */
module TableLaws {
  import opened Text
  import opened Timestamps
  import opened Tables

  ghost predicate UsersOk(db: Db) {
    && 1 <= db.nextUser <= INT_MAX + 1
    && (forall i :: 0 <= i < |db.users| ==> 1 <= db.users[i].id < db.nextUser)
    && (forall i, j :: 0 <= i < j < |db.users| ==> db.users[i].id < db.users[j].id)
    && (forall i, j :: 0 <= i < j < |db.users| ==> !SameLogin(db.users[i].login, db.users[j].login))
  }

  /** Rows of users and user_data pair up. */
  ghost predicate DataOk(db: Db) {
    && |db.userData| == |db.users|
    && (forall i :: 0 <= i < |db.users| ==> db.userData[i].userId == db.users[i].id)
  }

  ghost predicate BansOk(db: Db) {
    forall i, j :: 0 <= i < j < |db.bans| ==> db.bans[i].userId != db.bans[j].userId
  }

  ghost predicate MessagesOk(db: Db) {
    && 1 <= db.nextMsg
    && (forall i :: 0 <= i < |db.messages| ==> 1 <= db.messages[i].id < db.nextMsg && db.messages[i].created <= db.now)
    && (forall i, j :: 0 <= i < j < |db.messages| ==> db.messages[i].id < db.messages[j].id)
  }

  ghost predicate StatesOk(db: Db) {
    forall i :: 0 <= i < |db.states| ==>
      db.states[i].messageId < db.nextMsg && db.states[i].tsChanged <= db.now && db.states[i].status == DELIVERED
  }

  ghost predicate DbOk(db: Db) {
    UsersOk(db) && DataOk(db) && BansOk(db) && MessagesOk(db) && StatesOk(db)
  }

  lemma EmptyOk()
    ensures DbOk(EMPTY_DB)
  {
  }

  // Users

  lemma {:induction false} FindLoginFinds(us: seq<User>, login: string)
    ensures FindLogin(us, login).Some? ==>
              FindLogin(us, login).value in us && SameLogin(FindLogin(us, login).value.login, login)
    ensures FindLogin(us, login).None? ==> forall i :: 0 <= i < |us| ==> !SameLogin(us[i].login, login)
  {
    if us != [] && !SameLogin(us[0].login, login) {
      FindLoginFinds(us[1..], login);
      assert forall i :: 0 < i < |us| ==> us[i] == us[1..][i - 1];
    }
  }

  lemma {:induction false} FindUserFinds(us: seq<User>, id: nat)
    ensures FindUser(us, id).Some? ==> FindUser(us, id).value in us && FindUser(us, id).value.id == id
    ensures FindUser(us, id).None? ==> forall i :: 0 <= i < |us| ==> us[i].id != id
  {
    if us != [] && us[0].id != id {
      FindUserFinds(us[1..], id);
      assert forall i :: 0 < i < |us| ==> us[i] == us[1..][i - 1];
    }
  }

  /** An id or a login names one row. */
  lemma OneUser(db: Db, u: User, v: User)
    requires UsersOk(db) && u in db.users && v in db.users
    requires u.id == v.id || SameLogin(u.login, v.login)
    ensures u == v
  {
    var i :| 0 <= i < |db.users| && db.users[i] == u;
    var j :| 0 <= j < |db.users| && db.users[j] == v;
    assert i != j ==> i < j || j < i;
  }

  lemma InsertUserOk(db: Db, login: string)
    requires UsersOk(db) && DataOk(db) && FindLogin(db.users, login).None? && db.nextUser <= INT_MAX
    ensures UsersOk(InsertUser(db, login)) && DataOk(InsertUser(db, login))
  {
    FindLoginFinds(db.users, login);
  }

  lemma {:induction false} HashOfAt(us: seq<User>, ds: seq<UserData>, i: nat)
    requires |us| == |ds| && i < |us|
    requires forall k :: 0 <= k < |us| ==> ds[k].userId == us[k].id
    requires forall j, k :: 0 <= j < k < |us| ==> us[j].id < us[k].id
    ensures HashOf(ds, us[i].id) == Some(ds[i].pwdhash)
  {
    if i > 0 {
      HashOfAt(us[1..], ds[1..], i - 1);
    }
  }

  // Bans

  lemma {:induction false} DeleteBanMembers(bs: seq<Ban>, id: nat, b: Ban)
    ensures b in DeleteBan(bs, id) <==> b in bs && b.userId != id
  {
    if bs != [] {
      DeleteBanMembers(bs[1..], id, b);
      assert bs == [bs[0]] + bs[1..];
    }
  }

  ghost predicate OneBanEach(bs: seq<Ban>) {
    forall i, j :: 0 <= i < j < |bs| ==> bs[i].userId != bs[j].userId
  }

  lemma {:induction false} DeleteBanOk(bs: seq<Ban>, id: nat)
    requires OneBanEach(bs)
    ensures OneBanEach(DeleteBan(bs, id))
    ensures forall i :: 0 <= i < |DeleteBan(bs, id)| ==> DeleteBan(bs, id)[i].userId != id
  {
    if bs != [] {
      DeleteBanOk(bs[1..], id);
      var rest := DeleteBan(bs[1..], id);
      forall i | 0 <= i < |rest| ensures rest[i].userId != bs[0].userId {
        DeleteBanMembers(bs[1..], id, rest[i]);
        var j :| 0 <= j < |bs[1..]| && bs[1..][j] == rest[i];
        assert bs[j + 1] == rest[i];
      }
    }
  }

  lemma BanUserOk(db: Db, user: string, action: string, deadline: string, env: Env)
    requires BansOk(db)
    ensures var db' := BanUser(db, user, action, deadline, env).0;
            BansOk(db') && db' == db.(bans := db'.bans)
  {
    match ParseId(user)
    case None =>
    case Some(id) =>
      DeleteBanOk(db.bans, id);
  }

  // Messages: a delivery only appends

  /** db' has the rows of db in front, and later times. */
  ghost predicate Grows(db: Db, db': Db) {
    && db.messages <= db'.messages && db.states <= db'.states
    && db.now <= db'.now && db.nextMsg <= db'.nextMsg && db.nextState <= db'.nextState
    && db' == db.(messages := db'.messages, states := db'.states, nextMsg := db'.nextMsg, nextState := db'.nextState,
         now := db'.now)
  }

  lemma {:induction false} InsertForAllOk(db: Db, fromId: nat, to: seq<User>, body: string)
    requires MessagesOk(db) && StatesOk(db)
    ensures var db' := InsertForAll(db, fromId, to, body);
            MessagesOk(db') && StatesOk(db') && Grows(db, db') && db'.states == db.states && db'.now == db.now
  {
    if to != [] {
      InsertForAllOk(db, fromId, to[..|to| - 1], body);
    }
  }

  lemma {:induction false} SelectIdsMembers(ms: seq<Msg>, fromId: nat, start: Seconds, id: nat)
    ensures id in SelectIds(ms, fromId, start) <==>
            exists i :: 0 <= i < |ms| && ms[i].id == id && ms[i].fromId == fromId && ms[i].created >= start
  {
    if ms != [] {
      var front := ms[..|ms| - 1];
      SelectIdsMembers(front, fromId, start, id);
      assert forall i :: 0 <= i < |front| ==> ms[i] == front[i];
    }
  }

  lemma {:induction false} InsertStatesOk(db: Db, ids: seq<nat>, k: nat, env: Env)
    requires MessagesOk(db) && StatesOk(db)
    requires forall i :: 0 <= i < |ids| ==> ids[i] < db.nextMsg
    ensures var db' := InsertStates(db, ids, k, env).0;
            MessagesOk(db') && StatesOk(db') && Grows(db, db') && db'.messages == db.messages &&
              db'.nextMsg == db.nextMsg
    decreases |ids|
  {
    if ids != [] {
      var db1 := Tick(db, env.delay(2 + k));
      if !Fails(env, 2 + k) {
        InsertStatesOk(InsertState(db1, ids[0]), ids[1..], k + 1, env);
      }
    }
  }

  lemma BroadcastOk(db: Db, body: string, fromId: nat, env: Env)
    requires MessagesOk(db) && StatesOk(db)
    ensures var db' := Broadcast(db, body, fromId, env).0;
            MessagesOk(db') && StatesOk(db') && Grows(db, db')
  {
    var db0 := Tick(Tick(db, env.delay(0)), env.delay(1));
    InsertForAllOk(db0, fromId, db.users, body);
    var db1 := BroadcastInserted(db, fromId, body, env);
    var ids := SelectIds(db1.messages, fromId, BroadcastStart(db, env));
    forall i | 0 <= i < |ids| ensures ids[i] < db1.nextMsg {
      SelectIdsMembers(db1.messages, fromId, BroadcastStart(db, env), ids[i]);
    }
    InsertStatesOk(db1, ids, 0, env);
  }

  lemma DeliverMsgOk(db: Db, body: string, from: string, to: Option<string>, env: Env)
    requires MessagesOk(db) && StatesOk(db)
    ensures var db' := DeliverMsg(db, body, from, to, env).0;
            MessagesOk(db') && StatesOk(db') && Grows(db, db')
  {
    match ParseId(from)
    case None =>
    case Some(f) =>
      if to.None? {
        BroadcastOk(db, body, f, env);
      }
  }

  /** Main invariant: every call keeps the database well formed. */
  lemma ApplyOk(db: Db, op: DbOp)
    requires DbOk(db)
    ensures DbOk(Apply(db, op))
  {
    match op
    case OpAddUser(login, env) =>
      if AddUser(db, login, env).1.Some? {
        InsertUserOk(db, login);
      }
    case OpSetHash(id, hash, env) =>
    case OpBan(user, action, deadline, env) =>
      BanUserOk(db, user, action, deadline, env);
    case OpDeliver(body, from, to, env) =>
      DeliverMsgOk(db, body, from, to, env);
  }

  lemma {:induction false} RunOpsOk(db: Db, ops: seq<DbOp>)
    requires DbOk(db)
    ensures DbOk(RunOps(db, ops))
  {
    if ops != [] {
      RunOpsOk(db, ops[..|ops| - 1]);
      ApplyOk(RunOps(db, ops[..|ops| - 1]), ops[|ops| - 1]);
    }
  }

  /** Rows of users, messages and states stay as they are; new ones go behind them. */
  ghost predicate Appends(db: Db, db': Db) {
    && db.users <= db'.users && db.messages <= db'.messages && db.states <= db'.states && db.now <= db'.now
  }

  lemma ApplyAppends(db: Db, op: DbOp)
    requires DbOk(db)
    ensures Appends(db, Apply(db, op))
  {
    if op.OpDeliver? {
      DeliverMsgOk(db, op.body, op.from, op.to, op.env);
    } else if op.OpBan? {
      BanUserOk(db, op.user, op.action, op.deadline, op.env);
    }
  }

  lemma {:induction false} RunOpsAppends(db: Db, ops: seq<DbOp>)
    requires DbOk(db)
    ensures Appends(db, RunOps(db, ops))
  {
    if ops != [] {
      var front := ops[..|ops| - 1];
      RunOpsOk(db, front);
      RunOpsAppends(db, front);
      ApplyAppends(RunOps(db, front), ops[|ops| - 1]);
    }
  }

  // One row per user in the listing

  lemma {:induction false} BansOfAtMostOne(bs: seq<Ban>, id: nat)
    requires OneBanEach(bs)
    ensures |BansOf(bs, id)| <= 1
    ensures BansOf(bs, id) == [] <==> forall i :: 0 <= i < |bs| ==> bs[i].userId != id
  {
    if bs != [] {
      BansOfAtMostOne(bs[1..], id);
      assert forall i :: 0 < i < |bs| ==> bs[i] == bs[1..][i - 1];
    }
  }

  /** The deadline column of a user's row. */
  function BannedTill(bs: seq<Ban>, id: nat): string {
    if BansOf(bs, id) == [] then "" else BansOf(bs, id)[0].deadline
  }

  lemma {:induction false} JoinDataMisses(u: User, ds: seq<UserData>, bs: seq<Ban>)
    requires forall i :: 0 <= i < |ds| ==> ds[i].userId != u.id
    ensures JoinData(u, ds, bs) == []
  {
    if ds != [] {
      JoinDataMisses(u, ds[1..], bs);
    }
  }

  lemma {:induction false} JoinDataHits(u: User, ds: seq<UserData>, bs: seq<Ban>, k: nat)
    requires OneBanEach(bs) && k < |ds| && ds[k].userId == u.id
    requires forall i :: 0 <= i < |ds| && i != k ==> ds[i].userId != u.id
    ensures JoinData(u, ds, bs) == [UserRow(u, ds[k].pwdhash, BannedTill(bs, u.id))]
  {
    if k == 0 {
      JoinDataMisses(u, ds[1..], bs);
      BansOfAtMostOne(bs, u.id);
      var own := BansOf(bs, u.id);
      if own != [] {
        assert own[1..] == [];
        assert JoinBans(u, ds[0].pwdhash, own) == [UserRow(u, ds[0].pwdhash, own[0].deadline)];
      }
      assert LeftJoinBans(u, ds[0].pwdhash, own) == [UserRow(u, ds[0].pwdhash, BannedTill(bs, u.id))];
    } else {
      JoinDataHits(u, ds[1..], bs, k - 1);
    }
  }

  lemma {:induction false} JoinUsersFrom(db: Db, k: nat)
    requires UsersOk(db) && DataOk(db) && BansOk(db) && k <= |db.users|
    ensures var rows := JoinUsers(db.users[k..], db.userData, db.bans);
            |rows| == |db.users| - k &&
            forall i :: 0 <= i < |rows| ==>
              rows[i] == UserRow(db.users[k + i], db.userData[k + i].pwdhash, BannedTill(db.bans, db.users[k + i].id))
    decreases |db.users| - k
  {
    if k < |db.users| {
      var us := db.users[k..];
      assert us[0] == db.users[k] && us[1..] == db.users[k + 1..];
      JoinUsersFrom(db, k + 1);
      JoinDataHits(us[0], db.userData, db.bans, k);
    }
  }

  /** Main result: the three-table join lists every user exactly once, in order, with its hash and deadline. */
  lemma OneRowPerUser(db: Db)
    requires DbOk(db)
    ensures |UserRows(db)| == |db.users|
    ensures forall i :: 0 <= i < |db.users| ==>
              UserRows(db)[i] == UserRow(db.users[i], db.userData[i].pwdhash, BannedTill(db.bans, db.users[i].id))
  {
    JoinUsersFrom(db, 0);
    assert db.users[0..] == db.users;
  }
}
