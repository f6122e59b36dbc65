/** The database calls of the server, statement by statement and row by row. The object stands for the connection
    and the database behind it; every method is proved to have the effect the tables' functions describe. */
module DbAccess {
  import opened Text
  import opened Records
  import opened Recipients
  import opened Pool
  import opened Tables
  import opened TableLaws
  import opened Accounts
  import opened Readers
  import opened Delivery
  import T = Tables

  lemma PackedSnoc(us: seq<Recipient>, i: nat)
    requires i < |us|
    ensures Packed(us[..i + 1]) == Packed(us[..i]) + Decimal(us[i].id) + "|" + us[i].login + "#"
  {
    PackedConcat(us[..i], [us[i]]);
    assert us[..i + 1] == us[..i] + [us[i]];
    assert Packed([us[i]]) == PackedOne(us[i]) + "";
  }

  lemma {:induction false} PackedConcat(us: seq<Recipient>, vs: seq<Recipient>)
    ensures Packed(us + vs) == Packed(us) + Packed(vs)
  {
    if us == [] {
      assert us + vs == vs;
    } else {
      assert (us + vs)[1..] == us[1..] + vs;
      PackedConcat(us[1..], vs);
    }
  }

  lemma {:induction false} TerminatedSnoc(fs: seq<string>, f: string)
    ensures Terminated(fs + [f]) == Terminated(fs) + f + [DIVIDER]
  {
    if fs == [] {
      assert fs + [f] == [f] && [f][1..] == [];
    } else {
      assert (fs + [f])[1..] == fs[1..] + [f];
      TerminatedSnoc(fs[1..], f);
    }
  }

  /** One row of the listing, as text. */
  method JoinRow(row: seq<string>) returns (strRow: string)
    ensures strRow == RowText(row)
  {
    strRow := "";
    for i := 0 to |row|
      invariant strRow == Terminated(row[..i])
    {
      TerminatedSnoc(row[..i], row[i]);
      assert row[..i + 1] == row[..i] + [row[i]];
      strRow := strRow + row[i] + [DIVIDER];
    }
    assert row[..|row|] == row;
    strRow := strRow + [NUL];
  }

  /** The rows of a message query, inserted into an emptied pool in their order. */
  method FillPool(rows: seq<Entry>) returns (msgPool: Pool)
    ensures msgPool == PutAll([], rows)
  {
    msgPool := [];
    for i := 0 to |rows|
      invariant msgPool == PutAll([], rows[..i])
    {
      assert rows[..i + 1][..i] == rows[..i];
      msgPool := Put(msgPool, rows[i]);
    }
    assert rows[..|rows|] == rows;
  }

  class DBAccess {
    var db: Db

    constructor ()
      ensures db == EMPTY_DB
    {
      db := EMPTY_DB;
    }

    /** Inserts a user whose login is free, under a fresh id and without a hash; every other row stays. */
    method AddUser(login: string, env: Env) returns (id: Option<nat>)
      modifies this
      ensures (db, id) == T.AddUser(old(db), login, env)
      ensures id.None? ==> db == old(db)
      ensures id.Some? ==>
                && (forall i :: 0 <= i < |old(db).users| ==> !SameLogin(old(db).users[i].login, login))
                && db == old(db).(users := old(db).users + [User(id.value, login, "", "")],
                                  userData := old(db).userData + [UserData(id.value, None)],
                                  nextUser := id.value + 1)
      ensures id.Some? && DbOk(old(db)) ==>
                && DbOk(db) && HasRow(db, id.value, login, None)
                && forall i :: 0 <= i < |old(db).users| ==> old(db).users[i].id != id.value
    {
      if Fails(env, 0) {
        return None;
      }
      var row := FindLogin(db.users, login);
      FindLoginFinds(db.users, login);
      if row.Some? {
        return None;
      }
      if Fails(env, 1) || db.nextUser > INT_MAX {
        return None;
      }
      id := Some(db.nextUser);
      if DbOk(db) {
        NewRow(db, login);
        ApplyOk(db, OpAddUser(login, env));
      }
      db := InsertUser(db, login);
    }

    /** Some row has this login, and the query for it did not fail. */
    method LoginUsed(login: string, env: Env) returns (used: bool)
      ensures used == T.LoginUsed(db, login, env)
      ensures used <==> !Fails(env, 0) && exists i :: 0 <= i < |db.users| && SameLogin(db.users[i].login, login)
    {
      if Fails(env, 0) {
        return false;
      }
      var row := FindLogin(db.users, login);
      FindLoginFinds(db.users, login);
      used := row.Some?;
    }

    /** The id of the row with this login, if its stored hash matches. */
    method UserAuthOk(name: string, pwdHash: string, env: Env) returns (userId: Option<nat>)
      ensures userId == T.UserAuthOk(db, name, pwdHash, env)
      ensures DbOk(db) ==>
                forall u :: u in db.users && SameLogin(u.login, name) ==>
                  (userId == Some(u.id) <==> !Fails(env, 0) && HashMatches(db, u.id, pwdHash))
      ensures userId.Some? ==> exists u :: u in db.users && SameLogin(u.login, name) && u.id == userId.value
    {
      if Fails(env, 0) {
        return None;
      }
      var row := FindLogin(db.users, name);
      FindLoginFinds(db.users, name);
      if row.None? {
        return None;
      }
      if DbOk(db) {
        OnlyRow(db, name);
      }
      var stored := HashOf(db.userData, row.value.id);
      if stored.None? || stored.value.None? || !SameLogin(stored.value.value, pwdHash) {
        return None;
      }
      userId := Some(row.value.id);
    }

    /** The id and the hash of a login; where no row is found, the values the variables had. */
    method GetUser(login: string, id0: nat, hash0: string, env: Env) returns (ok: bool, id: nat, pwdHash: string)
      requires FindLogin(db.users, login).Some? ==>
                 HashOf(db.userData, FindLogin(db.users, login).value.id) != Some(None)
      ensures match T.GetUser(db, login, env)
              case None => !ok
              case Some(None) => ok && id == id0 && pwdHash == hash0
              case Some(Some((i, h))) => ok && id == i && h == Some(pwdHash)
    {
      id, pwdHash := id0, hash0;
      if Fails(env, 0) {
        ok := false;
        return;
      }
      var row := FindLogin(db.users, login);
      if row.Some? {
        var stored := HashOf(db.userData, row.value.id);
        if stored.Some? {
          id, pwdHash := row.value.id, stored.value.value;
        }
      }
      ok := true;
    }

    /** The hash of one user is what is asked for, if it has a row; every other one stays. */
    method SetUserPwdhash(id: nat, newPwdh: string, env: Env) returns (ok: bool)
      modifies this
      ensures (db, ok) == T.SetUserPwdhash(old(db), id, newPwdh, env)
      ensures ok <==> !Fails(env, 0)
      ensures db == old(db).(userData := db.userData)
      ensures forall x: nat :: HashOf(db.userData, x) ==
                if ok && x == id && HashOf(old(db).userData, x).Some? then Some(Some(newPwdh))
                else HashOf(old(db).userData, x)
    {
      if Fails(env, 0) {
        return false;
      }
      forall x: nat ensures HashOf(UpdateHash(db.userData, id, newPwdh), x) ==
                       if x == id && HashOf(db.userData, x).Some? then Some(Some(newPwdh)) else HashOf(db.userData, x)
      {
        HashOfUpdated(db.userData, id, newPwdh, x);
      }
      db := db.(userData := UpdateHash(db.userData, id, newPwdh));
      ok := true;
    }

    /** One user's ban is set with the deadline, or lifted; a ban whose insert fails is lifted. Other bans stay. */
    method BanUser(userId: string, action: string, deadline: string, env: Env) returns (ok: bool)
      modifies this
      ensures (db, ok) == T.BanUser(old(db), userId, action, deadline, env)
      ensures db == old(db).(bans := db.bans)
      ensures ok <==> ParseId(userId).Some? && !Fails(env, 0) &&
                      (action != "" && action[0] == '1' ==> !Fails(env, 1))
      ensures forall x: nat :: BansOf(db.bans, x) ==
                if ParseId(userId) != Some(x) || Fails(env, 0) then BansOf(old(db).bans, x)
                else if action != "" && action[0] == '1' && !Fails(env, 1) then [Ban(x, deadline)]
                else []
    {
      var id := ParseId(userId);
      if id.None? || Fails(env, 0) {
        return false;
      }
      var kept := DeleteBan(db.bans, id.value);
      forall x: nat ensures BansOf(kept, x) == if x == id.value then [] else BansOf(db.bans, x)
               ensures BansOf(kept + [Ban(id.value, deadline)], x) ==
                       if x == id.value then [Ban(x, deadline)] else BansOf(db.bans, x)
      {
        BansOfDeleted(db.bans, id.value, x);
        BansOfSnoc(kept, Ban(id.value, deadline), x);
      }
      db := db.(bans := kept);
      if action != "" && action[0] == '1' {
        if Fails(env, 1) {
          return false;
        }
        db := db.(bans := db.bans + [Ban(id.value, deadline)]);
      }
      ok := true;
    }

    /** A deadline exactly when the query succeeds and finds a row of the user, and then of such a row. */
    method UserIsBanned(usrId: string, env: Env) returns (ban: Option<string>)
      ensures ban == T.UserIsBanned(db, usrId, env)
      ensures ban.Some? <==>
              !Fails(env, 0) && ParseId(usrId).Some? && exists b :: b in db.bans && b.userId == ParseId(usrId).value
      ensures ban.Some? ==> Ban(ParseId(usrId).value, ban.value) in db.bans
    {
      var id := ParseId(usrId);
      if id.None? || Fails(env, 0) {
        return None;
      }
      var rows := BansOf(db.bans, id.value);
      BansOfMember(db.bans, id.value);
      if rows == [] {
        BansOfNone(db.bans, id.value);
        return None;
      }
      ban := Some(rows[0].deadline);
    }

    /** Appends the listing to a vector. */
    method GetUsers(v0: seq<string>, env: Env) returns (ok: bool, v: seq<string>)
      requires NoNullHash(UserRows(db))
      ensures v == if Fails(env, 0) then v0 else v0 + RowTexts(UserRows(db))
      ensures ok <==> !Fails(env, 0) && v != []
    {
      v := v0;
      if Fails(env, 0) {
        return false, v;
      }
      var res := UserRows(db);
      assert RowTexts(res)[..0] == [];
      for i := 0 to |res|
        invariant v == v0 + RowTexts(res)[..i]
      {
        var strRow := JoinRow(RowFields(res[i]));
        assert RowTexts(res)[..i + 1] == RowTexts(res)[..i] + [strRow];
        v := v + [strRow];
      }
      ok := |v| > 0;
    }

    method PackUsers(clientId: string, env: Env) returns (strRes: Option<string>)
      ensures strRes == T.PackUsers(db, clientId, env)
    {
      var id := ParseId(clientId);
      if id.None? || Fails(env, 0) {
        return None;
      }
      var res := OtherUsers(db.users, id.value);
      var packed := "";
      for i := 0 to |res|
        invariant packed == Packed(res[..i])
      {
        PackedSnoc(res, i);
        packed := packed + Decimal(res[i].id) + "|" + res[i].login + "#";
      }
      assert res[..|res|] == res;
      strRes := Some(packed);
    }

    /** Every visible message once, sorted by the text of its id. */
    method GetAllMsgs(pool: Pool, env: Env) returns (msgPool: Pool)
      ensures msgPool == T.GetAllMsgs(db, pool, env)
      ensures Fails(env, 0) ==> msgPool == pool
      ensures !Fails(env, 0) && DbOk(db) ==>
                Sorted(msgPool) && forall x :: x in msgPool <==> IsAdminEntry(db, db.messages, x)
    {
      if Fails(env, 0) {
        return pool;
      }
      if DbOk(db) {
        AdminPoolInKeyOrder(db);
      }
      msgPool := FillPool(AdminRows(db, db.messages));
    }

    /** The messages to or from one user, each once, sorted by the text of its id. */
    method GetUserMsgsText(id: string, usrname: string, pool: Pool, env: Env) returns (msgPool: Pool)
      ensures msgPool == T.GetUserMsgsText(db, id, usrname, pool, env)
      ensures Fails(env, 0) || ParseId(id).None? ==> msgPool == pool
      ensures !Fails(env, 0) && ParseId(id).Some? && DbOk(db) ==>
                && Sorted(msgPool)
                && (forall x :: x in msgPool ==> IsUserEntry(db, db.messages, ParseId(id).value, usrname, x))
                && (forall m :: m in db.messages && VisibleTo(db, m, ParseId(id).value) ==>
                     HasKey(msgPool, Decimal(m.id)))
    {
      var n := ParseId(id);
      if n.None? || Fails(env, 0) {
        return pool;
      }
      if DbOk(db) {
        UserPoolExact(db, n.value, usrname, UserRowsOf(db, db.messages, n.value, usrname));
      }
      msgPool := FillPool(UserRowsOf(db, db.messages, n.value, usrname));
    }

    /** The inbox of one user: for every second of delivery, the earliest message delivered to the user in it. */
    method GetUserMsgsNumber(id: nat, usrname: string, pool: Pool, env: Env) returns (msgPool: Pool)
      ensures msgPool == T.GetUserMsgsNumber(db, id, usrname, pool, env)
      ensures Fails(env, 0) ==> msgPool == pool
      ensures !Fails(env, 0) ==> Sorted(msgPool) && forall x :: x in msgPool <==> Earliest(db, id, usrname, x)
    {
      if Fails(env, 0) {
        return pool;
      }
      OneForEveryKey(InboxRows(db, db.messages, id, usrname));
      forall x ensures x in T.GetUserMsgsNumber(db, id, usrname, pool, env) <==> Earliest(db, id, usrname, x) {
        InboxOfEarliest(db, id, usrname, pool, env, x);
      }
      hide Earliest, InboxRows;
      msgPool := FillPool(InboxRows(db, db.messages, id, usrname));
    }

    /** One message from the sender to each other user, and a state row for each message of the sender from this second
        on, up to the insert that fails. */
    method DeliverToAll(msg: string, fromId: nat, env: Env) returns (ok: bool)
      modifies this
      ensures (db, ok) == T.Broadcast(old(db), msg, fromId, env)
      ensures DbOk(old(db)) ==>
                exists ids :: Chosen(ids, db.messages, fromId, old(db).now + env.delay(0)) &&
                  WritesFor(old(db), msg, fromId, env, ids)
      ensures DbOk(old(db)) && ok ==> SentBy(old(db), db, fromId, None, msg)
    {
      if DbOk(db) {
        var ids := BroadcastExactly(db, msg, fromId, env);
        if Broadcast(db, msg, fromId, env).1 {
          BroadcastSentBy(db, msg, fromId, env);
        }
      }
      hide Chosen, WritesFor, SentBy, DbOk;
      var start := BroadcastStart(db, env);
      var users := db.users;
      db := Tick(Tick(db, env.delay(0)), env.delay(1));
      if Fails(env, 0) || !HasOtherUser(users, fromId) {
        return false;
      }
      db := InsertForAll(db, fromId, users, msg);
      if Fails(env, 1) {
        return false;
      }
      var res := SelectIds(db.messages, fromId, start);
      ghost var inserted := db;
      assert res[0..] == res;
      for k := 0 to |res|
        invariant InsertStates(db, res[k..], k, env) == InsertStates(inserted, res, 0, env)
      {
        db := Tick(db, env.delay(2 + k));
        if Fails(env, 2 + k) {
          return false;
        }
        assert res[k..][0] == res[k] && res[k..][1..] == res[k + 1..];
        db := InsertState(db, res[k]);
      }
      ok := true;
    }

    /** A delivery from the first id to the second, or to all other users where there is none. */
    method DeliverMsg(msg: string, fromId: string, toId: Option<string>, env: Env) returns (ok: bool)
      modifies this
      ensures (db, ok) == T.DeliverMsg(old(db), msg, fromId, toId, env)
      ensures DbOk(old(db)) && ok ==>
                && ParseId(fromId).Some? && (toId.Some? ==> ParseId(toId.value).Some?)
                && SentBy(old(db), db, ParseId(fromId).value, if toId.Some? then ParseId(toId.value) else None, msg)
    {
      if DbOk(db) && T.DeliverMsg(db, msg, fromId, toId, env).1 {
        DeliveredFrom(db, msg, fromId, toId, env);
      }
      hide SentBy, DbOk, Broadcast;
      var from := ParseId(fromId);
      if from.None? {
        return false;
      }
      if toId.None? {
        ok := DeliverToAll(msg, from.value, env);
        return;
      }
      var to := ParseId(toId.value);
      if to.None? {
        return false;
      }
      db := Tick(Tick(db, env.delay(0)), env.delay(1));
      if Fails(env, 0) {
        return false;
      }
      var msgId := db.nextMsg;
      db := InsertMessage(db, from.value, to.value, msg);
      db := Tick(db, env.delay(2));
      if Fails(env, 1) {
        return false;
      }
      db := InsertState(db, msgId);
      ok := true;
    }

    /** Calls that other sessions make. */
    method RunOthers(ops: seq<DbOp>)
      modifies this
      ensures db == RunOps(old(db), ops)
    {
      ghost var start := db;
      for i := 0 to |ops|
        invariant db == RunOps(start, ops[..i])
      {
        assert ops[..i + 1][..i] == ops[..i];
        match ops[i] {
          case OpAddUser(login, env) =>
            var _ := AddUser(login, env);
          case OpSetHash(id, hash, env) =>
            var _ := SetUserPwdhash(id, hash, env);
          case OpBan(user, action, deadline, env) =>
            var _ := BanUser(user, action, deadline, env);
          case OpDeliver(body, from, to, env) =>
            var _ := DeliverMsg(body, from, to, env);
        }
      }
      assert ops[..|ops|] == ops;
    }
  }
}
