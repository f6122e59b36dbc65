/** The sessions of the graphical clients, in any run of the server. */
module QtSession {
  import opened Text
  import opened Records
  import opened Timestamps
  import opened Pool
  import opened Tables
  import opened TableLaws
  import opened Readers
  import opened Session
  import opened Server
  import opened MessageStream
  import opened Listing
  import opened QtClient

  // Whose name such a session has

  /** The requests of the graphical clients. */
  predicate QtRequest(t: MsgType) {
    t == eBatchAuth || t == eBatchReg || t == eAuthAdmin || t == eUserNextAdmin || t == eSetUserBanFlag ||
      t == eGetMsgAdmin || t == eGetUserMsg || t == eGetNextMsg || t == eSendToAll || t == eSendToUserMsgReady ||
      t == eQuit
  }

  /** The session gets no other requests. */
  predicate OnlyQt(evs: seq<Event>, sid: nat) {
    forall i :: 0 <= i < |evs| && evs[i].Receive? && evs[i].sid == sid ==> QtRequest(evs[i].m.mtype)
  }

  /** The session has neither a user nor an id, and will not get one from what is pending. */
  predicate Nobody(c: Conn) {
    && c.session.user == "" && c.session.usrDbId == 0
    && (c.pending.AwaitHash? ==> c.pending.request.mtype == eBatchReg)
  }

  lemma RequestsNameNobody(db: Db, s: Session, m: IoMsg, deadline: string, around: Around)
    requires NoNullRead(db, s, m) && QtRequest(m.mtype) && Nobody(Conn(s, Idle))
    ensures var out := Begin(db, s, m, deadline, around); Nobody(Conn(out.session, out.pending))
  {
    hide DeliverMsg, BanUser, AddUser, GetAllMsgs, GetUserMsgsText, GetUserMsgsNumber, UserAuthOk, UserRows;
  }

  /** A batch login reports an id and gives the session none: in every run, a session that gets the requests of a
      graphical client only has no user and no id. */
  lemma {:induction false} QtIsNobody(evs: seq<Event>, sid: nat)
    requires OnlyQt(evs, sid)
    ensures sid in Run(START, evs).conns ==> Nobody(Run(START, evs).conns[sid])
  {
    hide Begin, NoNullRead;
    if evs != [] {
      var front, ev := evs[..|evs| - 1], evs[|evs| - 1];
      var v := Run(START, front);
      QtIsNobody(front, sid);
      if Enabled(v, ev) && ev.Receive? && ev.sid == sid {
        RequestsNameNobody(v.db, v.conns[sid].session, ev.m, ev.deadline, ev.around);
      }
    }
  }

  /** Main result: what a graphical client reads of the messages of a user. In every run, the body of any entry is that
      of a message the user sent or was sent, with the time of its first state row and an empty receiver, whoever the
      message is for; it splits into its five fields exactly when the sender's login and the text are plain. */
  lemma QtUserBody(evs: seq<Event>, sid: nat, m: IoMsg, id: nat, env: Env, i: nat) returns (k: nat)
    requires OnlyQt(evs, sid) && sid in Run(START, evs).conns
    requires m.mtype == eGetUserMsg && m.userId == Decimal(id) && !Fails(env, 0)
    requires i < |PoolFor(Run(START, evs).db, Run(START, evs).conns[sid].session, m, env)|
    ensures var db, s := Run(START, evs).db, Run(START, evs).conns[sid].session;
            var body := Bodies(PoolFor(db, s, m, env))[i];
            && k < |db.messages| && VisibleTo(db, db.messages[k], id)
            && var msg, sender := db.messages[k], FindUser(db.users, db.messages[k].fromId).value;
               && body == BodyOf(UserEntryAt(db, msg, 0, ""))
               && var stamp := Stamp(StatesOf(db.states, msg.id)[0].tsChanged);
                  Fields(body) == [stamp, sender.login, "", msg.body, Decimal(msg.id)] <==>
                    Plain(sender.login) && Plain(msg.body)
  {
    hide ServerOk, Run, DbOk, PoolFor, BodyOf, Fields, StatesOf, FindUser, FindLogin;
    var v := Run(START, evs);
    var s, db := v.conns[sid].session, v.db;
    QtIsNobody(evs, sid);
    RunIsCalls(START, evs);
    EmptyOk();
    RunOpsOk(EMPTY_DB, CallsOf(START, evs));
    var p := UserPool(db, s, m, id, env);
    UserPoolInKeyOrder(db, id, "", s.pool, env);
    assert p[i] in p;
    k :| 0 <= k < |db.messages| && VisibleTo(db, db.messages[k], id) &&
      p[i] == UserEntryAt(db, db.messages[k], 0, "");
    SplitUserEntry(FindUser(db.users, db.messages[k].fromId).value, db.messages[k],
                   StatesOf(db.states, db.messages[k].id)[0], "");
  }

  lemma UserPool(db: Db, s: Session, m: IoMsg, id: nat, env: Env) returns (p: Pool)
    requires m.mtype == eGetUserMsg && m.userId == Decimal(id) && s.user == "" && s.usrDbId == 0
    ensures p == PoolFor(db, s, m, env) == GetUserMsgsText(db, Decimal(id), "", s.pool, env)
  {
    p := PoolFor(db, s, m, env);
  }

  // Rows left in the buffer

  /** The row names one of these users. */
  ghost predicate NamesOneOf(row: string, us: seq<User>) {
    exists k :: 0 <= k < |us| && Names([CStr(row)], [Decimal(us[k].id)], [ListName(us[k].login)])
  }

  ghost predicate AllNamed(rows: seq<string>, us: seq<User>) {
    forall i :: 0 <= i < |rows| ==> NamesOneOf(rows[i], us)
  }

  lemma NamedByMore(rows: seq<string>, us: seq<User>, more: seq<User>)
    requires AllNamed(rows, us) && us <= more
    ensures AllNamed(rows, more)
  {
    hide Names;
    forall i | 0 <= i < |rows| ensures NamesOneOf(rows[i], more) {
      var k :| 0 <= k < |us| && Names([CStr(rows[i])], [Decimal(us[k].id)], [ListName(us[k].login)]);
      assert more[k] == us[k];
    }
  }

  lemma ListingIsNamed(db: Db)
    requires DbOk(db) && NoNullHash(UserRows(db)) && NulFree(db.users)
    ensures AllNamed(RowTexts(UserRows(db)), db.users)
  {
    NamesUsers(db);
    var rows := RowTexts(UserRows(db));
    hide UserRows, DbOk;
    forall i | 0 <= i < |rows| ensures NamesOneOf(rows[i], db.users) {
      assert Shown(rows)[i] == CStr(rows[i]);
      assert Names([CStr(rows[i])], [Decimal(db.users[i].id)], [ListName(db.users[i].login)]);
    }
  }

  lemma BufferNamed(db: Db, s: Session, m: IoMsg, deadline: string, around: Around)
    requires DbOk(db) && NulFree(db.users) && NoNullRead(db, s, m) && AllNamed(s.buffer, db.users)
    ensures AllNamed(Begin(db, s, m, deadline, around).session.buffer, db.users)
  {
    hide NamesOneOf, DbOk, UserRows;
    if m.mtype == eAuthAdmin {
      ListingIsNamed(db);
    } else if m.mtype != eUserNextAdmin {
      hide Begin;
      OtherMessages(db, s, m, deadline, around);
    }
  }

  lemma FinishKeepsBuffer(db: Db, s: Session, p: Pending, around: Around)
    requires p != Idle
    ensures Finish(db, s, p, around).session.buffer == s.buffer
  {
  }

  lemma StepNames(v: Server, ev: Event, sid: nat)
    requires DbOk(v.db) && NulFree(v.db.users) && AllNamed(BufferOf(v, sid), v.db.users)
    ensures AllNamed(BufferOf(Step(v, ev), sid), v.db.users)
  {
    hide Begin, Finish, AllNamed, DbOk, NoNullRead;
    if Enabled(v, ev) && ev.Receive? && ev.sid == sid {
      BufferNamed(v.db, v.conns[sid].session, ev.m, ev.deadline, ev.around);
    } else if Enabled(v, ev) && ev.Resume? && ev.sid == sid {
      FinishKeepsBuffer(v.db, v.conns[sid].session, v.conns[sid].pending, ev.around);
    } else if Enabled(v, ev) && ev.Connect? && ev.sid == sid {
      NothingNamed(v.db.users);
    }
  }

  lemma NothingNamed(us: seq<User>)
    ensures AllNamed([], us)
  {
  }

  lemma StepKeepsUsers(v: Server, ev: Event)
    requires DbOk(v.db)
    ensures v.db.users <= Step(v, ev).db.users
  {
    hide DbOk, RunOps, Apply;
    RunIsCalls(v, [ev]);
    assert [ev][..0] == [] && Run(v, [ev]) == Step(v, ev);
    RunOpsAppends(v.db, CallsOf(v, [ev]));
  }

  /** In every run, the rows in any buffer name users of the database, although these rows may be of earlier listings:
      ids and logins never change. */
  lemma {:induction false} BuffersNameUsers(evs: seq<Event>, sid: nat)
    requires NulFree(Run(START, evs).db.users)
    ensures DbOk(Run(START, evs).db) && AllNamed(BufferOf(Run(START, evs), sid), Run(START, evs).db.users)
  {
    hide AllNamed, DbOk, Step;
    StartOk();
    RunOk(START, evs);
    assert DbOk(Run(START, evs).db) by { DbOfServer(Run(START, evs)); }
    if evs == [] {
      NothingNamed([]);
    } else {
      var front, ev := evs[..|evs| - 1], evs[|evs| - 1];
      var v := Run(START, front);
      RunOk(START, front);
      DbOfServer(v);
      StepKeepsUsers(v, ev);
      assert forall i :: 0 <= i < |v.db.users| ==> v.db.users[i] == Step(v, ev).db.users[i];
      BuffersNameUsers(front, sid);
      StepNames(v, ev, sid);
      NamedByMore(BufferOf(Step(v, ev), sid), v.db.users, Step(v, ev).db.users);
    }
  }

  lemma DbOfServer(v: Server)
    requires ServerOk(v)
    ensures DbOk(v.db)
  {
  }

  /** The users that the rows name, in order. */
  lemma NamedUsers(rows: seq<string>, us: seq<User>) returns (named: seq<User>)
    requires AllNamed(rows, us)
    ensures Names(Shown(rows), IdTexts(named), ListNames(named))
    ensures forall i :: 0 <= i < |named| ==> named[i] in us
  {
    hide Fields, ListName, Decimal;
    named := [];
    while |named| < |rows|
      invariant |named| <= |rows| && forall i :: 0 <= i < |named| ==> named[i] in us
      invariant Names(Shown(rows[..|named|]), IdTexts(named), ListNames(named))
    {
      var n := |named|;
      assert NamesOneOf(rows[n], us);
      var k :| 0 <= k < |us| && Names([CStr(rows[n])], [Decimal(us[k].id)], [ListName(us[k].login)]);
      NamesBoth(Shown(rows[..n]), IdTexts(named), ListNames(named),
                [CStr(rows[n])], [Decimal(us[k].id)], [ListName(us[k].login)]);
      named := named + [us[k]];
      assert Shown(rows[..n + 1]) == Shown(rows[..n]) + [CStr(rows[n])];
      assert IdTexts(named) == IdTexts(named[..n]) + [Decimal(us[k].id)] && named[..n] + [us[k]] == named;
      assert ListNames(named) == ListNames(named[..n]) + [ListName(us[k].login)];
    }
    assert rows[..|named|] == rows;
  }

  lemma NamesBoth(rows: seq<string>, ids: seq<string>, names: seq<string>,
                  rows': seq<string>, ids': seq<string>, names': seq<string>)
    requires Names(rows, ids, names) && Names(rows', ids', names')
    ensures Names(rows + rows', ids + ids', names + names')
  {
    hide Fields;
  }

  /** A user's name leads to that user: the first row with this name is the user's. */
  ghost predicate LeadsTo(us: seq<User>, u: User) {
    exists f :: 0 <= f < |us| && us[f] == u && FirstNamed(ListNames(us), f)
  }

  /** The rows of a listing behind rows that name users. */
  lemma ListingBehind(db: Db, buffer: seq<string>) returns (stale: seq<User>)
    requires DbOk(db) && NoNullHash(UserRows(db)) && NulFree(db.users) && AllNamed(buffer, db.users)
    ensures |stale| == |buffer| && forall i :: 0 <= i < |stale| ==> stale[i] in db.users
    ensures var all := stale + db.users;
            Names(Shown(buffer + RowTexts(UserRows(db))), IdTexts(all), ListNames(all))
  {
    hide UserRows, DbOk, NoNullHash, ListName, Fields, CStr, Decimal, AllNamed, Names;
    stale := NamedUsers(buffer, db.users);
    NamesUsers(db);
    var rows := RowTexts(UserRows(db));
    NamesBoth(Shown(buffer), IdTexts(stale), ListNames(stale), Shown(rows), IdTexts(db.users), ListNames(db.users));
    assert |stale| == |buffer| by { NamesLengths(Shown(buffer), IdTexts(stale), ListNames(stale)); }
    assert Shown(buffer + rows) == Shown(buffer) + Shown(rows);
    assert IdTexts(stale + db.users) == IdTexts(stale) + IdTexts(db.users);
    assert ListNames(stale + db.users) == ListNames(stale) + ListNames(db.users);
  }

  lemma NamesLengths(rows: seq<string>, ids: seq<string>, names: seq<string>)
    requires Names(rows, ids, names)
    ensures |rows| == |ids| == |names|
  {
  }

  /** Where the map of such a listing leads. */
  lemma MapLeads(db: Db, stale: seq<User>, rows: seq<string>, i: nat)
    requires DbOk(db) && i < |db.users| && forall j :: 0 <= j < |stale| ==> stale[j] in db.users
    requires Names(rows, IdTexts(stale + db.users), ListNames(stale + db.users))
    ensures var u := db.users[i];
            && AllTwoFields(rows) && ListName(u.login) in ListedIds(rows)
            && (ListedIds(rows)[ListName(u.login)] == Decimal(u.id) <==> LeadsTo(stale + db.users, u))
  {
    hide UsersOk, ListName, Names, ListedIds, ListedLogins, AllTwoFields, Decimal;
    var all, u := stale + db.users, db.users[i];
    var names, ids := ListNames(all), IdTexts(all);
    ListedAll(rows, ids, names);
    assert all[|stale| + i] == u && names[|stale| + i] == ListName(u.login);
    var f := FirstWithName(names, |stale| + i);
    assert ids[f] == Decimal(all[f].id) && names[f] == ListName(all[f].login);
    if Decimal(all[f].id) == Decimal(u.id) {
      DecimalInjective(all[f].id, u.id);
      OneUser(db, all[f], u);
    }
    if LeadsTo(all, u) {
      var g :| 0 <= g < |all| && all[g] == u && FirstNamed(names, g);
      assert ids[g] == Decimal(u.id) && names[g] == ListName(u.login);
    }
  }

  /** Names that differ lead to their users, whatever is left in the buffer. */
  lemma DistinctNamesLead(db: Db, stale: seq<User>, i: nat)
    requires i < |db.users| && forall j :: 0 <= j < |stale| ==> stale[j] in db.users
    requires forall j :: 0 <= j < |db.users| ==> FirstNamed(ListNames(db.users), j)
    ensures LeadsTo(stale + db.users, db.users[i])
  {
    hide ListName;
    var all, u := stale + db.users, db.users[i];
    var names := ListNames(all);
    assert all[|stale| + i] == u;
    var f := FirstWithName(names, |stale| + i);
    assert all[f] in db.users;
    var k :| 0 <= k < |db.users| && db.users[k] == all[f];
    assert ListNames(db.users)[k] == ListName(all[f].login) == ListName(u.login) == ListNames(db.users)[i];
    assert FirstNamed(ListNames(db.users), i) && FirstNamed(ListNames(db.users), k);
    assert k == i;
  }

  /** Main result, with the contract of GetUserList: a drain that was cut short leaves rows in the buffer, and a failed
      query does not remove them. In every run, the next drain lists the users of those rows in front of all users; a
      user's name is mapped to the user's id exactly when the first row with this name is the user's. Where no two users
      have the same name, the map is the right one all the same. */
  lemma StaleListing(evs: seq<Event>, sid: nat, env: Env) returns (stale: seq<User>)
    requires NulFree(Run(START, evs).db.users) && NoNullHash(UserRows(Run(START, evs).db))
    requires sid in Run(START, evs).conns && !Fails(env, 0)
    ensures var db, s := Run(START, evs).db, Run(START, evs).conns[sid].session;
            var rows := Shown(RowsFor(db, s, CLEARED.(mtype := eAuthAdmin), env));
            && |stale| == |s.buffer| && (forall j :: 0 <= j < |stale| ==> stale[j] in db.users)
            && AllTwoFields(rows) && ListedLogins(rows) == ListNames(stale + db.users)
            && (forall i :: 0 <= i < |db.users| ==>
                  var name := ListName(db.users[i].login);
                  && name in ListedIds(rows)
                  && (ListedIds(rows)[name] == Decimal(db.users[i].id) <==> LeadsTo(stale + db.users, db.users[i])))
            && ((forall j :: 0 <= j < |db.users| ==> FirstNamed(ListNames(db.users), j)) ==>
                  forall i :: 0 <= i < |db.users| ==> LeadsTo(stale + db.users, db.users[i]))
  {
    hide DbOk, Names, ListedIds, ListedLogins, AllTwoFields, Decimal, ListName, AllNamed, LeadsTo, FirstNamed, NulFree,
         UserRows, NoNullHash, Run;
    var v := Run(START, evs);
    var db, s := v.db, v.conns[sid].session;
    BuffersNameUsers(evs, sid);
    stale := ListingBehind(db, s.buffer);
    var all, rows := stale + db.users, Shown(s.buffer + RowTexts(UserRows(db)));
    ListedAll(rows, IdTexts(all), ListNames(all));
    forall i | 0 <= i < |db.users|
      ensures ListName(db.users[i].login) in ListedIds(rows)
      ensures ListedIds(rows)[ListName(db.users[i].login)] == Decimal(db.users[i].id) <==> LeadsTo(all, db.users[i])
    {
      MapLeads(db, stale, rows, i);
    }
    if forall j :: 0 <= j < |db.users| ==> FirstNamed(ListNames(db.users), j) {
      forall i | 0 <= i < |db.users| ensures LeadsTo(all, db.users[i]) {
        DistinctNamesLead(db, stale, i);
      }
    }
  }
}
