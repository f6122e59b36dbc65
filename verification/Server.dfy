/** The server with any number of sessions. A step is one database call of one session with the handling around it,
    so the two calls of a registration can be far apart. */
module Server {
  import opened Text
  import opened Tables
  import opened TableLaws
  import opened Accounts
  import opened Session

  datatype Conn = Conn(session: Session, pending: Pending)

  /** A registration that was answered with eAuthOK. */
  datatype Accepted = Accepted(login: string, id: nat, hash: string)

  /** The server's state, with the history of its registrations. */
  datatype Server = Server(db: Db, conns: map<nat, Conn>, accepted: seq<Accepted>, failed: set<nat>)

  const START := Server(EMPTY_DB, map[], [], {})

  datatype Event =
    | Connect(sid: nat)
    | Receive(sid: nat, m: IoMsg, deadline: string, around: Around)
    | Resume(sid: nat, around: Around)

  predicate Enabled(v: Server, ev: Event) {
    match ev
    case Connect(sid) => sid !in v.conns
    case Receive(sid, m, _, _) =>
      sid in v.conns && v.conns[sid].pending == Idle && NoNullRead(v.db, v.conns[sid].session, m)
    case Resume(sid, _) => sid in v.conns && v.conns[sid].pending != Idle
  }

  /** The login a pending registration is for. */
  function RegLogin(c: Conn): string
    requires c.pending.AwaitHash?
  {
    if c.pending.request.mtype == eBatchReg then c.pending.request.user else c.session.user
  }

  function Next(v: Server, ev: Event): Server
    requires Enabled(v, ev)
  {
    match ev
    case Connect(sid) => v.(conns := v.conns[sid := Conn(NEW_SESSION, Idle)])
    case Receive(sid, m, deadline, around) =>
      var out := Begin(v.db, v.conns[sid].session, m, deadline, around);
      v.(db := out.db, conns := v.conns[sid := Conn(out.session, out.pending)])
    case Resume(sid, around) =>
      var c := v.conns[sid];
      var out := Finish(v.db, c.session, c.pending, around);
      var v1 := v.(db := out.db, conns := v.conns[sid := Conn(out.session, Idle)]);
      if !c.pending.AwaitHash? then v1
      else if out.reply.mtype == eAuthOK
      then v1.(accepted := v.accepted + [Accepted(RegLogin(c), c.pending.id, c.pending.request.body)])
      else v1.(failed := v.failed + {c.pending.id})
  }

  /** An event that is not enabled does not happen. */
  function Step(v: Server, ev: Event): Server {
    if Enabled(v, ev) then Next(v, ev) else v
  }

  function Run(v: Server, evs: seq<Event>): Server {
    if evs == [] then v else Step(Run(v, evs[..|evs| - 1]), evs[|evs| - 1])
  }

  // The database sees a run of calls

  /** The writing call of handling a message. */
  function BeginCall(s: Session, m: IoMsg, deadline: string, around: Around): Option<DbOp> {
    match m.mtype
    case eBatchReg => Some(OpAddUser(m.user, around.env))
    case ePassword => if StartsWithE(m.user) || m.body == "" then None else Some(OpAddUser(s.user, around.env))
    case eSetUserBanFlag => Some(OpBan(m.user, m.body, deadline, around.env))
    case eSendToAll => Some(OpDeliver(m.body, m.userId, None, around.env))
    case eSendToUserMsgReady =>
      if s.usrDbId == 0 then Some(OpDeliver(m.body, m.user, Some(m.userId), around.env))
      else Some(OpDeliver(m.body, Decimal(s.usrDbId), Some(m.user), around.env))
    case _ => None
  }

  function FinishCall(p: Pending, around: Around): Option<DbOp> {
    if p.AwaitHash? then Some(OpSetHash(p.id, p.request.body, around.env)) else None
  }

  function CallOf(v: Server, ev: Event): Option<DbOp> {
    if !Enabled(v, ev) then None
    else
      match ev
      case Connect(_) => None
      case Receive(sid, m, deadline, around) => BeginCall(v.conns[sid].session, m, deadline, around)
      case Resume(sid, around) => FinishCall(v.conns[sid].pending, around)
  }

  function ApplyCall(db: Db, call: Option<DbOp>): Db {
    match call
    case None => db
    case Some(op) => Apply(db, op)
  }

  lemma BeginIsCall(db: Db, s: Session, m: IoMsg, deadline: string, around: Around)
    requires NoNullRead(db, s, m)
    ensures Begin(db, s, m, deadline, around).db == ApplyCall(db, BeginCall(s, m, deadline, around))
  {
  }

  lemma StepIsCall(v: Server, ev: Event)
    ensures Step(v, ev).db == ApplyCall(v.db, CallOf(v, ev))
  {
    if ev.Receive? && Enabled(v, ev) {
      BeginIsCall(v.db, v.conns[ev.sid].session, ev.m, ev.deadline, ev.around);
    }
  }

  function CallsOf(v: Server, evs: seq<Event>): seq<DbOp> {
    if evs == [] then []
    else
      var front := evs[..|evs| - 1];
      var call := CallOf(Run(v, front), evs[|evs| - 1]);
      CallsOf(v, front) + if call.Some? then [call.value] else []
  }

  /** Main link: the database of every run of the server is the one its writing calls produce in that order.
      So the laws about runs of calls are laws about runs of the server. */
  lemma {:induction false} RunIsCalls(v: Server, evs: seq<Event>)
    ensures Run(v, evs).db == RunOps(v.db, CallsOf(v, evs))
  {
    if evs != [] {
      var front, ev := evs[..|evs| - 1], evs[|evs| - 1];
      RunIsCalls(v, front);
      StepIsCall(Run(v, front), ev);
      var calls, call := CallsOf(v, front), CallOf(Run(v, front), ev);
      if call.Some? {
        assert (calls + [call.value])[..|calls|] == calls;
      } else {
        assert calls + [] == calls;
      }
    }
  }

  // Registrations

  predicate Awaits(v: Server, sid: nat, id: nat) {
    sid in v.conns && v.conns[sid].pending.AwaitHash? && v.conns[sid].pending.id == id
  }

  ghost predicate PendingOk(v: Server) {
    && (forall sid :: sid in v.conns && v.conns[sid].pending.AwaitHash? ==>
          var p := v.conns[sid].pending;
          HasRow(v.db, p.id, RegLogin(v.conns[sid]), None) && p.id !in v.failed &&
          (p.request.mtype == eBatchReg || p.request.mtype == ePassword))
    && (forall sid, tid, id :: Awaits(v, sid, id) && Awaits(v, tid, id) ==> sid == tid)
  }

  ghost predicate AcceptedOk(v: Server) {
    && (forall k :: 0 <= k < |v.accepted| ==>
          HasRow(v.db, v.accepted[k].id, v.accepted[k].login, Some(v.accepted[k].hash)))
    && (forall j, k :: 0 <= j < k < |v.accepted| ==> v.accepted[j].id != v.accepted[k].id)
  }

  ghost predicate FailedOk(v: Server) {
    forall id :: id in v.failed ==> HashOf(v.db.userData, id) == Some(None)
  }

  /** A missing hash belongs to a registration that is pending or has failed. */
  ghost predicate MissingOk(v: Server) {
    forall i :: 0 <= i < |v.db.userData| && v.db.userData[i].pwdhash.None? ==>
      v.db.userData[i].userId in v.failed || exists sid :: Awaits(v, sid, v.db.userData[i].userId)
  }

  ghost predicate ServerOk(v: Server) {
    DbOk(v.db) && PendingOk(v) && AcceptedOk(v) && FailedOk(v) && MissingOk(v)
  }

  /** Only a registration with a new login waits for a hash. */
  lemma BeginRegistration(db: Db, s: Session, m: IoMsg, deadline: string, around: Around)
    requires DbOk(db) && NoNullRead(db, s, m)
    ensures var out := Begin(db, s, m, deadline, around);
            if out.pending.AwaitHash? then
              var c := Conn(out.session, out.pending);
              c.pending.id == db.nextUser && c.pending.request == m &&
              (m.mtype == eBatchReg || m.mtype == ePassword) &&
              FindLogin(db.users, RegLogin(c)).None? && out.db == InsertUser(db, RegLogin(c))
            else
              BeginCall(s, m, deadline, around).Some? && BeginCall(s, m, deadline, around).value.OpAddUser? ==>
                  out.db == db
  {
    hide DeliverMsg, BanUser, PackUsers, GetAllMsgs, GetUserMsgsText, GetUserMsgsNumber, UserAuthOk, UserRows,
         LoginUsed, GetUser, InsertUser;
    hide DbOk;
  }

  lemma CallUsers(db: Db, op: DbOp)
    requires DbOk(db) && (op.OpBan? || op.OpDeliver?)
    ensures Apply(db, op).users == db.users && Apply(db, op).userData == db.userData
  {
    if op.OpDeliver? {
      DeliverMsgOk(db, op.body, op.from, op.to, op.env);
    } else {
      BanUserOk(db, op.user, op.action, op.deadline, op.env);
    }
  }

  /** What the first call of a message does to users and user_data: a registration inserts one row and waits for
      its hash; everything else leaves both tables alone. */
  lemma BeginUsers(db: Db, s: Session, m: IoMsg, deadline: string, around: Around)
    requires DbOk(db) && NoNullRead(db, s, m)
    ensures var out := Begin(db, s, m, deadline, around);
            if out.pending.AwaitHash? then
              var c := Conn(out.session, out.pending);
              c.pending.id == db.nextUser && c.pending.request == m &&
              (m.mtype == eBatchReg || m.mtype == ePassword) &&
              FindLogin(db.users, RegLogin(c)).None? && out.db == InsertUser(db, RegLogin(c))
            else
              out.db.users == db.users && out.db.userData == db.userData
  {
    hide Begin, DbOk, Apply, NoNullRead;
    var call := BeginCall(s, m, deadline, around);
    BeginIsCall(db, s, m, deadline, around);
    BeginRegistration(db, s, m, deadline, around);
    if call.Some? && !call.value.OpAddUser? {
      CallUsers(db, call.value);
    }
  }

  // The invariant

  lemma StartOk()
    ensures ServerOk(START)
  {
    EmptyOk();
  }

  lemma DbStepOk(v: Server, ev: Event)
    requires DbOk(v.db)
    ensures DbOk(Step(v, ev).db)
  {
    StepIsCall(v, ev);
    var call := CallOf(v, ev);
    if call.Some? {
      ApplyOk(v.db, call.value);
    }
  }

  /** Nothing that concerns registrations has changed. */
  lemma NoRegistrationOk(v: Server, w: Server, sid: nat)
    requires ServerOk(v) && DbOk(w.db) && w.db.users == v.db.users && w.db.userData == v.db.userData
    requires w.accepted == v.accepted && w.failed == v.failed
    requires sid in v.conns ==> !v.conns[sid].pending.AwaitHash?
    requires sid in w.conns && w.conns == v.conns[sid := w.conns[sid]] && !w.conns[sid].pending.AwaitHash?
    ensures ServerOk(w)
  {
    assert forall tid, id :: Awaits(w, tid, id) <==> Awaits(v, tid, id);
    assert forall tid :: tid in w.conns && w.conns[tid].pending.AwaitHash? ==>
             tid in v.conns && w.conns[tid] == v.conns[tid];
  }

  /** A session has inserted a user and waits for the hash of a row that nobody else knows. */
  lemma NewUserOk(v: Server, w: Server, sid: nat)
    requires ServerOk(v) && sid in v.conns && v.conns[sid].pending == Idle && DbOk(w.db)
    requires sid in w.conns && w.conns == v.conns[sid := w.conns[sid]] && w.accepted == v.accepted &&
             w.failed == v.failed
    requires var c := w.conns[sid];
             c.pending.AwaitHash? && c.pending.id == v.db.nextUser && w.db == InsertUser(v.db, RegLogin(c)) &&
             (c.pending.request.mtype == eBatchReg || c.pending.request.mtype == ePassword)
    ensures ServerOk(w)
  {
    var id := v.db.nextUser;
    NewRow(v.db, RegLogin(w.conns[sid]));
    assert Awaits(w, sid, id);
    forall tid | tid in v.conns && v.conns[tid].pending.AwaitHash?
      ensures tid != sid && HasRow(w.db, v.conns[tid].pending.id, RegLogin(v.conns[tid]), None) &&
              v.conns[tid].pending.id < id
    {
      RowStays(v.db, w.db, v.conns[tid].pending.id, RegLogin(v.conns[tid]), None);
      KnownId(v.db, v.conns[tid].pending.id);
    }
    forall x | x in v.failed ensures HashOf(w.db.userData, x) == Some(None) && x < id {
      HashOfStays(v.db.userData, w.db.userData, x);
      KnownId(v.db, x);
    }
    forall k | 0 <= k < |v.accepted|
      ensures HasRow(w.db, v.accepted[k].id, v.accepted[k].login, Some(v.accepted[k].hash))
    {
      RowStays(v.db, w.db, v.accepted[k].id, v.accepted[k].login, Some(v.accepted[k].hash));
    }
    assert forall tid, x :: Awaits(w, tid, x) <==> Awaits(v, tid, x) || (tid == sid && x == id);
    forall i | 0 <= i < |w.db.userData| && w.db.userData[i].pwdhash.None?
      ensures w.db.userData[i].userId in w.failed || exists tid :: Awaits(w, tid, w.db.userData[i].userId)
    {
      if i < |v.db.userData| {
        assert w.db.userData[i] == v.db.userData[i];
        if v.db.userData[i].userId !in v.failed {
          var tid :| Awaits(v, tid, v.db.userData[i].userId);
          assert Awaits(w, tid, v.db.userData[i].userId);
        }
      }
    }
  }

  /** A session is back to idle, and its registration has failed: the row stays without a hash. */
  lemma HashFailedOk(v: Server, w: Server, sid: nat)
    requires ServerOk(v) && sid in v.conns && v.conns[sid].pending.AwaitHash?
    requires sid in w.conns && w.conns == v.conns[sid := w.conns[sid]] && w.conns[sid].pending == Idle
    requires w.db == v.db && w.accepted == v.accepted && w.failed == v.failed + {v.conns[sid].pending.id}
    ensures ServerOk(w)
  {
    hide DbOk;
    var id := v.conns[sid].pending.id;
    assert Awaits(v, sid, id);
    assert forall tid, x :: Awaits(w, tid, x) <==> Awaits(v, tid, x) && tid != sid;
    forall tid | tid in w.conns && w.conns[tid].pending.AwaitHash?
      ensures w.conns[tid] == v.conns[tid] && w.conns[tid].pending.id != id
    {
      assert Awaits(v, tid, v.conns[tid].pending.id);
    }
    forall i | 0 <= i < |w.db.userData| && w.db.userData[i].pwdhash.None?
      ensures w.db.userData[i].userId in w.failed || exists tid :: Awaits(w, tid, w.db.userData[i].userId)
    {
      var x := w.db.userData[i].userId;
      if x !in w.failed {
        var tid :| Awaits(v, tid, x);
        assert Awaits(w, tid, x);
      }
    }
  }

  /** A session is back to idle, and its registration is accepted: the one missing hash is filled in. */
  lemma HashSavedOk(v: Server, w: Server, sid: nat)
    requires ServerOk(v) && sid in v.conns && v.conns[sid].pending.AwaitHash? && DbOk(w.db)
    requires sid in w.conns && w.conns == v.conns[sid := w.conns[sid]] && w.conns[sid].pending == Idle
    requires var c := v.conns[sid];
             w.db == v.db.(userData := UpdateHash(v.db.userData, c.pending.id, c.pending.request.body)) &&
             w.accepted == v.accepted + [Accepted(RegLogin(c), c.pending.id, c.pending.request.body)] &&
               w.failed == v.failed
    ensures ServerOk(w)
  {
    var id, hash := v.conns[sid].pending.id, v.conns[sid].pending.request.body;
    assert Awaits(v, sid, id);
    assert forall tid, x :: Awaits(w, tid, x) <==> Awaits(v, tid, x) && tid != sid;
    HashOfUpdated(v.db.userData, id, hash, id);
    forall tid | tid in w.conns && w.conns[tid].pending.AwaitHash?
      ensures w.conns[tid] == v.conns[tid] && HasRow(w.db, w.conns[tid].pending.id, RegLogin(w.conns[tid]), None)
    {
      assert Awaits(v, tid, v.conns[tid].pending.id);
      HashOfUpdated(v.db.userData, id, hash, v.conns[tid].pending.id);
    }
    forall x | x in v.failed ensures HashOf(w.db.userData, x) == Some(None) {
      HashOfUpdated(v.db.userData, id, hash, x);
    }
    forall k | 0 <= k < |v.accepted|
      ensures HasRow(w.db, v.accepted[k].id, v.accepted[k].login, Some(v.accepted[k].hash)) && v.accepted[k].id != id
    {
      HashOfUpdated(v.db.userData, id, hash, v.accepted[k].id);
    }
    SavedMissingOk(v, w, sid, id);
  }

  lemma SavedMissingOk(v: Server, w: Server, sid: nat, id: nat)
    requires MissingOk(v) && w.failed == v.failed && Awaits(v, sid, id)
    requires forall tid, x :: Awaits(w, tid, x) <==> Awaits(v, tid, x) && tid != sid
    requires |w.db.userData| == |v.db.userData|
    requires forall i :: 0 <= i < |v.db.userData| ==>
               if v.db.userData[i].userId == id then w.db.userData[i].pwdhash.Some?
               else w.db.userData[i] == v.db.userData[i]
    ensures MissingOk(w)
  {
    forall i | 0 <= i < |w.db.userData| && w.db.userData[i].pwdhash.None?
      ensures w.db.userData[i].userId in w.failed || exists tid :: Awaits(w, tid, w.db.userData[i].userId)
    {
      var x := w.db.userData[i].userId;
      if x !in w.failed {
        var tid :| Awaits(v, tid, x);
        assert Awaits(w, tid, x);
      }
    }
  }

  /** Main invariant: every step of every session keeps the server well formed. */
  lemma StepOk(v: Server, ev: Event)
    requires ServerOk(v)
    ensures ServerOk(Step(v, ev))
  {
    hide DbOk, AcceptedOk, FailedOk, MissingOk, Begin;
    if Enabled(v, ev) {
      var w := Next(v, ev);
      DbStepOk(v, ev);
      match ev
      case Connect(sid) =>
        NoRegistrationOk(v, w, sid);
      case Receive(sid, m, deadline, around) =>
        BeginUsers(v.db, v.conns[sid].session, m, deadline, around);
        if w.conns[sid].pending.AwaitHash? {
          NewUserOk(v, w, sid);
        } else {
          NoRegistrationOk(v, w, sid);
        }
      case Resume(sid, around) =>
        if !v.conns[sid].pending.AwaitHash? {
          NoRegistrationOk(v, w, sid);
        } else if Fails(around.env, 0) {
          HashFailedOk(v, w, sid);
        } else {
          HashSavedOk(v, w, sid);
        }
    }
  }

  lemma {:induction false} RunOk(v: Server, evs: seq<Event>)
    requires ServerOk(v)
    ensures ServerOk(Run(v, evs))
  {
    if evs != [] {
      RunOk(v, evs[..|evs| - 1]);
      StepOk(Run(v, evs[..|evs| - 1]), evs[|evs| - 1]);
    }
  }

  /** A failed registration is failed for ever. */
  lemma {:induction false} FailedStays(v: Server, evs: seq<Event>)
    ensures v.failed <= Run(v, evs).failed
  {
    if evs != [] {
      FailedStays(v, evs[..|evs| - 1]);
    }
  }

  /** Main result: in every run, however the sessions interleave, logins and ids are unique, users and user_data
      pair up, and of all registrations for one login at most one is answered with eAuthOK. */
  lemma RegistrationsAreUnique(evs: seq<Event>)
    ensures UsersOk(Run(START, evs).db) && DataOk(Run(START, evs).db)
    ensures var accepted := Run(START, evs).accepted;
            forall j, k :: 0 <= j < k < |accepted| ==>
              accepted[j].id != accepted[k].id && !SameLogin(accepted[j].login, accepted[k].login)
  {
    StartOk();
    RunOk(START, evs);
    var v := Run(START, evs);
    forall j, k | 0 <= j < k < |v.accepted| ensures !SameLogin(v.accepted[j].login, v.accepted[k].login) {
      var a, b := v.accepted[j], v.accepted[k];
      FindUserFinds(v.db.users, a.id);
      FindUserFinds(v.db.users, b.id);
      if SameLogin(a.login, b.login) {
        OneUser(v.db, FindUser(v.db.users, a.id).value, FindUser(v.db.users, b.id).value);
      }
    }
  }

  /** Main result: a user without a hash is one whose registration is still pending, or has failed. */
  lemma MissingHashes(evs: seq<Event>, u: User)
    requires u in Run(START, evs).db.users && HashOf(Run(START, evs).db.userData, u.id) == Some(None)
    ensures u.id in Run(START, evs).failed || exists sid :: Awaits(Run(START, evs), sid, u.id)
  {
    StartOk();
    RunOk(START, evs);
    var v := Run(START, evs);
    HashOfIn(v.db.userData, u.id);
    var i :| 0 <= i < |v.db.users| && v.db.users[i] == u;
    HashOfAt(v.db.users, v.db.userData, i);
  }
}
