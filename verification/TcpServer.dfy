/** The loop that serves one client, and how it sits among the steps of all sessions. */
module TcpServer {
  import opened Tables
  import opened Session
  import opened Server
  import opened ClientConnection

  /** One message, with the calls other sessions make before it. */
  datatype Visit = Visit(before: seq<DbOp>, m: IoMsg, call: Call)

  datatype Served = Served(db: Db, session: Session, replies: seq<IoMsg>, exited: bool)

  /** No message of the visits reads a NULL column. */
  ghost predicate Readable(db: Db, s: Session, visits: seq<Visit>)
    decreases |visits|, 0
  {
    visits == [] ||
    (var front, visit := visits[..|visits| - 1], visits[|visits| - 1];
     && Readable(db, s, front)
     && var served := Serve(db, s, front);
        served.exited || NoNullRead(RunOps(served.db, visit.before), served.session, visit.m))
  }

  /** The replies to a client's messages, up to the one that ends the session. */
  ghost function Serve(db: Db, s: Session, visits: seq<Visit>): Served
    requires Readable(db, s, visits)
    decreases |visits|, 1
  {
    if visits == [] then Served(db, s, [], false)
    else
      var served := Serve(db, s, visits[..|visits| - 1]);
      if served.exited then served
      else
        var visit := visits[|visits| - 1];
        var h := Handle(RunOps(served.db, visit.before), served.session, visit.m, visit.call);
        Served(h.db, h.session, served.replies + [h.reply], h.exit)
  }

  lemma {:induction false} ReadableFront(db: Db, s: Session, visits: seq<Visit>, i: nat)
    requires Readable(db, s, visits) && i <= |visits|
    ensures Readable(db, s, visits[..i])
    decreases |visits|
  {
    if i == |visits| {
      assert visits[..i] == visits;
    } else {
      ReadableFront(db, s, visits[..|visits| - 1], i);
      assert visits[..|visits| - 1][..i] == visits[..i];
    }
  }

  lemma {:induction false} ExitStays(db: Db, s: Session, visits: seq<Visit>, i: nat)
    requires Readable(db, s, visits) && i <= |visits|
    ensures Readable(db, s, visits[..i])
    ensures Serve(db, s, visits[..i]).exited ==> Serve(db, s, visits) == Serve(db, s, visits[..i])
    decreases |visits|
  {
    ReadableFront(db, s, visits, i);
    if i == |visits| {
      assert visits[..i] == visits;
    } else {
      ExitStays(db, s, visits[..|visits| - 1], i);
      assert visits[..|visits| - 1][..i] == visits[..i];
    }
  }

  lemma ServeStep(db: Db, s: Session, visits: seq<Visit>, i: nat)
    requires Readable(db, s, visits) && i < |visits|
    ensures Readable(db, s, visits[..i]) && Readable(db, s, visits[..i + 1])
    ensures var served, visit := Serve(db, s, visits[..i]), visits[i];
            !served.exited ==>
              NoNullRead(RunOps(served.db, visit.before), served.session, visit.m) &&
              var h := Handle(RunOps(served.db, visit.before), served.session, visit.m, visit.call);
              Serve(db, s, visits[..i + 1]) == Served(h.db, h.session, served.replies + [h.reply], h.exit)
  {
    ReadableFront(db, s, visits, i);
    ReadableFront(db, s, visits, i + 1);
    assert visits[..i + 1][..i] == visits[..i];
  }

  /** Serves the messages a client sends until the session ends. */
  method ThProcessClient(clConn: ClientConnection, visits: seq<Visit>) returns (replies: seq<IoMsg>, exitLoop: bool)
    requires Readable(clConn.hDB.db, clConn.View(), visits)
    modifies clConn, clConn.hDB
    ensures Served(clConn.hDB.db, clConn.View(), replies, exitLoop) ==
              Serve(old(clConn.hDB.db), old(clConn.View()), visits)
  {
    exitLoop, replies := false, [];
    ghost var db, s := clConn.hDB.db, clConn.View();
    var i := 0;
    while !exitLoop && i < |visits|
      invariant 0 <= i <= |visits| && Readable(db, s, visits[..i])
      invariant Served(clConn.hDB.db, clConn.View(), replies, exitLoop) == Serve(db, s, visits[..i])
      decreases |visits| - i
    {
      ServeStep(db, s, visits, i);
      clConn.hDB.RunOthers(visits[i].before);
      var msg;
      msg, exitLoop := clConn.ProcessClientMsg(visits[i].m, visits[i].call);
      replies := replies + [msg];
      i := i + 1;
    }
    ExitStays(db, s, visits, i);
    assert visits[..|visits|] == visits;
  }

  lemma BeginExit(db: Db, s: Session, m: IoMsg, deadline: string, around: Around)
    requires NoNullRead(db, s, m)
    ensures Begin(db, s, m, deadline, around).exit <==> m.mtype == eQuit
    ensures m.mtype == eQuit ==> Begin(db, s, m, deadline, around) == Outcome(db, s, Idle, m, true)
  {
    hide DeliverMsg, BanUser, AddUser, PackUsers, GetAllMsgs, GetUserMsgsText, GetUserMsgsNumber, UserAuthOk, UserRows,
         LoginUsed, FindLogin, GetUser;
  }

  lemma ExitMeansQuit(db: Db, s: Session, m: IoMsg, call: Call)
    requires NoNullRead(db, s, m)
    ensures Handle(db, s, m, call).exit <==> m.mtype == eQuit
    ensures m.mtype == eQuit ==> Handle(db, s, m, call) == Handled(db, s, m, true)
  {
    hide Begin;
    BeginExit(db, s, m, call.deadline, call.first);
    BeginPending(db, s, m, call.deadline, call.first);
  }

  /** Only these messages need a second call. */
  lemma BeginPending(db: Db, s: Session, m: IoMsg, deadline: string, around: Around)
    requires NoNullRead(db, s, m)
    ensures Begin(db, s, m, deadline, around).pending != Idle ==>
              m.mtype == eBatchAuth || m.mtype == eBatchReg || m.mtype == ePassword
  {
    hide DeliverMsg, BanUser, AddUser, PackUsers, GetAllMsgs, GetUserMsgsText, GetUserMsgsNumber, UserAuthOk,
         UserRows, LoginUsed, FindLogin, GetUser, NextUser, PoolReply, LoginRecord;
  }

  /** One reply for every message up to the first eQuit, which is sent back; nothing after it. */
  ghost predicate OneReplyEach(visits: seq<Visit>, replies: seq<IoMsg>, exited: bool) {
    && |replies| <= |visits|
    && (!exited ==> |replies| == |visits|)
    && (exited <==> exists i :: 0 <= i < |visits| && visits[i].m.mtype == eQuit)
    && (forall i :: 0 <= i < |replies| && visits[i].m.mtype == eQuit ==>
         i == |replies| - 1 && replies[i] == visits[i].m)
  }

  lemma OneMoreReply(front: seq<Visit>, visit: Visit, replies: seq<IoMsg>, reply: IoMsg)
    requires OneReplyEach(front, replies, false)
    requires visit.m.mtype == eQuit ==> reply == visit.m
    ensures OneReplyEach(front + [visit], replies + [reply], visit.m.mtype == eQuit)
  {
    var all := front + [visit];
    assert all[|front|] == visit;
    assert forall i :: 0 <= i < |front| ==> all[i] == front[i];
  }

  lemma NoMoreReplies(front: seq<Visit>, visit: Visit, replies: seq<IoMsg>)
    requires OneReplyEach(front, replies, true)
    ensures OneReplyEach(front + [visit], replies, true)
  {
    var i :| 0 <= i < |front| && front[i].m.mtype == eQuit;
    assert (front + [visit])[i] == front[i];
  }

  lemma {:induction false} EveryMessageIsAnswered(db: Db, s: Session, visits: seq<Visit>)
    requires Readable(db, s, visits)
    ensures OneReplyEach(visits, Serve(db, s, visits).replies, Serve(db, s, visits).exited)
    decreases |visits|
  {
    if visits != [] {
      var front, visit := visits[..|visits| - 1], visits[|visits| - 1];
      EveryMessageIsAnswered(db, s, front);
      assert visits == front + [visit];
      var served := Serve(db, s, front);
      if served.exited {
        NoMoreReplies(front, visit, served.replies);
      } else {
        var db1 := RunOps(served.db, visit.before);
        ExitMeansQuit(db1, served.session, visit.m, visit.call);
        OneMoreReply(front, visit, served.replies, Handle(db1, served.session, visit.m, visit.call).reply);
      }
    }
  }

  // The loop among the steps of all sessions

  function SidOf(ev: Event): nat { ev.sid }

  ghost predicate OfOthers(evs: seq<Event>, sid: nat) {
    forall i :: 0 <= i < |evs| ==> SidOf(evs[i]) != sid
  }

  /** Steps of other sessions reach a session only through the database, as a run of calls. */
  lemma {:induction false} OthersAreCalls(v: Server, evs: seq<Event>, sid: nat)
    requires sid in v.conns && OfOthers(evs, sid)
    ensures sid in Run(v, evs).conns && Run(v, evs).conns[sid] == v.conns[sid]
    ensures Run(v, evs).db == RunOps(v.db, CallsOf(v, evs))
  {
    RunIsCalls(v, evs);
    if evs != [] {
      OthersAreCalls(v, evs[..|evs| - 1], sid);
      assert SidOf(evs[|evs| - 1]) != sid;
    }
  }

  lemma FinishStep(v: Server, sid: nat, around: Around)
    requires sid in v.conns && v.conns[sid].pending != Idle
    ensures var end := Finish(v.db, v.conns[sid].session, v.conns[sid].pending, around);
            var w := Step(v, Resume(sid, around));
            w.db == end.db && sid in w.conns && w.conns[sid] == Conn(end.session, Idle)
  {
  }

  /** Main link: a whole message of a session, with any steps of other sessions between its two halves, does what
      Handle says, for the calls those steps make. */
  lemma HandleIsSteps(v: Server, sid: nat, m: IoMsg, call: Call, evs: seq<Event>)
    requires Enabled(v, Receive(sid, m, call.deadline, call.first)) && OfOthers(evs, sid)
    requires call.between == CallsOf(Step(v, Receive(sid, m, call.deadline, call.first)), evs)
    ensures var v1 := Step(v, Receive(sid, m, call.deadline, call.first));
            var w := if v1.conns[sid].pending == Idle then v1 else Step(Run(v1, evs), Resume(sid, call.second));
            var h := Handle(v.db, v.conns[sid].session, m, call);
            w.db == h.db && sid in w.conns && w.conns[sid] == Conn(h.session, Idle)
  {
    var v1 := Step(v, Receive(sid, m, call.deadline, call.first));
    if v1.conns[sid].pending != Idle {
      OthersAreCalls(v1, evs, sid);
      FinishStep(Run(v1, evs), sid, call.second);
    }
  }

  /** One message of a session in a run of all sessions, with the steps of others before it and between its two
      halves. */
  datatype Round = Round(before: seq<Event>, m: IoMsg, deadline: string, first: Around, between: seq<Event>,
                         second: Around)

  function Arrived(v: Server, sid: nat, r: Round): Server {
    Step(Run(v, r.before), Receive(sid, r.m, r.deadline, r.first))
  }

  /** The steps of a round, and the visit it is for the loop. */
  function RoundEvents(v: Server, sid: nat, r: Round): seq<Event> {
    var w := Arrived(v, sid, r);
    r.before + [Receive(sid, r.m, r.deadline, r.first)] +
    if sid in w.conns && w.conns[sid].pending != Idle then r.between + [Resume(sid, r.second)] else []
  }

  function RoundVisit(v: Server, sid: nat, r: Round): Visit {
    Visit(CallsOf(v, r.before), r.m, Call(r.deadline, r.first, CallsOf(Arrived(v, sid, r), r.between), r.second))
  }

  /** The reply the server's steps make in a round. */
  function RoundReply(v: Server, sid: nat, r: Round): IoMsg
    requires Playable(v, sid, r)
  {
    var w := Run(v, r.before);
    var out := Begin(w.db, w.conns[sid].session, r.m, r.deadline, r.first);
    if out.pending == Idle then out.reply
    else Finish(Run(Arrived(v, sid, r), r.between).db, out.session, out.pending, r.second).reply
  }

  ghost predicate Playable(v: Server, sid: nat, r: Round) {
    && sid in v.conns && OfOthers(r.before, sid) && OfOthers(r.between, sid)
    && Enabled(Run(v, r.before), Receive(sid, r.m, r.deadline, r.first))
  }

  function EventsOf(v: Server, sid: nat, rounds: seq<Round>): seq<Event> {
    if rounds == [] then []
    else
      var front := EventsOf(v, sid, rounds[..|rounds| - 1]);
      front + RoundEvents(Run(v, front), sid, rounds[|rounds| - 1])
  }

  function VisitsOf(v: Server, sid: nat, rounds: seq<Round>): (visits: seq<Visit>)
    ensures |visits| == |rounds|
  {
    if rounds == [] then []
    else
      var front := rounds[..|rounds| - 1];
      VisitsOf(v, sid, front) + [RoundVisit(Run(v, EventsOf(v, sid, front)), sid, rounds[|rounds| - 1])]
  }

  /** Every round can be played where the ones before it lead, and none but the last is an eQuit. */
  ghost predicate AllPlayable(v: Server, sid: nat, rounds: seq<Round>) {
    rounds == [] ||
    (var front, r := rounds[..|rounds| - 1], rounds[|rounds| - 1];
     && AllPlayable(v, sid, front)
     && (forall i :: 0 <= i < |front| ==> front[i].m.mtype != eQuit)
     && Playable(Run(v, EventsOf(v, sid, front)), sid, r))
  }

  function RepliesOf(v: Server, sid: nat, rounds: seq<Round>): seq<IoMsg>
    requires AllPlayable(v, sid, rounds)
  {
    if rounds == [] then []
    else
      var front := rounds[..|rounds| - 1];
      RepliesOf(v, sid, front) + [RoundReply(Run(v, EventsOf(v, sid, front)), sid, rounds[|rounds| - 1])]
  }

  lemma {:induction false} RunConcat(v: Server, a: seq<Event>, b: seq<Event>)
    ensures Run(v, a + b) == Run(Run(v, a), b)
    decreases |b|
  {
    if b == [] {
      assert a + b == a;
    } else {
      assert (a + b)[..|a + b| - 1] == a + b[..|b| - 1];
      RunConcat(v, a, b[..|b| - 1]);
    }
  }

  lemma RunRound(v: Server, sid: nat, r: Round)
    ensures var w := Arrived(v, sid, r);
            Run(v, RoundEvents(v, sid, r)) ==
              if sid in w.conns && w.conns[sid].pending != Idle then Step(Run(w, r.between), Resume(sid, r.second))
              else w
  {
    hide Step;
    var receive := [Receive(sid, r.m, r.deadline, r.first)];
    RunConcat(v, r.before, receive);
    assert receive[..0] == [];
    assert Run(v, r.before + receive) == Arrived(v, sid, r);
    var resume := [Resume(sid, r.second)];
    RunConcat(v, r.before + receive, r.between + resume);
    RunConcat(Arrived(v, sid, r), r.between, resume);
    assert resume[..0] == [];
    assert r.before + receive + [] == r.before + receive;
  }

  /** A round is a visit of the loop: the same database, session and reply. */
  lemma RoundIsVisit(v: Server, sid: nat, r: Round)
    requires Playable(v, sid, r)
    ensures var visit, w := RoundVisit(v, sid, r), Run(v, RoundEvents(v, sid, r));
            && NoNullRead(RunOps(v.db, visit.before), v.conns[sid].session, visit.m)
            && var h := Handle(RunOps(v.db, visit.before), v.conns[sid].session, visit.m, visit.call);
               && w.db == h.db && sid in w.conns && w.conns[sid] == Conn(h.session, Idle)
               && RoundReply(v, sid, r) == h.reply
  {
    hide Begin, Finish, NoNullRead, RoundEvents;
    OthersAreCalls(v, r.before, sid);
    var w, call := Run(v, r.before), RoundVisit(v, sid, r).call;
    RunRound(v, sid, r);
    HandleIsSteps(w, sid, r.m, call, r.between);
    ArrivedPending(w, sid, r.m, r.deadline, r.first);
    if Arrived(v, sid, r).conns[sid].pending != Idle {
      OthersAreCalls(Arrived(v, sid, r), r.between, sid);
    }
  }

  lemma ArrivedPending(v: Server, sid: nat, m: IoMsg, deadline: string, around: Around)
    requires Enabled(v, Receive(sid, m, deadline, around))
    ensures var out, w := Begin(v.db, v.conns[sid].session, m, deadline, around),
                          Step(v, Receive(sid, m, deadline, around));
            w.db == out.db && sid in w.conns && w.conns[sid] == Conn(out.session, out.pending)
  {
    hide Begin, NoNullRead;
  }

  lemma {:induction false} NotOver(db: Db, s: Session, visits: seq<Visit>)
    requires Readable(db, s, visits) && forall i :: 0 <= i < |visits| ==> visits[i].m.mtype != eQuit
    ensures !Serve(db, s, visits).exited
  {
    EveryMessageIsAnswered(db, s, visits);
  }

  lemma {:induction false} SameMessages(v: Server, sid: nat, rounds: seq<Round>)
    ensures forall i :: 0 <= i < |rounds| ==> VisitsOf(v, sid, rounds)[i].m == rounds[i].m
  {
    if rounds != [] {
      SameMessages(v, sid, rounds[..|rounds| - 1]);
    }
  }

  /** Main result: what the loop sends to a client are the replies of that session's steps in a run of all sessions, and
      it leaves the database and the session as that run does; the steps of the others are the calls it is given. */
  lemma {:induction false} ServeIsRun(v: Server, sid: nat, rounds: seq<Round>)
    requires sid in v.conns && v.conns[sid].pending == Idle && AllPlayable(v, sid, rounds)
    ensures var visits, w := VisitsOf(v, sid, rounds), Run(v, EventsOf(v, sid, rounds));
            && Readable(v.db, v.conns[sid].session, visits)
            && var served := Serve(v.db, v.conns[sid].session, visits);
               && served.db == w.db && sid in w.conns && w.conns[sid] == Conn(served.session, Idle)
               && served.replies == RepliesOf(v, sid, rounds)
    decreases |rounds|
  {
    hide Step, Handle, NoNullRead, RoundVisit, RoundEvents, RoundReply;
    if rounds != [] {
      var front, r := rounds[..|rounds| - 1], rounds[|rounds| - 1];
      ServeIsRun(v, sid, front);
      var db, s := v.db, v.conns[sid].session;
      SameMessages(v, sid, front);
      NotOver(db, s, VisitsOf(v, sid, front));
      var w := Run(v, EventsOf(v, sid, front));
      RoundIsVisit(w, sid, r);
      RunConcat(v, EventsOf(v, sid, front), RoundEvents(w, sid, r));
      var visits := VisitsOf(v, sid, rounds);
      assert visits[..|visits| - 1] == VisitsOf(v, sid, front);
    }
  }
}
