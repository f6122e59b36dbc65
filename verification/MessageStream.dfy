/** The messages of a session's pool, handed to its client one per request. */
module MessageStream {
  import opened Text
  import opened Records
  import opened Pool
  import opened Tables
  import opened Session
  import opened Server

  predicate AsksForMessage(t: MsgType) { t == eGetMsgAdmin || t == eGetUserMsg || t == eGetNextMsg }

  /** The pool a request for a message is answered from. */
  function PoolFor(db: Db, s: Session, m: IoMsg, env: Env): Pool {
    if m.mtype == eGetMsgAdmin then GetAllMsgs(db, s.pool, env)
    else if m.mtype == eGetUserMsg then OnUserMsgs(db, s, m, env).pool
    else s.pool
  }

  function BodyOf(e: Entry): string { CStr(Serialized(e.msg)) }

  /** The bodies a client gets from a pool. */
  function Bodies(p: Pool): (v: seq<string>)
    ensures |v| == |p|
  {
    seq(|p|, i requires 0 <= i < |p| => BodyOf(p[i]))
  }

  /** The request refills the pool: it is one of the two that fetch, and its query succeeds. */
  predicate Refills(s: Session, m: IoMsg, env: Env) {
    && !Fails(env, 0)
    && (m.mtype == eGetMsgAdmin || (m.mtype == eGetUserMsg && (s.usrDbId == 0 ==> ParseId(m.userId).Some?)))
  }

  /** The last pool a session has fetched, and the bodies sent from it since. */
  datatype Stream = Stream(fetched: Pool, sent: seq<string>)

  function StepStream(v: Server, ev: Event, sid: nat, t: Stream): Stream {
    if !(Enabled(v, ev) && ev.Receive? && ev.sid == sid && AsksForMessage(ev.m.mtype)) then t
    else
      var s := v.conns[sid].session;
      var reply := Begin(v.db, s, ev.m, ev.deadline, ev.around).reply;
      var t1 := if Refills(s, ev.m, ev.around.env) then Stream(PoolFor(v.db, s, ev.m, ev.around.env), []) else t;
      if reply.mtype == eMsgNext then t1.(sent := t1.sent + [reply.body]) else t1
  }

  function StreamOf(evs: seq<Event>, sid: nat): Stream {
    if evs == [] then Stream([], [])
    else StepStream(Run(START, evs[..|evs| - 1]), evs[|evs| - 1], sid, StreamOf(evs[..|evs| - 1], sid))
  }

  function PoolOf(v: Server, sid: nat): Pool {
    if sid in v.conns then v.conns[sid].session.pool else []
  }

  /** What has been sent of the last pool, followed by what is left of it, is that pool. */
  ghost predicate Flows(t: Stream, left: Pool) {
    t.sent + Bodies(left) == Bodies(t.fetched)
  }

  lemma NotFetched(db: Db, s: Session, m: IoMsg, env: Env)
    requires AsksForMessage(m.mtype) && !Refills(s, m, env)
    ensures PoolFor(db, s, m, env) == s.pool
  {
  }

  lemma MessageTaken(db: Db, s: Session, m: IoMsg, deadline: string, around: Around)
    requires AsksForMessage(m.mtype)
    ensures NoNullRead(db, s, m)
    ensures var out, p := Begin(db, s, m, deadline, around), PoolFor(db, s, m, around.env);
            if p == [] then out.reply.mtype == eNoMsg && out.session.pool == []
            else out.reply.mtype == eMsgNext && out.reply.body == BodyOf(p[0]) && out.session.pool == p[1..]
  {
  }

  lemma PoolStays(db: Db, s: Session, m: IoMsg, deadline: string, around: Around)
    requires NoNullRead(db, s, m) && !AsksForMessage(m.mtype)
    ensures Begin(db, s, m, deadline, around).session.pool == s.pool
  {
  }

  lemma FlowOn(t: Stream, p: Pool)
    requires p != [] && Flows(t, p)
    ensures Flows(t.(sent := t.sent + [BodyOf(p[0])]), p[1..])
  {
    assert Bodies(p) == [BodyOf(p[0])] + Bodies(p[1..]);
    assert t.sent + ([BodyOf(p[0])] + Bodies(p[1..])) == t.sent + [BodyOf(p[0])] + Bodies(p[1..]);
  }

  lemma StepFlows(v: Server, ev: Event, sid: nat, t: Stream)
    requires Flows(t, PoolOf(v, sid))
    ensures ev != Connect(sid) ==> Flows(StepStream(v, ev, sid, t), PoolOf(Step(v, ev), sid))
    ensures ev == Connect(sid) && t == Stream([], []) ==> Flows(StepStream(v, ev, sid, t), PoolOf(Step(v, ev), sid))
  {
    hide Begin, Finish, NoNullRead, PoolFor, BodyOf, Flows;
    if Enabled(v, ev) && ev.Receive? && ev.sid == sid {
      var s := v.conns[sid].session;
      if AsksForMessage(ev.m.mtype) {
        var p := PoolFor(v.db, s, ev.m, ev.around.env);
        MessageTaken(v.db, s, ev.m, ev.deadline, ev.around);
        if Refills(s, ev.m, ev.around.env) {
          FlowStart(p);
          if p != [] {
            FlowOn(Stream(p, []), p);
          }
        } else {
          NotFetched(v.db, s, ev.m, ev.around.env);
          if p != [] {
            FlowOn(t, p);
          }
        }
      } else {
        PoolStays(v.db, s, ev.m, ev.deadline, ev.around);
      }
    } else if Enabled(v, ev) && ev.Resume? && ev.sid == sid {
      FinishKeepsPool(v.db, v.conns[sid].session, v.conns[sid].pending, ev.around);
    } else if ev == Connect(sid) {
      FlowStart([]);
    }
  }

  lemma FlowStart(p: Pool)
    ensures Flows(Stream(p, []), p)
  {
    assert [] + Bodies(p) == Bodies(p);
  }

  lemma FinishKeepsPool(db: Db, s: Session, p: Pending, around: Around)
    requires p != Idle
    ensures Finish(db, s, p, around).session.pool == s.pool
  {
  }

  /** Before a session is there, nothing has been fetched for it. */
  lemma {:induction false} NothingBefore(evs: seq<Event>, sid: nat)
    requires sid !in Run(START, evs).conns
    ensures StreamOf(evs, sid) == Stream([], [])
  {
    hide Begin, Finish, NoNullRead;
    if evs != [] {
      NothingBefore(evs[..|evs| - 1], sid);
    }
  }

  /** Main result: in every run, for every session, what it has sent since its last successful fetch, followed by what
      is in its pool, is what that fetch found. So a client is sent messages of the session's last fetch and no
      others, each once, whoever has logged in or out since. */
  lemma {:induction false} MessagesAreConserved(evs: seq<Event>, sid: nat)
    ensures Flows(StreamOf(evs, sid), PoolOf(Run(START, evs), sid))
  {
    hide Begin, Finish, NoNullRead, StepStream, Flows, Step;
    if evs == [] {
      FlowStart([]);
    } else {
      var front, ev := evs[..|evs| - 1], evs[|evs| - 1];
      MessagesAreConserved(front, sid);
      var v := Run(START, front);
      if ev == Connect(sid) {
        if sid in v.conns {
          Reconnect(v, ev, sid, StreamOf(front, sid));
        } else {
          NothingBefore(front, sid);
          StepFlows(v, ev, sid, StreamOf(front, sid));
        }
      } else {
        StepFlows(v, ev, sid, StreamOf(front, sid));
      }
    }
  }

  lemma Reconnect(v: Server, ev: Event, sid: nat, t: Stream)
    requires ev == Connect(sid) && sid in v.conns
    ensures Step(v, ev) == v && StepStream(v, ev, sid, t) == t
  {
  }

  lemma LogOutHandled(db: Db, s: Session, m: IoMsg, deadline: string, around: Around)
    requires m.mtype == eLogOut
    ensures NoNullRead(db, s, m)
    ensures Begin(db, s, m, deadline, around).session == s.(user := "", usrDbId := 0)
  {
  }

  /** Logging out keeps the pool: the next eGetNextMsg hands out a message fetched for the user who has left exactly if
      one is left. */
  lemma LogOutKeepsMessages(db: Db, s: Session, m: IoMsg, deadline: string, around: Around, db': Db, next: IoMsg,
                            around': Around)
    requires m.mtype == eLogOut && next.mtype == eGetNextMsg
    ensures NoNullRead(db, s, m)
    ensures var left := Begin(db, s, m, deadline, around).session;
            && left.usrDbId == 0 && left.user == "" && left.pool == s.pool && NoNullRead(db', left, next)
            && var reply := Begin(db', left, next, deadline, around').reply;
               && (reply.mtype == eMsgNext <==> s.pool != [])
               && (reply.mtype == eNoMsg <==> s.pool == [])
               && (s.pool != [] ==> reply.body == BodyOf(s.pool[0]))
  {
    hide Begin, NoNullRead, BodyOf;
    LogOutHandled(db, s, m, deadline, around);
    MessageTaken(db', Begin(db, s, m, deadline, around).session, next, deadline, around');
  }
}
