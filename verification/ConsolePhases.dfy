/** What holds in every conversation of the console client with its session, whatever is typed. */
module ConsolePhases {
  import opened Text
  import opened Recipients
  import opened Tables
  import opened TableLaws
  import opened Session
  import opened MessageStream
  import opened ClientConnection
  import opened QtClient
  import opened Console
  import opened ConsoleLogin
  import Password

  /** The messages that the client can have in hand. */
  predicate Known(t: MsgType) { Outside(t) || t == eAuthOK || Inside(t) || t == eQuit }

  /** The requests that the client can send. */
  predicate Sendable(t: MsgType) {
    OutsideRequest(t) || InsideRequest(t) || t == ePassword || t == eGetUserMsg || t == eLogOut || t == eQuit
  }

  /** Messages are left in the pool only while the client has one of them in hand, and the list in hand is that of the
      other users at the time it was packed. */
  ghost predicate StateOk(c: Chat) {
    && DbOk(c.db)
    && Known(c.inbox.mtype)
    && (c.inbox.mtype != eMsgNext ==> c.session.pool == [])
    && c.listed <= c.db.users
    && (c.inbox.mtype == eAvailableUsers ==> c.inbox.body == CStr(Packed(OtherUsers(c.listed, c.usrDbId))))
  }

  // What the client sends

  /** The answer fits the message in hand. */
  ghost predicate Fits(c: Chat, r: Reaction)
    requires r.Sends?
  {
    && Sendable(r.msg.mtype)
    && (r.msg.mtype == eGetNextMsg <==> c.inbox.mtype == eMsgNext)
    && (r.msg.mtype == eSendToUser ==> r.msg.user == Decimal(c.usrDbId) && r.usrDbId == c.usrDbId)
  }

  lemma UsersFit(c: Chat)
    requires c.inbox.mtype == eAvailableUsers
    ensures var r := React(c.usrDbId, c.inbox, c.lines);
            r.Sends? ==> r.msg.mtype == eQuit || r.msg.mtype == eSendToUserMsgReady
  {
    hide Unpack;
  }

  lemma InsideFits(c: Chat)
    requires Inside(c.inbox.mtype) && c.inbox.mtype != eAvailableUsers
    ensures var r := React(c.usrDbId, c.inbox, c.lines);
            r.Sends? ==>
              && (r.msg.mtype == eGetNextMsg <==> c.inbox.mtype == eMsgNext)
              && (r.msg.mtype == eSendToUser ==> r.msg.user == Decimal(c.usrDbId))
  {
  }

  lemma AuthFits(c: Chat)
    requires c.inbox.mtype == eAuthOK
    ensures var r := React(c.usrDbId, c.inbox, c.lines);
            r.Sends? ==> r.msg == CLEARED.(mtype := eGetUserMsg) && r.rest == c.lines
    ensures React(c.usrDbId, c.inbox, c.lines).Sends? || React(c.usrDbId, c.inbox, c.lines).Aborts?
  {
  }

  lemma AnswerFits(c: Chat)
    requires StateOk(c)
    ensures var r := React(c.usrDbId, c.inbox, c.lines);
            r.Sends? ==> Fits(c, r)
  {
    hide React, DbOk, Password.PwdHash;
    if Outside(c.inbox.mtype) {
      OutsideAnswer(c);
    } else if c.inbox.mtype == eAuthOK {
      AuthFits(c);
    } else if c.inbox.mtype == eQuit {
      QuitAnswer(c);
    } else {
      InsideAnswer(c);
      if c.inbox.mtype == eAvailableUsers {
        UsersFit(c);
      } else {
        InsideFits(c);
      }
    }
  }

  // What the session replies

  lemma PasswordKind(db: Db, s: Session, m: IoMsg, call: Call)
    requires m.mtype == ePassword && NoNullRead(db, s, m)
    ensures var t := Handle(db, s, m, call).reply.mtype;
            t == eAuthOK || t == eWrongPassword || t == eQuit
  {
    hide OnAuthAdmin, OnBatchAuth, OnBatchReg, OnBan, OnLogin, OnUserMsgs, OnSendToAll, OnSendToUser, OnPrivate,
         PoolReply, NextUser, Fetched, LoginRecord, AddUser;
  }

  /** Every request of the client is answered with a message that it knows. */
  lemma ReplyKind(db: Db, s: Session, m: IoMsg, call: Call)
    requires Sendable(m.mtype) && NoNullRead(db, s, m)
    ensures Known(Handle(db, s, m, call).reply.mtype)
  {
    hide Handle, NoNullRead;
    if OutsideRequest(m.mtype) {
      OutsideHandled(db, s, m, call);
    } else if m.mtype == ePassword {
      PasswordKind(db, s, m, call);
    } else if m.mtype == eLogOut || m.mtype == eQuit {
      EndHandled(db, s, m, call);
    } else {
      InsideHandled(db, s, m, call);
    }
  }

  lemma PoolUnused(db: Db, s: Session, m: IoMsg, call: Call)
    requires Sendable(m.mtype) && !AsksForMessage(m.mtype) && NoNullRead(db, s, m)
    ensures Handle(db, s, m, call).session.pool == s.pool
  {
    hide Begin, Finish;
    PoolStays(db, s, m, call.deadline, call.first);
    var out := Begin(db, s, m, call.deadline, call.first);
    if out.pending != Idle {
      FinishKeepsPool(RunOps(out.db, call.between), out.session, out.pending, call.second);
    }
  }

  /** Where the pool of the reply stands. */
  lemma ReplyPool(db: Db, s: Session, m: IoMsg, call: Call)
    requires Sendable(m.mtype) && NoNullRead(db, s, m) && (m.mtype != eGetNextMsg ==> s.pool == [])
    ensures var h := Handle(db, s, m, call);
            h.reply.mtype != eMsgNext ==> h.session.pool == []
  {
    hide Handle, NoNullRead, PoolFor;
    if AsksForMessage(m.mtype) {
      MessageRequest(db, s, m, call);
    } else {
      PoolUnused(db, s, m, call);
    }
  }

  lemma NoListReply(db: Db, s: Session, m: IoMsg, deadline: string, around: Around)
    requires NoNullRead(db, s, m) && m.mtype != eAvailableUsers && m.mtype != eSendToUser
    ensures Begin(db, s, m, deadline, around).reply.mtype != eAvailableUsers
  {
    hide DeliverMsg, BanUser, AddUser, PackUsers, GetAllMsgs, GetUserMsgsText, GetUserMsgsNumber, UserAuthOk, UserRows,
         LoginUsed, FindLogin, GetUser;
  }

  lemma NoListAtFinish(db: Db, s: Session, p: Pending, around: Around)
    requires p != Idle
    ensures Finish(db, s, p, around).reply.mtype != eAvailableUsers
  {
  }

  lemma ListSent(db: Db, s: Session, m: IoMsg, call: Call)
    requires m.mtype == eSendToUser
    ensures NoNullRead(db, s, m)
    ensures Handle(db, s, m, call).db == db
    ensures var h := Handle(db, s, m, call);
            h.reply.mtype == eAvailableUsers ==>
              ParseId(m.user).Some? && h.reply.body == CStr(Packed(OtherUsers(db.users, ParseId(m.user).value)))
  {
    hide OnAuthAdmin, OnBatchAuth, OnBatchReg, OnBan, OnLogin, OnPassword, OnUserMsgs, OnSendToAll, OnPrivate,
         PoolReply, NextUser, Fetched;
  }

  /** Only the request for the list is answered with one, and the list is that of the user who asks. */
  lemma ReplyList(db: Db, s: Session, m: IoMsg, call: Call, id: nat)
    requires Sendable(m.mtype) && NoNullRead(db, s, m) && (m.mtype == eSendToUser ==> m.user == Decimal(id))
    ensures var h := Handle(db, s, m, call);
            h.reply.mtype == eAvailableUsers ==>
              && m.mtype == eSendToUser && h.db == db
              && h.reply.body == CStr(Packed(OtherUsers(db.users, id)))
  {
    hide Begin, Finish, NoNullRead, Packed, OtherUsers;
    if m.mtype == eSendToUser {
      ParseDecimal(id);
      ListSent(db, s, m, call);
    } else {
      NoListReply(db, s, m, call.deadline, call.first);
      var out := Begin(db, s, m, call.deadline, call.first);
      if out.pending != Idle {
        NoListAtFinish(RunOps(out.db, call.between), out.session, out.pending, call.second);
      }
    }
  }

  // The invariant

  lemma AnsweredOk(c: Chat, r: Reaction, call: Call)
    requires StateOk(c) && r.Sends? && Fits(c, r) && NoNullRead(c.db, c.session, r.msg)
    ensures StateOk(Answered(c, c.db, r.usrDbId, Handle(c.db, c.session, r.msg, call), r.rest))
  {
    hide DbOk, Handle, NoNullRead, Known, Sendable, Packed, OtherUsers;
    HandleKeeps(c.db, c.session, r.msg, call);
    ReplyKind(c.db, c.session, r.msg, call);
    ReplyPool(c.db, c.session, r.msg, call);
    ReplyList(c.db, c.session, r.msg, call, c.usrDbId);
  }

  lemma ElsewhereOk(c: Chat, ops: seq<DbOp>)
    requires StateOk(c)
    ensures StateOk(c.(db := RunOps(c.db, ops)))
  {
    RunOpsOk(c.db, ops);
    RunOpsAppends(c.db, ops);
  }

  lemma FitsElsewhere(c: Chat, d: Chat, r: Reaction)
    requires r.Sends? && Fits(c, r) && d == c.(db := d.db)
    ensures Fits(d, r)
  {
  }

  lemma StatusChangeOk(c: Chat, status: Status)
    requires StateOk(c)
    ensures StateOk(c.(status := status))
  {
  }

  lemma StateStep(c: Chat, world: World)
    requires StateOk(c)
    ensures StateOk(Step(c, world))
  {
    hide StateOk, React, Handle, NoNullRead, Fits;
    if c.status == Talking {
      AnswerFits(c);
      ElsewhereOk(c, world.before);
      var r, d := React(c.usrDbId, c.inbox, c.lines), c.(db := RunOps(c.db, world.before));
      if r.Sends? {
        if NoNullRead(d.db, c.session, r.msg) {
          FitsElsewhere(c, d, r);
          AnsweredOk(d, r, world.call);
        } else {
          StatusChangeOk(d, Crashed);
        }
      } else {
        StatusChangeOk(c, Step(c, world).status);
      }
    }
  }

  /** Main result: in every conversation, whatever is typed, whatever other sessions do and whatever calls fail, the
      messages in hand are known, the pool is used up between two logins, and a list in hand is one the server
      packed. */
  lemma {:induction false} StateIsOk(db: Db, lines: seq<Line>, worlds: seq<World>)
    requires DbOk(db)
    ensures StateOk(Run(Opened(db, lines), worlds))
  {
    if worlds != [] {
      StateIsOk(db, lines, worlds[..|worlds| - 1]);
      hide StateOk, Step;
      StateStep(Run(Opened(db, lines), worlds[..|worlds| - 1]), worlds[|worlds| - 1]);
    }
  }
}
