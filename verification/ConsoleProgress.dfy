/** Progress of the console client and its session: every reply has a case, and the next prompt is near. */
module ConsoleProgress {
  import opened Text
  import opened Tables
  import opened TableLaws
  import opened Session
  import opened Display
  import opened Timestamps
  import opened MessageStream
  import Password
  import Pool
  import Readers
  import Records
  import opened ClientConnection
  import opened QtClient
  import opened Console
  import opened ConsoleLogin
  import opened ConsolePhases

  /** The requests that the session has a case for. */
  predicate HasServerCase(t: MsgType) {
    t == eAuthAdmin || t == eAuth || t == eBatchAuth || t == eBatchReg || t == eNewUser || t == eExistingUser ||
    t == eLogin || t == ePassword || t == eUserNextAdmin || t == eSetUserBanFlag || t == eGetMsgAdmin ||
    t == eGetUserMsg || t == eGetNextMsg ||
    t == eGetMainMenu || t == eSendToAll || t == eSendToUser || t == eSendToUserMsgReady || t == eLogOut || t == eQuit
  }

  /** A choice at the main menu other than log out, write to a user, or quit, that gets as far as the server. */
  predicate StrayChoice(lines: seq<Line>) {
    && lines != [] && lines[0] != "" && lines[0] != "x" && lines[0][0] != 'l' && lines[0][0] != 'u'
    && (lines[0][0] == 'a' ==> |lines| > 1 && lines[1] != "x")
  }

  predicate Strays(c: Chat) { c.status == Talking && c.inbox.mtype == eMsgMainMenu && StrayChoice(c.lines) }

  // Every reply has a case

  lemma MenuAnswer(c: Chat)
    requires c.inbox.mtype == eMsgMainMenu
    ensures var r := React(c.usrDbId, c.inbox, c.lines);
            && (r.Sends? ==> r.msg.mtype == eLogOut || r.msg.mtype == eSendToUser || r.msg.mtype == eQuit ||
                             (r.msg.mtype == eSendToAll && r.msg.userId == "") || r.msg.mtype == eNone)
            && (StrayChoice(c.lines) <==> r.Sends? && (r.msg.mtype == eSendToAll || r.msg.mtype == eNone))
  {
  }

  /** Broadcasts of this client have no sender id, so their statement fails; an undefined choice comes back. */
  lemma StrayHandled(db: Db, s: Session, m: IoMsg, call: Call)
    requires (m.mtype == eSendToAll && m.userId == "") || m.mtype == eNone || m.mtype == eError
    ensures NoNullRead(db, s, m)
    ensures var h := Handle(db, s, m, call);
            && h.db == db && h.session == s
            && (h.reply.mtype == eError || h.reply.mtype == eNone)
            && (m.mtype != eSendToAll ==> h.reply == m)
  {
    hide OnAuthAdmin, OnBatchAuth, OnBatchReg, OnBan, OnLogin, OnPassword, OnUserMsgs, OnSendToUser, OnPrivate,
         PoolReply, NextUser, Fetched;
  }

  lemma PlainHandled(db: Db, s: Session, m: IoMsg, call: Call)
    requires InsideRequest(m.mtype) || m.mtype == eGetUserMsg
    requires m.mtype != eSendToAll && m.mtype != eNone && m.mtype != eError
    ensures NoNullRead(db, s, m) && HasCase(Handle(db, s, m, call).reply.mtype)
  {
  }

  /** A reply to anything but a stray choice has a case in the client. */
  lemma ReplyHasCase(db: Db, s: Session, m: IoMsg, call: Call)
    requires Sendable(m.mtype) && NoNullRead(db, s, m) && m.mtype != eSendToAll && m.mtype != eNone && m.mtype != eError
    ensures HasCase(Handle(db, s, m, call).reply.mtype)
  {
    hide Handle, NoNullRead;
    if OutsideRequest(m.mtype) {
      OutsideHandled(db, s, m, call);
    } else if m.mtype == ePassword {
      PasswordKind(db, s, m, call);
    } else if m.mtype == eLogOut || m.mtype == eQuit {
      EndHandled(db, s, m, call);
    } else {
      PlainHandled(db, s, m, call);
    }
  }

  lemma OtherAnswer(c: Chat)
    requires HasCase(c.inbox.mtype) && c.inbox.mtype != eMsgMainMenu && c.inbox.mtype != eAvailableUsers
    ensures var r := React(c.usrDbId, c.inbox, c.lines);
            r.Sends? ==> r.msg.mtype != eSendToAll && r.msg.mtype != eNone && r.msg.mtype != eError
  {
    hide React;
    if Outside(c.inbox.mtype) {
      OutsideAnswer(c);
    } else if c.inbox.mtype == eAuthOK {
      AuthFits(c);
    } else if c.inbox.mtype == eQuit {
      QuitAnswer(c);
    } else {
      UnpromptedAnswer(c);
    }
  }

  lemma UnpromptedAnswer(c: Chat)
    requires Unprompted(c.inbox.mtype)
    ensures var r := React(c.usrDbId, c.inbox, c.lines);
            r.Sends? ==> r.msg.mtype == eGetMainMenu || r.msg.mtype == eGetNextMsg
  {
  }

  /** Without a stray choice, no stray request is sent. */
  lemma NoStrayAnswer(c: Chat)
    requires HasCase(c.inbox.mtype) && c.status == Talking && !Strays(c)
    ensures var r := React(c.usrDbId, c.inbox, c.lines);
            r.Sends? ==> r.msg.mtype != eSendToAll && r.msg.mtype != eNone && r.msg.mtype != eError
  {
    hide React;
    if c.inbox.mtype == eMsgMainMenu {
      MenuAnswer(c);
    } else if c.inbox.mtype == eAvailableUsers {
      UsersFit(c);
    } else {
      OtherAnswer(c);
    }
  }

  lemma StrayReply(c: Chat, db: Db, call: Call)
    requires Strays(c)
    ensures var r := React(c.usrDbId, c.inbox, c.lines);
            r.Sends? && NoNullRead(db, c.session, r.msg) && !HasCase(Handle(db, c.session, r.msg, call).reply.mtype)
  {
    hide React, Handle, NoNullRead;
    MenuAnswer(c);
    StrayHandled(db, c.session, React(c.usrDbId, c.inbox, c.lines).msg, call);
  }

  /** Main result: the reply of an exchange has a case in the client exactly unless the user made a stray choice. */
  lemma RepliesAreHandled(c: Chat, world: World)
    requires StateOk(c) && HasCase(c.inbox.mtype)
    ensures HasCase(Step(c, world).inbox.mtype) <==> !Strays(c)
  {
    hide StateOk, React, Handle, NoNullRead, HasCase, Strays, Fits;
    if c.status != Talking {
      OverIsNoStray(c);
    } else {
      var db, r := RunOps(c.db, world.before), React(c.usrDbId, c.inbox, c.lines);
      if Strays(c) {
        StrayReply(c, db, world.call);
      } else if r.Sends? && NoNullRead(db, c.session, r.msg) {
        NoStrayAnswer(c);
        AnswerFits(c);
        FitsSendable(c, r);
        ReplyHasCase(db, c.session, r.msg, world.call);
      }
    }
  }

  lemma OverIsNoStray(c: Chat)
    requires c.status != Talking
    ensures !Strays(c)
  {
  }

  lemma FitsSendable(c: Chat, r: Reaction)
    requires r.Sends? && Fits(c, r)
    ensures Sendable(r.msg.mtype)
  {
  }

  /** Main result: in every conversation all messages in hand have a case exactly as long as no stray choice is made,
      whatever else is typed, whatever other sessions do, and whatever calls fail. */
  lemma {:induction false} ConversationsAreHandled(db: Db, lines: seq<Line>, worlds: seq<World>)
    requires DbOk(db)
    ensures (forall k :: 0 <= k <= |worlds| ==> HasCase(Run(Opened(db, lines), worlds[..k]).inbox.mtype)) <==>
            (forall k :: 0 <= k < |worlds| ==> !Strays(Run(Opened(db, lines), worlds[..k])))
  {
    hide Step, Strays, HasCase, StateOk;
    var c := Opened(db, lines);
    if worlds == [] {
      OpenedHasCase(db, lines);
      assert worlds[..0] == worlds;
    } else {
      var n := |worlds| - 1;
      var front := worlds[..n];
      ConversationsAreHandled(db, lines, front);
      assert forall k :: 0 <= k <= n ==> front[..k] == worlds[..k];
      assert worlds[..n + 1] == worlds && front[..n] == front;
      StateIsOk(db, lines, front);
      assert Run(c, worlds) == Step(Run(c, front), worlds[n]);
      if HasCase(Run(c, front).inbox.mtype) {
        RepliesAreHandled(Run(c, front), worlds[n]);
      }
    }
  }

  lemma OpenedHasCase(db: Db, lines: seq<Line>)
    ensures HasCase(Run(Opened(db, lines), []).inbox.mtype)
  {
  }

  /** Once a reply has no case, client and session send it back and forth for ever. */
  lemma {:induction false} StraysBounce(c: Chat, worlds: seq<World>)
    requires c.status == Talking && (c.inbox.mtype == eError || c.inbox.mtype == eNone)
    ensures var d := Run(c, worlds);
            d.status == Talking && d.inbox == c.inbox && d.session == c.session && d.lines == c.lines
  {
    if worlds != [] {
      StraysBounce(c, worlds[..|worlds| - 1]);
      BounceStep(Run(c, worlds[..|worlds| - 1]), worlds[|worlds| - 1]);
    }
  }

  lemma BounceStep(c: Chat, world: World)
    requires c.status == Talking && (c.inbox.mtype == eError || c.inbox.mtype == eNone)
    ensures var d := Step(c, world);
            d.status == Talking && d.inbox == c.inbox && d.session == c.session && d.lines == c.lines
  {
    assert React(c.usrDbId, c.inbox, c.lines) == Sends(c.usrDbId, c.inbox, c.lines);
    hide React, Handle, NoNullRead;
    StrayHandled(RunOps(c.db, world.before), c.session, c.inbox, world.call);
  }

  // Every request has a case, but one

  lemma ChooseLoginOnly(c: Chat)
    requires HasCase(c.inbox.mtype)
    ensures var r := React(c.usrDbId, c.inbox, c.lines);
            r.Sends? && r.msg.mtype == eChooseLogin ==>
                c.inbox.mtype == eWrongLogin && c.inbox.user != "" && c.inbox.user[0] == 'n'
  {
    hide Password.PwdHash;
  }

  /** Main result: what the client sends has a case in the session, but for the eChooseLogin after a refused new
      login. */
  lemma RequestsAreServed(c: Chat)
    requires StateOk(c) && c.status == Talking && HasCase(c.inbox.mtype) && !Strays(c)
    ensures var r := React(c.usrDbId, c.inbox, c.lines);
            r.Sends? ==>
              || HasServerCase(r.msg.mtype)
              || (&& r.msg.mtype == eChooseLogin
                  && c.inbox.mtype == eWrongLogin && c.inbox.user != "" && c.inbox.user[0] == 'n')
  {
    hide StateOk, React, Strays, Fits;
    var r := React(c.usrDbId, c.inbox, c.lines);
    if r.Sends? {
      AnswerFits(c);
      FitsSendable(c, r);
      NoStrayAnswer(c);
      if r.msg.mtype == eChooseLogin {
        ChooseLoginOnly(c);
      }
    }
  }

  /** The one request without a case: another login after a refused one. It comes back as it is, and is answered. */
  lemma ChooseLoginBounces(c: Chat, world: World)
    requires c.status == Talking && c.inbox.mtype == eWrongLogin && c.inbox.user != "" && c.inbox.user[0] == 'n'
    requires c.lines != [] && c.lines[0] != "x"
    ensures var d := Step(c, world);
            && d.status == Talking && d.session == c.session && d.lines == c.lines[1..]
            && d.inbox == c.inbox.(mtype := eChooseLogin, body := CStr(c.lines[0]))
            && (d.lines != [] && d.lines[0] != "x" ==>
                  React(d.usrDbId, d.inbox, d.lines) ==
                      Sends(d.usrDbId, IoMsg(eLogin, CStr(d.lines[0]), "n", ""), d.lines[1..]))
  {
    hide Password.PwdHash, OnUsers, OnMessage, OnAuthOk, OnMenu, CStr, Handle, NoNullRead;
    var msg := c.inbox.(mtype := eChooseLogin, body := CStr(c.lines[0]));
    assert React(c.usrDbId, c.inbox, c.lines) == Sends(c.usrDbId, msg, c.lines[1..]);
    EchoHandled(RunOps(c.db, world.before), c.session, msg, world.call);
  }

  lemma EchoHandled(db: Db, s: Session, m: IoMsg, call: Call)
    requires !HasServerCase(m.mtype)
    ensures NoNullRead(db, s, m) && Handle(db, s, m, call) == Handled(db, s, m, false)
  {
  }

  // The next prompt

  /** Messages that the client answers without reading a line, once it is logged in. */
  predicate Unprompted(t: MsgType) { t == eNoMsg || t == eMsgNext || t == eMsgDelivered || t == eErrMsgNotDelivered }

  /** At most this many exchanges until the next prompt. */
  function Distance(c: Chat): nat {
    if c.inbox.mtype == eMsgNext then |c.session.pool| + 2 else if Unprompted(c.inbox.mtype) then 1 else 0
  }

  /** Showing the message in hand, and those left in the pool, has a defined effect. */
  predicate AllShowable(c: Chat) {
    c.inbox.mtype == eMsgNext ==>
      Showable(c.inbox.body) && forall i :: 0 <= i < |c.session.pool| ==> Showable(BodyOf(c.session.pool[i]))
  }

  lemma MenuHandled(db: Db, s: Session, m: IoMsg, call: Call)
    requires m.mtype == eGetMainMenu
    ensures NoNullRead(db, s, m)
    ensures var h := Handle(db, s, m, call);
            h.reply.mtype == eMsgMainMenu && h.session == s
  {
    hide OnAuthAdmin, OnBatchAuth, OnBatchReg, OnBan, OnLogin, OnPassword, OnUserMsgs, OnSendToAll, OnSendToUser,
         OnPrivate, PoolReply, NextUser, Fetched;
  }

  lemma NextShown(db: Db, s: Session, m: IoMsg, call: Call)
    requires m.mtype == eGetNextMsg
    ensures NoNullRead(db, s, m)
    ensures var h := Handle(db, s, m, call);
            if s.pool == [] then h.reply.mtype == eNoMsg && h.session == s
            else
              && h.reply.mtype == eMsgNext && h.reply.body == BodyOf(s.pool[0])
              && h.session == s.(pool := s.pool[1..])
  {
    hide OnAuthAdmin, OnBatchAuth, OnBatchReg, OnBan, OnLogin, OnPassword, OnUserMsgs, OnSendToAll, OnSendToUser,
         OnPrivate, NextUser, Fetched;
  }

  /** The client answers a message it can show, and has no defined answer to one it cannot. */
  lemma MessageAnswer(c: Chat)
    requires c.inbox.mtype == eMsgNext
    ensures var r := React(c.usrDbId, c.inbox, c.lines);
            if Showable(c.inbox.body)
            then r == Sends(c.usrDbId, CLEARED.(mtype := eGetNextMsg, body := CStr(ShownId(c.inbox.body))), c.lines)
            else r == Breaks
  {
    ShownExactly(c.inbox.body);
  }

  /** The exchange of a message that can be shown brings the next one, or the end of messages. */
  lemma MessageStep(c: Chat, world: World)
    requires c.status == Talking && c.inbox.mtype == eMsgNext
    ensures var d, p := Step(c, world), c.session.pool;
            if !Showable(c.inbox.body) then d == c.(status := Broken)
            else
              && d.status == Talking && d.lines == c.lines
              && if p == [] then d.inbox.mtype == eNoMsg && d.session.pool == []
                 else d.inbox.mtype == eMsgNext && d.inbox.body == BodyOf(p[0]) && d.session.pool == p[1..]
  {
    hide React, Handle, NoNullRead, BodyOf, ShownOf, ShownId, Showable;
    MessageAnswer(c);
    var m := CLEARED.(mtype := eGetNextMsg, body := CStr(ShownId(c.inbox.body)));
    NextShown(RunOps(c.db, world.before), c.session, m, world.call);
  }

  lemma MenuStep(c: Chat, world: World)
    requires c.status == Talking && Unprompted(c.inbox.mtype) && c.inbox.mtype != eMsgNext
    ensures var d := Step(c, world);
            d.status == Talking && d.lines == c.lines && d.inbox.mtype == eMsgMainMenu
  {
    assert React(c.usrDbId, c.inbox, c.lines) == Sends(c.usrDbId, CLEARED.(mtype := eGetMainMenu), c.lines);
    hide React, Handle, NoNullRead;
    MenuHandled(RunOps(c.db, world.before), c.session, CLEARED.(mtype := eGetMainMenu), world.call);
  }

  lemma CloserStep(c: Chat, world: World)
    requires c.status == Talking && Unprompted(c.inbox.mtype)
    ensures var d := Step(c, world);
            if c.inbox.mtype == eMsgNext && !Showable(c.inbox.body) then d == c.(status := Broken)
            else
              && d.status == Talking && d.lines == c.lines && Distance(d) < Distance(c)
              && (Unprompted(d.inbox.mtype) || d.inbox.mtype == eMsgMainMenu)
              && (AllShowable(d) <==> AllShowable(c))
  {
    hide Step, Showable, BodyOf;
    if c.inbox.mtype == eMsgNext {
      MessageStep(c, world);
      if c.session.pool != [] {
        var p := c.session.pool;
        assert forall i :: 0 <= i < |p| ==> p[i] == if i == 0 then p[0] else p[1..][i - 1];
        assert forall i :: 0 <= i < |p[1..]| ==> p[1..][i] == p[i + 1];
      }
    } else {
      MenuStep(c, world);
    }
  }

  /** Main result: without any typed line, and whatever other sessions do, the client is back at the main menu after at
      most the pool's size and two more exchanges, exactly if the messages it is sent can all be shown; otherwise it
      gets, within the same number, to one whose showing has no defined effect. */
  lemma MenuIsNear(c: Chat, worlds: seq<World>) returns (k: nat)
    requires c.status == Talking && Unprompted(c.inbox.mtype) && |worlds| >= Distance(c)
    ensures k <= Distance(c) <= |c.session.pool| + 2 && k <= |worlds|
    ensures var d := Run(c, worlds[..k]);
            && d.lines == c.lines
            && if AllShowable(c) then d.status == Talking && d.inbox.mtype == eMsgMainMenu else d.status == Broken
  {
    hide Step, AllShowable, Showable;
    k := 0;
    while Run(c, worlds[..k]).status == Talking && Run(c, worlds[..k]).inbox.mtype != eMsgMainMenu
      invariant k <= |worlds|
      invariant var d := Run(c, worlds[..k]);
                && d.lines == c.lines
                && if d.status == Talking then
                     && Distance(d) + k <= Distance(c) && (AllShowable(d) <==> AllShowable(c))
                     && (Unprompted(d.inbox.mtype) || d.inbox.mtype == eMsgMainMenu)
                   else d.status == Broken && k <= Distance(c) && !AllShowable(c)
      decreases |worlds| - k
    {
      var d := Run(c, worlds[..k]);
      CloserStep(d, worlds[k]);
      UnshowableInHand(d);
      assert worlds[..k + 1][..k] == worlds[..k];
      k := k + 1;
    }
    MenuIsShowable(Run(c, worlds[..k]));
  }

  lemma UnshowableInHand(c: Chat)
    ensures c.inbox.mtype == eMsgNext && !Showable(c.inbox.body) ==> !AllShowable(c)
  {
  }

  lemma MenuIsShowable(c: Chat)
    ensures c.inbox.mtype != eMsgNext ==> AllShowable(c)
  {
  }

  lemma InboxHandled(db: Db, s: Session, m: IoMsg, call: Call)
    requires m.mtype == eGetUserMsg
    ensures NoNullRead(db, s, m)
    ensures var h := Handle(db, s, m, call);
            h.reply.mtype == eMsgNext || h.reply.mtype == eNoMsg
  {
  }

  lemma AfterAuth(c: Chat)
    requires LoginOk(c) && c.inbox.mtype == eAuthOK
    ensures React(c.usrDbId, c.inbox, c.lines) == Sends(c.session.usrDbId, CLEARED.(mtype := eGetUserMsg), c.lines)
  {
    OwnedId(c.db, c.session.user, c.session.usrDbId);
    AuthAnswer(c, c.session.usrDbId);
  }

  /** The exchange after a login. It fails only over an id that is no number of the client. */
  lemma LoginExchange(c: Chat, world: World)
    requires c.status == Talking && c.inbox.mtype == eAuthOK
    ensures var d := Step(c, world);
            d.lines == c.lines && if d.status == Talking then Unprompted(d.inbox.mtype) else d.status == Aborted
    ensures LoginOk(c) ==> Step(c, world).status == Talking
  {
    hide React, Handle, NoNullRead, LoginOk;
    AuthFits(c);
    InboxHandled(RunOps(c.db, world.before), c.session, CLEARED.(mtype := eGetUserMsg), world.call);
    if LoginOk(c) {
      AfterAuth(c);
    }
  }

  lemma {:induction false} RunCons(c: Chat, worlds: seq<World>)
    requires worlds != []
    ensures Run(c, worlds) == Run(Step(c, worlds[0]), worlds[1..])
    decreases |worlds|
  {
    hide Step;
    if |worlds| == 1 {
      assert worlds[..0] == [] && worlds[1..] == [];
    } else {
      RunCons(c, worlds[..|worlds| - 1]);
      assert worlds[1..][..|worlds| - 2] == worlds[..|worlds| - 1][1..];
    }
  }

  /** After a login the first exchange fetches the inbox, and the menu follows within its size and two more, exactly if
      all of it can be shown. */
  lemma MenuAfterLogin(c: Chat, worlds: seq<World>) returns (k: nat)
    requires LoginOk(c) && c.status == Talking && c.inbox.mtype == eAuthOK && worlds != []
    requires |worlds| >= 1 + Distance(Step(c, worlds[0]))
    ensures k <= |Step(c, worlds[0]).session.pool| + 3 && k <= |worlds|
    ensures var d := Run(c, worlds[..k]);
            && d.lines == c.lines
            && if AllShowable(Step(c, worlds[0])) then d.status == Talking && d.inbox.mtype == eMsgMainMenu
               else d.status == Broken
  {
    hide LoginOk, Step, AllShowable;
    LoginExchange(c, worlds[0]);
    k := MenuIsNear(Step(c, worlds[0]), worlds[1..]);
    k := k + 1;
    RunCons(c, worlds[..k]);
    assert worlds[..k][1..] == worlds[1..][..k - 1];
  }

  /** The conversation has come to a prompt, or to an end. */
  predicate AtRest(c: Chat) { c.status != Talking || IsPrompt(c.inbox.mtype) || c.inbox.mtype == eQuit }

  /** At most this many exchanges from one prompt to the next: the answer to the prompt, after an accepted login the
      fetch of the inbox, and the messages of the pool. */
  function ExchangesTo(c: Chat, worlds: seq<World>): nat
    requires |worlds| >= 2
  {
    var d := Step(c, worlds[0]);
    if d.inbox.mtype == eAuthOK && d.status == Talking then 2 + Distance(Step(d, worlds[1])) else 1 + Distance(d)
  }

  lemma {:induction false} RunOn(c: Chat, worlds: seq<World>, j: nat, k: nat)
    requires j + k <= |worlds|
    ensures Run(c, worlds[..j + k]) == Run(Run(c, worlds[..j]), worlds[j..][..k])
    decreases k
  {
    hide Step;
    if k > 0 {
      RunOn(c, worlds, j, k - 1);
      assert worlds[..j + k][..j + k - 1] == worlds[..j + k - 1];
      assert worlds[j..][..k][..k - 1] == worlds[j..][..k - 1];
    }
  }

  lemma RunTwo(c: Chat, worlds: seq<World>)
    requires |worlds| >= 2
    ensures Run(c, worlds[..1]) == Step(c, worlds[0])
    ensures Run(c, worlds[..2]) == Step(Step(c, worlds[0]), worlds[1])
  {
    hide Step;
    assert worlds[..1][..0] == [] && worlds[..2][..1] == worlds[..1];
    assert Run(c, []) == c;
  }

  /** From a message that needs no line the next rest is as near as the menu. */
  lemma RestIsNear(c: Chat, worlds: seq<World>) returns (k: nat)
    requires (AtRest(c) && c.status != Broken) || Unprompted(c.inbox.mtype)
    requires |worlds| >= Distance(c) && c.status != Broken
    ensures k <= Distance(c) && AtRest(Run(c, worlds[..k])) && Run(c, worlds[..k]).lines == c.lines
    ensures Run(c, worlds[..k]).status == Broken <==> c.status == Talking && !AllShowable(c)
  {
    hide Step, AllShowable;
    if AtRest(c) {
      k := 0;
      MenuIsShowable(c);
    } else {
      k := MenuIsNear(c, worlds);
    }
  }

  /** Only messages can be unshowable. */
  lemma PromptsDoNotBreak(c: Chat, world: World)
    requires c.status != Broken && c.inbox.mtype != eMsgNext
    ensures Step(c, world).status != Broken
  {
    hide Handle, NoNullRead, React;
    if Outside(c.inbox.mtype) {
      OutsideAnswer(c);
    } else if c.inbox.mtype == eMsgMainMenu {
      MenuDoesNotBreak(c);
    } else if c.inbox.mtype == eAvailableUsers {
      ListDoesNotBreak(c);
    } else {
      OthersDoNotBreak(c);
    }
  }

  lemma MenuDoesNotBreak(c: Chat)
    requires c.inbox.mtype == eMsgMainMenu
    ensures !React(c.usrDbId, c.inbox, c.lines).Breaks?
  {
  }

  lemma ListDoesNotBreak(c: Chat)
    requires c.inbox.mtype == eAvailableUsers
    ensures !React(c.usrDbId, c.inbox, c.lines).Breaks?
  {
    hide PickUser;
  }

  lemma OthersDoNotBreak(c: Chat)
    requires !IsPrompt(c.inbox.mtype) && c.inbox.mtype != eMsgNext
    ensures !React(c.usrDbId, c.inbox, c.lines).Breaks?
  {
    hide OnMessage;
  }

  /** What an answered prompt is followed by. */
  lemma AfterPrompt(c: Chat, world: World)
    requires StateOk(c) && c.status == Talking && IsPrompt(c.inbox.mtype) && !Strays(c)
    ensures var d := Step(c, world);
            && d.status != Broken
            && (AtRest(d) || Unprompted(d.inbox.mtype) || d.inbox.mtype == eAuthOK)
  {
    hide StateOk, Step, Strays;
    RepliesAreHandled(c, world);
    PromptsDoNotBreak(c, world);
  }

  lemma DistanceBound(c: Chat)
    ensures Distance(c) <= |c.session.pool| + 2
  {
  }

  /** The state after an answered prompt and, if a login was accepted, the fetch of the inbox. */
  function Fetched(c: Chat, worlds: seq<World>): Chat
    requires |worlds| >= 2
  {
    var d := Step(c, worlds[0]);
    if d.inbox.mtype == eAuthOK && d.status == Talking then Step(d, worlds[1]) else d
  }

  /** The rest that follows the state after some exchanges. */
  lemma RestFrom(c: Chat, worlds: seq<World>, j: nat, d: Chat) returns (k: nat)
    requires j <= |worlds| && Run(c, worlds[..j]) == d && d.status != Broken
    requires (AtRest(d) || Unprompted(d.inbox.mtype)) && |worlds| >= j + Distance(d)
    ensures j <= k <= j + Distance(d) && AtRest(Run(c, worlds[..k])) && Run(c, worlds[..k]).lines == d.lines
    ensures Run(c, worlds[..k]).status == Broken <==> d.status == Talking && !AllShowable(d)
  {
    hide Distance, AllShowable, Run, AtRest, Unprompted;
    var n := RestIsNear(d, worlds[j..]);
    RunOn(c, worlds, j, n);
    k := j + n;
  }

  /** Main result: after an answered prompt the next one, or an end of the conversation, follows within four exchanges
      more than there are messages to show, without another line being read. It ends with no defined effect exactly if
      one of those messages cannot be shown. */
  lemma NextPrompt(c: Chat, worlds: seq<World>) returns (k: nat)
    requires StateOk(c) && c.status == Talking && IsPrompt(c.inbox.mtype) && !Strays(c)
    requires |worlds| >= 2 && |worlds| >= ExchangesTo(c, worlds)
    ensures 1 <= k <= ExchangesTo(c, worlds) <= |Fetched(c, worlds).session.pool| + 4
    ensures AtRest(Run(c, worlds[..k])) && Run(c, worlds[..k]).lines == Step(c, worlds[0]).lines
    ensures Run(c, worlds[..k]).status == Broken <==>
            Fetched(c, worlds).status == Talking && !AllShowable(Fetched(c, worlds))
  {
    hide StateOk, Step, Strays, Distance, AllShowable, Run, HasCase;
    RunTwo(c, worlds);
    var d := Step(c, worlds[0]);
    AfterPrompt(c, worlds[0]);
    DistanceBound(Fetched(c, worlds));
    if d.inbox.mtype == eAuthOK && d.status == Talking {
      LoginExchange(d, worlds[1]);
      k := RestFrom(c, worlds, 2, Step(d, worlds[1]));
    } else {
      k := RestFrom(c, worlds, 1, d);
    }
  }

  // The messages shown after a login

  lemma InboxFetched(db: Db, s: Session, m: IoMsg, call: Call)
    requires m.mtype == eGetUserMsg && s.usrDbId != 0
    ensures NoNullRead(db, s, m)
    ensures var h, p := Handle(db, s, m, call), GetUserMsgsNumber(db, s.usrDbId, s.user, s.pool, call.first.env);
            if p == [] then h.reply.mtype == eNoMsg && h.session == s.(pool := [])
            else h.reply.mtype == eMsgNext && h.reply.body == BodyOf(p[0]) && h.session == s.(pool := p[1..])
  {
  }

  /** The client has the k-th message of a pool in hand, or the end of messages, and the rest is still in the pool. */
  ghost predicate Shows(c: Chat, p: Pool.Pool, k: nat) {
    && c.status == Talking && k <= |p|
    && if k == |p| then c.inbox.mtype == eNoMsg && c.session.pool == []
       else c.inbox.mtype == eMsgNext && c.inbox.body == BodyOf(p[k]) && c.session.pool == p[k + 1..]
  }

  /** The rows of the inbox of the session's user at the exchange after the login. */
  function RowsAtLogin(c: Chat, world: World): seq<Pool.Entry> {
    var db := RunOps(c.db, world.before);
    InboxRows(db, db.messages, c.session.usrDbId, c.session.user)
  }

  /** The pool of those rows; nothing where the query fails. */
  function InboxOf(c: Chat, world: World): Pool.Pool {
    if Fails(world.call.first.env, 0) then [] else Pool.PutAll([], RowsAtLogin(c, world))
  }

  lemma ShowsFirst(c: Chat, world: World)
    requires LoginOk(c) && StateOk(c) && c.status == Talking && c.inbox.mtype == eAuthOK
    ensures Shows(Step(c, world), InboxOf(c, world), 0)
  {
    AfterAuth(c);
    hide React, Handle, NoNullRead, DbOk, Owns, BodyOf, Known;
    InboxFetched(RunOps(c.db, world.before), c.session, CLEARED.(mtype := eGetUserMsg), world.call);
  }

  lemma ShowsNext(c: Chat, world: World, p: Pool.Pool, k: nat)
    requires Shows(c, p, k) && k < |p|
    ensures if Showable(BodyOf(p[k])) then Shows(Step(c, world), p, k + 1) else Step(c, world).status == Broken
  {
    hide Step, BodyOf, Showable;
    MessageStep(c, world);
  }

  /** The first k messages of a pool can be shown. */
  predicate FirstShowable(p: Pool.Pool, k: nat)
    requires k <= |p|
  {
    forall i :: 0 <= i < k ==> Showable(BodyOf(p[i]))
  }

  lemma {:induction false} PoolIsShown(c: Chat, worlds: seq<World>)
    requires LoginOk(c) && StateOk(c) && c.status == Talking && c.inbox.mtype == eAuthOK && worlds != []
    requires |worlds| <= |InboxOf(c, worlds[0])| + 1
    ensures var d, inbox, n := Run(c, worlds), InboxOf(c, worlds[0]), |worlds| - 1;
            if FirstShowable(inbox, n) then Shows(d, inbox, n) else d.status == Broken
  {
    hide Step, LoginOk, StateOk, Shows, InboxOf, Showable, BodyOf;
    var front, k, p := worlds[..|worlds| - 1], |worlds| - 1, InboxOf(c, worlds[0]);
    if front == [] {
      ShowsFirst(c, worlds[0]);
      assert Run(c, front) == c;
    } else {
      PoolIsShown(c, front);
      assert FirstShowable(p, k) <==> FirstShowable(p, k - 1) && Showable(BodyOf(p[k - 1]));
      if FirstShowable(p, k - 1) {
        ShowsNext(Run(c, front), worlds[k], p, k - 1);
      } else {
        BrokenStays(Run(c, front), worlds[k]);
      }
    }
  }

  lemma BrokenStays(c: Chat, world: World)
    requires c.status == Broken
    ensures Step(c, world) == c
  {
  }

  lemma ShowsTalking(c: Chat, p: Pool.Pool, k: nat)
    requires Shows(c, p, k)
    ensures c.status == Talking
  {
  }

  /** What that pool holds: for every second in which something was delivered to the session's user, the earliest
      such message. */
  lemma InboxExact(c: Chat, world: World, x: Pool.Entry)
    ensures x in InboxOf(c, world) <==>
            !Fails(world.call.first.env, 0) &&
            Readers.Earliest(RunOps(c.db, world.before), c.session.usrDbId, c.session.user, x)
  {
    hide Readers.Earliest, InboxRows;
    if !Fails(world.call.first.env, 0) {
      var db, s := RunOps(c.db, world.before), c.session;
      Readers.InboxOfEarliest(db, s.usrDbId, s.user, [], world.call.first.env, x);
    }
  }

  /** Main result: after a login, whatever other sessions do meanwhile, the k-th exchange puts the k-th message of the
      user's own inbox, as it was at the first one, into the client's hand, and the last exchange the end of messages,
      exactly if all messages before it can be shown; otherwise the conversation has no defined effect by then. Those
      are, for every second in which something was delivered to the user, the earliest such message, in the order of
      their keys; where the query fails there are none. */
  lemma InboxIsShown(c: Chat, worlds: seq<World>)
    requires LoginOk(c) && StateOk(c) && c.status == Talking && c.inbox.mtype == eAuthOK && worlds != []
    requires |worlds| <= |InboxOf(c, worlds[0])| + 1
    ensures var d, inbox, n := Run(c, worlds), InboxOf(c, worlds[0]), |worlds| - 1;
            && (Shows(d, inbox, n) <==> FirstShowable(inbox, n))
            && (!FirstShowable(inbox, n) ==> d.status == Broken)
    ensures Pool.Sorted(InboxOf(c, worlds[0]))
    ensures forall x :: x in InboxOf(c, worlds[0]) <==>
              !Fails(worlds[0].call.first.env, 0) &&
              Readers.Earliest(RunOps(c.db, worlds[0].before), c.session.usrDbId, c.session.user, x)
  {
    hide Run, Shows, RowsAtLogin, LoginOk, StateOk, FirstShowable, Readers.Earliest;
    PoolIsShown(c, worlds);
    if Shows(Run(c, worlds), InboxOf(c, worlds[0]), |worlds| - 1) {
      ShowsTalking(Run(c, worlds), InboxOf(c, worlds[0]), |worlds| - 1);
    }
    Pool.OneForEveryKey(RowsAtLogin(c, worlds[0]));
    hide InboxOf;
    forall x ensures x in InboxOf(c, worlds[0]) <==>
        !Fails(worlds[0].call.first.env, 0) &&
        Readers.Earliest(RunOps(c.db, worlds[0].before), c.session.usrDbId, c.session.user, x)
    {
      InboxExact(c, worlds[0], x);
    }
  }

  /** The time and the id of a row are those of a state row and a message. */
  ghost predicate FromDatabase(x: Pool.Entry) {
    exists t: Seconds, n: nat :: x.msg.timestamp == Stamp(t) && x.msg.messageId == Decimal(n)
  }

  lemma EarliestForm(db: Db, id: nat, userName: string, x: Pool.Entry)
    requires Readers.Earliest(db, id, userName, x)
    ensures FromDatabase(x)
  {
    hide Readers.NoneBefore, FindUser;
    var k, s :| 0 <= k < |db.messages| && s in db.states &&
      Readers.IsInboxEntryOf(db, db.messages[k], s, id, userName, x) &&
      Readers.NoneBefore(db, k, id, userName, x.key);
    assert x.msg.timestamp == Stamp(s.tsChanged) && x.msg.messageId == Decimal(db.messages[k].id);
  }

  lemma PrintedMarks(x: Pool.Entry)
    requires FromDatabase(x) && NulFreeMessage(x.msg)
    ensures var marks, shown := Marks(x.msg.sender) + Marks(x.msg.receiver) + Marks(x.msg.body), ShownOf(BodyOf(x));
            && (shown == Nothing <==> marks == 0)
            && (shown == Undefined <==> 1 <= marks <= 3)
            && (shown.Printed? ==> shown.date != x.msg.timestamp)
  {
    hide ShownOf, Records.Serialized, Stamp;
    var t: Seconds, n: nat :| x.msg.timestamp == Stamp(t) && x.msg.messageId == Decimal(n);
    StampIsPlain(t);
    DecimalChars(n);
    assert Marks(x.msg.timestamp) == 0 && Marks(x.msg.messageId) == 0;
    BodyMarks(x.msg);
    ShownExactly(BodyOf(x));
    if ShownOf(BodyOf(x)).Printed? {
      DateIsWrong(x.msg);
    }
  }

  /** Main result: what is printed of a message of the inbox depends on the marks in its two logins and its text.
      Without any nothing is printed at all; with one to three there is no defined effect; with more, what is printed as
      its date is not its time. */
  lemma WhatIsPrinted(c: Chat, world: World, x: Pool.Entry)
    requires x in InboxOf(c, world) && NulFreeMessage(x.msg)
    ensures var marks, shown := Marks(x.msg.sender) + Marks(x.msg.receiver) + Marks(x.msg.body), ShownOf(BodyOf(x));
            && (shown == Nothing <==> marks == 0)
            && (shown == Undefined <==> 1 <= marks <= 3)
            && (shown.Printed? ==> shown.date != x.msg.timestamp)
  {
    hide Marks, ShownOf, BodyOf, Readers.Earliest;
    InboxExact(c, world, x);
    EarliestForm(RunOps(c.db, world.before), c.session.usrDbId, c.session.user, x);
    PrintedMarks(x);
  }

  /** The conversation at an ordinary text with one mark. */
  lemma OneMarkBreaks(c: Chat, world: World, m: Records.Message, before: string, behind: string)
    requires c.status == Talking && c.inbox.mtype == eMsgNext && c.inbox.body == CStr(Records.Serialized(m))
    requires NulFreeMessage(m) && m.body == before + [MARK] + behind && MARK !in before && MARK !in behind
    requires MARK !in m.timestamp && MARK !in m.sender && MARK !in m.receiver && MARK !in m.messageId
    ensures Step(c, world) == c.(status := Broken)
  {
    UndefinedText(m, before, behind);
    ShownExactly(c.inbox.body);
    MessageStep(c, world);
  }
}
