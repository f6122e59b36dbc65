/** The console client: what it answers to every message of the server, and its conversation with a session while
    other sessions keep using the database. */
module Console {
  import opened Text
  import opened Recipients
  import opened Tables
  import opened Session
  import opened Display
  import opened Password
  import opened ClientConnection
  import opened QtClient

  /** The body of an IOMSG. */
  const MSG_LENGTH := 1024

  /** A typed line. It is copied into the body of a message. */
  type Line = s: string | |s| < MSG_LENGTH

  /** What the client does with a message: send an answer, wait for more lines, die of an exception, loop for ever
      over a list of users, read past a vector, which has no defined effect, or end. */
  datatype Reaction = Sends(usrDbId: nat, msg: IoMsg, rest: seq<Line>) | Waits | Aborts | Hangs | Breaks | Ends

  function GoodBye(m: IoMsg): IoMsg { m.(mtype := eQuit, body := "Good buy\n") }

  /** The answer to a prompt for one line; x alone ends the session. */
  function Asked(id: nat, m: IoMsg, lines: seq<Line>, answer: IoMsg): Reaction
    requires lines != []
  {
    Sends(id, if lines[0] == "x" then GoodBye(m) else answer, lines[1..])
  }

  /** The text for a picked user; empty lines are asked for again. */
  function TypeText(id: nat, uid: nat, m: IoMsg, lines: seq<Line>): (r: Reaction)
    ensures r.Sends? ==>
              && r.usrDbId == id
              && (r.msg == GoodBye(m) || (r.msg.mtype == eSendToUserMsgReady && r.msg.user == Decimal(uid)))
    ensures !r.Sends? ==> r.Waits?
  {
    if lines == [] then Waits
    else if lines[0] == "" then TypeText(id, uid, m, lines[1..])
    else if lines[0][0] == 'x' then Sends(id, GoodBye(m), lines[1..])
    else Sends(id, IoMsg(eSendToUserMsgReady, CStr(lines[0]), Decimal(uid), ""), lines[1..])
  }

  /** Picking a user by id; what is no id of the list is asked for again. */
  function PickUser(id: nat, us: map<nat, string>, m: IoMsg, lines: seq<Line>): (r: Reaction)
    ensures r.Sends? ==> r.usrDbId == id
    ensures r.Sends? && r.msg != GoodBye(m) ==>
              r.msg.mtype == eSendToUserMsgReady && exists uid :: uid in us && r.msg.user == Decimal(uid)
    ensures !r.Sends? ==> r.Waits? || r.Aborts?
  {
    if lines == [] then Waits
    else if lines[0] == "" then PickUser(id, us, m, lines[1..])
    else if lines[0][0] == 'x' then Sends(id, GoodBye(m), lines[1..])
    else
      match Stol(lines[0])
      case Invalid => PickUser(id, us, m, lines[1..])
      case OutOfRange => Aborts
      case Value(n) =>
        if SizeT(n) in us then TypeText(id, SizeT(n), m, lines[1..]) else PickUser(id, us, m, lines[1..])
  }

  function OnMenu(id: nat, lines: seq<Line>): Reaction
    requires lines != []
  {
    var line, rest := lines[0], lines[1..];
    if line == "x" then Sends(id, GoodBye(CLEARED), rest)
    else if line == "" then Aborts
    else if line[0] == 'l' then Sends(id, CLEARED.(mtype := eLogOut), rest)
    else if line[0] == 'u' then Sends(id, CLEARED.(mtype := eSendToUser, user := Decimal(id)), rest)
    else if line[0] == 'a' then
      if rest == [] then Waits else Asked(id, CLEARED, rest, IoMsg(eSendToAll, CStr(rest[0]), Decimal(id), ""))
    else Sends(id, CLEARED.(mtype := eNone, body := "Undefined choice\n"), rest)
  }

  function OnAuthOk(id: nat, m: IoMsg, lines: seq<Line>): Reaction {
    match Stol(m.user)
    case Value(n) => Sends(SizeT(n), CLEARED.(mtype := eGetUserMsg), lines)
    case Invalid => Sends(id, CLEARED.(mtype := eGetUserMsg), lines)
    case OutOfRange => Aborts
  }

  function OnUsers(id: nat, m: IoMsg, lines: seq<Line>): Reaction {
    match Unpack(m.body, map[])
    case Users(us) => PickUser(id, us, m, lines)
    case BadNumber => Aborts
    case Diverges => Hangs
  }

  /** A message is printed, and the next one asked for with the id that was found in it. */
  function OnMessage(id: nat, m: IoMsg, lines: seq<Line>): Reaction {
    if ShownOf(m.body).Undefined? then Breaks
    else Sends(id, CLEARED.(mtype := eGetNextMsg, body := CStr(ShownId(m.body))), lines)
  }

  /** The messages at which the client reads a line. */
  predicate IsPrompt(t: MsgType) {
    t == eWelcome || t == eChooseLogin || t == eLogin || t == eChoosePassword || t == ePassword || t == eWrongLogin ||
    t == eWrongPassword || t == eMsgMainMenu || t == eAvailableUsers
  }

  /** The messages that the client has a case for. */
  predicate HasCase(t: MsgType) {
    IsPrompt(t) || t == eAuthOK || t == eNoMsg || t == eMsgNext || t == eMsgDelivered || t == eErrMsgNotDelivered ||
      t == eQuit
  }

  function React(id: nat, m: IoMsg, lines: seq<Line>): Reaction {
    if IsPrompt(m.mtype) && m.mtype != eAvailableUsers && lines == [] then Waits
    else
      match m.mtype
      case eWelcome => Asked(id, m, lines, CLEARED.(mtype := if lines[0] == "y" then eNewUser else eExistingUser))
      case eChooseLogin => Asked(id, m, lines, IoMsg(eLogin, CStr(lines[0]), "n", ""))
      case eLogin => Asked(id, m, lines, IoMsg(eLogin, CStr(lines[0]), "e", ""))
      case eChoosePassword => Asked(id, m, lines, IoMsg(ePassword, PwdHash(lines[0]), "", ""))
      case ePassword => Asked(id, m, lines, IoMsg(ePassword, PwdHash(lines[0]), "e", ""))
      case eWrongLogin =>
        Asked(id, m, lines, if m.user != "" && m.user[0] == 'n' then m.(mtype := eChooseLogin, body := CStr(lines[0]))
                            else m.(mtype := eLogin, user := "e", body := CStr(lines[0])))
      case eWrongPassword => Asked(id, m, lines, IoMsg(ePassword, PwdHash(lines[0]), "e", ""))
      case eAuthOK => OnAuthOk(id, m, lines)
      case eNoMsg => Sends(id, CLEARED.(mtype := eGetMainMenu), lines)
      case eMsgNext => OnMessage(id, m, lines)
      case eMsgMainMenu => OnMenu(id, lines)
      case eMsgDelivered => Sends(id, CLEARED.(mtype := eGetMainMenu), lines)
      case eErrMsgNotDelivered => Sends(id, CLEARED.(mtype := eGetMainMenu), lines)
      case eAvailableUsers => OnUsers(id, m, lines)
      case eQuit => Ends
      case _ => Sends(id, m, lines)
  }

  // The conversation

  datatype Status = Talking | Waiting | Aborted | Hung | Broken | Closed | Crashed

  /** The console client and its session: the message the client has received, the lines not read yet, and the users
      of the last listing that was sent. */
  datatype Chat = Chat(db: Db, session: Session, usrDbId: nat, inbox: IoMsg, lines: seq<Line>, status: Status,
          listed: seq<User>)

  /** The client has the session's reply in hand. */
  function Answered(c: Chat, db: Db, id: nat, h: Handled, rest: seq<Line>): Chat {
    Chat(h.db, h.session, id, h.reply, rest, Talking, if h.reply.mtype == eAvailableUsers then db.users else c.listed)
  }

  /** The session handles a message of the client; a NULL read is the end of the server. */
  function Served(c: Chat, db: Db, id: nat, msg: IoMsg, rest: seq<Line>, call: Call): Chat {
    if NoNullRead(db, c.session, msg) then Answered(c, db, id, Handle(db, c.session, msg, call), rest)
    else c.(db := db, status := Crashed)
  }

  /** One exchange: the client answers, others use the database, and the session handles the answer. */
  function Step(c: Chat, world: World): Chat {
    if c.status != Talking then c
    else
      match React(c.usrDbId, c.inbox, c.lines)
      case Sends(id, msg, rest) => Served(c, RunOps(c.db, world.before), id, msg, rest, world.call)
      case Waits => c.(status := Waiting)
      case Aborts => c.(status := Aborted)
      case Hangs => c.(status := Hung)
      case Breaks => c.(status := Broken)
      case Ends => c.(status := Closed)
  }

  function Run(c: Chat, worlds: seq<World>): Chat {
    if worlds == [] then c else Step(Run(c, worlds[..|worlds| - 1]), worlds[|worlds| - 1])
  }

  /** The conversation as the client opens it; the first exchange brings the greeting. */
  function Opened(db: Db, lines: seq<Line>): Chat {
    Chat(db, NEW_SESSION, 0, IoMsg(eWelcome, WELCOME_TEXT, "", ""), lines, Talking, [])
  }

  /** A conversation that is over stays as it is. */
  lemma {:induction false} OverStays(c: Chat, worlds: seq<World>, i: nat)
    requires i <= |worlds| && Run(c, worlds[..i]).status != Talking
    ensures Run(c, worlds) == Run(c, worlds[..i])
    decreases |worlds|
  {
    if i == |worlds| {
      assert worlds[..i] == worlds;
    } else {
      assert worlds[..|worlds| - 1][..i] == worlds[..i];
      OverStays(c, worlds[..|worlds| - 1], i);
    }
  }

  lemma GreetingHandled(db: Db, s: Session, call: Call)
    ensures NoNullRead(db, s, CLEARED.(mtype := eAuth))
    ensures Handle(db, s, CLEARED.(mtype := eAuth), call) ==
              Handled(db, s, IoMsg(eWelcome, WELCOME_TEXT, "", ""), false)
  {
  }

  lemma MessageKeepsId(id: nat, m: IoMsg, lines: seq<Line>)
    ensures var r := OnMessage(id, m, lines); r.Sends? ==> r.usrDbId == id
  {
  }

  lemma PromptKeepsId(id: nat, m: IoMsg, lines: seq<Line>)
    requires IsPrompt(m.mtype) && m.mtype != eAvailableUsers
    ensures var r := React(id, m, lines); r.Sends? ==> r.usrDbId == id
  {
    hide PwdHash;
  }

  class TCPClient {
    var usrDbId: nat

    constructor ()
      ensures usrDbId == 0
    {
      usrDbId := 0;
    }

    /** The input loops of picking a user and typing the text. */
    method ChooseRecipient(us: map<nat, string>, m: IoMsg, lines: seq<Line>) returns (r: Reaction)
      ensures r == PickUser(usrDbId, us, m, lines)
    {
      var i := 0;
      while i < |lines|
        invariant 0 <= i <= |lines| && PickUser(usrDbId, us, m, lines[i..]) == PickUser(usrDbId, us, m, lines)
      {
        var input := lines[i];
        i := i + 1;
        if |input| == 0 {
          continue;
        }
        if input[0] == 'x' {
          return Sends(usrDbId, GoodBye(m), lines[i..]);
        }
        var uid := Stol(input);
        if uid.OutOfRange? {
          return Aborts;
        }
        if uid.Value? && SizeT(uid.number) in us {
          r := ReadText(SizeT(uid.number), m, lines[i..]);
          return;
        }
      }
      return Waits;
    }

    method ReadText(uid: nat, m: IoMsg, lines: seq<Line>) returns (r: Reaction)
      ensures r == TypeText(usrDbId, uid, m, lines)
    {
      var i := 0;
      while i < |lines|
        invariant 0 <= i <= |lines| && TypeText(usrDbId, uid, m, lines[i..]) == TypeText(usrDbId, uid, m, lines)
      {
        var input := lines[i];
        i := i + 1;
        if |input| == 0 {
          continue;
        }
        if input[0] == 'x' {
          return Sends(usrDbId, GoodBye(m), lines[i..]);
        }
        return Sends(usrDbId, IoMsg(eSendToUserMsgReady, CStr(input), Decimal(uid), ""), lines[i..]);
      }
      return Waits;
    }

    method HashOf(input: Line) returns (hash: string)
      ensures hash == PwdHash(input)
    {
      hash := CreatePwdHash(input);
    }

    /** The prompts that are answered with one line. */
    method AnswerLine(m: IoMsg, lines: seq<Line>) returns (r: Reaction)
      requires IsPrompt(m.mtype) && m.mtype != eAvailableUsers && m.mtype != eMsgMainMenu && lines != []
      ensures r == React(usrDbId, m, lines)
    {
      hide PwdHash;
      var msg := m;
      var input, rest := lines[0], lines[1..];
      if input == "x" {
        return Sends(usrDbId, GoodBye(m), rest);
      }
      match m.mtype {
        case eWelcome =>
          msg := CLEARED.(mtype := if input == "y" then eNewUser else eExistingUser);
        case eChooseLogin =>
          msg := IoMsg(eLogin, CStr(input), "n", "");
        case eLogin =>
          msg := IoMsg(eLogin, CStr(input), "e", "");
        case eChoosePassword =>
          var hash := HashOf(input);
          msg := IoMsg(ePassword, hash, "", "");
        case eWrongLogin =>
          if m.user != "" && m.user[0] == 'n' {
            msg := msg.(mtype := eChooseLogin);
          } else {
            msg := msg.(mtype := eLogin, user := "e");
          }
          msg := msg.(body := CStr(input));
        case _ =>
          var hash := HashOf(input);
          msg := IoMsg(ePassword, hash, "e", "");
      }
      r := Sends(usrDbId, msg, rest);
    }

    /** The id of the accepted user, and the request for the user's messages. */
    method TakeId(m: IoMsg, lines: seq<Line>) returns (r: Reaction)
      modifies this
      ensures r == OnAuthOk(old(usrDbId), m, lines)
      ensures usrDbId == if r.Sends? then r.usrDbId else old(usrDbId)
    {
      var id := Stol(m.user);
      if id.OutOfRange? {
        return Aborts;
      }
      if id.Value? {
        usrDbId := SizeT(id.number);
      }
      r := Sends(usrDbId, CLEARED.(mtype := eGetUserMsg), lines);
    }

    method ShowMessage(m: IoMsg, lines: seq<Line>) returns (r: Reaction)
      ensures r == OnMessage(usrDbId, m, lines)
    {
      var shown := ShowUnpacked(m.body);
      if shown.Undefined? {
        return Breaks;
      }
      var messageId := if shown.Printed? then shown.id else "";
      r := Sends(usrDbId, CLEARED.(mtype := eGetNextMsg, body := CStr(messageId)), lines);
    }

    method ShowUsers(m: IoMsg, lines: seq<Line>) returns (r: Reaction)
      ensures r == OnUsers(usrDbId, m, lines)
      ensures r.Sends? ==> r.usrDbId == usrDbId
    {
      var us := UnpackAvailableUsers(m.body);
      match us {
        case Users(users) => r := ChooseRecipient(users, m, lines);
        case BadNumber => r := Aborts;
        case Diverges => r := Hangs;
      }
    }

    /** The cases of one message; the field keeps the id of the session's user. */
    method Answer(m: IoMsg, lines: seq<Line>) returns (r: Reaction)
      modifies this
      ensures r == React(old(usrDbId), m, lines)
      ensures usrDbId == if r.Sends? then r.usrDbId else old(usrDbId)
    {
      hide PwdHash, OnMenu, OnAuthOk, OnUsers, OnMessage;
      if IsPrompt(m.mtype) && m.mtype != eAvailableUsers {
        if |lines| == 0 {
          return Waits;
        }
        if m.mtype == eMsgMainMenu {
          r := Menu(lines);
        } else {
          r := AnswerLine(m, lines);
        }
        PromptKeepsId(usrDbId, m, lines);
        return;
      }
      match m.mtype {
        case eAuthOK => r := TakeId(m, lines);
        case eNoMsg => r := Sends(usrDbId, CLEARED.(mtype := eGetMainMenu), lines);
        case eMsgNext =>
          r := ShowMessage(m, lines);
          MessageKeepsId(usrDbId, m, lines);
        case eMsgDelivered => r := Sends(usrDbId, CLEARED.(mtype := eGetMainMenu), lines);
        case eErrMsgNotDelivered => r := Sends(usrDbId, CLEARED.(mtype := eGetMainMenu), lines);
        case eAvailableUsers => r := ShowUsers(m, lines);
        case eQuit => r := Ends;
        case _ => r := Sends(usrDbId, m, lines);
      }
    }

    /** One turn of the loop: the answer to a message, and the next message. */
    method Turn(conn: ClientConnection, m: IoMsg, lines: seq<Line>, world: World, ghost c: Chat)
      returns (msg: IoMsg, rest: seq<Line>, status: Status)
      requires c.status == Talking && conn.hDB.db == c.db && conn.View() == c.session
      requires usrDbId == c.usrDbId && m == c.inbox && lines == c.lines && Step(c, world).status != Crashed
      modifies this, conn, conn.hDB
      ensures var d := Step(c, world);
              && conn.hDB.db == d.db && conn.View() == d.session
              && usrDbId == d.usrDbId && msg == d.inbox && rest == d.lines && status == d.status
    {
      hide React, Handle, NoNullRead;
      msg, rest, status := m, lines, Talking;
      var r := Answer(m, lines);
      match r {
        case Sends(id, answer, left) =>
          msg := Exchange(conn, answer, world);
          rest := left;
        case Waits => status := Waiting;
        case Aborts => status := Aborted;
        case Hangs => status := Hung;
        case Breaks => status := Broken;
        case Ends => status := Closed;
      }
    }

    /** Opens the conversation, then answers one message after the other until it is over. */
    method Start(conn: ClientConnection, lines: seq<Line>, worlds: seq<World>)
      returns (msg: IoMsg, rest: seq<Line>, status: Status)
      requires worlds != [] && usrDbId == 0 && conn.View() == NEW_SESSION
      requires Run(Opened(RunOps(conn.hDB.db, worlds[0].before), lines), worlds[1..]).status != Crashed
      modifies this, conn, conn.hDB
      ensures var c := Run(Opened(RunOps(old(conn.hDB.db), worlds[0].before), lines), worlds[1..]);
              && conn.hDB.db == c.db && conn.View() == c.session
              && usrDbId == c.usrDbId && msg == c.inbox && rest == c.lines && status == c.status
    {
      hide React, Handle, NoNullRead, Step;
      ghost var greeting, more := Opened(RunOps(conn.hDB.db, worlds[0].before), lines), worlds[1..];
      GreetingHandled(RunOps(conn.hDB.db, worlds[0].before), NEW_SESSION, worlds[0].call);
      msg := Exchange(conn, CLEARED.(mtype := eAuth), worlds[0]);
      rest, status := lines, Talking;
      var i := 1;
      assert more[..0] == [] && Run(greeting, []) == greeting;
      while status == Talking && i < |worlds|
        invariant 1 <= i <= |worlds|
        invariant var c := Run(greeting, more[..i - 1]);
                  && conn.hDB.db == c.db && conn.View() == c.session
                  && usrDbId == c.usrDbId && msg == c.inbox && rest == c.lines && status == c.status
        decreases |worlds| - i
      {
        ghost var c := Run(greeting, more[..i - 1]);
        assert more[..i][..i - 1] == more[..i - 1] && more[i - 1] == worlds[i];
        assert Run(greeting, more[..i]) == Step(c, worlds[i]);
        if Step(c, worlds[i]).status == Crashed {
          OverStays(greeting, more, i);
        }
        msg, rest, status := Turn(conn, msg, rest, worlds[i], c);
        i := i + 1;
      }
      if i < |worlds| {
        OverStays(greeting, more, i - 1);
      } else {
        assert more[..i - 1] == more;
      }
    }

    method Menu(lines: seq<Line>) returns (r: Reaction)
      requires lines != []
      ensures r == OnMenu(usrDbId, lines)
    {
      var input, rest := lines[0], lines[1..];
      if input == "x" {
        return Sends(usrDbId, GoodBye(CLEARED), rest);
      }
      if |input| == 0 {
        return Aborts;
      }
      if input[0] == 'l' {
        return Sends(usrDbId, CLEARED.(mtype := eLogOut), rest);
      } else if input[0] == 'u' {
        return Sends(usrDbId, CLEARED.(mtype := eSendToUser, user := Decimal(usrDbId)), rest);
      } else if input[0] == 'a' {
        if |rest| == 0 {
          return Waits;
        }
        if rest[0] == "x" {
          return Sends(usrDbId, GoodBye(CLEARED), rest[1..]);
        }
        return Sends(usrDbId, IoMsg(eSendToAll, CStr(rest[0]), Decimal(usrDbId), ""), rest[1..]);
      } else {
        return Sends(usrDbId, CLEARED.(mtype := eNone, body := "Undefined choice\n"), rest);
      }
    }
  }
}
