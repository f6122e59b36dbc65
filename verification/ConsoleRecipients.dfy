/** Whom the console client can write to. */
module ConsoleRecipients {
  import opened Text
  import opened Recipients
  import opened Tables
  import opened TableLaws
  import opened Accounts
  import opened Session
  import opened ClientConnection
  import opened QtClient
  import opened Console
  import opened ConsoleLogin
  import opened ConsolePhases
  import Delivery
  import Readers

  // What a list names

  lemma {:induction false} OtherMember(us: seq<User>, id: nat, i: nat)
    requires i < |OtherUsers(us, id)|
    ensures exists k :: 0 <= k < |us| && us[k].id != id && OtherUsers(us, id)[i] == Recipient(us[k].id, us[k].login)
  {
    if us[0].id == id {
      OtherMember(us[1..], id, i);
      var k :| 0 <= k < |us[1..]| && us[1..][k].id != id &&
        OtherUsers(us, id)[i] == Recipient(us[1..][k].id, us[1..][k].login);
      assert us[k + 1] == us[1..][k];
    } else if i > 0 {
      OtherMember(us[1..], id, i - 1);
      var k :| 0 <= k < |us[1..]| && us[1..][k].id != id &&
        OtherUsers(us, id)[i] == Recipient(us[1..][k].id, us[1..][k].login);
      assert us[k + 1] == us[1..][k];
    }
  }

  lemma {:induction false} OtherIsListed(us: seq<User>, id: nat, k: nat)
    requires k < |us| && us[k].id != id
    ensures exists i :: 0 <= i < |OtherUsers(us, id)| && OtherUsers(us, id)[i].id == us[k].id
  {
    if k > 0 {
      OtherIsListed(us[1..], id, k - 1);
      var i :| 0 <= i < |OtherUsers(us[1..], id)| && OtherUsers(us[1..], id)[i].id == us[k].id;
      assert OtherUsers(us, id)[if us[0].id == id then i else i + 1].id == us[k].id;
    } else {
      assert OtherUsers(us, id)[0].id == us[0].id;
    }
  }

  lemma {:induction false} PackedIsText(us: seq<Recipient>)
    requires forall i :: 0 <= i < |us| ==> NUL !in us[i].login
    ensures NUL !in Packed(us)
  {
    if us != [] {
      PackedIsText(us[1..]);
      DecimalChars(us[0].id);
    }
  }

  /** The list as the client gets it is the packed text, and its ids are small. */
  lemma ListText(db: Db, us: seq<User>, id: nat)
    requires DbOk(db) && us <= db.users && NulFree(us)
    ensures SmallIds(OtherUsers(us, id)) && CStr(Packed(OtherUsers(us, id))) == Packed(OtherUsers(us, id))
  {
    var others := OtherUsers(us, id);
    forall i | 0 <= i < |others| ensures NUL !in others[i].login && others[i].id <= LONG_MAX {
      OtherMember(us, id, i);
    }
    PackedIsText(others);
  }

  /** The user is among the others of the list. */
  ghost predicate OtherUser(us: seq<User>, id: nat, uid: nat) { uid != id && FindUser(us, uid).Some? }

  lemma OthersListed(us: seq<User>, id: nat, uid: nat)
    ensures (exists i :: 0 <= i < |OtherUsers(us, id)| && OtherUsers(us, id)[i].id == uid) <==> OtherUser(us, id, uid)
  {
    FindUserFinds(us, uid);
    if i :| 0 <= i < |OtherUsers(us, id)| && OtherUsers(us, id)[i].id == uid {
      OtherMember(us, id, i);
    }
    if OtherUser(us, id, uid) {
      var k :| 0 <= k < |us| && us[k] == FindUser(us, uid).value;
      OtherIsListed(us, id, k);
    }
  }

  function OthersOf(c: Chat): seq<Recipient> { OtherUsers(c.listed, c.usrDbId) }

  /** The state in which the client has a list in hand. */
  ghost predicate ListInHand(c: Chat) {
    StateOk(c) && c.inbox.mtype == eAvailableUsers && NulFree(c.listed)
  }

  /** Main result: a list in hand never makes the client loop for ever. It throws, whatever is typed, exactly when some
      listed login is bad; otherwise the keys to pick from are the other users and the stray keys. */
  lemma ListsAreRead(c: Chat)
    requires ListInHand(c)
    ensures BadLogins(OthersOf(c)) ==> React(c.usrDbId, c.inbox, c.lines) == Aborts
    ensures !BadLogins(OthersOf(c)) ==>
              && Unpack(c.inbox.body, map[]).Users?
              && React(c.usrDbId, c.inbox, c.lines) ==
                   PickUser(c.usrDbId, Unpack(c.inbox.body, map[]).users, c.inbox, c.lines)
              && forall uid: nat :: uid in Unpack(c.inbox.body, map[]).users <==>
                   OtherUser(c.listed, c.usrDbId, uid) || StrayKey(OthersOf(c), uid)
  {
    hide Unpack, Packed, OtherUsers, StrayKey, BadLogins, FindUser, DbOk;
    ListText(c.db, c.listed, c.usrDbId);
    PackedListsExactly(OthersOf(c));
    forall uid: nat
      ensures (exists i :: 0 <= i < |OthersOf(c)| && OthersOf(c)[i].id == uid) <==> OtherUser(c.listed, c.usrDbId, uid)
    {
      OthersListed(c.listed, c.usrDbId, uid);
    }
  }

  /** One user with such a login is enough: any client that gets a list with it dies, whatever is typed. */
  lemma ThrowingList(c: Chat, i: nat)
    requires ListInHand(c) && i < |OthersOf(c)| && OthersOf(c)[i].login == "a#|"
    ensures React(c.usrDbId, c.inbox, c.lines) == Aborts
  {
    ThrowingPiece(i + 1 < |OthersOf(c)|);
    hide React, OtherUsers, LoginPiece, StateOk;
    ListsAreRead(c);
  }

  /** The client is about to send a text to one user. */
  ghost predicate Writes(c: Chat) {
    var r := React(c.usrDbId, c.inbox, c.lines);
    r.Sends? && r.msg.mtype == eSendToUserMsgReady
  }

  lemma PickedKey(c: Chat) returns (uid: nat)
    requires c.inbox.mtype == eAvailableUsers && Unpack(c.inbox.body, map[]).Users? && Writes(c)
    ensures uid in Unpack(c.inbox.body, map[]).users
    ensures React(c.usrDbId, c.inbox, c.lines).msg.user == Decimal(uid)
  {
    hide Unpack;
    var r := PickUser(c.usrDbId, Unpack(c.inbox.body, map[]).users, c.inbox, c.lines);
    assert r == React(c.usrDbId, c.inbox, c.lines);
    uid :| uid in Unpack(c.inbox.body, map[]).users && r.msg.user == Decimal(uid);
  }

  /** Main result: a text goes to a user of the list other than the sender, who is still there under the same login when
      it arrives, or else to a stray key of the list. There are none where no login holds a '#'. */
  lemma RecipientsExist(c: Chat, ops: seq<DbOp>) returns (uid: nat)
    requires ListInHand(c) && Writes(c)
    ensures React(c.usrDbId, c.inbox, c.lines).msg.user == Decimal(uid)
    ensures StrayKey(OthersOf(c), uid) ||
            (OtherUser(c.listed, c.usrDbId, uid) && FindUser(RunOps(c.db, ops).users, uid) == FindUser(c.listed, uid))
    ensures MarkFree(OthersOf(c)) ==> !StrayKey(OthersOf(c), uid)
  {
    hide React, Unpack, Packed, OtherUsers, StrayKey, BadLogins, MarkFree, DbOk;
    ListsAreRead(c);
    uid := PickedKey(c);
    if OtherUser(c.listed, c.usrDbId, uid) {
      RunOpsAppends(c.db, ops);
      FindUserStays(c.listed, RunOps(c.db, ops).users, uid);
    }
    if MarkFree(OthersOf(c)) {
      MarkFreeLogins(OthersOf(c), uid);
    }
  }

  // Line by line

  /** A key of the client's map. */
  ghost predicate IsKey(c: Chat, uid: nat) {
    var u := Unpack(c.inbox.body, map[]);
    u.Users? && uid in u.users
  }

  /** What the first line does while a list is in hand: x ends the session; a key is picked; a number out of range makes
      the client die; and anything else, empty lines included, is passed over. */
  lemma PickingExactly(c: Chat)
    requires c.inbox.mtype == eAvailableUsers && Unpack(c.inbox.body, map[]).Users? && c.lines != []
    ensures var r, line, rest := React(c.usrDbId, c.inbox, c.lines), c.lines[0], c.lines[1..];
            && (line != "" && line[0] == 'x' ==>
                  r.Sends? && r.msg.mtype == eQuit && r.rest == rest && r.usrDbId == c.usrDbId)
            && (line == "" || (line[0] != 'x' && (Stol(line).Invalid? ||
                                 (Stol(line).Value? && !IsKey(c, SizeT(Stol(line).number))))) ==>
                  r == React(c.usrDbId, c.inbox, rest))
            && (line != "" && line[0] != 'x' && Stol(line).OutOfRange? ==> r == Aborts)
  {
    assert React(c.usrDbId, c.inbox, c.lines) == OnUsers(c.usrDbId, c.inbox, c.lines);
    assert React(c.usrDbId, c.inbox, c.lines[1..]) == OnUsers(c.usrDbId, c.inbox, c.lines[1..]);
    hide Unpack, SizeT, React, Stol;
  }

  /** And what the line behind a picked key does: x ends the session, an empty line is passed over, and any other is the
      text. */
  lemma TypingExactly(c: Chat, n: int)
    requires c.inbox.mtype == eAvailableUsers && IsKey(c, SizeT(n)) && |c.lines| >= 2 && Stol(c.lines[0]) == Value(n)
    ensures var r, line, rest := React(c.usrDbId, c.inbox, c.lines), c.lines[1], c.lines[2..];
            if line == "" then r == React(c.usrDbId, c.inbox, [c.lines[0]] + rest)
            else if line[0] == 'x' then r.Sends? && r.msg.mtype == eQuit && r.rest == rest && r.usrDbId == c.usrDbId
            else r == Sends(c.usrDbId, IoMsg(eSendToUserMsgReady, CStr(line), Decimal(SizeT(n)), ""), rest)
  {
    var short := [c.lines[0]] + c.lines[2..];
    assert c.lines[0] != "" && c.lines[0][0] != 'x';
    assert React(c.usrDbId, c.inbox, c.lines) == OnUsers(c.usrDbId, c.inbox, c.lines);
    assert React(c.usrDbId, c.inbox, short) == OnUsers(c.usrDbId, c.inbox, short);
    hide Unpack, SizeT, React, Stol;
    assert c.lines[1..][1..] == c.lines[2..] && short[1..] == c.lines[2..];
    assert OnUsers(c.usrDbId, c.inbox, c.lines) == TypeText(c.usrDbId, SizeT(n), c.inbox, c.lines[1..]);
    assert OnUsers(c.usrDbId, c.inbox, short) == TypeText(c.usrDbId, SizeT(n), c.inbox, short[1..]);
    hide OnUsers, PickUser;
  }

  // What can be picked

  function Power10(k: nat): nat {
    if k == 0 then 1 else 10 * Power10(k - 1)
  }

  lemma {:induction false} DecimalLength(n: nat, k: nat)
    requires k >= 1 && n < Power10(k)
    ensures |Decimal(n)| <= k
  {
    if n >= 10 {
      assert k > 1 by {
        assert Power10(1) == 10 * Power10(0);
      }
      DecimalLength(n / 10, k - 1);
    }
  }

  /** The line that types a long. */
  function Typed(n: int): string { if n < 0 then "-" + Decimal(-n) else Decimal(n) }

  lemma TypedLine(n: int)
    requires -(LONG_MAX + 1) <= n <= LONG_MAX
    ensures |Typed(n)| < MSG_LENGTH && Stol(Typed(n)) == Value(n)
  {
    var size: nat := if n < 0 then -n else n;
    assert Power10(20) > LONG_MAX + 1 by {
      assert Power10(5) == 100_000;
      assert Power10(10) == 10_000_000_000;
      assert Power10(15) == 1_000_000_000_000_000;
    }
    DecimalLength(size, 20);
    if n < 0 {
      MinusDecimal(size);
    } else {
      assert Decimal(n) + "" == Decimal(n);
      StolDecimal(n, "");
    }
  }

  lemma MinusDecimal(n: nat)
    requires n <= LONG_MAX + 1
    ensures Stol("-" + Decimal(n)) == Value(0 - n)
  {
    var d := Decimal(n);
    DecimalChars(n);
    assert ("-" + d)[1..] == d && d + "" == d;
    DigitRunStops(d, 10, "");
    PrefixValueOfNumeral(d, 10, "");
    NumeralRoundTrip(n, 10);
  }

  /** Typing a number picks the key it is converted to, negative numbers included, and the text goes to that key. */
  lemma KeysArePicked(c: Chat, line: Line, n: int, text: Line)
    requires c.inbox.mtype == eAvailableUsers && IsKey(c, SizeT(n)) && Stol(line) == Value(n)
    requires c.lines == [line, text] && text != "" && text[0] != 'x'
    ensures React(c.usrDbId, c.inbox, c.lines) ==
              Sends(c.usrDbId, IoMsg(eSendToUserMsgReady, CStr(text), Decimal(SizeT(n)), ""), [])
  {
    assert React(c.usrDbId, c.inbox, c.lines) == OnUsers(c.usrDbId, c.inbox, c.lines);
    hide Unpack, SizeT, React;
    var us := Unpack(c.inbox.body, map[]).users;
    assert line != "" && line[0] != 'x';
    assert c.lines[1..] == [text] && [text][1..] == [];
    assert PickUser(c.usrDbId, us, c.inbox, c.lines) == TypeText(c.usrDbId, SizeT(n), c.inbox, [text]);
  }

  /** Some lines make the client send a text to this id. */
  ghost predicate CanBePicked(c: Chat, uid: nat) {
    exists lines: seq<Line> ::
      var d := c.(lines := lines);
      Writes(d) && React(d.usrDbId, d.inbox, d.lines).msg.user == Decimal(uid)
  }

  lemma KeyIsTyped(c: Chat, uid: nat) returns (n: int)
    requires IsKey(c, uid)
    ensures -(LONG_MAX + 1) <= n <= LONG_MAX && SizeT(n) == uid
  {
    UnpackPieces(c.inbox.body, map[]);
    hide Unpack, Stol;
    n :| HasPiece(c.inbox.body, Value(n)) && SizeT(n) == uid;
    var k :| 0 <= k <= |c.inbox.body| && IsPiece(c.inbox.body, k, Value(n));
    StolIsLong(c.inbox.body[k..][..Find(c.inbox.body[k..], '|')]);
  }

  lemma StolIsLong(s: string)
    ensures Stol(s).Value? ==> -(LONG_MAX + 1) <= Stol(s).number <= LONG_MAX
  {
  }

  /** Main result: what can be picked from a list, by typing whatever lines, are the keys of the map and no other id. */
  lemma PicksAreKeys(c: Chat, uid: nat)
    requires c.inbox.mtype == eAvailableUsers
    ensures CanBePicked(c, uid) <==> IsKey(c, uid)
  {
    hide React, Unpack, SizeT, Typed, Stol;
    if lines: seq<Line> :|
      var d := c.(lines := lines);
      Writes(d) && React(d.usrDbId, d.inbox, d.lines).msg.user == Decimal(uid)
    {
      var d := c.(lines := lines);
      PickNeedsList(d);
      var k := PickedKey(d);
      DecimalInjective(k, uid);
    }
    if IsKey(c, uid) {
      var n := KeyIsTyped(c, uid);
      TypedLine(n);
      var lines: seq<Line> := [Typed(n), "t"];
      KeysArePicked(c.(lines := lines), lines[0], n, "t");
      assert Writes(c.(lines := lines));
    }
  }

  lemma PickNeedsList(c: Chat)
    requires c.inbox.mtype == eAvailableUsers && Writes(c)
    ensures Unpack(c.inbox.body, map[]).Users?
  {
  }

  /** So whatever is typed, a list leads to existing other users only, exactly when its stray keys happen to be such
      users. */
  lemma OnlyOthersExactly(c: Chat)
    requires ListInHand(c) && !BadLogins(OthersOf(c))
    ensures forall uid: nat :: CanBePicked(c, uid) <==>
              OtherUser(c.listed, c.usrDbId, uid) || StrayKey(OthersOf(c), uid)
    ensures (forall uid: nat :: CanBePicked(c, uid) ==> OtherUser(c.listed, c.usrDbId, uid)) <==>
            (forall uid: nat :: StrayKey(OthersOf(c), uid) ==> OtherUser(c.listed, c.usrDbId, uid))
  {
    hide React, Unpack, OtherUsers, StrayKey, BadLogins, OtherUser, CanBePicked;
    ListsAreRead(c);
    forall uid: nat ensures CanBePicked(c, uid) <==>
        OtherUser(c.listed, c.usrDbId, uid) || StrayKey(OthersOf(c), uid)
    {
      PicksAreKeys(c, uid);
    }
  }

  lemma PrivateHandled(db: Db, s: Session, m: IoMsg, call: Call, uid: nat)
    requires m.mtype == eSendToUserMsgReady && s.usrDbId != 0 && m.user == Decimal(uid) &&
             call.first.env.fault == NoFault
    ensures NoNullRead(db, s, m)
    ensures var (db1, sent) := SendPrivate(db, m.body, s.usrDbId, uid, call.first.env);
            sent && Handle(db, s, m, call) ==
                Handled(db1, s, CLEARED.(mtype := eMsgDelivered, body := SENT_TEXT), false)
  {
    hide OnAuthAdmin, OnBatchAuth, OnBatchReg, OnBan, OnLogin, OnPassword, OnUserMsgs, OnSendToAll, OnSendToUser,
         PoolReply, NextUser, Fetched;
    ParseDecimal(s.usrDbId);
    ParseDecimal(uid);
  }

  /** The text is one of the lines. */
  ghost predicate IsTyped(lines: seq<Line>, text: string) {
    exists k :: 0 <= k < |lines| && lines[k] != "" && text == CStr(lines[k])
  }

  lemma TypedBehind(lines: seq<Line>, text: string)
    requires lines != [] && IsTyped(lines[1..], text)
    ensures IsTyped(lines, text)
  {
    var k :| 0 <= k < |lines[1..]| && lines[1..][k] != "" && text == CStr(lines[1..][k]);
    assert lines[k + 1] == lines[1..][k];
  }

  lemma {:induction false} TypedText(id: nat, uid: nat, m: IoMsg, lines: seq<Line>)
    ensures var r := TypeText(id, uid, m, lines);
            r.Sends? && r.msg.mtype == eSendToUserMsgReady ==> IsTyped(lines, r.msg.body)
  {
    if lines != [] && lines[0] == "" {
      TypedText(id, uid, m, lines[1..]);
      var r := TypeText(id, uid, m, lines[1..]);
      if r.Sends? && r.msg.mtype == eSendToUserMsgReady {
        TypedBehind(lines, r.msg.body);
      }
    }
  }

  /** What is sent is one of the typed lines. */
  lemma {:induction false} PickedText(id: nat, us: map<nat, string>, m: IoMsg, lines: seq<Line>)
    ensures var r := PickUser(id, us, m, lines);
            r.Sends? && r.msg.mtype == eSendToUserMsgReady ==> IsTyped(lines, r.msg.body)
  {
    hide TypeText, Stol, SizeT, IsTyped;
    if lines != [] {
      var r, n := PickUser(id, us, m, lines), Stol(lines[0]);
      if n.Value? && SizeT(n.number) in us && r == TypeText(id, SizeT(n.number), m, lines[1..]) {
        TypedText(id, SizeT(n.number), m, lines[1..]);
      } else {
        PickedText(id, us, m, lines[1..]);
      }
      if r.Sends? && IsTyped(lines[1..], r.msg.body) {
        TypedBehind(lines, r.msg.body);
      }
    }
  }

  /** Main result: without SQL failures such a text is delivered: it adds one message from the session's user to the
      picked id, with a line that was typed, shown to exactly these two, and the client is told so. */
  lemma PickedIsDelivered(c: Chat, world: World, id: nat) returns (uid: nat)
    requires LoginOk(c) && ListInHand(c) && Writes(c) && c.status == Talking && world.call.first.env.fault == NoFault
    ensures React(c.usrDbId, c.inbox, c.lines).msg.user == Decimal(uid)
    ensures var db, d := RunOps(c.db, world.before), Step(c, world);
            && d.inbox.mtype == eMsgDelivered && d.session == c.session
            && |d.db.messages| == |db.messages| + 1
            && IsTyped(c.lines, d.db.messages[|db.messages|].body)
            && Delivery.SentBy(db, d.db, c.session.usrDbId, Some(uid), d.db.messages[|db.messages|].body)
            && (Readers.VisibleTo(d.db, d.db.messages[|db.messages|], id) <==> id == c.session.usrDbId || id == uid)
  {
    hide React, Handle, NoNullRead, ListInHand, UsersOk, StrayKey, OtherUser;
    uid := RecipientsExist(c, world.before);
    WorldOk(c, world);
    var db, msg := RunOps(c.db, world.before), React(c.usrDbId, c.inbox, c.lines).msg;
    SendingId(c);
    PrivateHandled(db, c.session, msg, world.call, uid);
    OwnedId(db, c.session.user, c.session.usrDbId);
    ListedText(c);
    hide IsTyped, Delivery.SentBy;
    Delivery.PrivateDelivery(db, msg.body, c.session.usrDbId, uid, world.call.first.env, id);
    PrivateSentBy(db, msg.body, c.session.usrDbId, uid, world.call.first.env);
  }

  lemma PrivateSentBy(db: Db, body: string, fromId: nat, toId: nat, env: Env)
    requires SendPrivate(db, body, fromId, toId, env).1
    ensures Delivery.SentBy(db, SendPrivate(db, body, fromId, toId, env).0, fromId, Some(toId), body)
  {
    Delivery.PrivateExactly(db, body, fromId, toId, env);
  }

  lemma ListedText(c: Chat)
    requires c.inbox.mtype == eAvailableUsers && Writes(c)
    ensures IsTyped(c.lines, React(c.usrDbId, c.inbox, c.lines).msg.body)
  {
    hide Unpack, PickUser, IsTyped;
    var u := Unpack(c.inbox.body, map[]);
    if u.Users? {
      PickedText(c.usrDbId, u.users, c.inbox, c.lines);
    }
  }

  lemma SendingId(c: Chat)
    requires LoginOk(c) && ListInHand(c)
    ensures c.inbox.mtype == eAvailableUsers && c.session.usrDbId == c.usrDbId != 0
  {
  }
}
