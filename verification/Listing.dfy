/** The user listing, streamed to a client one row per request. */
module Listing {
  import opened Text
  import opened Records
  import opened Tables
  import opened TableLaws
  import opened Accounts
  import opened Session
  import opened Server

  /** The rows as their readers see them. */
  function Shown(rows: seq<string>): (v: seq<string>)
    ensures |v| == |rows|
  {
    seq(|rows|, i requires 0 <= i < |rows| => CStr(rows[i]))
  }

  /** The rows a step adds to the listing buffer of a session. */
  function StepFetches(v: Server, ev: Event, sid: nat): seq<string> {
    if Enabled(v, ev) && ev.Receive? && ev.sid == sid && ev.m.mtype == eAuthAdmin && !Fails(ev.around.env, 0)
    then RowTexts(UserRows(v.db)) else []
  }

  /** The row bodies a step sends to the client of a session. */
  function StepSends(v: Server, ev: Event, sid: nat): seq<string> {
    if Enabled(v, ev) && ev.Receive? && ev.sid == sid then
      var out := Begin(v.db, v.conns[sid].session, ev.m, ev.deadline, ev.around);
      if out.reply.mtype == eUserNextAdmin then [out.reply.body] else []
    else []
  }

  /** The concatenation of all listings a session has fetched in a run. */
  function Fetches(evs: seq<Event>, sid: nat): seq<string> {
    if evs == [] then []
    else Fetches(evs[..|evs| - 1], sid) + StepFetches(Run(START, evs[..|evs| - 1]), evs[|evs| - 1], sid)
  }

  function Sends(evs: seq<Event>, sid: nat): seq<string> {
    if evs == [] then []
    else Sends(evs[..|evs| - 1], sid) + StepSends(Run(START, evs[..|evs| - 1]), evs[|evs| - 1], sid)
  }

  function BufferOf(v: Server, sid: nat): seq<string> {
    if sid in v.conns then v.conns[sid].session.buffer else []
  }

  /** Messages that are not about the listing leave the buffer alone and send no row. */
  lemma OtherMessages(db: Db, s: Session, m: IoMsg, deadline: string, around: Around)
    requires NoNullRead(db, s, m) && m.mtype != eAuthAdmin && m.mtype != eUserNextAdmin
    ensures Begin(db, s, m, deadline, around).session.buffer == s.buffer
    ensures Begin(db, s, m, deadline, around).reply.mtype != eUserNextAdmin
  {
    hide DeliverMsg, BanUser, AddUser, PackUsers, GetAllMsgs, GetUserMsgsText, GetUserMsgsNumber, UserAuthOk, UserRows,
         LoginUsed, FindLogin, GetUser;
  }

  lemma HeadAndRest(buffer: seq<string>)
    requires buffer != []
    ensures [CStr(buffer[0])] + Shown(buffer[1..]) == Shown(buffer)
  {
  }

  /** Handling a message: what it sends and leaves is what was there and what it fetches. */
  lemma BeginConserves(db: Db, s: Session, m: IoMsg, deadline: string, around: Around)
    requires NoNullRead(db, s, m)
    ensures var out := Begin(db, s, m, deadline, around);
            var sent := if out.reply.mtype == eUserNextAdmin then [out.reply.body] else [];
            var fetched := if m.mtype == eAuthAdmin && !Fails(around.env, 0) then RowTexts(UserRows(db)) else [];
            sent + Shown(out.session.buffer) == Shown(s.buffer + fetched)
  {
    assert s.buffer + [] == s.buffer && [] + Shown(s.buffer) == Shown(s.buffer);
    if m.mtype == eAuthAdmin {
      var buffer := Fetched(db, s, around.env).buffer;
      if buffer != [] {
        HeadAndRest(buffer);
      }
    } else if m.mtype == eUserNextAdmin {
      if s.buffer != [] {
        HeadAndRest(s.buffer);
      }
    } else {
      OtherMessages(db, s, m, deadline, around);
    }
  }

  lemma StepConserves(v: Server, ev: Event, sid: nat)
    ensures StepSends(v, ev, sid) + Shown(BufferOf(Step(v, ev), sid)) ==
              Shown(BufferOf(v, sid) + StepFetches(v, ev, sid))
  {
    assert BufferOf(v, sid) + [] == BufferOf(v, sid);
    if Enabled(v, ev) && ev.Receive? && ev.sid == sid {
      BeginConserves(v.db, v.conns[sid].session, ev.m, ev.deadline, ev.around);
    }
  }

  lemma Chained(sends: seq<string>, buffer: seq<string>, fetches: seq<string>, sent: seq<string>, left: seq<string>,
          more: seq<string>)
    requires sends + Shown(buffer) == Shown(fetches) && sent + Shown(left) == Shown(buffer + more)
    ensures (sends + sent) + Shown(left) == Shown(fetches + more)
  {
    assert Shown(buffer + more) == Shown(buffer) + Shown(more);
    assert Shown(fetches + more) == Shown(fetches) + Shown(more);
    Associative(sends, Shown(buffer), Shown(more));
    Associative(sends, sent, Shown(left));
  }

  /** Main result: in every run, for every session, the rows sent so far followed by the rows still in the buffer
      are all the listings it fetched, row by row and in order. */
  lemma {:induction false} ListingIsConserved(evs: seq<Event>, sid: nat)
    ensures Sends(evs, sid) + Shown(BufferOf(Run(START, evs), sid)) == Shown(Fetches(evs, sid))
  {
    if evs != [] {
      var front, ev := evs[..|evs| - 1], evs[|evs| - 1];
      var v := Run(START, front);
      ListingIsConserved(front, sid);
      StepConserves(v, ev, sid);
      Chained(Sends(front, sid), BufferOf(v, sid), Fetches(front, sid),
              StepSends(v, ev, sid), BufferOf(Step(v, ev), sid), StepFetches(v, ev, sid));
    }
  }

  lemma NextRowReply(db: Db, s: Session, m: IoMsg, deadline: string, around: Around)
    requires m.mtype == eUserNextAdmin
    ensures NoNullRead(db, s, m)
    ensures var out := Begin(db, s, m, deadline, around);
            if s.buffer == [] then out.reply.mtype == eNoMsg && out.session.buffer == []
            else out.reply.mtype == eUserNextAdmin
  {
  }

  /** A request for the next row is answered with eNoMsg exactly when the buffer is empty, and then every listing the
      session fetched has been sent exactly once. */
  lemma DrainedListing(evs: seq<Event>, ev: Event)
    requires Enabled(Run(START, evs), ev) && ev.Receive? && ev.m.mtype == eUserNextAdmin
    ensures var v := Run(START, evs);
            var reply := Begin(v.db, v.conns[ev.sid].session, ev.m, ev.deadline, ev.around).reply;
            && (reply.mtype == eNoMsg <==> BufferOf(v, ev.sid) == [])
            && (reply.mtype == eNoMsg ==> Sends(evs + [ev], ev.sid) == Shown(Fetches(evs + [ev], ev.sid)))
  {
    hide Begin, Sends, Fetches;
    var v, all := Run(START, evs), evs + [ev];
    assert all[..|evs|] == evs && all[|all| - 1] == ev;
    NextRowReply(v.db, v.conns[ev.sid].session, ev.m, ev.deadline, ev.around);
    ListingIsConserved(all, ev.sid);
    if BufferOf(v, ev.sid) == [] {
      assert Run(START, all) == Step(v, ev);
      assert Sends(all, ev.sid) + [] == Sends(all, ev.sid) && Shown(BufferOf(Run(START, all), ev.sid)) == [];
    }
  }

  /** The fields of a user in the listing. */
  function UserFields(u: User, hash: string, till: string): seq<string> {
    [Decimal(u.id), u.login, u.name, u.email, hash, till]
  }

  /** Main result: a listing has one text per user, and splitting it gives the user's six fields back exactly when they
      are free of the divider and of NUL; the last one is empty exactly for the users without a ban row. */
  lemma ListingFields(db: Db, i: nat)
    requires DbOk(db) && NoNullHash(UserRows(db)) && i < |db.users|
    requires forall b :: b in db.bans ==> b.deadline != ""
    ensures |RowTexts(UserRows(db))| == |db.users| == |db.userData| && db.userData[i].pwdhash.Some?
    ensures var fs := UserFields(db.users[i], db.userData[i].pwdhash.value, BannedTill(db.bans, db.users[i].id));
            && (Fields(Shown(RowTexts(UserRows(db)))[i]) == fs <==> AllPlain(fs))
            && (fs[5] == "" <==> forall j :: 0 <= j < |db.bans| ==> db.bans[j].userId != db.users[i].id)
  {
    OneRowPerUser(db);
    var row := UserRows(db)[i];
    assert row.pwdhash.Some?;
    RowRoundTrip(RowFields(row));
    BansOfAtMostOne(db.bans, row.user.id);
    BansOfMember(db.bans, row.user.id);
  }

  lemma NullRows(db: Db)
    requires DbOk(db)
    ensures NoNullHash(UserRows(db)) <==> forall i :: 0 <= i < |db.userData| ==> db.userData[i].pwdhash.Some?
  {
    OneRowPerUser(db);
    assert forall i :: 0 <= i < |db.users| ==> UserRows(db)[i].pwdhash == db.userData[i].pwdhash;
  }

  lemma {:induction false} MissingRow(ds: seq<UserData>, id: nat) returns (i: nat)
    requires HashOf(ds, id) == Some(None)
    ensures i < |ds| && ds[i].pwdhash.None?
  {
    if ds[0].userId == id {
      i := 0;
    } else {
      i := MissingRow(ds[1..], id);
      i := i + 1;
    }
  }

  lemma ReadableExactly(v: Server)
    requires ServerOk(v)
    ensures NoNullHash(UserRows(v.db)) <==> v.failed == {} && forall sid, id :: !Awaits(v, sid, id)
  {
    NullRows(v.db);
    if id :| id in v.failed {
      var i := MissingRow(v.db.userData, id);
    }
    if sid, id :| Awaits(v, sid, id) {
      var i := MissingRow(v.db.userData, id);
    }
  }

  /** Main result: in every run the listing can be read exactly as long as no registration is pending and none has
      failed. */
  lemma ListingIsReadable(evs: seq<Event>)
    ensures var v := Run(START, evs);
            NoNullHash(UserRows(v.db)) <==> v.failed == {} && forall sid, id :: !Awaits(v, sid, id)
  {
    StartOk();
    RunOk(START, evs);
    ReadableExactly(Run(START, evs));
  }

  /** The three steps of a registration by a new session whose second statement fails. */
  lemma RegistrationFails(v: Server, sid: nat, m: IoMsg, first: Around, second: Around)
    requires sid !in v.conns && m.mtype == eBatchReg && Fails(second.env, 0)
    requires AddUser(v.db, m.user, first.env).1.Some?
    ensures v.db.nextUser in Step(Step(Step(v, Connect(sid)), Receive(sid, m, "", first)), Resume(sid, second)).failed
  {
    var w := Step(v, Connect(sid));
    assert w.conns[sid] == Conn(NEW_SESSION, Idle) && w.db == v.db;
    var u := Step(w, Receive(sid, m, "", first));
    assert sid in u.conns && u.conns[sid].pending == AwaitHash(v.db.nextUser, m);
  }

  /** Main result: one such registration, in any run and with any free login, makes every later listing unreadable,
      whatever happens after it. */
  lemma OneFailureIsEnough(evs: seq<Event>, sid: nat, m: IoMsg, first: Around, second: Around, later: seq<Event>)
    requires sid !in Run(START, evs).conns && m.mtype == eBatchReg && Fails(second.env, 0)
    requires AddUser(Run(START, evs).db, m.user, first.env).1.Some?
    ensures var w := Step(Step(Step(Run(START, evs), Connect(sid)), Receive(sid, m, "", first)), Resume(sid, second));
            !NoNullHash(UserRows(Run(w, later).db))
  {
    hide Step, ServerOk, NoNullHash;
    var v := Run(START, evs);
    StartOk();
    RunOk(START, evs);
    StepOk(v, Connect(sid));
    StepOk(Step(v, Connect(sid)), Receive(sid, m, "", first));
    var u := Step(Step(v, Connect(sid)), Receive(sid, m, "", first));
    StepOk(u, Resume(sid, second));
    RegistrationFails(v, sid, m, first, second);
    RunOk(Step(u, Resume(sid, second)), later);
    FailedStays(Step(u, Resume(sid, second)), later);
    ReadableExactly(Run(Step(u, Resume(sid, second)), later));
  }
}
