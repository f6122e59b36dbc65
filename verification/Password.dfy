/** Passwords from the keyboard to the hash column and back: what a registration stores is never changed, and a
    later login is accepted exactly when the SHA-1 digests of the two passwords are the same. */
module Password {
  import F = Fips180
  import S = Sha1
  import opened Text
  import opened TypedText
  import opened Digest
  import opened Tables
  import opened TableLaws
  import opened Accounts
  import opened Delivery
  import opened Session
  import opened Server

  function Number(w: F.Word): Uint32 { w as int }

  /** The five words of a hash value as numbers. */
  function Words(h: F.State): (ws: seq<Uint32>)
    ensures |ws| == WORDS
  {
    [Number(h.a), Number(h.b), Number(h.c), Number(h.d), Number(h.e)]
  }

  /** The text the clients send for a password. */
  function PasswordText(pwd: string): string
    requires |pwd| <= S.MAX_LENGTH
  {
    HashText(Words(S.FirstBlockHash(Bytes(pwd))))
  }

  /** The console client leaves the empty password as it is. */
  function PwdHash(pwd: string): string
    requires |pwd| <= S.MAX_LENGTH
  {
    if pwd == "" then "" else PasswordText(pwd)
  }

  /** The hash text of a password, empty ones included. */
  method TextOfPassword(pwd: string) returns (hash: string)
    requires |pwd| <= S.MAX_LENGTH
    ensures hash == PasswordText(pwd)
  {
    var bytes := Bytes(pwd);
    var message := new F.Byte[|bytes|](i requires 0 <= i < |bytes| => bytes[i]);
    assert message[..|bytes|] == bytes;
    var digest := S.Sha1(message, |pwd|);
    var numbers := [Number(digest[0]), Number(digest[1]), Number(digest[2]), Number(digest[3]), Number(digest[4])];
    hash := HashToString(numbers);
  }

  lemma NumberInjective(v: F.Word, w: F.Word)
    requires Number(v) == Number(w)
    ensures v == w
  {
    assert (v as int) as F.Word == v && (w as int) as F.Word == w;
  }

  lemma WordsInjective(g: F.State, h: F.State)
    requires Words(g) == Words(h)
    ensures g == h
  {
    var v, w := Words(g), Words(h);
    assert v[0] == w[0] && v[1] == w[1] && v[2] == w[2] && v[3] == w[3] && v[4] == w[4];
    NumberInjective(g.a, h.a);
    NumberInjective(g.b, h.b);
    NumberInjective(g.c, h.c);
    NumberInjective(g.d, h.d);
    NumberInjective(g.e, h.e);
  }

  /** Passwords of any length have the same text exactly when the hashes of their first blocks are the same. */
  lemma SameText(p: string, q: string)
    requires |p| <= S.MAX_LENGTH && |q| <= S.MAX_LENGTH
    ensures PasswordText(p) == PasswordText(q) <==> S.FirstBlockHash(Bytes(p)) == S.FirstBlockHash(Bytes(q))
  {
    var g, h := S.FirstBlockHash(Bytes(p)), S.FirstBlockHash(Bytes(q));
    if HashText(Words(g)) == HashText(Words(h)) {
      HashTextInjective(Words(g), Words(h));
      WordsInjective(g, h);
    }
  }

  /** For at most 55 bytes these are the SHA-1 digests. */
  lemma SameDigest(p: string, q: string)
    requires |p| <= 55 && |q| <= 55
    ensures PasswordText(p) == PasswordText(q) <==> F.Digest(Bytes(p)) == F.Digest(Bytes(q))
  {
    S.ShortMessagesGetTheDigest(Bytes(p));
    S.ShortMessagesGetTheDigest(Bytes(q));
    SameText(p, q);
  }

  /** Reading the text of a password of at most 55 bytes gives the five words of its SHA-1 digest, in their order. */
  lemma PasswordTextIsDigest(p: string)
    requires |p| <= 55
    ensures var d := F.Digest(Bytes(p));
            HashWords(PasswordText(p), WORDS) == [d.a as int, d.b as int, d.c as int, d.d as int, d.e as int]
  {
    S.ShortMessagesGetTheDigest(Bytes(p));
    var ws := Words(F.Digest(Bytes(p)));
    HashTextIsJoined(ws);
    JoinedChars(ws);
    DigestRoundTrip(ws);
  }

  /** Two passwords that agree in their first 64 bytes have the same text, whatever follows. */
  lemma LongPasswordsAreCut(p: string, q: string)
    requires 64 <= |p| <= S.MAX_LENGTH && 64 <= |q| <= S.MAX_LENGTH && p[..64] == q[..64]
    ensures PwdHash(p) == PwdHash(q)
  {
    assert forall i :: 0 <= i < 64 ==> p[i] == p[..64][i] && q[i] == q[..64][i];
    assert Bytes(p)[..64] == Bytes(q)[..64];
    S.LaterBlocksAreIgnored(Bytes(p), Bytes(q));
  }

  // The hash column ignores case, which does not matter for these texts

  predicate HashChar(c: char) { HexDigit(c) || c == '-' }

  predicate IsHashText(s: string) {
    s != "" && forall i :: 0 <= i < |s| ==> HashChar(s[i])
  }

  lemma {:induction false} JoinedIsHashText(ws: seq<Uint32>)
    requires ws != []
    ensures IsHashText(Joined(ws))
  {
    NumeralChars(ws[0], 16);
    if |ws| > 1 {
      JoinedIsHashText(ws[1..]);
    }
  }

  lemma PasswordTextChars(pwd: string)
    requires |pwd| <= S.MAX_LENGTH
    ensures IsHashText(PasswordText(pwd))
  {
    var ws := Words(S.FirstBlockHash(Bytes(pwd)));
    HashTextIsJoined(ws);
    JoinedIsHashText(ws);
  }

  /** The empty text for the empty password. For up to 55 bytes, reading the text gives the SHA-1 digest of the bytes
      that spell the password. */
  method CreatePwdHash(pwd: string) returns (hash: string)
    requires |pwd| <= S.MAX_LENGTH
    ensures hash == PwdHash(pwd)
    ensures hash == "" <==> pwd == ""
    ensures 0 < |pwd| <= 55 ==>
              var d := F.Digest(Bytes(pwd));
              HashWords(hash, WORDS) == [d.a as int, d.b as int, d.c as int, d.d as int, d.e as int]
    ensures OfBytes(pwd) ==> Spelled(Bytes(pwd)) == pwd
  {
    hide Bytes, Spelled, OfBytes, F.Digest, PasswordText, HashWords;
    if OfBytes(pwd) {
      BytesSpellTheText(pwd, pwd);
    }
    if |pwd| == 0 {
      return "";
    }
    hash := TextOfPassword(pwd);
    PasswordTextChars(pwd);
    if |pwd| <= 55 {
      PasswordTextIsDigest(pwd);
    }
  }

  lemma SameLoginOfHashTexts(s: string, t: string)
    requires IsHashText(s) && IsHashText(t)
    ensures SameLogin(s, t) <==> s == t
  {
    assert HashChar(s[|s| - 1]) && HashChar(t[|t| - 1]);
    var f, g := FoldCase(s), FoldCase(t);
    if f == g {
      assert |s| == |f| == |g| == |t|;
      forall i | 0 <= i < |s| ensures s[i] == t[i] {
        assert f[i] == g[i] && HashChar(s[i]) && HashChar(t[i]);
      }
    }
  }

  // A stored hash stays

  lemma StepKeepsHash(v: Server, ev: Event, id: nat, hash: string)
    requires ServerOk(v) && HashOf(v.db.userData, id) == Some(Some(hash))
    ensures HashOf(Step(v, ev).db.userData, id) == Some(Some(hash))
  {
    if Enabled(v, ev) {
      match ev
      case Connect(sid) =>
      case Receive(sid, m, deadline, around) =>
        BeginUsers(v.db, v.conns[sid].session, m, deadline, around);
        HashOfStays(v.db.userData, Step(v, ev).db.userData, id);
      case Resume(sid, around) =>
        var p := v.conns[sid].pending;
        if p.AwaitHash? {
          HashOfUpdated(v.db.userData, p.id, p.request.body, id);
        }
    }
  }

  /** Main result: no run of any sessions ever changes a hash that is stored. */
  lemma {:induction false} StoredHashStays(v: Server, evs: seq<Event>, id: nat, hash: string)
    requires ServerOk(v) && HashOf(v.db.userData, id) == Some(Some(hash))
    ensures HashOf(Run(v, evs).db.userData, id) == Some(Some(hash))
  {
    if evs != [] {
      var front := evs[..|evs| - 1];
      RunOk(v, front);
      StoredHashStays(v, front, id, hash);
      StepKeepsHash(Run(v, front), evs[|evs| - 1], id, hash);
    }
  }

  lemma {:induction false} AcceptedStays(v: Server, evs: seq<Event>)
    ensures v.accepted <= Run(v, evs).accepted
  {
    if evs != [] {
      AcceptedStays(v, evs[..|evs| - 1]);
    }
  }

  // Logins against an accepted registration

  /** After any run, the row of an accepted registration is what its login finds. */
  lemma AcceptedRow(v: Server, a: Accepted, login: string)
    requires ServerOk(v) && a in v.accepted && SameLogin(login, a.login)
    ensures FindLogin(v.db.users, login).Some? && FindLogin(v.db.users, login).value.id == a.id
    ensures HashOf(v.db.userData, a.id) == Some(Some(a.hash))
  {
    var k :| 0 <= k < |v.accepted| && v.accepted[k] == a;
    FindUserFinds(v.db.users, a.id);
    FindLoginFinds(v.db.users, login);
    OneUser(v.db, FindUser(v.db.users, a.id).value, FindLogin(v.db.users, login).value);
  }

  /** A password login against an accepted registration compares the texts, and takes the registered id. */
  lemma LoginAgainst(v: Server, a: Accepted, s: Session, m: IoMsg, around: Around)
    requires ServerOk(v) && a in v.accepted && SameLogin(s.user, a.login)
    requires m.mtype == ePassword && StartsWithE(m.user) && !Fails(around.env, 0)
    ensures NoNullRead(v.db, s, m)
    ensures Begin(v.db, s, m, "", around) ==
            if a.hash == m.body
            then ReplyTo(v.db, s.(usrDbId := a.id), IoMsg(eAuthOK, LOGIN_OK_TEXT, Decimal(a.id), ""))
            else ReplyTo(v.db, s, m.(mtype := eWrongPassword, body := WRONG_PASSWORD_TEXT))
  {
    hide ServerOk, OnAuthAdmin, OnBatchAuth, OnBatchReg, OnBan, OnLogin, OnUserMsgs, OnSendToAll, OnSendToUser,
         OnPrivate, PoolReply, NextUser, Fetched;
    AcceptedRow(v, a, s.user);
    hide FindLogin, HashOf, SameLogin;
  }

  /** An accepted registration is still on the books after any further run, with its id and hash. */
  lemma RegistrationStays(evs: seq<Event>, later: seq<Event>, a: Accepted)
    requires a in Run(START, evs).accepted
    ensures var v := Run(Run(START, evs), later);
            ServerOk(v) && a in v.accepted && HashOf(v.db.userData, a.id) == Some(Some(a.hash))
  {
    StartOk();
    RunOk(START, evs);
    var v := Run(START, evs);
    RunOk(v, later);
    AcceptedStays(v, later);
    var k :| 0 <= k < |v.accepted| && v.accepted[k] == a;
    assert Run(v, later).accepted[k] == a;
  }

  /** Main result: when any run has accepted a registration with password p, then after any further run a login with
      password q is answered with eAuthOK exactly when q is not empty and the first blocks of the two have the same
      hash; the session takes the registered id then. */
  lemma LoginMatchesHash(evs: seq<Event>, later: seq<Event>, a: Accepted, p: string, q: string, s: Session,
          m: IoMsg, around: Around)
    requires 0 < |p| <= S.MAX_LENGTH && |q| <= S.MAX_LENGTH
    requires a in Run(START, evs).accepted && a.hash == PwdHash(p) && SameLogin(s.user, a.login)
    requires m.mtype == ePassword && StartsWithE(m.user) && !Fails(around.env, 0) && m.body == PwdHash(q)
    ensures NoNullRead(Run(Run(START, evs), later).db, s, m)
    ensures var db := Run(Run(START, evs), later).db;
            Begin(db, s, m, "", around) ==
            if q != "" && S.FirstBlockHash(Bytes(p)) == S.FirstBlockHash(Bytes(q))
            then ReplyTo(db, s.(usrDbId := a.id), IoMsg(eAuthOK, LOGIN_OK_TEXT, Decimal(a.id), ""))
            else ReplyTo(db, s, m.(mtype := eWrongPassword, body := WRONG_PASSWORD_TEXT))
    ensures OfBytes(p) && OfBytes(q) ==> Spelled(Bytes(p)) == p && Spelled(Bytes(q)) == q
  {
    hide ServerOk, Run, S.FirstBlockHash, Bytes, Begin, NoNullRead, Spelled, OfBytes;
    if OfBytes(p) && OfBytes(q) {
      BytesSpellTheText(p, q);
    }
    RegistrationStays(evs, later, a);
    LoginAgainst(Run(Run(START, evs), later), a, s, m, around);
    PasswordTextChars(p);
    SameText(p, q);
  }

  /** For passwords of at most 55 bytes, that is exactly when the bytes that spell them have the same SHA-1 digest. */
  lemma LoginMatchesDigest(evs: seq<Event>, later: seq<Event>, a: Accepted, p: string, q: string, s: Session,
          m: IoMsg, around: Around)
    requires 0 < |p| <= 55 && 0 < |q| <= 55
    requires a in Run(START, evs).accepted && a.hash == PwdHash(p) && SameLogin(s.user, a.login)
    requires m.mtype == ePassword && StartsWithE(m.user) && !Fails(around.env, 0) && m.body == PwdHash(q)
    ensures NoNullRead(Run(Run(START, evs), later).db, s, m)
    ensures var db := Run(Run(START, evs), later).db;
            Begin(db, s, m, "", around) ==
            if F.Digest(Bytes(p)) == F.Digest(Bytes(q))
            then ReplyTo(db, s.(usrDbId := a.id), IoMsg(eAuthOK, LOGIN_OK_TEXT, Decimal(a.id), ""))
            else ReplyTo(db, s, m.(mtype := eWrongPassword, body := WRONG_PASSWORD_TEXT))
    ensures OfBytes(p) && OfBytes(q) ==> Spelled(Bytes(p)) == p && Spelled(Bytes(q)) == q
  {
    hide ServerOk, Run, F.Digest, S.FirstBlockHash, Bytes, Begin, NoNullRead, PasswordText, Spelled, OfBytes;
    if OfBytes(p) && OfBytes(q) {
      BytesSpellTheText(p, q);
    }
    LoginMatchesHash(evs, later, a, p, q, s, m, around);
    SameText(p, q);
    SameDigest(p, q);
  }

  /** Main result: of two passwords that agree in their first 64 bytes, each is accepted for the other. */
  lemma LongPasswordsAreAccepted(evs: seq<Event>, later: seq<Event>, a: Accepted, p: string, q: string, s: Session,
          m: IoMsg, around: Around)
    requires 64 <= |p| <= S.MAX_LENGTH && 64 <= |q| <= S.MAX_LENGTH && p[..64] == q[..64]
    requires a in Run(START, evs).accepted && a.hash == PwdHash(p) && SameLogin(s.user, a.login)
    requires m.mtype == ePassword && StartsWithE(m.user) && !Fails(around.env, 0) && m.body == PwdHash(q)
    ensures NoNullRead(Run(Run(START, evs), later).db, s, m)
    ensures var db := Run(Run(START, evs), later).db;
            Begin(db, s, m, "", around) ==
            ReplyTo(db, s.(usrDbId := a.id), IoMsg(eAuthOK, LOGIN_OK_TEXT, Decimal(a.id), ""))
  {
    hide ServerOk, Run, S.FirstBlockHash, Bytes, Begin, NoNullRead, PwdHash;
    LongPasswordsAreCut(p, q);
    RegistrationStays(evs, later, a);
    LoginAgainst(Run(Run(START, evs), later), a, s, m, around);
  }

  lemma BatchAgainst(v: Server, a: Accepted, s: Session, m: IoMsg, around: Around)
    requires ServerOk(v) && a in v.accepted && SameLogin(m.user, a.login)
    requires m.mtype == eBatchAuth && !Fails(around.env, 0) && IsHashText(m.body) && IsHashText(a.hash)
    ensures Begin(v.db, s, m, "", around) ==
            if a.hash == m.body then Outcome(v.db, s, AwaitBan(Decimal(a.id)), m, false) else ReplyTo(v.db, s, m)
  {
    AcceptedRow(v, a, m.user);
    SameLoginOfHashTexts(a.hash, m.body);
  }

  /** Main result: when it asks, whatever ran in between, the batch login is answered with eAuthOK exactly when the
      last effective call on that user's ban was not a full ban; otherwise with eError and that ban's deadline. */
  lemma BatchLoginFollowsBans(evs: seq<Event>, s: Session, id: nat, around: Around)
    requires !Fails(around.env, 0)
    ensures var last := LastBan(CallsOf(START, evs), id);
            Finish(Run(START, evs).db, s, AwaitBan(Decimal(id)), around) ==
              ReplyTo(Run(START, evs).db, s,
                if last.Some? && BanEffect(last.value, id) == Some(true)
                then IoMsg(eError, BANNED_TEXT + last.value.deadline, "", Decimal(id))
                else IoMsg(eAuthOK, "", "", Decimal(id)))
    ensures LastBan(CallsOf(START, evs), id).Some? ==> LastBan(CallsOf(START, evs), id).value.OpBan?
  {
    ParseDecimal(id);
    RunIsCalls(START, evs);
    BanHistory(CallsOf(START, evs), id);
  }
}
