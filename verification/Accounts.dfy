/** The rows of one user: in users, in user_data and in user_ban. */
module Accounts {
  import opened Text
  import opened Tables
  import opened TableLaws

  /** The row of a user id, and what its hash column holds. */
  predicate HasRow(db: Db, id: nat, login: string, hash: Option<string>) {
    FindUser(db.users, id).Some? && FindUser(db.users, id).value.login == login && HashOf(db.userData, id) == Some(hash)
  }

  /** The user has a stored hash that compares equal. */
  predicate HashMatches(db: Db, id: nat, hash: string) {
    var stored := HashOf(db.userData, id);
    stored.Some? && stored.value.Some? && SameLogin(stored.value.value, hash)
  }

  // Logins

  /** The same letter, in either case, or the same other character. */
  predicate SameLetter(c: char, d: char) {
    c == d || ('A' <= c <= 'Z' && d == c - 'A' + 'a') || ('A' <= d <= 'Z' && c == d - 'A' + 'a')
  }

  /** Logins without blanks at the end are the same exactly when they agree letter by letter but for the case; blanks at
      the end do not matter. */
  lemma SameLoginExactly(a: string, b: string)
    ensures SameLogin(a + " ", b) <==> SameLogin(a, b)
    ensures SameLogin(a, b) <==> SameLogin(b, a)
    ensures (a == "" || a[|a| - 1] != ' ') && (b == "" || b[|b| - 1] != ' ') ==>
              (SameLogin(a, b) <==> |a| == |b| && forall i :: 0 <= i < |a| ==> SameLetter(a[i], b[i]))
  {
    assert (a + " ")[..|a|] == a;
    var f, g := FoldCase(a), FoldCase(b);
    assert |f| == |a| && |g| == |b|;
    if |a| == |b| {
      forall i | 0 <= i < |a| ensures f[i] == g[i] <==> SameLetter(a[i], b[i]) {
      }
    }
  }

  // users

  /** A login names one row, the one that is found. */
  lemma OnlyRow(db: Db, login: string)
    requires DbOk(db) && FindLogin(db.users, login).Some?
    ensures forall u :: u in db.users && SameLogin(u.login, login) ==> u == FindLogin(db.users, login).value
  {
    FindLoginFinds(db.users, login);
    forall u | u in db.users && SameLogin(u.login, login) ensures u == FindLogin(db.users, login).value {
      OneUser(db, u, FindLogin(db.users, login).value);
    }
  }

  lemma {:induction false} FindUserStays(us: seq<User>, vs: seq<User>, id: nat)
    requires us <= vs && FindUser(us, id).Some?
    ensures FindUser(vs, id) == FindUser(us, id)
  {
    if us[0].id != id {
      FindUserStays(us[1..], vs[1..], id);
    }
  }

  lemma {:induction false} FindLoginStays(us: seq<User>, vs: seq<User>, login: string)
    requires us <= vs && FindLogin(us, login).Some?
    ensures FindLogin(vs, login) == FindLogin(us, login)
  {
    if !SameLogin(us[0].login, login) {
      FindLoginStays(us[1..], vs[1..], login);
    }
  }

  lemma {:induction false} FindUserSnoc(us: seq<User>, u: User, id: nat)
    ensures FindUser(us + [u], id) ==
            if FindUser(us, id).Some? then FindUser(us, id) else if u.id == id then Some(u) else None
  {
    if us == [] {
      assert us + [u] == [u] && [u][1..] == [];
    } else {
      assert (us + [u])[1..] == us[1..] + [u];
      FindUserSnoc(us[1..], u, id);
    }
  }

  // user_data

  lemma {:induction false} HashOfStays(ds: seq<UserData>, es: seq<UserData>, id: nat)
    requires ds <= es && HashOf(ds, id).Some?
    ensures HashOf(es, id) == HashOf(ds, id)
  {
    if ds[0].userId != id {
      HashOfStays(ds[1..], es[1..], id);
    }
  }

  lemma {:induction false} HashOfUpdated(ds: seq<UserData>, id: nat, hash: string, x: nat)
    ensures HashOf(UpdateHash(ds, id, hash), x) ==
            if x == id && HashOf(ds, x).Some? then Some(Some(hash)) else HashOf(ds, x)
  {
    if ds != [] {
      HashOfUpdated(ds[1..], id, hash, x);
      assert UpdateHash(ds, id, hash)[1..] == UpdateHash(ds[1..], id, hash);
    }
  }

  lemma {:induction false} HashOfIn(ds: seq<UserData>, id: nat)
    ensures HashOf(ds, id).Some? <==> exists i :: 0 <= i < |ds| && ds[i].userId == id
  {
    if ds != [] && ds[0].userId != id {
      HashOfIn(ds[1..], id);
      assert forall i :: 0 < i < |ds| ==> ds[i] == ds[1..][i - 1];
    }
  }

  /** Every id with a hash column is below the next automatic id. */
  lemma KnownId(db: Db, id: nat)
    requires DbOk(db) && HashOf(db.userData, id).Some?
    ensures id < db.nextUser
  {
    HashOfIn(db.userData, id);
  }

  lemma NewRow(db: Db, login: string)
    requires DbOk(db)
    ensures HasRow(InsertUser(db, login), db.nextUser, login, None)
  {
    FindUserSnoc(db.users, User(db.nextUser, login, "", ""), db.nextUser);
    FindUserFinds(db.users, db.nextUser);
    if HashOf(db.userData, db.nextUser).Some? {
      KnownId(db, db.nextUser);
    }
    HashOfSnoc(db.userData, db.nextUser);
  }

  lemma {:induction false} HashOfSnoc(ds: seq<UserData>, id: nat)
    requires HashOf(ds, id).None?
    ensures HashOf(ds + [UserData(id, None)], id) == Some(None)
  {
    if ds != [] {
      assert (ds + [UserData(id, None)])[1..] == ds[1..] + [UserData(id, None)];
      HashOfSnoc(ds[1..], id);
    }
  }

  lemma RowStays(db: Db, db': Db, id: nat, login: string, hash: Option<string>)
    requires db.users <= db'.users && db.userData <= db'.userData && HasRow(db, id, login, hash)
    ensures HasRow(db', id, login, hash)
  {
    FindUserStays(db.users, db'.users, id);
    HashOfStays(db.userData, db'.userData, id);
  }

  /** A row that is there stays, whatever runs, with its login. */
  lemma AddedRowStays(db: Db, ops: seq<DbOp>, id: nat)
    requires DbOk(db) && FindUser(db.users, id).Some?
    ensures FindUser(RunOps(db, ops).users, id) == FindUser(db.users, id)
    ensures HashOf(RunOps(db, ops).userData, id).Some?
  {
    var db1 := RunOps(db, ops);
    RunOpsOk(db, ops);
    RunOpsAppends(db, ops);
    FindUserStays(db.users, db1.users, id);
    FindUserFinds(db1.users, id);
    var i :| 0 <= i < |db1.users| && db1.users[i] == FindUser(db1.users, id).value;
    HashOfAt(db1.users, db1.userData, i);
  }

  // user_ban

  lemma {:induction false} BansOfDeleted(bs: seq<Ban>, gone: nat, id: nat)
    ensures BansOf(DeleteBan(bs, gone), id) == if id == gone then [] else BansOf(bs, id)
  {
    if bs != [] {
      BansOfDeleted(bs[1..], gone, id);
    }
  }

  lemma {:induction false} BansOfSnoc(bs: seq<Ban>, b: Ban, id: nat)
    ensures BansOf(bs + [b], id) == BansOf(bs, id) + if b.userId == id then [b] else []
  {
    if bs == [] {
      assert bs + [b] == [b] && [b][1..] == [];
    } else {
      assert (bs + [b])[1..] == bs[1..] + [b];
      BansOfSnoc(bs[1..], b, id);
    }
  }

  lemma {:induction false} BansOfMember(bs: seq<Ban>, id: nat)
    ensures BansOf(bs, id) != [] ==> BansOf(bs, id)[0] in bs && BansOf(bs, id)[0].userId == id
  {
    if bs != [] && bs[0].userId != id {
      BansOfMember(bs[1..], id);
    }
  }

  lemma {:induction false} BansOfNone(bs: seq<Ban>, id: nat)
    requires BansOf(bs, id) == []
    ensures forall b :: b in bs ==> b.userId != id
  {
    if bs != [] {
      BansOfNone(bs[1..], id);
      assert bs == [bs[0]] + bs[1..];
    }
  }
}
