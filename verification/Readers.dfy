/** What the three message readers show. */
module Readers {
  import opened Text
  import opened Timestamps
  import opened Pool
  import opened Tables
  import opened TableLaws

  function StateCount(db: Db, m: Msg): nat { |StatesOf(db.states, m.id)| }

  /** Sender and receiver are registered, and the message has been given a state. */
  predicate VisibleToAdmin(db: Db, m: Msg) {
    FindUser(db.users, m.fromId).Some? && FindUser(db.users, m.toId).Some? && StateCount(db, m) > 0
  }

  /** A registered sender, a state, and the user at one of the two ends. */
  predicate VisibleTo(db: Db, m: Msg, id: nat) {
    FindUser(db.users, m.fromId).Some? && (m.toId == id || m.fromId == id) && StateCount(db, m) > 0
  }

  ghost predicate IncreasingIds(ms: seq<Msg>) {
    forall i, j :: 0 <= i < j < |ms| ==> ms[i].id < ms[j].id
  }

  // The admin view

  /** One entry for every visible message. */
  function AdminEntries(db: Db, ms: seq<Msg>): seq<Entry> {
    if ms == [] then []
    else
      var m := ms[|ms| - 1];
      AdminEntries(db, ms[..|ms| - 1]) + if VisibleToAdmin(db, m) then [AdminEntry(db.users, m)] else []
  }

  lemma {:induction false} RepeatSame(e: Entry, n: nat)
    ensures |Repeat(e, n)| == n && forall i :: 0 <= i < n ==> Repeat(e, n)[i] == e
  {
    if n > 0 {
      RepeatSame(e, n - 1);
    }
  }

  lemma {:induction false} AdminRowsCollapse(db: Db, ms: seq<Msg>)
    ensures PutAll([], AdminRows(db, ms)) == PutAll([], AdminEntries(db, ms))
  {
    if ms != [] {
      var front, m := ms[..|ms| - 1], ms[|ms| - 1];
      AdminRowsCollapse(db, front);
      if FindUser(db.users, m.fromId).Some? && FindUser(db.users, m.toId).Some? {
        var e, block := AdminEntry(db.users, m), Repeat(AdminEntry(db.users, m), StateCount(db, m));
        PutAllConcat([], AdminRows(db, front), block);
        RepeatSame(e, StateCount(db, m));
        if StateCount(db, m) > 0 {
          PutBlock(PutAll([], AdminRows(db, front)), block);
          PutAllConcat([], AdminEntries(db, front), [e]);
          assert PutAll(PutAll([], AdminEntries(db, front)), [e]) == Put(PutAll([], AdminEntries(db, front)), e) by {
            assert [e][..0] == [];
          }
        } else {
          assert block == [];
        }
      } else {
        assert AdminRows(db, front) + [] == AdminRows(db, front);
      }
      assert AdminEntries(db, front) + [] == AdminEntries(db, front);
    }
  }

  lemma {:induction false} AdminEntriesExact(db: Db, ms: seq<Msg>)
    requires IncreasingIds(ms)
    ensures DistinctKeys(AdminEntries(db, ms))
    ensures forall x :: x in AdminEntries(db, ms) <==>
              exists i :: 0 <= i < |ms| && VisibleToAdmin(db, ms[i]) && x == AdminEntry(db.users, ms[i])
  {
    if ms != [] {
      var front, m := ms[..|ms| - 1], ms[|ms| - 1];
      AdminEntriesExact(db, front);
      assert forall i :: 0 <= i < |front| ==> ms[i] == front[i];
      var es := AdminEntries(db, front);
      if VisibleToAdmin(db, m) {
        forall i | 0 <= i < |es| ensures es[i].key != Decimal(m.id) {
          assert es[i] in es;
          var k :| 0 <= k < |front| && VisibleToAdmin(db, front[k]) && es[i] == AdminEntry(db.users, front[k]);
          if es[i].key == Decimal(m.id) {
            DecimalInjective(front[k].id, m.id);
          }
        }
      }
    }
  }

  ghost predicate IsAdminEntryOf(db: Db, m: Msg, x: Entry) {
    VisibleToAdmin(db, m) && x == AdminEntry(db.users, m)
  }

  /** The entry of some visible message. */
  ghost predicate IsAdminEntry(db: Db, ms: seq<Msg>, x: Entry) {
    exists m :: m in ms && IsAdminEntryOf(db, m, x)
  }

  lemma AdminPoolInKeyOrder(db: Db)
    requires DbOk(db)
    ensures Sorted(PutAll([], AdminRows(db, db.messages)))
    ensures forall x :: x in PutAll([], AdminRows(db, db.messages)) <==> IsAdminEntry(db, db.messages, x)
  {
    AdminRowsCollapse(db, db.messages);
    AdminEntriesExact(db, db.messages);
    var es := AdminEntries(db, db.messages);
    PutAllSorted(es);
    forall x ensures x in PutAll([], es) <==> IsAdminEntry(db, db.messages, x) {
      PoolOfDistinct(es, x);
      if i :| 0 <= i < |db.messages| && VisibleToAdmin(db, db.messages[i]) && x == AdminEntry(db.users, db.messages[i])
      {
        assert IsAdminEntryOf(db, db.messages[i], x);
      }
    }
  }

  /** The rows the join has for one message. */
  function AdminBlock(db: Db, m: Msg): seq<Entry> {
    if FindUser(db.users, m.fromId).Some? && FindUser(db.users, m.toId).Some?
    then Repeat(AdminEntry(db.users, m), StateCount(db, m)) else []
  }

  lemma AdminBlockMembers(db: Db, m: Msg, x: Entry)
    ensures x in AdminBlock(db, m) <==> IsAdminEntryOf(db, m, x)
  {
    hide StatesOf;
    if FindUser(db.users, m.fromId).Some? && FindUser(db.users, m.toId).Some? {
      var e, n := AdminEntry(db.users, m), StateCount(db, m);
      RepeatSame(e, n);
      if n > 0 {
        assert Repeat(e, n)[0] == e;
      }
    }
  }

  lemma SnocMembers(ms: seq<Msg>)
    requires ms != []
    ensures forall m :: m in ms <==> m in ms[..|ms| - 1] || m == ms[|ms| - 1]
  {
    assert ms == ms[..|ms| - 1] + [ms[|ms| - 1]];
  }

  lemma AdminRowsSnoc(db: Db, ms: seq<Msg>)
    requires ms != []
    ensures AdminRows(db, ms) == AdminRows(db, ms[..|ms| - 1]) + AdminBlock(db, ms[|ms| - 1])
  {
  }

  lemma {:induction false} AdminRowsMembers(db: Db, ms: seq<Msg>, x: Entry)
    ensures x in AdminRows(db, ms) <==> IsAdminEntry(db, ms, x)
  {
    if ms != [] {
      hide AdminRows, AdminBlock, IsAdminEntryOf;
      AdminRowsSnoc(db, ms);
      var front, m := ms[..|ms| - 1], ms[|ms| - 1];
      AdminRowsMembers(db, front, x);
      AdminBlockMembers(db, m, x);
      SnocMembers(ms);
    }
  }

  lemma AdminKeysUniform(db: Db, x: Entry, y: Entry)
    requires DbOk(db) && IsAdminEntry(db, db.messages, x) && IsAdminEntry(db, db.messages, y) && x.key == y.key
    ensures x == y
  {
    hide UsersOk, DataOk, BansOk, StatesOk, FindUser, StatesOf;
    var m :| m in db.messages && IsAdminEntryOf(db, m, x);
    var n :| n in db.messages && IsAdminEntryOf(db, n, y);
    DecimalInjective(m.id, n.id);
    OneMessage(db, m, n);
  }

  lemma OneMessage(db: Db, m: Msg, n: Msg)
    requires MessagesOk(db) && m in db.messages && n in db.messages && m.id == n.id
    ensures m == n
  {
    var i :| 0 <= i < |db.messages| && db.messages[i] == m;
    var j :| 0 <= j < |db.messages| && db.messages[j] == n;
    assert i < j || j < i || i == j;
  }

  /** Main result: in whatever order the query returns its rows, and whatever number of state rows a message has, the
      admin pool holds exactly the visible messages, each once. It does not depend on the order at all. */
  lemma AdminPoolExact(db: Db, rows: seq<Entry>)
    requires DbOk(db) && forall x :: x in rows <==> x in AdminRows(db, db.messages)
    ensures PutAll([], rows) == PutAll([], AdminRows(db, db.messages))
    ensures Sorted(PutAll([], rows))
    ensures forall x :: x in PutAll([], rows) <==> IsAdminEntry(db, db.messages, x)
  {
    forall x, y | x in rows && y in rows && x.key == y.key ensures x == y {
      AdminRowsMembers(db, db.messages, x);
      AdminRowsMembers(db, db.messages, y);
      AdminKeysUniform(db, x, y);
    }
    PoolIgnoresRowOrder(rows, AdminRows(db, db.messages));
    AdminPoolInKeyOrder(db);
  }

  // The user view with a text id

  /** One entry for every visible message, from its first state row. */
  function UserFirsts(db: Db, ms: seq<Msg>, id: nat, userName: string): seq<Entry> {
    if ms == [] then []
    else
      var m := ms[|ms| - 1];
      UserFirsts(db, ms[..|ms| - 1], id, userName) +
      if VisibleTo(db, m, id)
      then [UserEntry(FindUser(db.users, m.fromId).value, m, StatesOf(db.states, m.id)[0], userName)]
      else []
  }

  lemma {:induction false} UserRowsCollapse(db: Db, ms: seq<Msg>, id: nat, userName: string)
    ensures PutAll([], UserRowsOf(db, ms, id, userName)) == PutAll([], UserFirsts(db, ms, id, userName))
  {
    if ms != [] {
      var front, m := ms[..|ms| - 1], ms[|ms| - 1];
      UserRowsCollapse(db, front, id, userName);
      var rows, firsts := UserRowsOf(db, front, id, userName), UserFirsts(db, front, id, userName);
      assert rows + [] == rows && firsts + [] == firsts;
      if FindUser(db.users, m.fromId).Some? && (m.toId == id || m.fromId == id) {
        var block := UserEntries(FindUser(db.users, m.fromId).value, m, StatesOf(db.states, m.id), userName);
        PutAllConcat([], rows, block);
        if StateCount(db, m) > 0 {
          PutBlock(PutAll([], rows), block);
          PutAllConcat([], firsts, [block[0]]);
          assert PutAll(PutAll([], firsts), [block[0]]) == Put(PutAll([], firsts), block[0]) by {
            assert [block[0]][..0] == [];
          }
        } else {
          assert block == [];
        }
      }
    }
  }

  lemma {:induction false} UserFirstsExact(db: Db, ms: seq<Msg>, id: nat, userName: string)
    requires IncreasingIds(ms)
    ensures DistinctKeys(UserFirsts(db, ms, id, userName))
    ensures forall x :: x in UserFirsts(db, ms, id, userName) <==>
              exists i :: 0 <= i < |ms| && VisibleTo(db, ms[i], id) &&
                x == UserEntry(FindUser(db.users, ms[i].fromId).value, ms[i], StatesOf(db.states, ms[i].id)[0],
                    userName)
  {
    if ms != [] {
      var front, m := ms[..|ms| - 1], ms[|ms| - 1];
      UserFirstsExact(db, front, id, userName);
      assert forall i :: 0 <= i < |front| ==> ms[i] == front[i];
      var es := UserFirsts(db, front, id, userName);
      if VisibleTo(db, m, id) {
        forall i | 0 <= i < |es| ensures es[i].key != Decimal(m.id) {
          assert es[i] in es;
          var k :| 0 <= k < |front| && VisibleTo(db, front[k], id) &&
            es[i] == UserEntry(FindUser(db.users, front[k].fromId).value, front[k],
                StatesOf(db.states, front[k].id)[0], userName);
          if es[i].key == Decimal(m.id) {
            DecimalInjective(front[k].id, m.id);
          }
        }
      }
    }
  }

  function UserEntryAt(db: Db, m: Msg, j: nat, userName: string): Entry
    requires FindUser(db.users, m.fromId).Some? && j < StateCount(db, m)
  {
    UserEntry(FindUser(db.users, m.fromId).value, m, StatesOf(db.states, m.id)[j], userName)
  }

  /** An entry of a visible message, from one of its state rows. */
  ghost predicate IsUserEntryOf(db: Db, m: Msg, id: nat, userName: string, x: Entry) {
    VisibleTo(db, m, id) && exists j :: 0 <= j < StateCount(db, m) && x == UserEntryAt(db, m, j, userName)
  }

  ghost predicate IsUserEntry(db: Db, ms: seq<Msg>, id: nat, userName: string, x: Entry) {
    exists m :: m in ms && IsUserEntryOf(db, m, id, userName, x)
  }

  /** The rows the join has for one message. */
  function UserBlock(db: Db, m: Msg, id: nat, userName: string): seq<Entry> {
    if FindUser(db.users, m.fromId).Some? && (m.toId == id || m.fromId == id)
    then UserEntries(FindUser(db.users, m.fromId).value, m, StatesOf(db.states, m.id), userName) else []
  }

  lemma UserBlockMembers(db: Db, m: Msg, id: nat, userName: string, x: Entry)
    ensures x in UserBlock(db, m, id, userName) <==> IsUserEntryOf(db, m, id, userName, x)
  {
    hide StatesOf, UserEntry;
    if FindUser(db.users, m.fromId).Some? {
      var block := UserEntries(FindUser(db.users, m.fromId).value, m, StatesOf(db.states, m.id), userName);
      assert forall j :: 0 <= j < |block| ==> block[j] == UserEntryAt(db, m, j, userName);
    }
  }

  lemma UserRowsSnoc(db: Db, ms: seq<Msg>, id: nat, userName: string)
    requires ms != []
    ensures UserRowsOf(db, ms, id, userName) ==
            UserRowsOf(db, ms[..|ms| - 1], id, userName) + UserBlock(db, ms[|ms| - 1], id, userName)
  {
  }

  lemma {:induction false} UserRowsMembers(db: Db, ms: seq<Msg>, id: nat, userName: string, x: Entry)
    ensures x in UserRowsOf(db, ms, id, userName) <==> IsUserEntry(db, ms, id, userName, x)
  {
    if ms != [] {
      hide UserRowsOf, UserBlock, IsUserEntryOf;
      UserRowsSnoc(db, ms, id, userName);
      var front, m := ms[..|ms| - 1], ms[|ms| - 1];
      UserRowsMembers(db, front, id, userName, x);
      UserBlockMembers(db, m, id, userName, x);
      SnocMembers(ms);
    }
  }

  /** Main result: in whatever order the query returns its rows, the pool of the text-id reader holds exactly one entry
      for every visible message, stamped with one of its state rows, and nothing else. */
  lemma UserPoolExact(db: Db, id: nat, userName: string, rows: seq<Entry>)
    requires DbOk(db) && forall x :: x in rows <==> x in UserRowsOf(db, db.messages, id, userName)
    ensures var p := PutAll([], rows);
            && Sorted(p)
            && (forall x :: x in p ==> IsUserEntry(db, db.messages, id, userName, x))
            && (forall m :: m in db.messages && VisibleTo(db, m, id) ==> HasKey(p, Decimal(m.id)))
  {
    hide UserRowsOf, DbOk, FindUser, StatesOf;
    OneForEveryKey(rows);
    forall x | x in PutAll([], rows) ensures IsUserEntry(db, db.messages, id, userName, x) {
      UserRowsMembers(db, db.messages, id, userName, x);
    }
    forall m | m in db.messages && VisibleTo(db, m, id) ensures HasKey(PutAll([], rows), Decimal(m.id)) {
      var x := UserEntryAt(db, m, 0, userName);
      assert IsUserEntryOf(db, m, id, userName, x);
      UserRowsMembers(db, db.messages, id, userName, x);
    }
  }

  /** Where the rows come in the order of the primary keys, the stamp is that of the first state row. */
  lemma UserPoolInKeyOrder(db: Db, id: nat, userName: string, pool: Pool, env: Env)
    requires DbOk(db) && !Fails(env, 0)
    ensures forall x :: x in GetUserMsgsText(db, Decimal(id), userName, pool, env) <==>
              exists i :: 0 <= i < |db.messages| && VisibleTo(db, db.messages[i], id) &&
                x == UserEntryAt(db, db.messages[i], 0, userName)
  {
    ParseDecimal(id);
    UserRowsCollapse(db, db.messages, id, userName);
    UserFirstsExact(db, db.messages, id, userName);
    var es := UserFirsts(db, db.messages, id, userName);
    forall x ensures x in PutAll([], es) <==> x in es {
      PoolOfDistinct(es, x);
    }
  }

  // The inbox view

  /** The change second of an inbox row is its key. */
  ghost predicate KeyedByTime(rows: seq<Entry>, times: seq<Seconds>) {
    && |rows| == |times|
    && forall i :: 0 <= i < |rows| ==> Before10000(times[i]) && rows[i].key == Stamp(times[i]) == rows[i].msg.timestamp
  }

  /** The change seconds of the inbox rows. */
  function InboxStateTimes(ss: seq<MsgState>): seq<Seconds> {
    if ss == [] then []
    else InboxStateTimes(ss[..|ss| - 1]) + if ss[|ss| - 1].status == DELIVERED then [ss[|ss| - 1].tsChanged] else []
  }

  function InboxTimes(db: Db, ms: seq<Msg>, id: nat): seq<Seconds> {
    if ms == [] then []
    else
      var m := ms[|ms| - 1];
      InboxTimes(db, ms[..|ms| - 1], id) +
      if FindUser(db.users, m.fromId).Some? && m.toId == id then InboxStateTimes(StatesOf(db.states, m.id)) else []
  }

  lemma {:induction false} StatesOfMembers(ss: seq<MsgState>, id: nat, s: MsgState)
    ensures s in StatesOf(ss, id) <==> s in ss && s.messageId == id
  {
    if ss != [] {
      StatesOfMembers(ss[..|ss| - 1], id, s);
      assert ss == ss[..|ss| - 1] + [ss[|ss| - 1]];
    }
  }

  lemma {:induction false} StateTimesKeyed(sender: User, m: Msg, ss: seq<MsgState>, userName: string)
    requires forall i :: 0 <= i < |ss| ==> Before10000(ss[i].tsChanged)
    ensures KeyedByTime(InboxEntries(sender, m, ss, userName), InboxStateTimes(ss))
  {
    if ss != [] {
      StateTimesKeyed(sender, m, ss[..|ss| - 1], userName);
    }
  }

  lemma {:induction false} InboxKeyed(db: Db, ms: seq<Msg>, id: nat, userName: string)
    requires StatesOk(db) && Before10000(db.now)
    ensures KeyedByTime(InboxRows(db, ms, id, userName), InboxTimes(db, ms, id))
  {
    if ms != [] {
      var m := ms[|ms| - 1];
      InboxKeyed(db, ms[..|ms| - 1], id, userName);
      var ss := StatesOf(db.states, m.id);
      forall i | 0 <= i < |ss| ensures Before10000(ss[i].tsChanged) {
        StatesOfMembers(db.states, m.id, ss[i]);
      }
      if FindUser(db.users, m.fromId).Some? {
        StateTimesKeyed(FindUser(db.users, m.fromId).value, m, ss, userName);
      }
    }
  }

  // What the inbox rows are

  /** The row of a message to this user from a registered sender, and of one of the message's delivered states. */
  ghost predicate IsInboxEntryOf(db: Db, m: Msg, s: MsgState, id: nat, userName: string, x: Entry) {
    && m.toId == id && s.messageId == m.id && s.status == 1 && FindUser(db.users, m.fromId).Some?
    && x.key == x.msg.timestamp == Stamp(s.tsChanged)
    && x.msg.messageId == Decimal(m.id)
    && x.msg.sender == FindUser(db.users, m.fromId).value.login
    && x.msg.receiver == userName
    && x.msg.body == m.body
  }

  ghost predicate IsInboxEntry(db: Db, ms: seq<Msg>, id: nat, userName: string, x: Entry) {
    exists m, s :: m in ms && s in db.states && IsInboxEntryOf(db, m, s, id, userName, x)
  }

  lemma {:induction false} InboxEntriesMembers(sender: User, m: Msg, ss: seq<MsgState>, userName: string, x: Entry)
    ensures x in InboxEntries(sender, m, ss, userName) <==>
            exists s :: s in ss && s.status == DELIVERED && x == InboxEntry(sender, m, s, userName)
  {
    if ss != [] {
      InboxEntriesMembers(sender, m, ss[..|ss| - 1], userName, x);
      assert ss == ss[..|ss| - 1] + [ss[|ss| - 1]];
    }
  }

  /** The rows the join has for one message. */
  function InboxBlock(db: Db, m: Msg, id: nat, userName: string): seq<Entry> {
    if FindUser(db.users, m.fromId).Some? && m.toId == id
    then InboxEntries(FindUser(db.users, m.fromId).value, m, StatesOf(db.states, m.id), userName) else []
  }

  lemma InboxBlockMembers(db: Db, m: Msg, id: nat, userName: string, x: Entry)
    ensures x in InboxBlock(db, m, id, userName) <==>
            exists s :: s in db.states && IsInboxEntryOf(db, m, s, id, userName, x)
  {
    if FindUser(db.users, m.fromId).Some? {
      var sender, ss := FindUser(db.users, m.fromId).value, StatesOf(db.states, m.id);
      InboxEntriesMembers(sender, m, ss, userName, x);
      forall s ensures s in ss <==> s in db.states && s.messageId == m.id {
        StatesOfMembers(db.states, m.id, s);
      }
      forall s: MsgState | s.messageId == m.id && s.status == DELIVERED && m.toId == id
        ensures x == InboxEntry(sender, m, s, userName) <==> IsInboxEntryOf(db, m, s, id, userName, x)
      {
      }
    }
  }

  /** Main result: the rows of the inbox query are exactly those of the delivered messages to the user, each with its
      own time, id, sender and text. */
  lemma {:induction false} InboxRowsMembers(db: Db, ms: seq<Msg>, id: nat, userName: string, x: Entry)
    ensures x in InboxRows(db, ms, id, userName) <==> IsInboxEntry(db, ms, id, userName, x)
  {
    hide IsInboxEntryOf;
    if ms != [] {
      var front, m := ms[..|ms| - 1], ms[|ms| - 1];
      InboxRowsMembers(db, front, id, userName, x);
      InboxBlockMembers(db, m, id, userName, x);
      InboxRowsSnoc(db, ms, id, userName);
      SnocMembers(ms);
    }
  }

  lemma InboxRowsSnoc(db: Db, ms: seq<Msg>, id: nat, userName: string)
    requires ms != []
    ensures InboxRows(db, ms, id, userName) ==
            InboxRows(db, ms[..|ms| - 1], id, userName) + InboxBlock(db, ms[|ms| - 1], id, userName)
  {
  }

  ghost predicate Distinct(ts: seq<Seconds>) {
    forall i, j :: 0 <= i < j < |ts| ==> ts[i] != ts[j]
  }

  /** Row i is the first one of its second. */
  ghost predicate FirstOfSecond(ts: seq<Seconds>, i: nat)
    requires i < |ts|
  {
    forall j :: 0 <= j < i ==> ts[j] != ts[i]
  }

  lemma SameKeySameSecond(rows: seq<Entry>, times: seq<Seconds>, i: nat, j: nat)
    requires KeyedByTime(rows, times) && i < |rows| && j < |rows|
    ensures rows[i].key == rows[j].key <==> times[i] == times[j]
    ensures Less(rows[i].key, rows[j].key) <==> times[i] < times[j]
  {
    LessIrreflexive(rows[i].key);
    if times[i] < times[j] {
      StampOrder(times[i], times[j]);
    } else if times[j] < times[i] {
      StampOrder(times[j], times[i]);
      if Less(rows[i].key, rows[j].key) {
        LessTransitive(rows[i].key, rows[j].key, rows[i].key);
      }
    }
  }

  lemma TimesAreKeys(rows: seq<Entry>, times: seq<Seconds>)
    requires KeyedByTime(rows, times)
    ensures forall i, j :: 0 <= i < |rows| && 0 <= j < |rows| ==> (rows[i].key == rows[j].key <==> times[i] == times[j])
    ensures DistinctKeys(rows) <==> Distinct(times)
  {
    forall i, j | 0 <= i < |rows| && 0 <= j < |rows| ensures rows[i].key == rows[j].key <==> times[i] == times[j] {
      SameKeySameSecond(rows, times, i, j);
    }
  }

  /** Main result: in whatever order the query returns its rows, the inbox holds rows of delivered messages to the user
      only, exactly one of them for every second of change, and all of them exactly when those seconds are pairwise
      distinct. */
  lemma InboxPoolExact(db: Db, id: nat, userName: string, rows: seq<Entry>)
    requires DbOk(db) && Before10000(db.now) && multiset(rows) == multiset(InboxRows(db, db.messages, id, userName))
    ensures var p, times := PutAll([], rows), InboxTimes(db, db.messages, id);
            && KeyedByTime(InboxRows(db, db.messages, id, userName), times)
            && Sorted(p)
            && (forall x :: x in p ==> x in rows)
            && (forall x :: x in rows <==> IsInboxEntry(db, db.messages, id, userName, x))
            && (forall x :: x in rows ==> HasKey(p, x.key))
            && (forall i :: 0 <= i < |times| ==> HasKey(p, Stamp(times[i])))
            && (|p| == |rows| <==> Distinct(times))
  {
    hide IsInboxEntry, InboxRows, InboxTimes;
    var joined, times := InboxRows(db, db.messages, id, userName), InboxTimes(db, db.messages, id);
    InboxKeyed(db, db.messages, id, userName);
    TimesAreKeys(joined, times);
    DistinctKeysPermuted(rows, joined);
    OneForEveryKey(rows);
    PoolSize(rows);
    forall x ensures x in rows <==> IsInboxEntry(db, db.messages, id, userName, x) {
      InboxRowsMembers(db, db.messages, id, userName, x);
    }
    forall i | 0 <= i < |times| ensures HasKey(PutAll([], rows), Stamp(times[i])) {
      assert joined[i] in joined && joined[i].key == Stamp(times[i]);
    }
  }

  /** No message in front has a row with this key. */
  ghost predicate NoneBefore(db: Db, k: nat, id: nat, userName: string, key: string)
    requires k <= |db.messages|
  {
    forall y :: IsInboxEntry(db, db.messages[..k], id, userName, y) ==> y.key != key
  }

  /** What only the rows behind put into the pool is one of them, and has a key that no row in front has. */
  lemma NewInPool(front: seq<Entry>, block: seq<Entry>, x: Entry)
    requires x in PutAll([], front + block) && x !in PutAll([], front)
    ensures x in block && forall y :: y in front ==> y.key != x.key
  {
    PutAllMembers(front + block, x);
    var i :| 0 <= i < |front + block| && (front + block)[i] == x && FirstOfKey(front + block, i);
    if i < |front| {
      assert front[i] == x && FirstOfKey(front, i) by {
        assert forall j :: 0 <= j <= i ==> (front + block)[j] == front[j];
      }
      PutAllMembers(front, x);
      assert false;
    } else {
      assert block[i - |front|] == x;
      assert forall j :: 0 <= j < |front| ==> (front + block)[j] == front[j];
    }
  }

  /** Where the rows come in the order of the primary keys, the row of a second is that of the earliest message. */
  lemma {:induction false} EarliestMessageWins(db: Db, n: nat, id: nat, userName: string, x: Entry) returns (k: nat)
    requires n <= |db.messages| && x in PutAll([], InboxRows(db, db.messages[..n], id, userName))
    ensures k < n && NoneBefore(db, k, id, userName, x.key)
    ensures exists s :: s in db.states && IsInboxEntryOf(db, db.messages[k], s, id, userName, x)
    decreases n
  {
    hide IsInboxEntryOf, IsInboxEntry, InboxRows, InboxBlock;
    assert n > 0 by { NoInboxRows(db, id, userName); }
    var ms := db.messages[..n];
    assert ms[..n - 1] == db.messages[..n - 1] && ms[n - 1] == db.messages[n - 1];
    InboxRowsSnoc(db, ms, id, userName);
    var front, block := InboxRows(db, db.messages[..n - 1], id, userName), InboxBlock(db, ms[n - 1], id, userName);
    if x in PutAll([], front) {
      k := EarliestMessageWins(db, n - 1, id, userName, x);
    } else {
      k := n - 1;
      NewInPool(front, block, x);
      InboxBlockMembers(db, ms[k], id, userName, x);
      forall y | IsInboxEntry(db, db.messages[..k], id, userName, y) ensures y.key != x.key {
        InboxRowsMembers(db, db.messages[..k], id, userName, y);
      }
    }
  }

  lemma NoInboxRows(db: Db, id: nat, userName: string)
    ensures PutAll([], InboxRows(db, db.messages[..0], id, userName)) == []
  {
  }

  /** The row is of a delivered message to the user, and no earlier message has one of the same second. */
  ghost predicate Earliest(db: Db, id: nat, userName: string, x: Entry) {
    exists k, s :: 0 <= k < |db.messages| && s in db.states &&
      IsInboxEntryOf(db, db.messages[k], s, id, userName, x) && NoneBefore(db, k, id, userName, x.key)
  }

  lemma IsEarliest(db: Db, id: nat, userName: string, x: Entry)
    requires x in PutAll([], InboxRows(db, db.messages, id, userName))
    ensures Earliest(db, id, userName, x)
  {
    assert db.messages[..|db.messages|] == db.messages;
    var k := EarliestMessageWins(db, |db.messages|, id, userName, x);
    var s :| s in db.states && IsInboxEntryOf(db, db.messages[k], s, id, userName, x);
  }

  /** A row of a message in front is in the way. */
  lemma EntryInFront(db: Db, k: nat, s: MsgState, n: nat, id: nat, userName: string, x: Entry)
    requires k < n <= |db.messages| && s in db.states && IsInboxEntryOf(db, db.messages[k], s, id, userName, x)
    ensures !NoneBefore(db, n, id, userName, x.key)
  {
    hide IsInboxEntryOf;
    assert db.messages[..n][k] == db.messages[k];
    assert IsInboxEntry(db, db.messages[..n], id, userName, x);
  }

  lemma OneEarliest(db: Db, id: nat, userName: string, x: Entry, y: Entry)
    requires Earliest(db, id, userName, x) && Earliest(db, id, userName, y) && x.key == y.key
    ensures x == y
  {
    hide FindUser, NoneBefore;
    var k, s :| 0 <= k < |db.messages| && s in db.states &&
      IsInboxEntryOf(db, db.messages[k], s, id, userName, x) && NoneBefore(db, k, id, userName, x.key);
    var l, t :| 0 <= l < |db.messages| && t in db.states &&
      IsInboxEntryOf(db, db.messages[l], t, id, userName, y) && NoneBefore(db, l, id, userName, y.key);
    if k < l {
      EntryInFront(db, k, s, l, id, userName, x);
      assert false;
    } else if l < k {
      EntryInFront(db, l, t, k, id, userName, y);
      assert false;
    }
  }

  /** Main result: where the rows come in the order of the primary keys, the inbox holds, for every second in which
      something was delivered to the user, the row of the earliest such message, and nothing else. */
  lemma InboxOfEarliest(db: Db, id: nat, userName: string, pool: Pool, env: Env, x: Entry)
    requires !Fails(env, 0)
    ensures x in GetUserMsgsNumber(db, id, userName, pool, env) <==> Earliest(db, id, userName, x)
    ensures IsInboxEntry(db, db.messages, id, userName, x) ==>
              HasKey(GetUserMsgsNumber(db, id, userName, pool, env), x.key)
  {
    hide IsInboxEntryOf, InboxRows, Earliest;
    var rows := InboxRows(db, db.messages, id, userName);
    var p := PutAll([], rows);
    OneForEveryKey(rows);
    if x in p {
      IsEarliest(db, id, userName, x);
    }
    InboxRowsMembers(db, db.messages, id, userName, x);
    if Earliest(db, id, userName, x) {
      EarliestIsEntry(db, id, userName, x);
      var i :| 0 <= i < |p| && p[i].key == x.key;
      IsEarliest(db, id, userName, p[i]);
      OneEarliest(db, id, userName, p[i], x);
    }
  }

  lemma EarliestIsEntry(db: Db, id: nat, userName: string, x: Entry)
    requires Earliest(db, id, userName, x)
    ensures IsInboxEntry(db, db.messages, id, userName, x)
  {
    hide IsInboxEntryOf;
    var k, s :| 0 <= k < |db.messages| && s in db.states &&
      IsInboxEntryOf(db, db.messages[k], s, id, userName, x) && NoneBefore(db, k, id, userName, x.key);
    assert db.messages[k] in db.messages;
  }

  /** With clocks before the year 10000 these are the rows that are the first of their second. */
  lemma InboxInKeyOrder(db: Db, id: nat, userName: string, pool: Pool, env: Env)
    requires DbOk(db) && Before10000(db.now) && !Fails(env, 0)
    ensures var rows, times := InboxRows(db, db.messages, id, userName), InboxTimes(db, db.messages, id);
            && KeyedByTime(rows, times)
            && forall x :: x in GetUserMsgsNumber(db, id, userName, pool, env) <==>
                 exists i :: 0 <= i < |rows| && rows[i] == x && FirstOfSecond(times, i)
    ensures forall x :: x in GetUserMsgsNumber(db, id, userName, pool, env) <==> Earliest(db, id, userName, x)
  {
    hide Earliest;
    var rows, times := InboxRows(db, db.messages, id, userName), InboxTimes(db, db.messages, id);
    InboxKeyed(db, db.messages, id, userName);
    TimesAreKeys(rows, times);
    forall x ensures x in PutAll([], rows) <==> exists i :: 0 <= i < |rows| && rows[i] == x && FirstOfSecond(times, i) {
      PutAllMembers(rows, x);
      assert forall i :: 0 <= i < |rows| ==> (FirstOfKey(rows, i) <==> FirstOfSecond(times, i));
    }
    forall x ensures x in GetUserMsgsNumber(db, id, userName, pool, env) <==> Earliest(db, id, userName, x) {
      InboxOfEarliest(db, id, userName, pool, env, x);
    }
  }

  /** The second of a pool entry. */
  lemma SecondOf(joined: seq<Entry>, times: seq<Seconds>, x: Entry) returns (a: nat)
    requires KeyedByTime(joined, times) && x in joined
    ensures a < |times| && joined[a] == x && x.key == x.msg.timestamp == Stamp(times[a])
  {
    a :| 0 <= a < |joined| && joined[a] == x;
  }

  /** The inbox comes out in the order of time, whatever the order of the rows: an entry before another has the
      earlier second. */
  lemma InboxIsChronological(db: Db, id: nat, userName: string, rows: seq<Entry>, i: nat, j: nat)
    returns (a: nat, b: nat)
    requires DbOk(db) && Before10000(db.now) && multiset(rows) == multiset(InboxRows(db, db.messages, id, userName))
    requires i < j < |PutAll([], rows)|
    ensures var p, times := PutAll([], rows), InboxTimes(db, db.messages, id);
            && a < |times| && b < |times| && times[a] < times[b]
            && p[i].msg.timestamp == Stamp(times[a]) && p[j].msg.timestamp == Stamp(times[b])
  {
    var p, joined, times := PutAll([], rows), InboxRows(db, db.messages, id, userName), InboxTimes(db, db.messages, id);
    InboxKeyed(db, db.messages, id, userName);
    DistinctKeysPermuted(rows, joined);
    OneForEveryKey(rows);
    assert p[i] in p && p[j] in p && Less(p[i].key, p[j].key);
    a := SecondOf(joined, times, p[i]);
    b := SecondOf(joined, times, p[j]);
    SameKeySameSecond(joined, times, a, b);
  }
}
