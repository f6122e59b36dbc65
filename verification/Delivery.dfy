/** What deliveries add, how often a message is given a state, and what stays as it was. */
module Delivery {
  import opened Text
  import opened Records
  import opened Timestamps
  import opened Pool
  import opened Tables
  import opened TableLaws
  import opened Accounts
  import opened Readers

  // Counting state rows

  function Count(ids: seq<nat>, x: nat): nat {
    if ids == [] then 0 else (if ids[0] == x then 1 else 0) + Count(ids[1..], x)
  }

  lemma {:induction false} CountSnoc(ids: seq<nat>, y: nat, x: nat)
    ensures Count(ids + [y], x) == Count(ids, x) + if y == x then 1 else 0
  {
    if ids == [] {
      assert ids + [y] == [y] && [y][1..] == [];
    } else {
      assert (ids + [y])[1..] == ids[1..] + [y];
      CountSnoc(ids[1..], y, x);
    }
  }

  lemma StatesOfSnoc(ss: seq<MsgState>, s: MsgState, id: nat)
    ensures StatesOf(ss + [s], id) == StatesOf(ss, id) + if s.messageId == id then [s] else []
  {
    assert (ss + [s])[..|ss|] == ss;
  }

  lemma {:induction false} StatesOfNone(ss: seq<MsgState>, id: nat)
    requires forall i :: 0 <= i < |ss| ==> ss[i].messageId != id
    ensures StatesOf(ss, id) == []
  {
    if ss != [] {
      StatesOfNone(ss[..|ss| - 1], id);
    }
  }

  lemma {:induction false} StatesOfPrefix(ss: seq<MsgState>, ts: seq<MsgState>, id: nat)
    requires ss <= ts
    ensures StatesOf(ss, id) <= StatesOf(ts, id)
    decreases |ts|
  {
    if |ss| < |ts| {
      StatesOfPrefix(ss, ts[..|ts| - 1], id);
    } else {
      assert ss == ts;
    }
  }

  /** The state loop gives every listed id one more row; it stops short exactly at its failing statement. */
  lemma {:induction false} InsertStatesCount(db: Db, ids: seq<nat>, k: nat, env: Env, x: nat)
    requires InsertStates(db, ids, k, env).1
    ensures |StatesOf(InsertStates(db, ids, k, env).0.states, x)| == |StatesOf(db.states, x)| + Count(ids, x)
    decreases |ids|
  {
    if ids != [] {
      var db1 := InsertState(Tick(db, env.delay(2 + k)), ids[0]);
      InsertStatesCount(db1, ids[1..], k + 1, env, x);
      StatesOfSnoc(db.states, db1.states[|db.states|], x);
      assert db1.states == db.states + [db1.states[|db.states|]];
    }
  }

  /** How often a message id is selected by a broadcast: once if it is the sender's and recent enough. */
  lemma {:induction false} SelectCount(ms: seq<Msg>, fromId: nat, start: Seconds, i: nat)
    requires IncreasingIds(ms) && i < |ms|
    ensures Count(SelectIds(ms, fromId, start), ms[i].id) ==
            if ms[i].fromId == fromId && ms[i].created >= start then 1 else 0
    decreases |ms|
  {
    var front, m := ms[..|ms| - 1], ms[|ms| - 1];
    var ids := SelectIds(front, fromId, start);
    CountSnoc(ids, m.id, ms[i].id);
    if i < |front| {
      assert ms[i] == front[i];
      SelectCount(front, fromId, start, i);
    } else {
      SelectNone(front, fromId, start, m.id);
    }
  }

  lemma {:induction false} SelectNone(ms: seq<Msg>, fromId: nat, start: Seconds, x: nat)
    requires forall i :: 0 <= i < |ms| ==> ms[i].id != x
    ensures Count(SelectIds(ms, fromId, start), x) == 0
    decreases |ms|
  {
    if ms != [] {
      SelectNone(ms[..|ms| - 1], fromId, start, x);
      CountSnoc(SelectIds(ms[..|ms| - 1], fromId, start), ms[|ms| - 1].id, x);
    }
  }

  // What a broadcast inserts

  function OtherIds(us: seq<User>, fromId: nat): seq<nat> {
    if us == [] then []
    else
      var ids := OtherIds(us[..|us| - 1], fromId);
      if us[|us| - 1].id == fromId then ids else ids + [us[|us| - 1].id]
  }

  /** One message to each of the given ids, numbered upwards. */
  function Fanout(db: Db, fromId: nat, to: seq<nat>, body: string): (ms: seq<Msg>)
    ensures |ms| == |to|
  {
    seq(|to|, i requires 0 <= i < |to| => Msg(db.nextMsg + i, fromId, to[i], body, db.now))
  }

  lemma {:induction false} InsertForAllExact(db: Db, fromId: nat, us: seq<User>, body: string)
    ensures var db', ids := InsertForAll(db, fromId, us, body), OtherIds(us, fromId);
            db' == db.(messages := db.messages + Fanout(db, fromId, ids, body), nextMsg := db.nextMsg + |ids|)
    decreases |us|
  {
    var ids := OtherIds(us, fromId);
    if us == [] {
      assert db.messages + [] == db.messages;
    } else {
      var front := OtherIds(us[..|us| - 1], fromId);
      InsertForAllExact(db, fromId, us[..|us| - 1], body);
      if us[|us| - 1].id != fromId {
        var m := Msg(db.nextMsg + |front|, fromId, us[|us| - 1].id, body, db.now);
        assert Fanout(db, fromId, ids, body) == Fanout(db, fromId, front, body) + [m];
        assert db.messages + (Fanout(db, fromId, front, body) + [m]) ==
                 db.messages + Fanout(db, fromId, front, body) + [m];
      }
    }
  }

  /** The ids that get a broadcast: those of the other users, each once. */
  lemma {:induction false} OtherIdsExact(us: seq<User>, fromId: nat, id: nat)
    requires forall i, j :: 0 <= i < j < |us| ==> us[i].id < us[j].id
    ensures Count(OtherIds(us, fromId), id) == if id != fromId && FindUser(us, id).Some? then 1 else 0
    ensures id in OtherIds(us, fromId) <==> id != fromId && FindUser(us, id).Some?
    decreases |us|
  {
    if us != [] {
      var front, u := us[..|us| - 1], us[|us| - 1];
      OtherIdsExact(front, fromId, id);
      CountSnoc(OtherIds(front, fromId), u.id, id);
      FindUserSnoc(front, u, id);
      assert us == front + [u];
      FindUserFinds(front, id);
    }
  }

  // The effect of one call on the state rows of a message

  lemma NoStatesYet(db: Db, id: nat)
    requires StatesOk(db) && id >= db.nextMsg
    ensures StatesOf(db.states, id) == []
  {
    StatesOfNone(db.states, id);
  }

  /** A broadcast that succeeds gives one state row to every message of the sender from its start second on. */
  lemma BroadcastStates(db: Db, body: string, fromId: nat, env: Env, i: nat)
    requires DbOk(db) && Broadcast(db, body, fromId, env).1
    requires i < |Broadcast(db, body, fromId, env).0.messages|
    ensures var db' := Broadcast(db, body, fromId, env).0;
            StateCount(db', db'.messages[i]) == StateCount(db, db'.messages[i]) +
              if db'.messages[i].fromId == fromId && db'.messages[i].created >= BroadcastStart(db, env) then 1 else 0
  {
    var db1 := BroadcastInserted(db, fromId, body, env);
    InsertForAllOk(Tick(Tick(db, env.delay(0)), env.delay(1)), fromId, db.users, body);
    var ids := SelectIds(db1.messages, fromId, BroadcastStart(db, env));
    forall k | 0 <= k < |ids| ensures ids[k] < db1.nextMsg {
      SelectIdsMembers(db1.messages, fromId, BroadcastStart(db, env), ids[k]);
    }
    InsertStatesOk(db1, ids, 0, env);
    InsertStatesCount(db1, ids, 0, env, db1.messages[i].id);
    SelectCount(db1.messages, fromId, BroadcastStart(db, env), i);
  }

  lemma {:induction false} InsertStatesSucceeds(db: Db, ids: seq<nat>, k: nat, env: Env)
    requires env.fault == NoFault
    ensures InsertStates(db, ids, k, env).1
    decreases |ids|
  {
    if ids != [] {
      InsertStatesSucceeds(InsertState(Tick(db, env.delay(2 + k)), ids[0]), ids[1..], k + 1, env);
    }
  }

  /** The call is a broadcast by this sender that finds someone to send to. */
  ghost predicate IsBroadcastBy(db: Db, op: DbOp, fromId: nat) {
    op.OpDeliver? && op.to.None? && ParseId(op.from) == Some(fromId) && HasOtherUser(db.users, fromId)
  }

  /** The call is a broadcast by the message's sender, whose start second is not after the message's creation. */
  ghost predicate Reaches(db: Db, op: DbOp, m: Msg) {
    IsBroadcastBy(db, op, m.fromId) && BroadcastStart(db, op.env) <= m.created
  }

  lemma BroadcastKeepsMessages(db: Db, body: string, fromId: nat, env: Env)
    requires DbOk(db) && Broadcast(db, body, fromId, env).1
    ensures var db' := Broadcast(db, body, fromId, env).0;
            db'.messages == db.messages +
                Fanout(Tick(Tick(db, env.delay(0)), env.delay(1)), fromId, OtherIds(db.users, fromId), body)
  {
    var db0 := Tick(Tick(db, env.delay(0)), env.delay(1));
    InsertForAllExact(db0, fromId, db.users, body);
    InsertForAllOk(db0, fromId, db.users, body);
    var db1 := BroadcastInserted(db, fromId, body, env);
    var ids := SelectIds(db1.messages, fromId, BroadcastStart(db, env));
    forall k | 0 <= k < |ids| ensures ids[k] < db1.nextMsg {
      SelectIdsMembers(db1.messages, fromId, BroadcastStart(db, env), ids[k]);
    }
    InsertStatesOk(db1, ids, 0, env);
  }

  /** One call without SQL failures: an earlier message gains a row exactly if the call reaches it, a new one gets one
      row. */
  lemma OneCall(db: Db, op: DbOp, i: nat)
    requires DbOk(db) && op.env.fault == NoFault && i < |Apply(db, op).messages|
    ensures var m := Apply(db, op).messages[i];
            StateCount(Apply(db, op), m) ==
              if i < |db.messages| then StateCount(db, m) + (if Reaches(db, op, m) then 1 else 0) else 1
  {
    match op
    case OpAddUser(login, env) =>
    case OpSetHash(id, hash, env) =>
    case OpBan(user, action, deadline, env) =>
      BanUserOk(db, user, action, deadline, env);
    case OpDeliver(body, from, to, env) =>
      if ParseId(from).Some? {
        if to.None? {
          BroadcastCall(db, op, ParseId(from).value, i);
        } else if ParseId(to.value).Some? {
          PrivateCall(db, body, ParseId(from).value, ParseId(to.value).value, env, i);
        }
      }
  }

  lemma BroadcastCall(db: Db, op: DbOp, fromId: nat, i: nat)
    requires DbOk(db) && op.OpDeliver? && op.env.fault == NoFault && op.to.None? && ParseId(op.from) == Some(fromId)
    requires i < |Broadcast(db, op.body, fromId, op.env).0.messages|
    ensures var db' := Broadcast(db, op.body, fromId, op.env).0;
            StateCount(db', db'.messages[i]) ==
              if i >= |db.messages| then 1
              else StateCount(db, db'.messages[i]) + if Reaches(db, op, db'.messages[i]) then 1 else 0
  {
    if HasOtherUser(db.users, fromId) {
      var db1 := BroadcastInserted(db, fromId, op.body, op.env);
      InsertStatesSucceeds(db1, SelectIds(db1.messages, fromId, BroadcastStart(db, op.env)), 0, op.env);
      BroadcastStates(db, op.body, fromId, op.env, i);
      BroadcastKeepsMessages(db, op.body, fromId, op.env);
      var m := Broadcast(db, op.body, fromId, op.env).0.messages[i];
      if i >= |db.messages| {
        NoStatesYet(db, m.id);
      }
    }
  }

  lemma PrivateCall(db: Db, body: string, fromId: nat, toId: nat, env: Env, i: nat)
    requires DbOk(db) && SendPrivate(db, body, fromId, toId, env).1
    requires i < |SendPrivate(db, body, fromId, toId, env).0.messages|
    ensures var db' := SendPrivate(db, body, fromId, toId, env).0;
            StateCount(db', db'.messages[i]) == if i < |db.messages| then StateCount(db, db'.messages[i]) else 1
  {
    var db' := SendPrivate(db, body, fromId, toId, env).0;
    var m := db'.messages[i];
    assert db'.states == db.states + [db'.states[|db.states|]];
    StatesOfSnoc(db.states, db'.states[|db.states|], m.id);
    if i >= |db.messages| {
      NoStatesYet(db, m.id);
    }
  }

  // Whole runs

  ghost predicate NoFaults(ops: seq<DbOp>) {
    forall i :: 0 <= i < |ops| ==> ops[i].env.fault == NoFault
  }

  /** Call i of the run comes after the message is there, and reaches it. */
  ghost predicate ReachedBy(ops: seq<DbOp>, i: nat, m: Msg)
    requires i < |ops|
  {
    m in RunOps(EMPTY_DB, ops[..i]).messages && Reaches(RunOps(EMPTY_DB, ops[..i]), ops[i], m)
  }

  ghost function LaterBroadcasts(ops: seq<DbOp>, m: Msg): set<nat> {
    set i | 0 <= i < |ops| && ReachedBy(ops, i, m)
  }

  lemma ReachedInFront(front: seq<DbOp>, op: DbOp, i: nat, m: Msg)
    requires i < |front|
    ensures ReachedBy(front + [op], i, m) == ReachedBy(front, i, m)
  {
    assert (front + [op])[..i] == front[..i];
  }

  lemma LaterStep(front: seq<DbOp>, op: DbOp, m: Msg)
    ensures LaterBroadcasts(front + [op], m) ==
            LaterBroadcasts(front, m) + if ReachedBy(front + [op], |front|, m) then {|front|} else {}
  {
    var ops := front + [op];
    forall i: nat ensures i in LaterBroadcasts(ops, m) <==>
        i in LaterBroadcasts(front, m) || (i == |front| && ReachedBy(ops, |front|, m))
    {
      if i < |front| {
        ReachedInFront(front, op, i, m);
      }
    }
  }

  lemma LaterSnoc(front: seq<DbOp>, op: DbOp, m: Msg)
    ensures var db := RunOps(EMPTY_DB, front);
            |LaterBroadcasts(front + [op], m)| ==
            |LaterBroadcasts(front, m)| + if m in db.messages && Reaches(db, op, m) then 1 else 0
  {
    LaterStep(front, op, m);
    assert (front + [op])[..|front|] == front;
    assert |front| !in LaterBroadcasts(front, m);
  }

  lemma NotThereBefore(ops: seq<DbOp>, m: Msg)
    requires m !in RunOps(EMPTY_DB, ops).messages
    ensures LaterBroadcasts(ops, m) == {}
  {
    forall i | 0 <= i < |ops| ensures !ReachedBy(ops, i, m) {
      EmptyOk();
      RunSplit(EMPTY_DB, ops, i);
      RunOpsOk(EMPTY_DB, ops[..i]);
      RunOpsAppends(RunOps(EMPTY_DB, ops[..i]), ops[i..]);
    }
  }

  lemma {:induction false} RunSplit(db: Db, ops: seq<DbOp>, i: nat)
    requires i <= |ops|
    ensures RunOps(db, ops) == RunOps(RunOps(db, ops[..i]), ops[i..])
    decreases |ops|
  {
    if i == |ops| {
      assert ops[..i] == ops;
    } else {
      RunSplit(db, ops[..|ops| - 1], i);
      Slices(ops, i);
    }
  }

  lemma Slices<T>(s: seq<T>, i: nat)
    requires i < |s|
    ensures s[..|s| - 1][..i] == s[..i]
    ensures s[i..][..|s[i..]| - 1] == s[..|s| - 1][i..]
    ensures s[i..][|s[i..]| - 1] == s[|s| - 1]
  {
  }

  /** Main result: in a run without SQL failures a message has one state row, and one more for every later
      broadcast of its sender that started no later than the second the message was created in. */
  lemma {:induction false} StateHistoryLaw(ops: seq<DbOp>, m: Msg)
    requires NoFaults(ops) && m in RunOps(EMPTY_DB, ops).messages
    ensures StateCount(RunOps(EMPTY_DB, ops), m) == 1 + |LaterBroadcasts(ops, m)|
    decreases |ops|
  {
    hide Apply, StateCount, Reaches, LaterBroadcasts;
    EmptyOk();
    if ops != [] {
      var front, op := ops[..|ops| - 1], ops[|ops| - 1];
      assert ops == front + [op];
      var db := RunOps(EMPTY_DB, front);
      RunOpsOk(EMPTY_DB, front);
      ApplyOk(db, op);
      ApplyAppends(db, op);
      var i :| 0 <= i < |Apply(db, op).messages| && Apply(db, op).messages[i] == m;
      OneCall(db, op, i);
      LaterSnoc(front, op, m);
      if i < |db.messages| {
        assert db.messages[i] == m;
        StateHistoryLaw(front, m);
      } else {
        assert m !in db.messages by {
          assert forall k :: 0 <= k < |db.messages| ==> db.messages[k] == Apply(db, op).messages[k];
        }
        NotThereBefore(front, m);
      }
    }
  }

  // What exactly a delivery writes, wherever it fails

  /** The seconds that pass before the given number of statements, counted from one of them. */
  function Delays(env: Env, first: nat, count: nat): nat {
    if count == 0 then 0 else Delays(env, first, count - 1) + env.delay(first + count - 1)
  }

  lemma {:induction false} DelaysFrom(env: Env, first: nat, count: nat)
    requires count > 0
    ensures Delays(env, first, count) == env.delay(first) + Delays(env, first + 1, count - 1)
  {
    if count > 1 {
      DelaysFrom(env, first, count - 1);
    }
  }

  /** How many statements run, of a number of them counted from one, before one fails. */
  function Reached(env: Env, first: nat, count: nat): (n: nat)
    ensures n <= count
  {
    match env.fault
    case NoFault => count
    case FailAt(k) => if first <= k < first + count then k - first else count
  }

  /** One state row for each of the given ids: delivered, at the second of its own insert. */
  function StateRows(next: nat, now: Seconds, ids: seq<nat>, env: Env, first: nat): (rows: seq<MsgState>)
    ensures |rows| == |ids|
  {
    seq(|ids|, i requires 0 <= i < |ids| => MsgState(next + i, ids[i], 1, now + Delays(env, first, i + 1)))
  }

  lemma StateRowsCons(next: nat, now: Seconds, ids: seq<nat>, env: Env, first: nat)
    requires ids != []
    ensures var row := MsgState(next, ids[0], 1, now + env.delay(first));
            StateRows(next, now, ids, env, first) ==
                [row] + StateRows(next + 1, now + env.delay(first), ids[1..], env, first + 1)
  {
    var rest := StateRows(next + 1, now + env.delay(first), ids[1..], env, first + 1);
    forall i | 0 <= i < |ids|
      ensures StateRows(next, now, ids, env, first)[i] ==
              if i == 0 then MsgState(next, ids[0], 1, now + env.delay(first)) else rest[i - 1]
    {
      DelaysFrom(env, first, i + 1);
    }
  }

  lemma OneMoreState(db: Db, ids: seq<nat>, k: nat, env: Env)
    requires ids != []
    ensures var db1 := Tick(db, env.delay(2 + k));
            InsertStates(db, ids, k, env) ==
                if Fails(env, 2 + k) then (db1, false) else InsertStates(InsertState(db1, ids[0]), ids[1..], k + 1, env)
  {
  }

  lemma ReachedOnward(env: Env, first: nat, count: nat)
    requires count > 0
    ensures Reached(env, first, count) == if Fails(env, first) then 0 else 1 + Reached(env, first + 1, count - 1)
  {
  }

  lemma NoStateRows(ss: seq<MsgState>, next: nat, now: Seconds, ids: seq<nat>, env: Env, first: nat)
    ensures ss + StateRows(next, now, ids[..0], env, first) == ss
  {
  }

  /** The state loop inserts a row for each id up to the statement that fails, and succeeds exactly if none does. */
  lemma {:induction false} InsertStatesExactly(db: Db, ids: seq<nat>, k: nat, env: Env)
    ensures var (db', ok) := InsertStates(db, ids, k, env);
            var n := Reached(env, 2 + k, |ids|);
            && (ok <==> n == |ids|)
            && db'.states == db.states + StateRows(db.nextState, db.now, ids[..n], env, 2 + k)
            && db' == db.(states := db'.states, nextState := db.nextState + n, now := db'.now)
    decreases |ids|
  {
    hide StateRows;
    NoStateRows(db.states, db.nextState, db.now, ids, env, 2 + k);
    if ids != [] {
      hide InsertStates, Reached;
      OneMoreState(db, ids, k, env);
      ReachedOnward(env, 2 + k, |ids|);
      if !Fails(env, 2 + k) {
        var db1 := Tick(db, env.delay(2 + k));
        var n, db2 := Reached(env, 2 + k, |ids|), InsertState(db1, ids[0]);
        InsertStatesExactly(db2, ids[1..], k + 1, env);
        StateRowsCons(db.nextState, db.now, ids[..n], env, 2 + k);
        assert ids[..n][1..] == ids[1..][..n - 1];
        Associative(db.states, [MsgState(db.nextState, ids[0], 1, db1.now)],
                    StateRows(db.nextState + 1, db1.now, ids[1..][..n - 1], env, 3 + k));
      }
    }
  }

  /** Main result: what a private delivery writes. It succeeds exactly if neither insert fails; the message is there
      unless the first one does, and its state row, with the second of its own insert, only if both succeed. */
  lemma PrivateExactly(db: Db, body: string, fromId: nat, toId: nat, env: Env)
    ensures var (db', ok) := SendPrivate(db, body, fromId, toId, env);
            var created := db.now + env.delay(0) + env.delay(1);
            && (ok <==> !Fails(env, 0) && !Fails(env, 1))
            && db'.messages == db.messages +
                 (if Fails(env, 0) then [] else [Msg(db.nextMsg, fromId, toId, body, created)])
            && db'.states == db.states +
                 (if ok then [MsgState(db.nextState, db.nextMsg, 1, created + env.delay(2))] else [])
            && db' == db.(messages := db'.messages, states := db'.states, nextMsg := db'.nextMsg,
                          nextState := db'.nextState, now := db'.now)
  {
    assert db.messages + [] == db.messages && db.states + [] == db.states;
  }

  /** The messages a broadcast gives a state: those of its sender from the second on in which it looked at the clock. */
  ghost predicate Chosen(ids: seq<nat>, ms: seq<Msg>, fromId: nat, start: Seconds) {
    && (forall i, j :: 0 <= i < j < |ids| ==> ids[i] < ids[j])
    && (forall x :: x in ids <==> exists m :: m in ms && m.id == x && m.fromId == fromId && m.created >= start)
  }

  lemma {:induction false} SelectIdsRise(ms: seq<Msg>, fromId: nat, start: Seconds)
    requires IncreasingIds(ms)
    ensures var ids := SelectIds(ms, fromId, start); forall i, j :: 0 <= i < j < |ids| ==> ids[i] < ids[j]
  {
    if ms != [] {
      var front := ms[..|ms| - 1];
      SelectIdsRise(front, fromId, start);
      var ids := SelectIds(front, fromId, start);
      forall i | 0 <= i < |ids| ensures ids[i] < ms[|ms| - 1].id {
        SelectIdsMembers(front, fromId, start, ids[i]);
        var k :| 0 <= k < |front| && front[k].id == ids[i];
        assert ms[k] == front[k];
      }
    }
  }

  lemma SelectIdsChosen(ms: seq<Msg>, fromId: nat, start: Seconds)
    requires IncreasingIds(ms)
    ensures Chosen(SelectIds(ms, fromId, start), ms, fromId, start)
  {
    SelectIdsRise(ms, fromId, start);
    forall x ensures x in SelectIds(ms, fromId, start) <==>
                     exists m :: m in ms && m.id == x && m.fromId == fromId && m.created >= start
    {
      SelectIdsMembers(ms, fromId, start, x);
      if m :| m in ms && m.id == x && m.fromId == fromId && m.created >= start {
        var i :| 0 <= i < |ms| && ms[i] == m;
      }
    }
  }

  /** The messages a broadcast inserts: none where its insert fails or finds nobody. */
  function BroadcastMessages(db: Db, body: string, fromId: nat, env: Env): seq<Msg> {
    if Fails(env, 0) || !HasOtherUser(db.users, fromId) then []
    else Fanout(Tick(Tick(db, env.delay(0)), env.delay(1)), fromId, OtherIds(db.users, fromId), body)
  }

  /** How many of its state rows a broadcast inserts. */
  function BroadcastReach(db: Db, fromId: nat, env: Env, count: nat): (n: nat)
    ensures n <= count
  {
    if Fails(env, 0) || Fails(env, 1) || !HasOtherUser(db.users, fromId) then 0 else Reached(env, 2, count)
  }

  /** The messages of a broadcast, its state rows for the given ids, and its success. */
  ghost predicate WritesFor(db: Db, body: string, fromId: nat, env: Env, ids: seq<nat>) {
    var (db', ok) := Broadcast(db, body, fromId, env);
    var n := BroadcastReach(db, fromId, env, |ids|);
    && db'.messages == db.messages + BroadcastMessages(db, body, fromId, env)
    && db'.states == db.states + StateRows(db.nextState, db.now + env.delay(0) + env.delay(1), ids[..n], env, 2)
    && (ok <==> !Fails(env, 0) && !Fails(env, 1) && n == |ids| && exists u :: u in db.users && u.id != fromId)
    && db' == db.(messages := db'.messages, states := db'.states, nextMsg := db'.nextMsg, nextState := db'.nextState,
                  now := db'.now)
  }

  lemma OthersExist(us: seq<User>, id: nat)
    ensures HasOtherUser(us, id) <==> exists u :: u in us && u.id != id
  {
    if u :| u in us && u.id != id {
      var i :| 0 <= i < |us| && us[i] == u;
    }
  }

  lemma NothingInserted(db: Db, body: string, fromId: nat, env: Env, ids: seq<nat>)
    requires Fails(env, 0) || !HasOtherUser(db.users, fromId)
    ensures WritesFor(db, body, fromId, env, ids)
    ensures Broadcast(db, body, fromId, env).0.messages == db.messages
  {
    OthersExist(db.users, fromId);
    assert db.messages + [] == db.messages;
    assert ids[..0] == [] && db.states + [] == db.states;
  }

  lemma Inserted(db: Db, body: string, fromId: nat, env: Env) returns (ids: seq<nat>)
    requires DbOk(db) && !Fails(env, 0) && HasOtherUser(db.users, fromId)
    ensures WritesFor(db, body, fromId, env, ids)
    ensures ids == SelectIds(Broadcast(db, body, fromId, env).0.messages, fromId, BroadcastStart(db, env))
  {
    OthersExist(db.users, fromId);
    hide DbOk, HasOtherUser, SelectIds, Fanout, StateRows, OtherIds, InsertForAll, InsertStates;
    InsertForAllExact(Tick(Tick(db, env.delay(0)), env.delay(1)), fromId, db.users, body);
    var db1 := BroadcastInserted(db, fromId, body, env);
    ids := SelectIds(db1.messages, fromId, BroadcastStart(db, env));
    if Fails(env, 1) {
      NoStateRows(db.states, db.nextState, db1.now, ids, env, 2);
    } else {
      InsertStatesExactly(db1, ids, 0, env);
    }
  }

  /** Main result: what a broadcast writes. It inserts its messages unless the first statement fails or finds nobody,
      and then one state row for each chosen message up to the insert that fails, each with the second of its own
      insert; it succeeds exactly if none fails. */
  lemma BroadcastExactly(db: Db, body: string, fromId: nat, env: Env) returns (ids: seq<nat>)
    requires DbOk(db)
    ensures WritesFor(db, body, fromId, env, ids)
    ensures Chosen(ids, Broadcast(db, body, fromId, env).0.messages, fromId, db.now + env.delay(0))
  {
    hide WritesFor, Broadcast;
    BroadcastOk(db, body, fromId, env);
    if Fails(env, 0) || !HasOtherUser(db.users, fromId) {
      ids := SelectIds(db.messages, fromId, BroadcastStart(db, env));
      NothingInserted(db, body, fromId, env, ids);
    } else {
      ids := Inserted(db, body, fromId, env);
    }
    SelectIdsChosen(Broadcast(db, body, fromId, env).0.messages, fromId, BroadcastStart(db, env));
  }

  // What a delivery shows, and to whom

  /** Once a message is shown, no call changes its sender, its receiver or its text, or to whom it is shown; its state
      rows stay in front, so that every stamp it could have been shown with is still one of them. */
  lemma ShownStays(db: Db, ops: seq<DbOp>, m: Msg, id: nat)
    requires DbOk(db) && m in db.messages && VisibleTo(db, m, id)
    ensures var db' := RunOps(db, ops);
            && m in db'.messages && VisibleTo(db', m, id)
            && FindUser(db'.users, m.fromId) == FindUser(db.users, m.fromId)
            && StatesOf(db.states, m.id) <= StatesOf(db'.states, m.id)
            && (VisibleToAdmin(db, m) ==> VisibleToAdmin(db', m) && AdminEntry(db'.users, m) == AdminEntry(db.users, m))
  {
    var db' := RunOps(db, ops);
    RunOpsAppends(db, ops);
    StatesOfPrefix(db.states, db'.states, m.id);
    FindUserStays(db.users, db'.users, m.fromId);
    if FindUser(db.users, m.toId).Some? {
      FindUserStays(db.users, db'.users, m.toId);
    }
  }

  /** Where rows come in the order of the primary keys, the stamp stays as well. */
  lemma ShownStampStays(db: Db, ops: seq<DbOp>, m: Msg, id: nat, userName: string)
    requires DbOk(db) && m in db.messages && VisibleTo(db, m, id)
    ensures VisibleTo(RunOps(db, ops), m, id)
    ensures UserEntryAt(RunOps(db, ops), m, 0, userName) == UserEntryAt(db, m, 0, userName)
  {
    ShownStays(db, ops, m, id);
  }

  /** Every message a successful delivery inserts has a state row from then on, whatever fails later. */
  lemma DeliveredKeepsState(db: Db, op: DbOp, ops: seq<DbOp>, m: Msg)
    requires DbOk(db) && op.OpDeliver? && DeliverMsg(db, op.body, op.from, op.to, op.env).1
    requires m in Apply(db, op).messages && m !in db.messages
    ensures StateCount(RunOps(Apply(db, op), ops), m) >= 1
  {
    var db' := Apply(db, op);
    ApplyOk(db, op);
    RunOpsAppends(db', ops);
    StatesOfPrefix(db'.states, RunOps(db', ops).states, m.id);
    var i :| 0 <= i < |db'.messages| && db'.messages[i] == m;
    ApplyAppends(db, op);
    assert i >= |db.messages|;
    var f := ParseId(op.from).value;
    if op.to.None? {
      BroadcastStates(db, op.body, f, op.env, i);
      BroadcastKeepsMessages(db, op.body, f, op.env);
    } else {
      PrivateCall(db, op.body, f, ParseId(op.to.value).value, op.env, i);
    }
  }

  /** Main result: a successful private delivery between registered users adds one message, with one state row of the
      second it was inserted in, and shown to exactly its sender and its recipient; what is shown of every earlier
      message, and to whom, stays the same. */
  lemma PrivateDelivery(db: Db, body: string, fromId: nat, toId: nat, env: Env, id: nat)
    requires DbOk(db) && SendPrivate(db, body, fromId, toId, env).1
    requires FindUser(db.users, fromId).Some?
    ensures var db' := SendPrivate(db, body, fromId, toId, env).0;
            var created := db.now + env.delay(0) + env.delay(1);
            && db'.messages == db.messages + [Msg(db.nextMsg, fromId, toId, body, created)]
            && db'.states == db.states + [MsgState(db.nextState, db.nextMsg, 1, created + env.delay(2))]
            && (VisibleTo(db', db'.messages[|db.messages|], id) <==> id == fromId || id == toId)
            && (VisibleToAdmin(db', db'.messages[|db.messages|]) <==> FindUser(db.users, toId).Some?)
            && (forall i :: 0 <= i < |db.messages| ==>
                  (VisibleTo(db', db.messages[i], id) <==> VisibleTo(db, db.messages[i], id)) &&
                  (VisibleToAdmin(db', db.messages[i]) <==> VisibleToAdmin(db, db.messages[i])))
  {
    var db' := SendPrivate(db, body, fromId, toId, env).0;
    PrivateExactly(db, body, fromId, toId, env);
    forall i | 0 <= i < |db'.messages|
      ensures StateCount(db', db'.messages[i]) == if i < |db.messages| then StateCount(db, db'.messages[i]) else 1
    {
      PrivateCall(db, body, fromId, toId, env, i);
    }
    assert forall i :: 0 <= i < |db.messages| ==> db'.messages[i] == db.messages[i];
  }

  /** An earlier message that a failed delivery left without a state, of the sender and second of this broadcast. */
  ghost predicate PickedUp(db: Db, m: Msg, fromId: nat, env: Env) {
    StateCount(db, m) == 0 && m.fromId == fromId && m.created >= BroadcastStart(db, env)
  }

  lemma BroadcastNew(db: Db, body: string, fromId: nat, env: Env, id: nat, k: nat)
    requires DbOk(db) && Broadcast(db, body, fromId, env).1 && FindUser(db.users, fromId).Some?
    requires k < |OtherIds(db.users, fromId)|
    ensures var db' := Broadcast(db, body, fromId, env).0;
            && |db'.messages| > |db.messages| + k
            && (VisibleTo(db', db'.messages[|db.messages| + k], id) <==>
                 id == fromId || id == OtherIds(db.users, fromId)[k])
            && VisibleToAdmin(db', db'.messages[|db.messages| + k])
  {
    OtherIdsExact(db.users, fromId, OtherIds(db.users, fromId)[k]);
    BroadcastKeepsMessages(db, body, fromId, env);
    BroadcastOk(db, body, fromId, env);
    BroadcastStates(db, body, fromId, env, |db.messages| + k);
  }

  lemma BroadcastOld(db: Db, body: string, fromId: nat, env: Env, id: nat, i: nat)
    requires DbOk(db) && Broadcast(db, body, fromId, env).1 && FindUser(db.users, fromId).Some? && i < |db.messages|
    ensures VisibleTo(Broadcast(db, body, fromId, env).0, db.messages[i], id) <==>
              || VisibleTo(db, db.messages[i], id)
              || (PickedUp(db, db.messages[i], fromId, env) && (id == fromId || id == db.messages[i].toId))
    ensures VisibleToAdmin(Broadcast(db, body, fromId, env).0, db.messages[i]) <==>
              || VisibleToAdmin(db, db.messages[i])
              || (PickedUp(db, db.messages[i], fromId, env) && FindUser(db.users, db.messages[i].toId).Some?)
  {
    BroadcastKeepsMessages(db, body, fromId, env);
    BroadcastOk(db, body, fromId, env);
    assert Broadcast(db, body, fromId, env).0.messages[i] == db.messages[i];
    BroadcastStates(db, body, fromId, env, i);
  }

  /** The state rows of a broadcast that succeeds. */
  lemma AllStateRows(db: Db, body: string, fromId: nat, env: Env) returns (chosen: seq<nat>)
    requires DbOk(db) && Broadcast(db, body, fromId, env).1
    ensures var db' := Broadcast(db, body, fromId, env).0;
            && db'.states == db.states +
                 StateRows(db.nextState, db.now + env.delay(0) + env.delay(1), chosen, env, 2)
            && Chosen(chosen, db'.messages, fromId, db.now + env.delay(0))
  {
    hide Broadcast, DbOk, StateRows, Chosen;
    chosen := BroadcastExactly(db, body, fromId, env);
    assert chosen[..|chosen|] == chosen;
  }

  lemma SortedUsers(db: Db)
    requires DbOk(db)
    ensures forall i, j :: 0 <= i < j < |db.users| ==> db.users[i].id < db.users[j].id
  {
  }

  /** Main result: a successful broadcast adds exactly one message for every user but the sender, each shown to exactly
      the sender and that user, and to the admin; and one state row for each chosen message, of the second of its own
      insert. An earlier message becomes visible to somebody new, or to the admin, exactly if it is picked up. */
  lemma BroadcastDelivery(db: Db, body: string, fromId: nat, env: Env, id: nat) returns (chosen: seq<nat>)
    requires DbOk(db) && Broadcast(db, body, fromId, env).1
    requires FindUser(db.users, fromId).Some?
    ensures var db', ids := Broadcast(db, body, fromId, env).0, OtherIds(db.users, fromId);
            && db'.messages == db.messages + Fanout(Tick(Tick(db, env.delay(0)), env.delay(1)), fromId, ids, body)
            && db'.states == db.states +
                 StateRows(db.nextState, db.now + env.delay(0) + env.delay(1), chosen, env, 2)
            && Chosen(chosen, db'.messages, fromId, db.now + env.delay(0))
            && (forall u: nat :: Count(ids, u) == if u != fromId && FindUser(db.users, u).Some? then 1 else 0)
            && (forall k :: 0 <= k < |ids| ==>
                  && (VisibleTo(db', db'.messages[|db.messages| + k], id) <==> id == fromId || id == ids[k])
                  && VisibleToAdmin(db', db'.messages[|db.messages| + k]))
            && (forall i :: 0 <= i < |db.messages| ==>
                  var m := db.messages[i];
                  && (VisibleTo(db', m, id) <==>
                        VisibleTo(db, m, id) || (PickedUp(db, m, fromId, env) && (id == fromId || id == m.toId)))
                  && (VisibleToAdmin(db', m) <==>
                        VisibleToAdmin(db, m) || (PickedUp(db, m, fromId, env) && FindUser(db.users, m.toId).Some?)))
  {
    hide Broadcast, VisibleTo, VisibleToAdmin, PickedUp, Count, OtherIds, FindUser, StateRows, Chosen, DbOk, UsersOk;
    chosen := AllStateRows(db, body, fromId, env);
    SortedUsers(db);
    var db', ids := Broadcast(db, body, fromId, env).0, OtherIds(db.users, fromId);
    BroadcastKeepsMessages(db, body, fromId, env);
    forall u: nat ensures Count(ids, u) == if u != fromId && FindUser(db.users, u).Some? then 1 else 0 {
      OtherIdsExact(db.users, fromId, u);
    }
    forall k | 0 <= k < |ids|
      ensures VisibleTo(db', db'.messages[|db.messages| + k], id) <==> id == fromId || id == ids[k]
      ensures VisibleToAdmin(db', db'.messages[|db.messages| + k])
    {
      BroadcastNew(db, body, fromId, env, id, k);
    }
    forall i | 0 <= i < |db.messages|
      ensures VisibleTo(db', db.messages[i], id) <==>
              VisibleTo(db, db.messages[i], id) ||
              (PickedUp(db, db.messages[i], fromId, env) && (id == fromId || id == db.messages[i].toId))
      ensures VisibleToAdmin(db', db.messages[i]) <==>
              VisibleToAdmin(db, db.messages[i]) ||
              (PickedUp(db, db.messages[i], fromId, env) && FindUser(db.users, db.messages[i].toId).Some?)
    {
      BroadcastOld(db, body, fromId, env, id, i);
    }
  }

  // From whom, and to whom

  /** Some of the messages is to this user. */
  ghost predicate Addressed(ms: seq<Msg>, u: nat) { exists i :: 0 <= i < |ms| && ms[i].toId == u }

  /** The new messages are all from this sender with this text: one to the recipient, or one to each other user. */
  ghost predicate SentBy(db: Db, db': Db, fromId: nat, to: Option<nat>, body: string) {
    && db.messages <= db'.messages
    && var sent := db'.messages[|db.messages|..];
       && (forall i :: 0 <= i < |sent| ==> sent[i].fromId == fromId && sent[i].body == body)
       && (forall i, j :: 0 <= i < j < |sent| ==> sent[i].toId != sent[j].toId)
       && (to.Some? ==> |sent| == 1 && sent[0].toId == to.value)
       && sent != []
       && (to.None? ==>
             forall u: nat :: Addressed(sent, u) <==> u != fromId && FindUser(db.users, u).Some?)
  }

  lemma {:induction false} OtherIdsRise(us: seq<User>, fromId: nat)
    requires forall i, j :: 0 <= i < j < |us| ==> us[i].id < us[j].id
    ensures var ids := OtherIds(us, fromId); forall i, j :: 0 <= i < j < |ids| ==> ids[i] < ids[j]
  {
    if us != [] {
      var front := us[..|us| - 1];
      OtherIdsRise(front, fromId);
      var ids := OtherIds(front, fromId);
      forall i | 0 <= i < |ids| ensures ids[i] < us[|us| - 1].id {
        OtherIdsExact(front, fromId, ids[i]);
        FindUserFinds(front, ids[i]);
        var k :| 0 <= k < |front| && front[k].id == ids[i];
        assert us[k] == front[k];
      }
    }
  }

  lemma FanoutSentBy(db: Db, db': Db, at: Db, fromId: nat, body: string)
    requires UsersOk(db) && db'.messages == db.messages + Fanout(at, fromId, OtherIds(db.users, fromId), body)
    requires exists u :: u in db.users && u.id != fromId
    ensures SentBy(db, db', fromId, None, body)
  {
    var ids := OtherIds(db.users, fromId);
    var fan := Fanout(at, fromId, ids, body);
    assert db'.messages[|db.messages|..] == fan;
    OtherIdsRise(db.users, fromId);
    assert forall i :: 0 <= i < |ids| ==> fan[i].toId == ids[i] && fan[i].fromId == fromId && fan[i].body == body;
    hide OtherIds, Fanout;
    assert fan != [] by {
      var u :| u in db.users && u.id != fromId;
      FindUserFinds(db.users, u.id);
      OtherIdsExact(db.users, fromId, u.id);
    }
    forall u: nat ensures Addressed(fan, u) <==> u != fromId && FindUser(db.users, u).Some? {
      OtherIdsExact(db.users, fromId, u);
      if u in ids {
        var i :| 0 <= i < |ids| && ids[i] == u;
        assert fan[i].toId == u;
      }
    }
  }

  lemma BroadcastSentBy(db: Db, body: string, fromId: nat, env: Env)
    requires DbOk(db) && Broadcast(db, body, fromId, env).1
    ensures SentBy(db, Broadcast(db, body, fromId, env).0, fromId, None, body)
  {
    OthersExist(db.users, fromId);
    hide SentBy, HasOtherUser, InsertStates;
    BroadcastKeepsMessages(db, body, fromId, env);
    FanoutSentBy(db, Broadcast(db, body, fromId, env).0, Tick(Tick(db, env.delay(0)), env.delay(1)), fromId, body);
  }

  /** Main result: a successful delivery is from the sender that is named first, to the recipient that is named second,
      or to all other users where none is. */
  lemma DeliveredFrom(db: Db, body: string, from: string, to: Option<string>, env: Env)
    requires DbOk(db) && DeliverMsg(db, body, from, to, env).1
    ensures ParseId(from).Some? && (to.Some? ==> ParseId(to.value).Some?)
    ensures SentBy(db, DeliverMsg(db, body, from, to, env).0, ParseId(from).value,
                   if to.Some? then ParseId(to.value) else None, body)
  {
    hide DbOk, ParseId, Broadcast;
    if to.None? {
      BroadcastSentBy(db, body, ParseId(from).value, env);
    } else {
      PrivateExactly(db, body, ParseId(from).value, ParseId(to.value).value, env);
    }
  }

  // The inbox of the recipient

  /** The inbox row of a private delivery. */
  function InboxRowOf(db: Db, body: string, fromId: nat, env: Env, userName: string): Entry
    requires FindUser(db.users, fromId).Some?
  {
    var stamp := Stamp(db.now + env.delay(0) + env.delay(1) + env.delay(2));
    Entry(stamp, Message(stamp, Decimal(db.nextMsg), FindUser(db.users, fromId).value.login, userName, body))
  }

  /** Main result: after a successful private delivery, and whatever else runs, the recipient's inbox has an entry for
      the second of the delivery. It is this message, unless another one was delivered to the user in that second. */
  lemma DeliveredToInbox(db: Db, body: string, fromId: nat, toId: nat, env: Env, ops: seq<DbOp>, userName: string,
                         pool: Pool, inboxEnv: Env)
    requires DbOk(db) && SendPrivate(db, body, fromId, toId, env).1 && FindUser(db.users, fromId).Some?
    requires !Fails(inboxEnv, 0)
    ensures var db', x := RunOps(SendPrivate(db, body, fromId, toId, env).0, ops),
                          InboxRowOf(db, body, fromId, env, userName);
            var inbox := GetUserMsgsNumber(db', toId, userName, pool, inboxEnv);
            && IsInboxEntry(db', db'.messages, toId, userName, x) && HasKey(inbox, x.key)
            && ((forall y :: IsInboxEntry(db', db'.messages, toId, userName, y) && y.key == x.key ==> y == x) ==>
                  x in inbox)
  {
    hide GetUserMsgsNumber, DbOk, RunOps;
    var db1, x := SendPrivate(db, body, fromId, toId, env).0, InboxRowOf(db, body, fromId, env, userName);
    var db' := RunOps(db1, ops);
    PrivateExactly(db, body, fromId, toId, env);
    PrivateOk(db, body, fromId, toId, env);
    RunOpsAppends(db1, ops);
    FindUserStays(db.users, db'.users, fromId);
    var m, s := db1.messages[|db.messages|], db1.states[|db.states|];
    assert m == db'.messages[|db.messages|] && s == db'.states[|db.states|];
    assert IsInboxEntryOf(db', m, s, toId, userName, x);
    InboxOfEarliest(db', toId, userName, pool, inboxEnv, x);
    var inbox := GetUserMsgsNumber(db', toId, userName, pool, inboxEnv);
    var i :| 0 <= i < |inbox| && inbox[i].key == x.key;
    InboxOfEarliest(db', toId, userName, pool, inboxEnv, inbox[i]);
    EarliestIsEntry(db', toId, userName, inbox[i]);
  }

  lemma PrivateOk(db: Db, body: string, fromId: nat, toId: nat, env: Env)
    requires DbOk(db)
    ensures DbOk(SendPrivate(db, body, fromId, toId, env).0)
  {
    ParseDecimal(fromId);
    ParseDecimal(toId);
    ApplyOk(db, OpDeliver(body, Decimal(fromId), Some(Decimal(toId)), env));
  }

  /** So two deliveries to one user in different seconds both have their entry in the inbox. */
  lemma BothAreInInbox(db: Db, first: string, from: nat, env: Env, ops: seq<DbOp>,
                       second: string, from': nat, env': Env, later: seq<DbOp>,
                       toId: nat, userName: string, pool: Pool, inboxEnv: Env)
    requires DbOk(db) && SendPrivate(db, first, from, toId, env).1 && FindUser(db.users, from).Some?
    requires var db1 := RunOps(SendPrivate(db, first, from, toId, env).0, ops);
             && SendPrivate(db1, second, from', toId, env').1 && FindUser(db1.users, from').Some?
             && Before10000(db1.now + env'.delay(0) + env'.delay(1) + env'.delay(2))
             && db.now + env.delay(0) + env.delay(1) + env.delay(2) <
                  db1.now + env'.delay(0) + env'.delay(1) + env'.delay(2)
    requires !Fails(inboxEnv, 0)
    ensures var db1 := RunOps(SendPrivate(db, first, from, toId, env).0, ops);
            var db2 := RunOps(SendPrivate(db1, second, from', toId, env').0, later);
            var inbox := GetUserMsgsNumber(db2, toId, userName, pool, inboxEnv);
            var x, y := InboxRowOf(db, first, from, env, userName), InboxRowOf(db1, second, from', env', userName);
            && x.key != y.key && HasKey(inbox, x.key) && HasKey(inbox, y.key)
            && ((forall z :: IsInboxEntry(db2, db2.messages, toId, userName, z) ==>
                   (z.key == x.key ==> z == x) && (z.key == y.key ==> z == y)) ==>
                 x in inbox && y in inbox)
  {
    hide SendPrivate, GetUserMsgsNumber, IsInboxEntry, HasKey, DbOk, RunOps, FindUser;
    var db0 := SendPrivate(db, first, from, toId, env).0;
    var db1 := RunOps(db0, ops);
    PrivateOk(db, first, from, toId, env);
    RunOpsOk(db0, ops);
    DeliveredToInbox(db1, second, from', toId, env', later, userName, pool, inboxEnv);
    var op := OpDeliver(second, Decimal(from'), Some(Decimal(toId)), env');
    RunThrough(db0, ops, op, later, second, from', toId, env');
    DeliveredToInbox(db, first, from, toId, env, ops + [op] + later, userName, pool, inboxEnv);
    StampsDiffer(db.now + env.delay(0) + env.delay(1) + env.delay(2),
                 db1.now + env'.delay(0) + env'.delay(1) + env'.delay(2));
  }

  lemma StampsDiffer(t: Seconds, u: Seconds)
    requires t < u && Before10000(u)
    ensures Stamp(t) != Stamp(u)
  {
    StampOrder(t, u);
    LessIrreflexive(Stamp(t));
  }

  lemma RunThrough(db: Db, ops: seq<DbOp>, op: DbOp, later: seq<DbOp>, body: string, from: nat, to: nat, env: Env)
    requires op == OpDeliver(body, Decimal(from), Some(Decimal(to)), env)
    ensures RunOps(db, ops + [op] + later) == RunOps(SendPrivate(RunOps(db, ops), body, from, to, env).0, later)
  {
    ParseDecimal(from);
    ParseDecimal(to);
    var all := ops + [op] + later;
    assert all[..|ops| + 1] == ops + [op] && all[|ops| + 1..] == later && (ops + [op])[..|ops|] == ops;
    RunSplit(db, all, |ops| + 1);
  }

  /** After a run without SQL failures no message is without a state, so nothing is ever picked up. */
  lemma NothingPickedUp(ops: seq<DbOp>, m: Msg, fromId: nat, env: Env)
    requires NoFaults(ops) && m in RunOps(EMPTY_DB, ops).messages
    ensures !PickedUp(RunOps(EMPTY_DB, ops), m, fromId, env)
  {
    StateHistoryLaw(ops, m);
  }

  // Ban history

  /** What a call does to the ban of a user: nothing, set it (true), or lift it (false). A ban whose insert fails
      has already deleted the old row. */
  function BanEffect(op: DbOp, id: nat): Option<bool> {
    if !op.OpBan? || ParseId(op.user) != Some(id) || Fails(op.env, 0) then None
    else Some(op.action != "" && op.action[0] == '1' && !Fails(op.env, 1))
  }

  /** The last call of the run with an effect on the user's ban. */
  function LastBan(ops: seq<DbOp>, id: nat): Option<DbOp> {
    if ops == [] then None
    else if BanEffect(ops[|ops| - 1], id).Some? then Some(ops[|ops| - 1])
    else LastBan(ops[..|ops| - 1], id)
  }

  lemma BanCall(db: Db, op: DbOp, id: nat)
    requires DbOk(db)
    ensures BansOf(Apply(db, op).bans, id) ==
              if BanEffect(op, id).None? then BansOf(db.bans, id)
              else if BanEffect(op, id).value then [Ban(id, op.deadline)]
              else []
  {
    if op.OpBan? {
      if ParseId(op.user).Some? {
        var who := ParseId(op.user).value;
        BansOfDeleted(db.bans, who, id);
        BansOfSnoc(DeleteBan(db.bans, who), Ban(who, op.deadline), id);
      }
    } else if op.OpDeliver? {
      DeliverMsgOk(db, op.body, op.from, op.to, op.env);
    }
  }

  /** Main result: in every run, failures included, a user has a ban row exactly if the last call with an effect
      on that user's ban was a full ban, and the row carries that call's deadline. Other users' bans do not matter. */
  lemma {:induction false} BanHistory(ops: seq<DbOp>, id: nat)
    ensures BansOf(RunOps(EMPTY_DB, ops).bans, id) ==
              if LastBan(ops, id).Some? && BanEffect(LastBan(ops, id).value, id) == Some(true)
              then [Ban(id, LastBan(ops, id).value.deadline)] else []
    ensures LastBan(ops, id).Some? ==> LastBan(ops, id).value.OpBan?
  {
    if ops != [] {
      var front := ops[..|ops| - 1];
      BanHistory(front, id);
      EmptyOk();
      RunOpsOk(EMPTY_DB, front);
      BanCall(RunOps(EMPTY_DB, front), ops[|ops| - 1], id);
    }
  }
}
