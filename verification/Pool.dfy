/** std::map from strings to messages: entries in strictly increasing order of their keys. */
module Pool {
  import opened Text
  import opened Records

  datatype Entry = Entry(key: string, msg: Message)

  type Pool = seq<Entry>

  ghost predicate Sorted(p: Pool) {
    forall i, j :: 0 <= i < j < |p| ==> Less(p[i].key, p[j].key)
  }

  /** insert and emplace: the entry goes to its place, unless its key is taken. */
  function Put(p: Pool, e: Entry): Pool {
    if p == [] || Less(e.key, p[0].key) then [e] + p
    else if p[0].key == e.key then p
    else [p[0]] + Put(p[1..], e)
  }

  /** Insertion in row order. */
  function PutAll(p: Pool, rows: seq<Entry>): Pool {
    if rows == [] then p else Put(PutAll(p, rows[..|rows| - 1]), rows[|rows| - 1])
  }

  predicate HasKey(p: Pool, k: string) { exists i :: 0 <= i < |p| && p[i].key == k }

  lemma {:induction false} PutMembers(p: Pool, e: Entry, x: Entry)
    requires Sorted(p)
    ensures x in Put(p, e) <==> x in p || (x == e && !HasKey(p, e.key))
  {
    LessIrreflexive(e.key);
    if p != [] && Less(e.key, p[0].key) {
      forall i | 0 <= i < |p| ensures p[i].key != e.key {
        if p[i].key == e.key && i > 0 {
          LessTransitive(p[0].key, p[i].key, p[0].key);
          LessIrreflexive(p[0].key);
        }
      }
    } else if p != [] && p[0].key != e.key {
      PutMembers(p[1..], e, x);
      assert HasKey(p, e.key) <==> HasKey(p[1..], e.key) by {
        if HasKey(p, e.key) {
          var i :| 0 <= i < |p| && p[i].key == e.key;
          assert p[1..][i - 1] == p[i];
        }
        if HasKey(p[1..], e.key) {
          var i :| 0 <= i < |p[1..]| && p[1..][i].key == e.key;
          assert p[i + 1] == p[1..][i];
        }
      }
      assert p == [p[0]] + p[1..];
    }
  }

  lemma {:induction false} PutSorted(p: Pool, e: Entry)
    requires Sorted(p)
    ensures Sorted(Put(p, e))
  {
    if p == [] || p[0].key == e.key {
    } else if Less(e.key, p[0].key) {
      forall j | 0 <= j < |p| ensures Less(e.key, p[j].key) {
        if j > 0 {
          LessTransitive(e.key, p[0].key, p[j].key);
        }
      }
    } else {
      LessTotal(e.key, p[0].key);
      PutSorted(p[1..], e);
      var q := Put(p[1..], e);
      forall j | 0 <= j < |q| ensures Less(p[0].key, q[j].key) {
        PutMembers(p[1..], e, q[j]);
        if q[j] in p[1..] {
          var i :| 0 <= i < |p[1..]| && p[1..][i] == q[j];
          assert p[i + 1] == q[j];
        }
      }
    }
  }

  lemma {:induction false} PutAllSorted(rows: seq<Entry>)
    ensures Sorted(PutAll([], rows))
  {
    if rows != [] {
      PutAllSorted(rows[..|rows| - 1]);
      PutSorted(PutAll([], rows[..|rows| - 1]), rows[|rows| - 1]);
    }
  }

  /** Row i is the first one with its key. */
  predicate FirstOfKey(rows: seq<Entry>, i: nat)
    requires i < |rows|
  {
    forall j :: 0 <= j < i ==> rows[j].key != rows[i].key
  }

  lemma {:induction false} PutAllKeys(rows: seq<Entry>, k: string)
    ensures HasKey(PutAll([], rows), k) <==> exists i :: 0 <= i < |rows| && rows[i].key == k
  {
    if rows != [] {
      var front, e := rows[..|rows| - 1], rows[|rows| - 1];
      PutAllSorted(front);
      PutAllKeys(front, k);
      KeysOfPut(PutAll([], front), e, k);
      assert forall i :: 0 <= i < |front| ==> rows[i] == front[i];
      assert (exists i :: 0 <= i < |rows| && rows[i].key == k) <==>
               (exists i :: 0 <= i < |front| && front[i].key == k) || e.key == k;
    }
  }

  /** The pool holds exactly the first row of every key. */
  lemma {:induction false} PutAllMembers(rows: seq<Entry>, x: Entry)
    ensures x in PutAll([], rows) <==> exists i :: 0 <= i < |rows| && rows[i] == x && FirstOfKey(rows, i)
  {
    if rows != [] {
      var front, e := rows[..|rows| - 1], rows[|rows| - 1];
      PutAllSorted(front);
      PutMembers(PutAll([], front), e, x);
      PutAllMembers(front, x);
      PutAllKeys(front, e.key);
      assert forall i :: 0 <= i < |front| ==> rows[i] == front[i] && (FirstOfKey(rows, i) <==> FirstOfKey(front, i));
      assert FirstOfKey(rows, |front|) <==> !HasKey(PutAll([], front), e.key);
    }
  }

  lemma KeysOfPut(p: Pool, e: Entry, k: string)
    requires Sorted(p)
    ensures HasKey(Put(p, e), k) <==> HasKey(p, k) || k == e.key
  {
    var q := Put(p, e);
    if HasKey(q, k) {
      var i :| 0 <= i < |q| && q[i].key == k;
      PutMembers(p, e, q[i]);
    }
    if HasKey(p, k) {
      var i :| 0 <= i < |p| && p[i].key == k;
      PutMembers(p, e, p[i]);
      var j :| 0 <= j < |q| && q[j] == p[i];
    }
    if k == e.key && !HasKey(p, k) {
      PutMembers(p, e, e);
      var j :| 0 <= j < |q| && q[j] == e;
    }
  }

  lemma HeadIn(q: Pool)
    ensures q != [] ==> q[0] in q
  {
  }

  /** Sorted pools with the same members are the same. */
  lemma {:induction false} SortedUnique(p: Pool, q: Pool)
    requires Sorted(p) && Sorted(q)
    requires forall x :: x in p <==> x in q
    ensures p == q
  {
    if p == [] {
      HeadIn(q);
    } else {
      assert p[0] in q;
      assert q[0] in p;
      var i :| 0 <= i < |q| && q[i] == p[0];
      var j :| 0 <= j < |p| && p[j] == q[0];
      if i > 0 {
        assert Less(q[0].key, p[0].key);
        if j > 0 {
          LessTransitive(p[0].key, q[0].key, p[0].key);
        }
        LessIrreflexive(p[0].key);
      }
      assert q[0] == p[0];
      forall x ensures x in p[1..] <==> x in q[1..] {
        RestMembers(p, x);
        RestMembers(q, x);
      }
      SortedUnique(p[1..], q[1..]);
      assert p == [p[0]] + p[1..] && q == [q[0]] + q[1..];
    }
  }

  lemma RestMembers(p: Pool, x: Entry)
    requires Sorted(p) && p != []
    ensures x in p[1..] <==> x in p && x != p[0]
  {
    LessIrreflexive(p[0].key);
    if x in p && x != p[0] {
      var i :| 0 <= i < |p| && p[i] == x;
      assert p[1..][i - 1] == x;
    }
    if x in p[1..] {
      var i :| 0 <= i < |p[1..]| && p[1..][i] == x;
      assert p[i + 1] == x;
    }
  }

  /** The order of the rows does not matter when rows with one key are equal. */
  lemma PoolIgnoresRowOrder(rows: seq<Entry>, other: seq<Entry>)
    requires forall x :: x in rows <==> x in other
    requires forall x, y :: x in rows && y in rows && x.key == y.key ==> x == y
    ensures PutAll([], rows) == PutAll([], other)
  {
    PutAllSorted(rows);
    PutAllSorted(other);
    forall x ensures x in PutAll([], rows) <==> x in PutAll([], other) {
      MembersOfUniform(rows, x);
      MembersOfUniform(other, x);
    }
    SortedUnique(PutAll([], rows), PutAll([], other));
  }

  lemma MembersOfUniform(rows: seq<Entry>, x: Entry)
    requires forall x, y :: x in rows && y in rows && x.key == y.key ==> x == y
    ensures x in PutAll([], rows) <==> x in rows
  {
    PutAllMembers(rows, x);
    if x in rows {
      var i := FirstIndex(rows, x);
    }
  }

  lemma {:induction false} FirstIndex(rows: seq<Entry>, x: Entry) returns (i: nat)
    requires x in rows
    requires forall x, y :: x in rows && y in rows && x.key == y.key ==> x == y
    ensures i < |rows| && rows[i] == x && FirstOfKey(rows, i)
  {
    i := 0;
    while rows[i] != x
      invariant i < |rows| && x in rows[i..]
      invariant forall j :: 0 <= j < i ==> rows[j] != x
      decreases |rows| - i
    {
      i := i + 1;
    }
  }

  lemma {:induction false} PutAllConcat(p: Pool, a: seq<Entry>, b: seq<Entry>)
    ensures PutAll(p, a + b) == PutAll(PutAll(p, a), b)
    decreases |b|
  {
    if b == [] {
      assert a + b == a;
    } else {
      assert (a + b)[..|a + b| - 1] == a + b[..|b| - 1];
      PutAllConcat(p, a, b[..|b| - 1]);
    }
  }

  lemma {:induction false} PutAgain(p: Pool, e: Entry, f: Entry)
    requires e.key == f.key
    ensures Put(Put(p, e), f) == Put(p, e)
  {
    LessIrreflexive(e.key);
    if p != [] && !Less(e.key, p[0].key) && p[0].key != e.key {
      PutAgain(p[1..], e, f);
    }
  }

  /** Of rows with one key, only the first is kept. */
  lemma {:induction false} PutBlock(p: Pool, rows: seq<Entry>)
    requires rows != [] && forall i :: 0 <= i < |rows| ==> rows[i].key == rows[0].key
    ensures PutAll(p, rows) == Put(p, rows[0])
  {
    if |rows| > 1 {
      var front := rows[..|rows| - 1];
      PutBlock(p, front);
      PutAgain(p, rows[0], rows[|rows| - 1]);
    } else {
      assert PutAll(p, rows[..0]) == p;
    }
  }

  ghost predicate DistinctKeys(rows: seq<Entry>) {
    forall i, j :: 0 <= i < j < |rows| ==> rows[i].key != rows[j].key
  }

  /** Rows with distinct keys are all kept. */
  lemma PoolOfDistinct(rows: seq<Entry>, x: Entry)
    requires DistinctKeys(rows)
    ensures x in PutAll([], rows) <==> x in rows
  {
    PutAllMembers(rows, x);
    assert forall i :: 0 <= i < |rows| ==> FirstOfKey(rows, i);
  }

  lemma {:induction false} PutSize(p: Pool, e: Entry)
    requires Sorted(p)
    ensures |Put(p, e)| == |p| + if HasKey(p, e.key) then 0 else 1
  {
    if p != [] && Less(e.key, p[0].key) {
      if i :| 0 <= i < |p| && p[i].key == e.key {
        if i > 0 {
          LessTransitive(p[0].key, p[i].key, p[0].key);
        }
        LessIrreflexive(p[0].key);
      }
    } else if p != [] && p[0].key != e.key {
      PutSize(p[1..], e);
      if i :| 0 <= i < |p| && p[i].key == e.key {
        assert p[1..][i - 1] == p[i];
      }
      if i :| 0 <= i < |p[1..]| && p[1..][i].key == e.key {
        assert p[i + 1] == p[1..][i];
      }
    }
  }

  /** All rows are kept exactly when their keys are distinct. */
  lemma {:induction false} PoolSize(rows: seq<Entry>)
    ensures |PutAll([], rows)| <= |rows|
    ensures |PutAll([], rows)| == |rows| <==> DistinctKeys(rows)
  {
    if rows != [] {
      var front, e := rows[..|rows| - 1], rows[|rows| - 1];
      PoolSize(front);
      PutAllSorted(front);
      PutSize(PutAll([], front), e);
      PutAllKeys(front, e.key);
      assert DistinctKeys(rows) <==> DistinctKeys(front) && forall i :: 0 <= i < |front| ==> front[i].key != e.key by {
        assert forall i :: 0 <= i < |front| ==> rows[i] == front[i];
      }
    }
  }

  ghost predicate UniformKeys(rows: seq<Entry>) {
    forall x, y :: x in rows && y in rows && x.key == y.key ==> x == y
  }

  ghost predicate NoRepeats(rows: seq<Entry>) {
    forall x :: x in rows ==> multiset(rows)[x] == 1
  }

  lemma CountedOnce(rows: seq<Entry>, i: nat)
    requires DistinctKeys(rows) && i < |rows|
    ensures multiset(rows)[rows[i]] == 1
  {
    var front, rest := rows[..i], rows[i + 1..];
    assert rows == front + [rows[i]] + rest;
    assert rows[i] !in front && rows[i] !in rest;
  }

  lemma CountedTwice(rows: seq<Entry>, i: nat, j: nat)
    requires i < j < |rows| && rows[i] == rows[j]
    ensures multiset(rows)[rows[i]] >= 2
  {
    var front, rest := rows[..j], rows[j..];
    assert rows == front + rest;
    assert front[i] == rows[i] && rest[0] == rows[j];
  }

  /** Distinct keys, said without the order of the rows. */
  lemma DistinctKeysUnordered(rows: seq<Entry>)
    ensures DistinctKeys(rows) <==> UniformKeys(rows) && NoRepeats(rows)
  {
    if DistinctKeys(rows) {
      forall x | x in rows ensures multiset(rows)[x] == 1 {
        var i :| 0 <= i < |rows| && rows[i] == x;
        CountedOnce(rows, i);
      }
    } else {
      var i, j :| 0 <= i < j < |rows| && rows[i].key == rows[j].key;
      if rows[i] == rows[j] {
        CountedTwice(rows, i, j);
      }
    }
  }

  lemma DistinctKeysPermuted(rows: seq<Entry>, other: seq<Entry>)
    requires multiset(rows) == multiset(other)
    ensures |rows| == |other| && (DistinctKeys(rows) <==> DistinctKeys(other))
    ensures forall x :: x in rows <==> x in other
  {
    assert |rows| == |multiset(rows)| && |other| == |multiset(other)|;
    forall x ensures x in rows <==> x in other {
      assert x in rows <==> x in multiset(rows);
      assert x in other <==> x in multiset(other);
    }
    DistinctKeysUnordered(rows);
    DistinctKeysUnordered(other);
  }

  /** Whatever the order of the rows, the pool holds one of them for every key, and nothing else. */
  lemma OneForEveryKey(rows: seq<Entry>)
    ensures Sorted(PutAll([], rows))
    ensures forall x :: x in PutAll([], rows) ==> x in rows
    ensures forall x :: x in rows ==> HasKey(PutAll([], rows), x.key)
  {
    PutAllSorted(rows);
    forall x | x in PutAll([], rows) ensures x in rows {
      PutAllMembers(rows, x);
    }
    forall x | x in rows ensures HasKey(PutAll([], rows), x.key) {
      PutAllKeys(rows, x.key);
    }
  }
}
