/** The list of possible recipients: packed by the server, unpacked by the console client. */
module Recipients {
  import opened Text

  datatype Recipient = Recipient(id: nat, login: string)

  function PackedOne(u: Recipient): string {
    Decimal(u.id) + "|" + u.login + "#"
  }

  /** The packed text of some rows, in their order. */
  function Packed(us: seq<Recipient>): string {
    if us == [] then "" else PackedOne(us[0]) + Packed(us[1..])
  }

  /** What unpacking ends in. The loop of the client makes no progress on a text with a '|' but no '#',
      and std::stol throws on a field that is no number. */
  datatype Unpacked = Users(users: map<nat, string>) | BadNumber | Diverges

  /** std::map::insert: an entry that is there stays. */
  function Insert(m: map<nat, string>, k: nat, v: string): map<nat, string> {
    if k in m then m else m[k := v]
  }

  /** The conversion of a long to size_t. */
  function SizeT(n: int): (u: nat)
    ensures 0 <= n ==> u == n
    ensures -(ULONG_MAX + 1) <= n < 0 ==> u == n + ULONG_MAX + 1
  {
    if n < 0 then n % (ULONG_MAX + 1) else n
  }

  /** The login between the two marks; where '#' comes first, the unsigned length underflows and takes the rest. */
  function LoginPart(s: string): string
    requires Has(s, '|') && Has(s, '#')
  {
    if Find(s, '#') > Find(s, '|') then s[Find(s, '|') + 1..Find(s, '#')] else s[Find(s, '|') + 1..]
  }

  /** The login is what stands between the first '|' and the first '#', and all behind the '|' where a '#' comes before
      it. */
  lemma LoginPartExactly(a: string, b: string, c: string)
    requires '|' !in a
    ensures '#' !in a && '#' !in b ==> var s := a + "|" + (b + "#" + c);
                                       Has(s, '|') && Has(s, '#') && LoginPart(s) == b
    ensures '#' in a ==> var s := a + "|" + b; Has(s, '|') && Has(s, '#') && LoginPart(s) == b
  {
    FindInConcat(a, '|', b);
    FindInConcat(a, '|', b + "#" + c);
    if '#' !in a && '#' !in b {
      var s := a + "|" + (b + "#" + c);
      assert s == (a + "|" + b) + "#" + c;
      FindInConcat(a + "|" + b, '#', c);
      assert s[|a| + 1..|a| + 1 + |b|] == b;
    }
    if '#' in a {
      var s := a + "|" + b;
      var i :| 0 <= i < |a| && a[i] == '#';
      assert s[i] == '#';
      FindFromIsFirst(s, '#', 0);
      assert s[|a| + 1..] == b;
    }
  }

  function Unpack(s: string, m: map<nat, string>): Unpacked
    decreases |s|
  {
    if !Has(s, '|') then Users(m)
    else if !Has(s, '#') then Diverges
    else
      match Stol(s[..Find(s, '|')])
      case Value(n) => Unpack(s[Find(s, '#') + 1..], Insert(m, SizeT(n), LoginPart(s)))
      case _ => BadNumber
  }

  method UnpackAvailableUsers(msgBody: string) returns (r: Unpacked)
    ensures r == Unpack(msgBody, map[])
  {
    var packedUsrs := msgBody;
    var usrs: map<nat, string> := map[];
    var posB := Find(packedUsrs, '|');
    while posB < |packedUsrs|
      invariant posB == Find(packedUsrs, '|')
      invariant Unpack(packedUsrs, usrs) == Unpack(msgBody, map[])
      decreases |packedUsrs|
    {
      var posCr := Find(packedUsrs, '#');
      if posCr == |packedUsrs| {
        return Diverges;
      }
      var uid := Stol(packedUsrs[..posB]);
      if !uid.Value? {
        return BadNumber;
      }
      usrs := Insert(usrs, SizeT(uid.number), LoginPart(packedUsrs));
      packedUsrs := packedUsrs[posCr + 1..];
      posB := Find(packedUsrs, '|');
    }
    return Users(usrs);
  }

  /** The text behind the last '#'. */
  function AfterLast(s: string): string
    decreases |s|
  {
    if Has(s, '#') then AfterLast(s[Find(s, '#') + 1..]) else s
  }

  /** The loop fails to end exactly on the texts with a '|' behind the last '#', once no number is bad. */
  lemma {:induction false} UnpackEnds(s: string, m: map<nat, string>)
    requires !Unpack(s, m).BadNumber?
    ensures Unpack(s, m).Diverges? <==> '|' in AfterLast(s)
    decreases |s|
  {
    FindIsFirst(s, '|');
    if !Has(s, '|') {
      NoneAfter(s);
    } else if Has(s, '#') {
      var n := Stol(s[..Find(s, '|')]);
      UnpackEnds(s[Find(s, '#') + 1..], Insert(m, SizeT(n.number), LoginPart(s)));
    }
  }

  lemma {:induction false} NoneAfter(s: string)
    requires '|' !in s
    ensures '|' !in AfterLast(s)
    decreases |s|
  {
    if Has(s, '#') {
      NoneAfter(s[Find(s, '#') + 1..]);
    }
  }

  lemma {:induction false} UnpackKeeps(s: string, m: map<nat, string>, k: nat)
    requires k in m && Unpack(s, m).Users?
    ensures k in Unpack(s, m).users && Unpack(s, m).users[k] == m[k]
    decreases |s|
  {
    if Has(s, '|') {
      var n := Stol(s[..Find(s, '|')]);
      UnpackKeeps(s[Find(s, '#') + 1..], Insert(m, SizeT(n.number), LoginPart(s)), k);
    }
  }

  /** The login as the client cuts it, and the text it goes on with. */
  function CutLogin(login: string): string { login[..Find(login, '#')] }

  function GoOn(login: string, rest: string): string {
    if Has(login, '#') then login[Find(login, '#') + 1..] + "#" + rest else rest
  }

  lemma CutText(login: string, rest: string)
    ensures login + "#" + rest == CutLogin(login) + "#" + GoOn(login, rest)
    ensures '#' !in CutLogin(login)
    ensures '#' !in login ==> CutLogin(login) == login && GoOn(login, rest) == rest
  {
    FindIsFirst(login, '#');
    var c := Find(login, '#');
    if Has(login, '#') {
      assert login == login[..c] + "#" + login[c + 1..];
    } else {
      assert login[..c] == login;
    }
  }

  lemma UnpackHead(d: string, cut: string, more: string)
    requires IsDecimal(d) && '#' !in cut
    ensures var s := d + "|" + cut + "#" + more;
            Has(s, '|') && Has(s, '#') && s[..Find(s, '|')] == d && LoginPart(s) == cut && s[Find(s, '#') + 1..] == more
  {
    var s := d + "|" + cut + "#" + more;
    assert '|' !in d && '#' !in d;
    assert s == d + "|" + (cut + "#" + more);
    FindInConcat(d, '|', cut + "#" + more);
    assert '#' !in d + "|" + cut;
    FindInConcat(d + "|" + cut, '#', more);
    assert s[|d| + 1..|d| + 1 + |cut|] == cut;
  }

  /** One packed user in front of any text. */
  lemma UnpackOne(u: Recipient, rest: string, m: map<nat, string>)
    requires u.id <= LONG_MAX
    ensures Unpack(PackedOne(u) + rest, m) == Unpack(GoOn(u.login, rest), Insert(m, u.id, CutLogin(u.login)))
  {
    var d := Decimal(u.id);
    DecimalChars(u.id);
    StolDecimal(u.id, "");
    assert d + "" == d;
    CutText(u.login, rest);
    var cut, more := CutLogin(u.login), GoOn(u.login, rest);
    Associative(d + "|" + u.login, "#", rest);
    Associative(d + "|", u.login, "#" + rest);
    Associative(u.login, "#", rest);
    assert PackedOne(u) + rest == d + "|" + (u.login + "#" + rest);
    Associative(d + "|", cut + "#", more);
    assert d + "|" + (cut + "#" + more) == d + "|" + cut + "#" + more;
    UnpackHead(d, cut, more);
  }

  predicate Distinct(us: seq<Recipient>) {
    forall i, j :: 0 <= i < j < |us| ==> us[i].id != us[j].id
  }

  /** The map from ids to logins. */
  function ToMap(us: seq<Recipient>): map<nat, string> {
    if us == [] then map[] else ToMap(us[1..])[us[0].id := us[0].login]
  }

  lemma {:induction false} ToMapEntries(us: seq<Recipient>, k: nat)
    ensures k in ToMap(us) <==> exists i :: 0 <= i < |us| && us[i].id == k
    ensures Distinct(us) ==> forall i :: 0 <= i < |us| && us[i].id == k ==> ToMap(us)[k] == us[i].login
  {
    if us != [] {
      ToMapEntries(us[1..], k);
      assert forall i :: 0 < i < |us| ==> us[i] == us[1..][i - 1];
      assert forall i :: 0 <= i < |us[1..]| ==> us[1..][i] == us[i + 1];
    }
  }

  predicate Separate(m: map<nat, string>, us: seq<Recipient>) {
    forall i :: 0 <= i < |us| ==> us[i].id !in m
  }

  predicate MarkFree(us: seq<Recipient>) {
    forall i :: 0 <= i < |us| ==> '#' !in us[i].login
  }

  predicate SmallIds(us: seq<Recipient>) {
    forall i :: 0 <= i < |us| ==> us[i].id <= LONG_MAX
  }

  lemma ToMapStep(us: seq<Recipient>, m: map<nat, string>)
    requires us != [] && Distinct(us) && Separate(m, us)
    ensures Distinct(us[1..]) && Separate(m[us[0].id := us[0].login], us[1..])
    ensures m[us[0].id := us[0].login] + ToMap(us[1..]) == m + ToMap(us)
  {
    ToMapEntries(us[1..], us[0].id);
  }

  lemma BadHead(us: seq<Recipient>, m: map<nat, string>)
    requires us != [] && Distinct(us) && SmallIds(us) && Separate(m, us)
    requires '#' in us[0].login
    ensures Unpack(Packed(us), m) != Users(m + ToMap(us))
  {
    var u, rest := us[0], Packed(us[1..]);
    UnpackOne(u, rest, m);
    CutText(u.login, rest);
    var m' := Insert(m, u.id, CutLogin(u.login));
    if Unpack(GoOn(u.login, rest), m').Users? {
      UnpackKeeps(GoOn(u.login, rest), m', u.id);
      assert u.id in ToMap(us) && ToMap(us)[u.id] == u.login;
    }
  }

  lemma {:induction false} UnpackPacked(us: seq<Recipient>, m: map<nat, string>)
    requires Distinct(us) && SmallIds(us) && Separate(m, us)
    ensures Unpack(Packed(us), m) == Users(m + ToMap(us)) <==> MarkFree(us)
  {
    if us == [] {
      assert m + ToMap(us) == m;
    } else if '#' in us[0].login {
      BadHead(us, m);
    } else {
      var u, rest := us[0], us[1..];
      assert Packed(us) == PackedOne(u) + Packed(rest);
      hide Unpack, Packed, PackedOne, ToMap;
      UnpackOne(u, Packed(rest), m);
      CutText(u.login, Packed(rest));
      ToMapStep(us, m);
      UnpackPacked(rest, m[u.id := u.login]);
      assert us == [u] + rest;
    }
  }

  /** Main result: for distinct ids, unpacking gives the map from ids to logins back exactly when no login holds a
      '#'. */
  lemma RecipientRoundTrip(us: seq<Recipient>)
    requires Distinct(us) && SmallIds(us)
    ensures Unpack(Packed(us), map[]) == Users(ToMap(us)) <==> MarkFree(us)
  {
    UnpackPacked(us, map[]);
    assert map[] + ToMap(us) == ToMap(us);
  }

  // Any logins

  /** A piece of the text that the client reads a number from: it starts at the front or behind a '#', with a '|' and
      a '#' to come, and the number stands before that '|'. */
  predicate IsPiece(s: string, k: nat, x: Number)
    requires k <= |s|
  {
    (k == 0 || s[k - 1] == '#') && Has(s[k..], '|') && Has(s[k..], '#') && Stol(s[k..][..Find(s[k..], '|')]) == x
  }

  ghost predicate HasPiece(s: string, x: Number) { exists k :: 0 <= k <= |s| && IsPiece(s, k, x) }

  /** A number the client reads from the text, as a key of its map. */
  ghost predicate PieceKey(s: string, k: nat) { exists n :: HasPiece(s, Value(n)) && SizeT(n) == k }

  lemma NoPiece(s: string, x: Number)
    requires '|' !in s || '#' !in s
    ensures !HasPiece(s, x)
  {
    forall k | 0 <= k <= |s| ensures !IsPiece(s, k, x) {
      FindIsFirst(s[k..], '|');
      FindIsFirst(s[k..], '#');
    }
  }

  /** The pieces of a text are its first one and those of the text behind the first '#'. */
  lemma PiecesBehind(s: string, x: Number)
    requires Has(s, '#')
    ensures HasPiece(s, x) <==> IsPiece(s, 0, x) || HasPiece(s[Find(s, '#') + 1..], x)
  {
    FindIsFirst(s, '#');
    var p := Find(s, '#') + 1;
    var t := s[p..];
    forall j | 0 <= j <= |t| ensures IsPiece(t, j, x) <==> IsPiece(s, p + j, x) {
      assert t[j..] == s[p + j..];
    }
    assert forall i :: 0 <= i < p - 1 ==> s[i] == s[..p - 1][i];
    assert forall k :: 0 < k <= |s| && IsPiece(s, k, x) ==> p <= k && IsPiece(t, k - p, x);
  }

  /** Main result: unpacking fails exactly when some piece is not the text of a number, and otherwise the keys are the
      numbers of the pieces. */
  lemma {:induction false} UnpackPieces(s: string, m: map<nat, string>)
    ensures Unpack(s, m).BadNumber? <==> HasPiece(s, Invalid) || HasPiece(s, OutOfRange)
    ensures Unpack(s, m).Users? ==>
              forall k: nat :: k in Unpack(s, m).users <==> k in m || PieceKey(s, k)
    decreases |s|
  {
    FindIsFirst(s, '|');
    FindIsFirst(s, '#');
    if !Has(s, '|') || !Has(s, '#') {
      forall x ensures !HasPiece(s, x) {
        NoPiece(s, x);
      }
    } else {
      var t, x := s[Find(s, '#') + 1..], Stol(s[..Find(s, '|')]);
      assert s[0..] == s;
      forall y ensures HasPiece(s, y) <==> y == x || HasPiece(t, y) {
        PiecesBehind(s, y);
      }
      if x.Value? {
        UnpackPieces(t, Insert(m, SizeT(x.number), LoginPart(s)));
      }
    }
  }

  /** A number that the client takes from the middle of a login: behind a '#', if a '|' is still to come. */
  predicate IsLoginPiece(login: string, more: bool, j: nat, x: Number)
    requires j <= |login|
  {
    j > 0 && login[j - 1] == '#' && (more || '|' in login[j..]) && Stol(login[j..]) == x
  }

  ghost predicate LoginPiece(login: string, more: bool, x: Number) {
    exists j :: 0 <= j <= |login| && IsLoginPiece(login, more, j, x)
  }

  lemma BarInPacked(us: seq<Recipient>)
    ensures us != [] <==> '|' in Packed(us)
  {
    if us != [] {
      assert Packed(us) == PackedOne(us[0]) + Packed(us[1..]);
      assert PackedOne(us[0])[|Decimal(us[0].id)|] == '|';
      assert Packed(us)[|Decimal(us[0].id)|] == '|';
    }
  }

  /** The piece that starts inside a login. */
  lemma PieceInLogin(tail: string, rest: string, x: Number)
    ensures Has(tail + "#" + rest, '#')
    ensures Has(tail + "#" + rest, '|') <==> '|' in tail || '|' in rest
    ensures Has(tail + "#" + rest, '|') ==>
              Stol((tail + "#" + rest)[..Find(tail + "#" + rest, '|')]) == Stol(tail)
  {
    var s := tail + "#" + rest;
    assert s[|tail|] == '#';
    FindIsFirst(s, '#');
    FindIsFirst(s, '|');
    FindIsFirst(tail, '|');
    var p := Find(s, '|');
    if Has(tail, '|') {
      var q := Find(tail, '|');
      assert tail == tail[..q] + ['|'] + tail[q + 1..];
      assert s == tail[..q] + ['|'] + (tail[q + 1..] + "#" + rest);
      FindInConcat(tail[..q], '|', tail[q + 1..] + "#" + rest);
      assert s[..p] == tail[..q] && tail == tail[..q] + tail[q..];
      StolStops(tail[..q], tail[q..]);
    } else if Has(s, '|') {
      FindPast(tail + "#", rest, '|');
      assert s[..p] == tail + ("#" + rest[..Find(rest, '|')]);
      StolStops(tail, "#" + rest[..Find(rest, '|')]);
    }
    assert forall i :: 0 <= i < |rest| ==> s[|tail| + 1 + i] == rest[i];
    assert forall i :: 0 <= i < |tail| ==> s[i] == tail[i];
  }

  lemma PieceAtFront(u: Recipient, rest: string, x: Number)
    requires u.id <= LONG_MAX
    ensures IsPiece(PackedOne(u) + rest, 0, x) <==> x == Value(u.id)
  {
    var d, s := Decimal(u.id), PackedOne(u) + rest;
    DecimalChars(u.id);
    assert '|' !in d;
    assert s == d + ['|'] + (u.login + "#" + rest);
    FindInConcat(d, '|', u.login + "#" + rest);
    assert s[|d| + 1 + |u.login|] == '#';
    FindIsFirst(s, '#');
    assert s[0..] == s && s[..|d|] == d;
    StolDecimal(u.id, "");
    assert d + "" == d;
  }

  lemma SuffixInLogin(d: string, login: string, rest: string, j: nat)
    requires 0 < j <= |login|
    ensures var s, k := d + "|" + login + "#" + rest, |d| + 1 + j;
            k <= |s| && s[k - 1] == login[j - 1] && s[k..] == login[j..] + "#" + rest
  {
  }

  lemma PieceInside(u: Recipient, us: seq<Recipient>, j: nat, x: Number)
    requires 0 < j <= |u.login|
    ensures IsPiece(PackedOne(u) + Packed(us), |Decimal(u.id)| + 1 + j, x) <==> IsLoginPiece(u.login, us != [], j, x)
  {
    hide Stol, Packed, Find;
    SuffixInLogin(Decimal(u.id), u.login, Packed(us), j);
    PieceInLogin(u.login[j..], Packed(us), x);
    BarInPacked(us);
  }

  lemma PieceElsewhere(u: Recipient, rest: string, k: nat, x: Number)
    requires 0 < k <= |Decimal(u.id)| + 1
    ensures !IsPiece(PackedOne(u) + rest, k, x)
  {
    DecimalChars(u.id);
    var d, s := Decimal(u.id), PackedOne(u) + rest;
    assert s[k - 1] == (d + "|")[k - 1];
  }

  lemma PieceBehind(u: Recipient, rest: string, k: nat, x: Number)
    requires k <= |rest|
    ensures IsPiece(PackedOne(u) + rest, |PackedOne(u)| + k, x) <==> IsPiece(rest, k, x)
  {
    var s, n := PackedOne(u) + rest, |PackedOne(u)|;
    assert s[n + k..] == rest[k..];
    assert s[n - 1] == PackedOne(u)[n - 1] == '#';
    assert k > 0 ==> s[n + k - 1] == rest[k - 1];
  }

  lemma PieceIsOneOf(u: Recipient, us: seq<Recipient>, k: nat, x: Number)
    requires u.id <= LONG_MAX && k <= |PackedOne(u) + Packed(us)| && IsPiece(PackedOne(u) + Packed(us), k, x)
    ensures x == Value(u.id) || LoginPiece(u.login, us != [], x) || HasPiece(Packed(us), x)
  {
    hide IsPiece, IsLoginPiece, Packed;
    var d := |Decimal(u.id)|;
    if k == 0 {
      PieceAtFront(u, Packed(us), x);
    } else if k <= d + 1 {
      PieceElsewhere(u, Packed(us), k, x);
    } else if k <= d + 1 + |u.login| {
      PieceInside(u, us, k - d - 1, x);
      assert IsLoginPiece(u.login, us != [], k - d - 1, x);
    } else {
      PieceBehind(u, Packed(us), k - |PackedOne(u)|, x);
      assert IsPiece(Packed(us), k - |PackedOne(u)|, x);
    }
  }

  lemma PiecesAreThere(u: Recipient, us: seq<Recipient>, x: Number)
    requires u.id <= LONG_MAX && (x == Value(u.id) || LoginPiece(u.login, us != [], x) || HasPiece(Packed(us), x))
    ensures HasPiece(PackedOne(u) + Packed(us), x)
  {
    hide IsPiece, Packed;
    var s := PackedOne(u) + Packed(us);
    if x == Value(u.id) {
      PieceAtFront(u, Packed(us), x);
      assert IsPiece(s, 0, x);
    } else if LoginPiece(u.login, us != [], x) {
      var j :| 0 <= j <= |u.login| && IsLoginPiece(u.login, us != [], j, x);
      PieceInside(u, us, j, x);
      assert IsPiece(s, |Decimal(u.id)| + 1 + j, x);
    } else {
      var k :| 0 <= k <= |Packed(us)| && IsPiece(Packed(us), k, x);
      PieceBehind(u, Packed(us), k, x);
      assert IsPiece(s, |PackedOne(u)| + k, x);
    }
  }

  /** The pieces of one packed user and of the others behind it. */
  lemma PiecesOfFirst(u: Recipient, us: seq<Recipient>, x: Number)
    requires u.id <= LONG_MAX
    ensures HasPiece(PackedOne(u) + Packed(us), x) <==>
            x == Value(u.id) || LoginPiece(u.login, us != [], x) || HasPiece(Packed(us), x)
  {
    hide IsPiece, LoginPiece, PackedOne, Packed;
    if HasPiece(PackedOne(u) + Packed(us), x) {
      var k :| 0 <= k <= |PackedOne(u) + Packed(us)| && IsPiece(PackedOne(u) + Packed(us), k, x);
      PieceIsOneOf(u, us, k, x);
    }
    if x == Value(u.id) || LoginPiece(u.login, us != [], x) || HasPiece(Packed(us), x) {
      PiecesAreThere(u, us, x);
    }
  }

  /** Main result: the numbers a client reads from a packed list are the ids, and those it takes from the logins. */
  lemma {:induction false} PackedPieces(us: seq<Recipient>, x: Number)
    requires SmallIds(us)
    ensures HasPiece(Packed(us), x) <==>
            exists i :: 0 <= i < |us| && (x == Value(us[i].id) || LoginPiece(us[i].login, i + 1 < |us|, x))
  {
    if us == [] {
      NoPiece("", x);
    } else {
      PiecesOfFirst(us[0], us[1..], x);
      PackedPieces(us[1..], x);
      assert forall i :: 0 <= i < |us[1..]| ==> us[1..][i] == us[i + 1];
      assert forall i :: 0 < i < |us| ==> us[i] == us[1..][i - 1] && (i + 1 < |us| <==> i - 1 + 1 < |us[1..]|);
    }
  }

  lemma {:induction false} NothingAfterLast(s: string)
    requires s != "" && s[|s| - 1] == '#'
    ensures AfterLast(s) == ""
    decreases |s|
  {
    FindIsFirst(s, '#');
    var t := s[Find(s, '#') + 1..];
    if t != "" {
      NothingAfterLast(t);
    }
  }

  lemma {:induction false} PackedEnds(us: seq<Recipient>)
    requires us != []
    ensures Packed(us) != "" && Packed(us)[|Packed(us)| - 1] == '#'
  {
    if |us| > 1 {
      PackedEnds(us[1..]);
    } else {
      assert Packed(us) == PackedOne(us[0]) + "";
    }
  }

  /** Main result: a packed list never makes the client loop for ever, whatever the logins. */
  lemma PackedListsEnd(us: seq<Recipient>)
    ensures !Unpack(Packed(us), map[]).Diverges?
  {
    if us != [] && !Unpack(Packed(us), map[]).BadNumber? {
      PackedEnds(us);
      UnpackEnds(Packed(us), map[]);
      NothingAfterLast(Packed(us));
    }
  }

  /** Some login makes the client read a number where there is none, or one out of range. */
  ghost predicate BadLogins(us: seq<Recipient>) {
    exists i :: 0 <= i < |us| &&
      (LoginPiece(us[i].login, i + 1 < |us|, Invalid) || LoginPiece(us[i].login, i + 1 < |us|, OutOfRange))
  }

  /** A key that is taken from the middle of a login. */
  ghost predicate StrayKey(us: seq<Recipient>, k: nat) {
    exists i, n :: 0 <= i < |us| && LoginPiece(us[i].login, i + 1 < |us|, Value(n)) && SizeT(n) == k
  }

  lemma BadPieces(us: seq<Recipient>)
    requires SmallIds(us)
    ensures HasPiece(Packed(us), Invalid) || HasPiece(Packed(us), OutOfRange) <==> BadLogins(us)
  {
    hide HasPiece, LoginPiece, Packed;
    PackedPieces(us, Invalid);
    PackedPieces(us, OutOfRange);
    if HasPiece(Packed(us), Invalid) {
      var i :| 0 <= i < |us| && (Invalid == Value(us[i].id) || LoginPiece(us[i].login, i + 1 < |us|, Invalid));
    } else if HasPiece(Packed(us), OutOfRange) {
      var i :| 0 <= i < |us| && (OutOfRange == Value(us[i].id) || LoginPiece(us[i].login, i + 1 < |us|, OutOfRange));
    }
    if i :| 0 <= i < |us| && LoginPiece(us[i].login, i + 1 < |us|, Invalid) {
      assert HasPiece(Packed(us), Invalid);
    }
    if i :| 0 <= i < |us| && LoginPiece(us[i].login, i + 1 < |us|, OutOfRange) {
      assert HasPiece(Packed(us), OutOfRange);
    }
  }

  /** Main result: unpacking a packed list throws exactly when some login is bad; otherwise the keys are the ids and the
      stray keys. */
  lemma PackedListsExactly(us: seq<Recipient>)
    requires SmallIds(us)
    ensures Unpack(Packed(us), map[]).BadNumber? <==> BadLogins(us)
    ensures !BadLogins(us) ==>
              && Unpack(Packed(us), map[]).Users?
              && forall k: nat :: k in Unpack(Packed(us), map[]).users <==>
                   (exists i :: 0 <= i < |us| && us[i].id == k) || StrayKey(us, k)
  {
    hide Unpack, Packed, HasPiece, LoginPiece, SizeT;
    UnpackPieces(Packed(us), map[]);
    PackedListsEnd(us);
    BadPieces(us);
    if !BadLogins(us) {
      forall k: nat
        ensures PieceKey(Packed(us), k) <==>
                (exists i :: 0 <= i < |us| && us[i].id == k) || StrayKey(us, k)
      {
        KeysOfPieces(us, k);
      }
    }
  }

  lemma KeysOfPieces(us: seq<Recipient>, k: nat)
    requires SmallIds(us)
    ensures PieceKey(Packed(us), k) <==>
            (exists i :: 0 <= i < |us| && us[i].id == k) || StrayKey(us, k)
  {
    hide HasPiece, LoginPiece, SizeT;
    forall n ensures HasPiece(Packed(us), Value(n)) <==>
                     exists i :: 0 <= i < |us| &&
                       (Value(n) == Value(us[i].id) || LoginPiece(us[i].login, i + 1 < |us|, Value(n)))
    {
      PackedPieces(us, Value(n));
    }
    if n :| HasPiece(Packed(us), Value(n)) && SizeT(n) == k {
      var i :| 0 <= i < |us| && (Value(n) == Value(us[i].id) || LoginPiece(us[i].login, i + 1 < |us|, Value(n)));
    }
    if i :| 0 <= i < |us| && us[i].id == k {
      assert HasPiece(Packed(us), Value(us[i].id));
    }
  }

  lemma NoLoginPiece(login: string, more: bool, x: Number)
    requires '#' !in login
    ensures !LoginPiece(login, more, x)
  {
  }

  /** Logins without a '#' are never bad, and hold no stray keys. */
  lemma MarkFreeLogins(us: seq<Recipient>, k: nat)
    requires MarkFree(us)
    ensures !BadLogins(us) && !StrayKey(us, k)
  {
    hide LoginPiece, SizeT;
    forall i: nat | i < |us|
      ensures !LoginPiece(us[i].login, i + 1 < |us|, Invalid) && !LoginPiece(us[i].login, i + 1 < |us|, OutOfRange)
    {
      NoLoginPiece(us[i].login, i + 1 < |us|, Invalid);
      NoLoginPiece(us[i].login, i + 1 < |us|, OutOfRange);
    }
    forall i: nat, n | i < |us| ensures !LoginPiece(us[i].login, i + 1 < |us|, Value(n)) {
      NoLoginPiece(us[i].login, i + 1 < |us|, Value(n));
    }
  }

  lemma ThrowingPiece(more: bool)
    ensures LoginPiece("a#|", more, Invalid)
  {
    var login := "a#|";
    assert login[2..] == "|";
    assert IsLoginPiece(login, more, 2, Invalid);
  }

  /** A login that add_user accepts, and that makes every client throw that unpacks a list with it. */
  lemma ThrowingLogin(us: seq<Recipient>, i: nat)
    requires SmallIds(us) && i < |us| && us[i].login == "a#|"
    ensures Unpack(Packed(us), map[]) == BadNumber
  {
    hide Unpack, Packed, LoginPiece;
    ThrowingPiece(i + 1 < |us|);
    PackedListsExactly(us);
  }
}
