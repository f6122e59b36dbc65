/** How the console client prints a message. It cuts the body at '#', which is not the divider the server writes. */
module Display {
  import opened Text
  import opened Records

  const MARK := '#'

  /** The pieces that end in a mark. */
  function Pieces(s: string): seq<string>
    decreases |s|
  {
    if Has(s, MARK) then [s[..Find(s, MARK)]] + Pieces(s[Find(s, MARK) + 1..]) else []
  }

  function Marks(s: string): nat { multiset(s)[MARK] }

  /** What show_unpacked does with a body: print nothing, print four pieces, or read pieces that are not there, which
      has no defined effect. */
  datatype Printing = Nothing | Printed(date: string, sender: string, text: string, id: string) | Undefined

  function ShownOf(body: string): Printing {
    var v := Pieces(body);
    if v == [] then Nothing
    else if |v| < 4 then Undefined
    else Printed(v[0], v[2], v[1], v[3])
  }

  /** The id for the request that follows. */
  function ShownId(body: string): string {
    if ShownOf(body).Printed? then ShownOf(body).id else ""
  }

  lemma CutPiece(v: seq<string>, tmp: string)
    requires Has(tmp, MARK)
    ensures v + Pieces(tmp) == v + [tmp[..Find(tmp, MARK)]] + Pieces(tmp[Find(tmp, MARK) + 1..])
  {
    Associative(v, [tmp[..Find(tmp, MARK)]], Pieces(tmp[Find(tmp, MARK) + 1..]));
  }

  method ShowUnpacked(msg: string) returns (shown: Printing)
    ensures shown == ShownOf(msg)
  {
    var tmp := msg;
    var v: seq<string> := [];
    var divPos := Find(tmp, MARK);
    while divPos < |tmp|
      invariant divPos == Find(tmp, MARK)
      invariant v + Pieces(tmp) == Pieces(msg)
      decreases |tmp|
    {
      CutPiece(v, tmp);
      v := v + [tmp[..divPos]];
      tmp := tmp[divPos + 1..];
      divPos := Find(tmp, MARK);
    }
    assert v + [] == v;
    if |v| == 0 {
      return Nothing;
    }
    if |v| < 4 {
      return Undefined;
    }
    return Printed(v[0], v[2], v[1], v[3]);
  }

  lemma MarksBehind(s: string)
    requires Has(s, MARK)
    ensures Marks(s) == 1 + Marks(s[Find(s, MARK) + 1..])
  {
    FindIsFirst(s, MARK);
    var p := Find(s, MARK);
    assert s == s[..p] + [MARK] + s[p + 1..];
    assert multiset(s[..p])[MARK] == 0;
  }

  /** As many pieces as there are marks. */
  lemma {:induction false} PieceCount(s: string)
    ensures |Pieces(s)| == Marks(s)
    decreases |s|
  {
    FindIsFirst(s, MARK);
    if Has(s, MARK) {
      MarksBehind(s);
      PieceCount(s[Find(s, MARK) + 1..]);
    }
  }

  /** No mark, or at least four. */
  predicate Showable(body: string) { Marks(body) == 0 || Marks(body) >= 4 }

  /** Main result: printing a body has a defined effect exactly when it holds no mark, and then nothing is printed, or
      at least four. */
  lemma ShownExactly(body: string)
    ensures ShownOf(body) == Nothing <==> Marks(body) == 0
    ensures ShownOf(body) == Undefined <==> 1 <= Marks(body) <= 3
    ensures ShownOf(body) != Undefined <==> Showable(body)
  {
    PieceCount(body);
  }

  lemma FirstPiece(s: string) returns (rest: string)
    requires Pieces(s) != []
    ensures s == Pieces(s)[0] + [MARK] + rest && MARK !in Pieces(s)[0] && Pieces(rest) == Pieces(s)[1..]
  {
    FindIsFirst(s, MARK);
    rest := s[Find(s, MARK) + 1..];
  }

  /** What is printed of a body with at least four marks: its first, third and second piece, and its fourth is taken for
      the id. */
  lemma PrintedPieces(body: string) returns (rest: string)
    requires ShownOf(body).Printed?
    ensures var p := ShownOf(body);
            && body == p.date + [MARK] + (p.text + [MARK] + (p.sender + [MARK] + (p.id + [MARK] + rest)))
            && MARK !in p.date && MARK !in p.text && MARK !in p.sender && MARK !in p.id
  {
    rest := FirstPiece(body);
    rest := FirstPiece(rest);
    rest := FirstPiece(rest);
    rest := FirstPiece(rest);
  }

  predicate NulFreeMessage(m: Message) {
    NUL !in m.timestamp && NUL !in m.sender && NUL !in m.receiver && NUL !in m.body && NUL !in m.messageId
  }

  lemma BodyText(m: Message)
    requires NulFreeMessage(m)
    ensures CStr(Serialized(m)) ==
            m.timestamp + [DIVIDER] + m.sender + [DIVIDER] + m.receiver + [DIVIDER] + m.body + [DIVIDER] + m.messageId
  {
    SerializedForm(m);
    var text :=
      m.timestamp + [DIVIDER] + m.sender + [DIVIDER] + m.receiver + [DIVIDER] + m.body + [DIVIDER] + m.messageId;
    CStrTerminated(text, "");
    assert Serialized(m) == text + [NUL] + "";
  }

  /** The marks of a body are those of its fields. */
  lemma BodyMarks(m: Message)
    requires NulFreeMessage(m)
    ensures Marks(CStr(Serialized(m))) ==
            Marks(m.timestamp) + Marks(m.sender) + Marks(m.receiver) + Marks(m.body) + Marks(m.messageId)
  {
    BodyText(m);
  }

  /** What is printed as the date is never the time of the message. */
  lemma DateIsWrong(m: Message)
    requires NulFreeMessage(m) && MARK !in m.timestamp && ShownOf(CStr(Serialized(m))).Printed?
    ensures ShownOf(CStr(Serialized(m))).date != m.timestamp
  {
    BodyText(m);
    var s := CStr(Serialized(m));
    FindIsFirst(s, MARK);
    assert forall i :: 0 <= i < |m.timestamp| ==> s[i] == m.timestamp[i];
    assert s[|m.timestamp|] == DIVIDER;
  }

  lemma OneMark(before: string, behind: string)
    requires MARK !in before && MARK !in behind
    ensures Marks(before + [MARK] + behind) == 1
  {
    assert multiset(before)[MARK] == 0 && multiset(behind)[MARK] == 0;
  }

  /** An ordinary text with one mark, as in "see #3", is enough: showing it has no defined effect. */
  lemma UndefinedText(m: Message, before: string, behind: string)
    requires NulFreeMessage(m) && m.body == before + [MARK] + behind && MARK !in before && MARK !in behind
    requires MARK !in m.timestamp && MARK !in m.sender && MARK !in m.receiver && MARK !in m.messageId
    ensures ShownOf(CStr(Serialized(m))) == Undefined
  {
    OneMark(before, behind);
    BodyMarks(m);
    ShownExactly(CStr(Serialized(m)));
  }
}
