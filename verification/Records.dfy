/** The '~'-separated texts that carry messages and user rows to the clients. */
module Records {
  import opened Text

  const DIVIDER := '~'

  /** A message as the server's pool holds it. */
  datatype Message = Message(timestamp: string, messageId: string, sender: string, receiver: string, body: string)

  /** A text without the divider and without NUL. */
  predicate Plain(s: string) { DIVIDER !in s && NUL !in s }

  predicate AllPlain(fs: seq<string>) { forall i :: 0 <= i < |fs| ==> Plain(fs[i]) }

  /** Every field followed by a divider. */
  function Terminated(fs: seq<string>): string {
    if fs == [] then "" else fs[0] + [DIVIDER] + Terminated(fs[1..])
  }

  method SerializeMsg(m: Message) returns (res: string)
    ensures res == Serialized(m)
  {
    res := "";
    res := res + m.timestamp;
    res := res + [DIVIDER];
    res := res + m.sender;
    res := res + [DIVIDER];
    res := res + m.receiver;
    res := res + [DIVIDER];
    res := res + m.body;
    res := res + [DIVIDER];
    res := res + m.messageId;
    res := res + [NUL];
    SerializedForm(m);
  }

  /** Four terminated fields, the id, and a NUL. */
  function Serialized(m: Message): string {
    Terminated([m.timestamp, m.sender, m.receiver, m.body]) + m.messageId + [NUL]
  }

  lemma SerializedForm(m: Message)
    ensures Serialized(m) ==
            m.timestamp + [DIVIDER] + m.sender + [DIVIDER] + m.receiver + [DIVIDER] + m.body + [DIVIDER] +
                m.messageId + [NUL]
  {
    assert Terminated([m.body]) == m.body + [DIVIDER] + "";
    assert Terminated([m.receiver, m.body]) == m.receiver + [DIVIDER] + Terminated([m.body]);
    assert Terminated([m.sender, m.receiver, m.body]) == m.sender + [DIVIDER] + Terminated([m.receiver, m.body]);
  }

  /** A row of the user listing, as stored in the listing buffer. */
  function RowText(fs: seq<string>): string {
    Terminated(fs) + [NUL]
  }

  /** What is left behind the last divider becomes a field, cut at a newline that is not its first character. */
  function Tail(s: string): seq<string> {
    if s == "" then []
    else if Find(s, '\n') == 0 then [s]
    else [s[..Find(s, '\n')]]
  }

  /** The fields split_msg_data finds. */
  function Fields(s: string): seq<string>
    decreases |s|
  {
    if Has(s, DIVIDER) then [CStr(s[..Find(s, DIVIDER)])] + Fields(s[Find(s, DIVIDER) + 1..])
    else Tail(s)
  }

  lemma CutField(v: seq<string>, tmp: string)
    requires Has(tmp, DIVIDER)
    ensures v + Fields(tmp) == v + [CStr(tmp[..Find(tmp, DIVIDER)])] + Fields(tmp[Find(tmp, DIVIDER) + 1..])
  {
    Associative(v, [CStr(tmp[..Find(tmp, DIVIDER)])], Fields(tmp[Find(tmp, DIVIDER) + 1..]));
  }

  method SplitMsgData(r: string) returns (ok: bool, v: seq<string>)
    ensures v == Fields(r) && ok == (v != [])
  {
    var tmp := r;
    var pos := Find(tmp, DIVIDER);
    v := [];
    while pos < |tmp|
      invariant pos == Find(tmp, DIVIDER)
      invariant v + Fields(tmp) == Fields(r)
      decreases |tmp|
    {
      CutField(v, tmp);
      var line := CStr(tmp[..pos]);
      v := v + [line];
      tmp := tmp[pos + 1..];
      pos := Find(tmp, DIVIDER);
    }
    if |tmp| > 0 {
      pos := Find(tmp, '\n');
      if pos != 0 {
        tmp := tmp[..pos];
      }
      v := v + [tmp];
    }
    ok := |v| > 0;
  }

  /** The divider is never inside a field; NUL is not either when the text holds none. */
  lemma {:induction false} FieldsArePlain(s: string)
    ensures forall i :: 0 <= i < |Fields(s)| ==> DIVIDER !in Fields(s)[i]
    ensures NUL !in s ==> forall i :: 0 <= i < |Fields(s)| ==> NUL !in Fields(s)[i]
    decreases |s|
  {
    FindIsFirst(s, DIVIDER);
    if Has(s, DIVIDER) {
      FieldsArePlain(s[Find(s, DIVIDER) + 1..]);
    }
  }

  lemma FirstCut(f: string, after: string)
    requires Plain(f)
    ensures Fields(f + [DIVIDER] + after) == [f] + Fields(after)
  {
    var s := f + [DIVIDER] + after;
    FindInConcat(f, DIVIDER, after);
    assert s[..|f|] == f && s[|f| + 1..] == after;
  }

  /** Splitting terminated plain fields gives them back, followed by the fields of the rest. */
  lemma {:induction false} SplitTerminated(fs: seq<string>, rest: string)
    requires AllPlain(fs)
    ensures Fields(Terminated(fs) + rest) == fs + Fields(rest)
  {
    if fs == [] {
      assert Terminated(fs) + rest == rest;
    } else {
      var f, more := fs[0], Terminated(fs[1..]);
      Associative(f + [DIVIDER], more, rest);
      FirstCut(f, more + rest);
      SplitTerminated(fs[1..], rest);
      ConsAppend(fs, Fields(rest));
    }
  }

  lemma {:induction false} TerminatedPlain(fs: seq<string>)
    ensures NUL !in Terminated(fs) <==> forall i :: 0 <= i < |fs| ==> NUL !in fs[i]
  {
    if fs != [] {
      TerminatedPlain(fs[1..]);
      assert forall i :: 0 < i < |fs| ==> fs[i] == fs[1..][i - 1];
      assert (forall i :: 0 <= i < |fs| ==> NUL !in fs[i]) <==>
               NUL !in fs[0] && forall i :: 0 <= i < |fs[1..]| ==> NUL !in fs[1..][i];
    }
  }

  /** Main result: a user row, copied into a message body and split, gives its fields back exactly when they are
      plain. */
  lemma RowRoundTrip(fs: seq<string>)
    ensures Fields(CStr(RowText(fs))) == fs <==> AllPlain(fs)
  {
    if AllPlain(fs) {
      TerminatedPlain(fs);
      CStrTerminated(Terminated(fs), "");
      assert RowText(fs) + "" == RowText(fs);
      SplitTerminated(fs, "");
      assert Terminated(fs) + "" == Terminated(fs) && fs + [] == fs;
    } else if Fields(CStr(RowText(fs))) == fs {
      FieldsArePlain(CStr(RowText(fs)));
    }
  }

  predicate PlainMessage(m: Message) {
    Plain(m.timestamp) && Plain(m.sender) && Plain(m.receiver) && Plain(m.body) && Plain(m.messageId)
  }

  /** Main result: a serialized message, copied into a body and split, gives its five fields back exactly when
      they are plain and the id is a text the tail rule keeps whole. */
  lemma MessageRoundTrip(m: Message)
    ensures Fields(CStr(Serialized(m))) == [m.timestamp, m.sender, m.receiver, m.body, m.messageId] <==>
            PlainMessage(m) && m.messageId != "" && ('\n' !in m.messageId || m.messageId[0] == '\n')
  {
    var fs := [m.timestamp, m.sender, m.receiver, m.body];
    var all := fs + [m.messageId];
    assert all == [m.timestamp, m.sender, m.receiver, m.body, m.messageId];
    if PlainMessage(m) {
      assert AllPlain(fs);
      TerminatedPlain(fs);
      CStrTerminated(Terminated(fs) + m.messageId, "");
      assert Serialized(m) + "" == Serialized(m);
      SplitTerminated(fs, m.messageId);
      PlainTail(m.messageId);
      if fs + Tail(m.messageId) == all {
        assert (fs + Tail(m.messageId))[4..] == Tail(m.messageId) && all[4..] == [m.messageId];
      }
    } else if Fields(CStr(Serialized(m))) == all {
      FieldsArePlain(CStr(Serialized(m)));
      assert Plain(all[0]) && Plain(all[1]) && Plain(all[2]) && Plain(all[3]) && Plain(all[4]);
    }
  }

  lemma PlainTail(id: string)
    requires Plain(id)
    ensures Fields(id) == Tail(id)
    ensures Tail(id) == [id] <==> id != "" && ('\n' !in id || id[0] == '\n')
  {
    FindIsFirst(id, DIVIDER);
    FindIsFirst(id, '\n');
    assert id[..|id|] == id;
    if id != "" && Find(id, '\n') > 0 && Find(id, '\n') < |id| {
      assert |Tail(id)[0]| < |id|;
    }
  }
}
