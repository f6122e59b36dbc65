/** The text form of a digest: unpadded hexadecimal numbers joined by '-'. */
module Digest {
  import opened Text

  /** A 32-bit unsigned number. */
  type Uint32 = n: nat | n < 0x1_0000_0000

  const WORDS: nat := 5

  function Hex(w: Uint32): string {
    Numeral(w, 16)
  }

  /** The numbers, each followed by a dash. */
  function Dashed(ws: seq<Uint32>): (s: string)
    ensures ws != [] ==> |s| >= 1
  {
    if ws == [] then "" else Dashed(ws[..|ws| - 1]) + Hex(ws[|ws| - 1]) + "-"
  }

  function HashText(ws: seq<Uint32>): string
    requires ws != []
  {
    var buf := Dashed(ws);
    buf[..|buf| - 1]
  }

  method HashToString(hash: seq<Uint32>) returns (res: string)
    requires |hash| == WORDS
    ensures res == HashText(hash)
  {
    var buf := "";
    var i := 0;
    while i < WORDS
      invariant 0 <= i <= WORDS && buf == Dashed(hash[..i])
    {
      var tmp := Hex(hash[i]) + "-";
      assert hash[..i + 1][..i] == hash[..i];
      buf := buf + tmp;
      i := i + 1;
    }
    assert hash[..WORDS] == hash;
    res := buf[..|buf| - 1];
  }

  /** The number strtoul reads, cast to 32 bits. */
  function ReadWord(s: string): Uint32 {
    Strtoul16(s) % 0x1_0000_0000
  }

  function Fill<T>(n: nat, x: T): (s: seq<T>)
    ensures |s| == n
  {
    seq(n, _ => x)
  }

  /** The first n dash-separated fields of a text, each read; missing ones get the filler. */
  function Fields<T>(t: string, n: nat, read: string -> T, filler: T): (d: seq<T>)
    ensures |d| == n
    decreases n
  {
    if n == 0 then []
    else if !Has(t, '-') then [read(t)] + Fill(n - 1, filler)
    else [read(t[..Find(t, '-')])] + Fields(t[Find(t, '-') + 1..], n - 1, read, filler)
  }

  function HashWords(t: string, n: nat): (d: seq<Uint32>)
    ensures |d| == n
  {
    Fields(t, n, ReadWord, 0)
  }

  /** One pass of the loop, on the fields read so far and those to come. */
  lemma CutField<T>(done: seq<T>, t: string, n: nat, read: string -> T, filler: T)
    requires n > 0
    ensures !Has(t, '-') ==>
      done + Fields(t, n, read, filler) == done + [read(t)] + Fill(n - 1, filler)
    ensures Has(t, '-') ==>
      done + Fields(t, n, read, filler) ==
          done + [read(t[..Find(t, '-')])] + Fields(t[Find(t, '-') + 1..], n - 1, read, filler)
  {
  }

  method ReadFields<T>(s: string, n: nat, read: string -> T, filler: T) returns (digest: seq<T>)
    ensures digest == Fields(s, n, read, filler)
  {
    digest := [];
    var t := s;
    var sz := Find(t, '-');
    var left := n;
    while left > 0
      invariant sz == Find(t, '-')
      invariant digest + Fields(t, left, read, filler) == Fields(s, n, read, filler)
    {
      CutField(digest, t, left, read, filler);
      left := left - 1;
      if sz == |t| {
        digest := digest + [read(t)] + Fill(left, filler);
        return;
      }
      digest := digest + [read(t[..sz])];
      t := t[sz + 1..];
      sz := Find(t, '-');
    }
    assert digest + [] == digest;
  }

  method HashFromString(s: string) returns (digest: seq<Uint32>)
    ensures digest == HashWords(CStr(s), WORDS)
  {
    digest := ReadFields(CStr(s), WORDS, ReadWord, 0);
  }

  lemma HexChars(w: Uint32)
    ensures '-' !in Hex(w) && NUL !in Hex(w)
    ensures IsNumeral(Hex(w), 16) && HexDigit(Hex(w)[0])
    ensures |Hex(w)| > 1 ==> HexDigit(Hex(w)[1])
  {
    NumeralChars(w, 16);
  }

  lemma Cast(w: Uint32)
    ensures w % 0x1_0000_0000 == w
  {
  }

  lemma HexRoundTrip(w: Uint32)
    ensures ReadWord(Hex(w)) == w
  {
    HexChars(w);
    NumeralRoundTrip(w, 16);
    Strtoul16OfDigits(Hex(w));
    Cast(w);
  }

  /** The numbers with dashes between them only. */
  function Joined(ws: seq<Uint32>): string
    requires ws != []
  {
    if |ws| == 1 then Hex(ws[0]) else Hex(ws[0]) + "-" + Joined(ws[1..])
  }

  lemma {:induction false} JoinedSnoc(ws: seq<Uint32>, w: Uint32)
    requires ws != []
    ensures Joined(ws + [w]) == Joined(ws) + "-" + Hex(w)
  {
    assert (ws + [w])[0] == ws[0];
    if |ws| == 1 {
      assert (ws + [w])[1..] == [w];
    } else {
      assert (ws + [w])[1..] == ws[1..] + [w];
      JoinedSnoc(ws[1..], w);
      Associative(Hex(ws[0]) + "-", Joined(ws[1..]) + "-", Hex(w));
      Associative(Hex(ws[0]) + "-", Joined(ws[1..]), "-");
    }
  }

  lemma {:induction false} DashedIsJoined(ws: seq<Uint32>)
    requires ws != []
    ensures Dashed(ws) == Joined(ws) + "-"
  {
    var front, last := ws[..|ws| - 1], ws[|ws| - 1];
    if front == [] {
      assert Dashed(front) == "";
    } else {
      DashedIsJoined(front);
      JoinedSnoc(front, last);
      assert ws == front + [last];
    }
  }

  lemma DashFree(w: Uint32)
    ensures !Has(Hex(w), '-')&& '-' !in Hex(w)
  {
    HexChars(w);
    FindIsFirst(Hex(w), '-');
  }

  lemma {:induction false} JoinedRoundTrip(ws: seq<Uint32>, read: string -> Uint32, filler: Uint32)
    requires ws != []
    requires forall i :: 0 <= i < |ws| ==> read(Hex(ws[i])) == ws[i]
    ensures Fields(Joined(ws), |ws|, read, filler) == ws
  {
    var h := Hex(ws[0]);
    DashFree(ws[0]);
    if |ws| > 1 {
      FirstField(h, Joined(ws[1..]), |ws|, read, filler);
      JoinedRoundTrip(ws[1..], read, filler);
    }
  }

  lemma FirstField<T>(h: string, rest: string, n: nat, read: string -> T, filler: T)
    requires '-' !in h && n > 0
    ensures Fields(h + "-" + rest, n, read, filler) == [read(h)] + Fields(rest, n - 1, read, filler)
  {
    var t := h + "-" + rest;
    FindInConcat(h, '-', rest);
    assert t[..|h|] == h && t[|h| + 1..] == rest;
  }

  lemma {:induction false} JoinedChars(ws: seq<Uint32>)
    requires ws != []
    ensures NUL !in Joined(ws) && '~' !in Joined(ws) && Joined(ws) != []
  {
    NumeralChars(ws[0], 16);
    if |ws| > 1 {
      JoinedChars(ws[1..]);
    }
  }

  lemma HashTextIsJoined(ws: seq<Uint32>)
    requires ws != []
    ensures HashText(ws) == Joined(ws)
  {
    DashedIsJoined(ws);
  }

  /** Main result: reading a digest's text gives the digest back. */
  lemma DigestRoundTrip(ws: seq<Uint32>)
    requires ws != []
    ensures HashWords(CStr(HashText(ws)), |ws|) == ws
  {
    HashTextIsJoined(ws);
    JoinedChars(ws);
    forall i | 0 <= i < |ws| ensures ReadWord(Hex(ws[i])) == ws[i] {
      HexRoundTrip(ws[i]);
    }
    JoinedRoundTrip(ws, ReadWord, 0);
  }

  /** Different digests have different texts. */
  lemma HashTextInjective(d: seq<Uint32>, e: seq<Uint32>)
    requires d != [] && |d| == |e| && HashText(d) == HashText(e)
    ensures d == e
  {
    DigestRoundTrip(d);
    DigestRoundTrip(e);
  }

  lemma HexFits(w: Uint32)
    ensures |Hex(w)| <= 8
  {
    assert Power16(8) == 0x1_0000_0000 by {
      assert Power16(4) == 0x1_0000;
    }
    HexLength(w, 8);
  }

  /** Every number with its dash and NUL fits 10 characters; five numbers and a NUL fit 48. */
  lemma {:induction false} BuffersSuffice(ws: seq<Uint32>)
    ensures forall i :: 0 <= i < |ws| ==> |Hex(ws[i]) + "-"| + 1 <= 10
    ensures |Dashed(ws)| <= 9 * |ws|
    ensures |ws| == WORDS ==> |Dashed(ws)| + 1 <= 48
  {
    if ws != [] {
      BuffersSuffice(ws[..|ws| - 1]);
      HexFits(ws[|ws| - 1]);
    }
  }
}
