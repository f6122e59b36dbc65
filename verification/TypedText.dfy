/** Typed texts and the bytes they consist of. */
module TypedText {
  import F = Fips180

  /** The bytes of a typed text. */
  function Bytes(s: string): (m: seq<F.Byte>)
    ensures |m| == |s|
  {
    seq(|s|, i requires 0 <= i < |s| => (s[i] as int % 256) as F.Byte)
  }

  /** The text that bytes spell. */
  function Spelled(m: seq<F.Byte>): (s: string)
    ensures |s| == |m|
  {
    seq(|m|, i requires 0 <= i < |m| => (m[i] as int) as char)
  }

  /** A text of bytes, as every text that is typed is one. */
  predicate OfBytes(s: string) {
    forall i :: 0 <= i < |s| ==> s[i] as int < 256
  }

  lemma NextByte(b: F.Byte)
    requires b != 255
    ensures (b + 1) as int == b as int + 1
  {
  }

  /** Every small number is a byte. */
  lemma ByteFor(n: nat) returns (b: F.Byte)
    requires n < 256
    ensures b as int == n
  {
    b := 0;
    var k := 0;
    while k < n
      invariant k <= n && b as int == k
    {
      assert b != 255;
      NextByte(b);
      b, k := b + 1, k + 1;
    }
  }

  lemma ByteKept(n: nat)
    requires n < 256
    ensures (n as F.Byte) as int == n
  {
    var b := ByteFor(n);
    assert (b as int) as F.Byte == b;
  }

  lemma ByteByByte(s: string)
    requires OfBytes(s)
    ensures Spelled(Bytes(s)) == s
  {
    forall i | 0 <= i < |s| ensures Spelled(Bytes(s))[i] == s[i] {
      ByteKept(s[i] as int);
    }
  }

  /** Main result: the bytes of a typed text spell that text, and so differ for different texts. */
  lemma BytesSpellTheText(p: string, q: string)
    requires OfBytes(p) && OfBytes(q)
    ensures Spelled(Bytes(p)) == p && Spelled(Bytes(q)) == q
    ensures Bytes(p) == Bytes(q) <==> p == q
  {
    ByteByByte(p);
    ByteByByte(q);
  }
}
