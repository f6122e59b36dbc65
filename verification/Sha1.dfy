/** The Secure Hash Standard, FIPS 180-4, restricted to what SHA-1 needs.
    The section numbers are those of the standard. Messages are whole bytes. */
module Fips180 {
  type Byte = bv8
  type Word = bv32

  const BLOCK_BYTES := 64
  const BLOCK_WORDS := 16
  const ROUNDS := 80

  /** The working variables, and also the five words of a hash value. */
  datatype State = State(a: Word, b: Word, c: Word, d: Word, e: Word)

  /** Section 5.3.1: the initial hash value. */
  const H0 := State(0x67452301, 0xEFCDAB89, 0x98BADCFE, 0x10325476, 0xC3D2E1F0)

  /** Section 3.2: circular left rotation. */
  function Rotl(n: nat, x: Word): Word
    requires 0 < n < 32
  {
    (x << n) | (x >> (32 - n))
  }

  /** Section 3.2: addition modulo 2 to the 32. */
  function Add(x: Word, y: Word): Word { x + y }

  /** Section 4.1.1: the functions of the four round groups. */
  function Ch(x: Word, y: Word, z: Word): Word { (x & y) ^ ((!x) & z) }

  function Parity(x: Word, y: Word, z: Word): Word { x ^ y ^ z }

  function Maj(x: Word, y: Word, z: Word): Word { (x & y) ^ (x & z) ^ (y & z) }

  function F(t: nat, x: Word, y: Word, z: Word): Word
    requires t < ROUNDS
  {
    if t < 20 then Ch(x, y, z)
    else if t < 40 then Parity(x, y, z)
    else if t < 60 then Maj(x, y, z)
    else Parity(x, y, z)
  }

  /** Section 4.2.1: the round constants. */
  function K(t: nat): Word
    requires t < ROUNDS
  {
    if t < 20 then 0x5A827999
    else if t < 40 then 0x6ED9EBA1
    else if t < 60 then 0x8F1BBCDC
    else 0xCA62C1D6
  }

  /** Section 6.1.2, step 1: the message schedule. */
  function Schedule(block: seq<Word>, t: nat): Word
    requires |block| == BLOCK_WORDS
  {
    if t < BLOCK_WORDS then block[t]
    else Mix(Schedule(block, t - 3), Schedule(block, t - 8), Schedule(block, t - 14), Schedule(block, t - 16))
  }

  function Mix(x3: Word, x8: Word, x14: Word, x16: Word): Word {
    Rotl(1, x3 ^ x8 ^ x14 ^ x16)
  }

  /** Section 6.1.2, step 3: one round. */
  function Round(t: nat, w: Word, s: State): State
    requires t < ROUNDS
  {
    State(Add(Add(Add(Add(Rotl(5, s.a), F(t, s.b, s.c, s.d)), s.e), K(t)), w), s.a, Rotl(30, s.b), s.c, s.d)
  }

  /** The working variables after the first t rounds. */
  function Rounds(block: seq<Word>, h: State, t: nat): State
    requires |block| == BLOCK_WORDS && t <= ROUNDS
  {
    if t == 0 then h
    else Round(t - 1, Schedule(block, t - 1), Rounds(block, h, t - 1))
  }

  /** Section 6.1.2, step 4: the next intermediate hash value. */
  function Compress(block: seq<Word>, h: State): State
    requires |block| == BLOCK_WORDS
  {
    var s := Rounds(block, h, ROUNDS);
    State(Add(s.a, h.a), Add(s.b, h.b), Add(s.c, h.c), Add(s.d, h.d), Add(s.e, h.e))
  }

  /** Section 3.1: a word is four bytes, most significant first. */
  function WordOf(b0: Byte, b1: Byte, b2: Byte, b3: Byte): Word {
    ((b0 as Word) << 24) | ((b1 as Word) << 16) | ((b2 as Word) << 8) | (b3 as Word)
  }

  /** Section 5.2.1: the i-th block of a padded message. */
  function BlockAt(padded: seq<Byte>, i: nat): (block: seq<Word>)
    requires (i + 1) * BLOCK_BYTES <= |padded|
    ensures |block| == BLOCK_WORDS
  {
    seq(BLOCK_WORDS, j requires 0 <= j < BLOCK_WORDS =>
      var p := i * BLOCK_BYTES + 4 * j;
      WordOf(padded[p], padded[p + 1], padded[p + 2], padded[p + 3]))
  }

  /** Messages whose bit length fits the 64-bit length field. */
  ghost predicate Hashable(m: seq<Byte>) { |m| < 0x2000_0000_0000_0000 }

  /** Section 5.1.1: the message, the bit 1, zero bits up to 448 modulo 512, and the 64-bit length. */
  function Pad(m: seq<Byte>): (padded: seq<Byte>)
    requires Hashable(m)
    ensures |padded| == |m| + 9 + ZeroCount(|m|)
  {
    Frame(m, ZeroCount(|m|), LengthField(m))
  }

  function Frame(m: seq<Byte>, zeros: nat, field: seq<Byte>): (padded: seq<Byte>)
    ensures |padded| == |m| + 1 + zeros + |field|
  {
    m + [0x80] + Zeros(zeros) + field
  }

  /** The number of zero bytes between the marker and the length field. */
  function ZeroCount(n: nat): (k: nat)
    ensures k < BLOCK_BYTES <= n + 9 + k && (n + 9 + k) % BLOCK_BYTES == 0
  {
    (55 - n) % BLOCK_BYTES
  }

  function Zeros(n: nat): (z: seq<Byte>)
    ensures |z| == n && forall i :: 0 <= i < n ==> z[i] == 0
  {
    seq(n, _ => 0)
  }

  function LengthField(m: seq<Byte>): (f: seq<Byte>)
    requires Hashable(m)
    ensures |f| == 8
  {
    var bits := 8 * |m|;
    [Digit(bits, 0x100_0000_0000_0000), Digit(bits, 0x1_0000_0000_0000), Digit(bits, 0x100_0000_0000),
     Digit(bits, 0x1_0000_0000),
     Digit(bits, 0x100_0000), Digit(bits, 0x1_0000), Digit(bits, 0x100), Digit(bits, 1)]
  }

  /** The base-256 digit of a number at a place value. */
  function Digit(n: nat, place: nat): Byte
    requires place > 0
  {
    (n / place % 256) as Byte
  }

  /** Section 6.1.2: the hash value after the first n blocks. */
  function Hash(padded: seq<Byte>, n: nat): State
    requires n * BLOCK_BYTES <= |padded|
  {
    if n == 0 then H0 else Compress(BlockAt(padded, n - 1), Hash(padded, n - 1))
  }

  /** The SHA-1 digest of a message. */
  function Digest(m: seq<Byte>): State
    requires Hashable(m)
  {
    var padded := Pad(m);
    Hash(padded, |padded| / BLOCK_BYTES)
  }
}

/** SHA-1 as the chat clients compute it. */
module Sha1 {
  import opened Fips180

  /** Lengths for which the size arithmetic on 32-bit unsigned numbers does not wrap. */
  const MAX_LENGTH := 0x1_0000_0000 - 73

  method CycleShiftLeft(val: Word, bitCount: nat) returns (r: Word)
    requires 0 < bitCount < 32
    ensures r == Rotl(bitCount, val)
  {
    r := (val << bitCount) | (val >> (32 - bitCount));
  }

  function BringToHumanView(val: Word): Word {
    ((val & 0x000000FF) << 24) | ((val & 0x0000FF00) << 8) | ((val & 0x00FF0000) >> 8) | ((val & 0xFF000000) >> 24)
  }

  /** The bytes of a word as a little-endian machine stores them. */
  function Stored(v: Word): (b: seq<Byte>)
    ensures |b| == 4
  {
    [(v & 0xFF) as Byte, ((v >> 8) & 0xFF) as Byte, ((v >> 16) & 0xFF) as Byte, ((v >> 24) & 0xFF) as Byte]
  }

  /** The word a little-endian machine reads from four bytes. */
  function Loaded(b0: Byte, b1: Byte, b2: Byte, b3: Byte): Word {
    (b0 as Word) | ((b1 as Word) << 8) | ((b2 as Word) << 16) | ((b3 as Word) << 24)
  }

  /** The bytes the code appends for a message of n bytes; between 8 and 71. */
  function Needed(n: nat): (k: nat)
    ensures 8 <= k < 72 && (n + k) % 64 == 0
  {
    var k := 64 - n % 64;
    if k < 8 then k + 64 else k
  }

  /** The buffer the code hashes: marker, zeros, and a 32-bit big-endian bit count in the last four bytes. */
  function Padded(m: seq<Byte>): (padded: seq<Byte>)
    requires |m| <= MAX_LENGTH
    ensures |padded| == |m| + Needed(|m|) && |padded| >= BLOCK_BYTES
  {
    Frame(m, Needed(|m|) - 5, SizeBytes(|m|))
  }

  /** The bit count as the code stores it: byte-swapped, through a little-endian pointer. */
  function SizeBytes(n: nat): (b: seq<Byte>)
    requires n <= MAX_LENGTH
    ensures |b| == 4
  {
    Stored(BringToHumanView(Uint(8 * n)))
  }

  /** A number as a 32-bit unsigned word, that is, modulo 2 to the 32. */
  function Uint(n: nat): Word {
    WordOf(Digit(n, 0x100_0000), Digit(n, 0x1_0000), Digit(n, 0x100), Digit(n, 1))
  }

  /** What the code computes: one compression of the first block, from the initial value. */
  function FirstBlockHash(m: seq<Byte>): State
    requires |m| <= MAX_LENGTH
  {
    Compress(BlockAt(Padded(m), 0), H0)
  }

  lemma ByteSwap(b0: Byte, b1: Byte, b2: Byte, b3: Byte)
    ensures BringToHumanView(Loaded(b0, b1, b2, b3)) == WordOf(b0, b1, b2, b3)
  {
  }

  lemma ChoiceForm(j: nat, b: Word, c: Word, d: Word)
    requires j < 20
    ensures (b & c) | ((!b) & d) == F(j, b, c, d)
  {
  }

  lemma ParityForm(j: nat, b: Word, c: Word, d: Word)
    requires 20 <= j < 40 || 60 <= j < ROUNDS
    ensures b ^ c ^ d == F(j, b, c, d)
  {
    assert F(j, b, c, d) == Parity(b, c, d);
  }

  lemma MajorityForm(j: nat, b: Word, c: Word, d: Word)
    requires 40 <= j < 60
    ensures (b & c) | (b & d) | (c & d) == F(j, b, c, d)
  {
  }

  /** Writes message, marker, zeros and size into the buffer. */
  method FillBuffer(newMessage: array<Byte>, message: array<Byte>, msizeBytes: nat, size: seq<Byte>)
    requires msizeBytes <= message.Length && msizeBytes + 5 <= newMessage.Length && |size| == 4
    requires message != newMessage
    modifies newMessage
    ensures newMessage[..] == Frame(message[..msizeBytes], newMessage.Length - msizeBytes - 5, size)
  {
    var extendedMessageSize := newMessage.Length;
    forall k | 0 <= k < msizeBytes { newMessage[k] := message[k]; }
    newMessage[msizeBytes] := 0x80;
    forall k | msizeBytes + 1 <= k < extendedMessageSize { newMessage[k] := 0; }
    forall k | 0 <= k < 4 { newMessage[extendedMessageSize - 4 + k] := size[k]; }
  }

  /** The padded copy of the message and its number of blocks. */
  method Extend(message: array<Byte>, msizeBytes: nat) returns (newMessage: array<Byte>, totalBlockCount: nat)
    requires msizeBytes <= message.Length && msizeBytes <= MAX_LENGTH
    ensures fresh(newMessage) && newMessage[..] == Padded(message[..msizeBytes])
    ensures newMessage.Length == BLOCK_BYTES * totalBlockCount
  {
    totalBlockCount := msizeBytes / BLOCK_BYTES;
    var needAdditionalBytes := BLOCK_BYTES - (msizeBytes - totalBlockCount * BLOCK_BYTES);
    if needAdditionalBytes < 8 {
      totalBlockCount := totalBlockCount + 2;
      needAdditionalBytes := needAdditionalBytes + BLOCK_BYTES;
    } else {
      totalBlockCount := totalBlockCount + 1;
    }
    var extendedMessageSize := msizeBytes + needAdditionalBytes;
    newMessage := new Byte[extendedMessageSize];
    FillBuffer(newMessage, message, msizeBytes, SizeBytes(msizeBytes));
  }

  /** One word of the expansion loop. */
  method ExpandWord(x3: Word, x8: Word, x14: Word, x16: Word) returns (x: Word)
    ensures x == Mix(x3, x8, x14, x16)
  {
    x := CycleShiftLeft(x3 ^ x8 ^ x14 ^ x16, 1);
  }

  /** One word of a block, read through a little-endian pointer and turned round. */
  method LoadWord(bytes: array<Byte>, i: nat, j: nat) returns (w: Word)
    requires (i + 1) * BLOCK_BYTES <= bytes.Length && j < BLOCK_WORDS
    ensures w == BlockAt(bytes[..], i)[j]
  {
    var p := BLOCK_BYTES * i + 4 * j;
    ByteSwap(bytes[p], bytes[p + 1], bytes[p + 2], bytes[p + 3]);
    w := BringToHumanView(Loaded(bytes[p], bytes[p + 1], bytes[p + 2], bytes[p + 3]));
  }

  /** The first loop over the expanded block: its 16 words as read from the buffer. */
  method LoadBlock(bytes: array<Byte>, i: nat, expBlock: array<Word>)
    requires (i + 1) * BLOCK_BYTES <= bytes.Length && expBlock.Length == ROUNDS
    modifies expBlock
    ensures expBlock[..BLOCK_WORDS] == BlockAt(bytes[..], i)
  {
    ghost var block := BlockAt(bytes[..], i);
    var j := 0;
    while j < BLOCK_WORDS
      invariant 0 <= j <= BLOCK_WORDS && BlockAt(bytes[..], i) == block
      invariant forall t: nat :: t < j ==> expBlock[t] == block[t]
    {
      expBlock[j] := LoadWord(bytes, i, j);
      j := j + 1;
    }
  }

  /** The second loop: the message schedule, in place behind its first 16 words. */
  method Expand(expBlock: array<Word>)
    requires expBlock.Length == ROUNDS
    modifies expBlock
    ensures forall t: nat :: t < ROUNDS ==> expBlock[t] == Schedule(old(expBlock[..BLOCK_WORDS]), t)
  {
    ghost var block := expBlock[..BLOCK_WORDS];
    var j := BLOCK_WORDS;
    while j < ROUNDS
      invariant BLOCK_WORDS <= j <= ROUNDS
      invariant forall t: nat :: t < j ==> expBlock[t] == Schedule(block, t)
    {
      var x := ExpandWord(expBlock[j - 3], expBlock[j - 8], expBlock[j - 14], expBlock[j - 16]);
      assert x == Schedule(block, j);
      expBlock[j] := x;
      j := j + 1;
    }
  }

  /** The round function and constant that the loop selects at round j. */
  method SelectRound(j: nat, b: Word, c: Word, d: Word) returns (f: Word, k: Word)
    requires j < ROUNDS
    ensures f == F(j, b, c, d) && k == K(j)
  {
    if j < 20 {
      f, k := (b & c) | ((!b) & d), 0x5A827999;
      ChoiceForm(j, b, c, d);
    } else if j < 40 {
      f, k := b ^ c ^ d, 0x6ED9EBA1;
      ParityForm(j, b, c, d);
    } else if j < 60 {
      f, k := (b & c) | (b & d) | (c & d), 0x8F1BBCDC;
      MajorityForm(j, b, c, d);
    } else {
      f, k := b ^ c ^ d, 0xCA62C1D6;
      ParityForm(j, b, c, d);
    }
  }

  /** One pass of the round loop, on the five working variables. */
  method OneRound(j: nat, w: Word, s: State) returns (r: State)
    requires j < ROUNDS
    ensures r == Round(j, w, s)
  {
    var a, b, c, d, e := s.a, s.b, s.c, s.d, s.e;
    var f, k := SelectRound(j, b, c, d);
    var temp := CycleShiftLeft(a, 5);
    temp := Add(Add(Add(Add(temp, f), e), k), w);
    e := d;
    d := c;
    c := CycleShiftLeft(b, 30);
    b := a;
    a := temp;
    r := State(a, b, c, d, e);
  }

  function StateOf(digest: seq<Word>): State
    requires |digest| == 5
  {
    State(digest[0], digest[1], digest[2], digest[3], digest[4])
  }

  /** The 80 rounds over one expanded block, and the digest they are added into. */
  method ProcessBlock(expBlock: array<Word>, ghost block: seq<Word>) returns (digest: array<Word>)
    requires |block| == BLOCK_WORDS && expBlock.Length == ROUNDS
    requires forall t: nat :: t < ROUNDS ==> expBlock[t] == Schedule(block, t)
    ensures fresh(digest) && digest.Length == 5 && StateOf(digest[..]) == Compress(block, H0)
  {
    var s := H0;
    var j := 0;
    while j < ROUNDS
      invariant 0 <= j <= ROUNDS
      invariant s == Rounds(block, H0, j)
    {
      s := OneRound(j, expBlock[j], s);
      j := j + 1;
    }
    digest := new Word[5];
    digest[0], digest[1], digest[2], digest[3], digest[4] :=
      Add(s.a, H0.a), Add(s.b, H0.b), Add(s.c, H0.c), Add(s.d, H0.d), Add(s.e, H0.e);
  }

  /** The digest of the message's first padded block: the block loop returns in its first pass. */
  method Sha1(message: array<Byte>, msizeBytes: nat) returns (digest: array<Word>)
    requires msizeBytes <= message.Length && msizeBytes <= MAX_LENGTH
    ensures fresh(digest) && digest.Length == 5
    ensures StateOf(digest[..]) == FirstBlockHash(message[..msizeBytes])
  {
    var newMessage, totalBlockCount := Extend(message, msizeBytes);
    assert 0 < totalBlockCount;
    var expBlock := new Word[ROUNDS];
    LoadBlock(newMessage, 0, expBlock);
    ghost var block := expBlock[..BLOCK_WORDS];
    Expand(expBlock);
    digest := ProcessBlock(expBlock, block);
  }

  // The length field, compared with the size the code stores.

  lemma StoredSwapped(b0: Byte, b1: Byte, b2: Byte, b3: Byte)
    ensures Stored(BringToHumanView(WordOf(b0, b1, b2, b3))) == [b0, b1, b2, b3]
  {
  }

  lemma SizeDigits(n: nat)
    requires n <= MAX_LENGTH
    ensures SizeBytes(n) == [Digit(8 * n, 0x100_0000), Digit(8 * n, 0x1_0000), Digit(8 * n, 0x100), Digit(8 * n, 1)]
  {
    StoredSwapped(Digit(8 * n, 0x100_0000), Digit(8 * n, 0x1_0000), Digit(8 * n, 0x100), Digit(8 * n, 1));
  }

  lemma SmallByte(d: nat)
    requires 0 < d < 8
    ensures (d as Byte) != 0
  {
  }

  lemma HighDigits(n: nat)
    requires n < 0x8_0000_0000
    ensures n / 0x100_0000_0000_0000 % 256 == n / 0x1_0000_0000_0000 % 256 == n / 0x100_0000_0000 % 256 == 0
    ensures n / 0x1_0000_0000 % 256 == n / 0x1_0000_0000 < 8
  {
  }

  lemma ShortField(m: seq<Byte>)
    requires |m| < 0x2000_0000
    ensures LengthField(m) == [0, 0, 0, 0] + SizeBytes(|m|)
  {
    SizeDigits(|m|);
    HighDigits(8 * |m|);
  }

  lemma LongField(m: seq<Byte>)
    requires 0x2000_0000 <= |m| <= MAX_LENGTH
    ensures LengthField(m)[3] != 0
  {
    HighDigits(8 * |m|);
    SmallByte(8 * |m| / 0x1_0000_0000);
  }

  /** The standard's field is the stored size behind four zero bytes, for exactly the lengths below 2 to the 29. */
  lemma LengthFieldForm(m: seq<Byte>)
    requires |m| <= MAX_LENGTH
    ensures LengthField(m) == [0, 0, 0, 0] + SizeBytes(|m|) <==> |m| < 0x2000_0000
  {
    if |m| < 0x2000_0000 {
      ShortField(m);
    } else {
      LongField(m);
      assert ([0, 0, 0, 0] + SizeBytes(|m|))[3] == 0;
    }
  }

  lemma FieldsCompared(m: seq<Byte>, k: nat, field: seq<Byte>, size: seq<Byte>)
    requires |field| == 8 && |size| == 4
    ensures Frame(m, k + 4, size) == Frame(m, k, field) <==> field == [0, 0, 0, 0] + size
  {
    assert Zeros(k + 4) == Zeros(k) + [0, 0, 0, 0];
    var head := m + [0x80] + Zeros(k);
    assert Frame(m, k + 4, size) == head + ([0, 0, 0, 0] + size);
    if head + ([0, 0, 0, 0] + size) == head + field {
      assert field == (head + field)[|head|..];
      assert [0, 0, 0, 0] + size == (head + ([0, 0, 0, 0] + size))[|head|..];
    }
  }

  /** The code pads as section 5.1.1 of FIPS 180-4 says for exactly these lengths. */
  lemma PaddingIsStandard(m: seq<Byte>)
    requires |m| <= MAX_LENGTH
    ensures Padded(m) == Pad(m) <==> |m| < 0x2000_0000 && |m| % 64 != 56
  {
    if |m| % 64 == 56 {
      assert |Padded(m)| == |m| + 8;
      assert |Pad(m)| == |m| + 9 + ZeroCount(|m|);
    } else {
      assert Needed(|m|) - 5 == ZeroCount(|m|) + 4;
      FieldsCompared(m, ZeroCount(|m|), LengthField(m), SizeBytes(|m|));
      LengthFieldForm(m);
    }
  }

  lemma FrameBytes(m: seq<Byte>, zeros: nat, field: seq<Byte>)
    ensures Frame(m, zeros, field)[..|m|] == m && Frame(m, zeros, field)[|m|] == 0x80
    ensures forall i :: |m| < i <= |m| + zeros ==> Frame(m, zeros, field)[i] == 0
  {
  }

  /** No two messages share a padded buffer. */
  lemma PaddingIsInjective(m: seq<Byte>, n: seq<Byte>)
    requires |m| <= MAX_LENGTH && |n| <= MAX_LENGTH
    requires Padded(m) == Padded(n)
    ensures m == n
  {
    FramesDiffer(m, Needed(|m|) - 5, SizeBytes(|m|), n, Needed(|n|) - 5, SizeBytes(|n|));
  }

  lemma FramesDiffer(m: seq<Byte>, j: nat, f: seq<Byte>, n: seq<Byte>, k: nat, g: seq<Byte>)
    requires |f| == |g| && Frame(m, j, f) == Frame(n, k, g)
    ensures m == n
  {
    FrameBytes(m, j, f);
    FrameBytes(n, k, g);
  }

  /** Frames that both reach past the first block agree on it. */
  lemma FramesAgree(m: seq<Byte>, j: nat, f: seq<Byte>, k: nat, g: seq<Byte>)
    requires |m| + 1 + j >= 64 && |m| + 1 + k >= 64
    ensures Frame(m, j, f)[..64] == Frame(m, k, g)[..64]
  {
    FrameBytes(m, j, f);
    FrameBytes(m, k, g);
    var p, q := Frame(m, j, f), Frame(m, k, g);
    forall i | 0 <= i < 64 ensures p[..64][i] == q[..64][i] {
      if i < |m| {
        assert p[i] == p[..|m|][i] == q[..|m|][i] == q[i];
      }
    }
  }

  lemma SameBlock(p: seq<Byte>, q: seq<Byte>)
    requires |p| >= 64 && |q| >= 64 && p[..64] == q[..64]
    ensures BlockAt(p, 0) == BlockAt(q, 0)
  {
    assert forall k :: 0 <= k < 64 ==> p[k] == p[..64][k] == q[..64][k] == q[k];
  }

  lemma OneBlock(padded: seq<Byte>)
    requires |padded| >= 64
    ensures Hash(padded, 1) == Compress(BlockAt(padded, 0), H0)
  {
    assert Hash(padded, 0) == H0;
  }

  lemma SecondBlockNeeded(n: nat)
    requires n >= 57
    ensures n + Needed(n) >= 68 && n + 1 + ZeroCount(n) >= 64
  {
  }

  lemma FirstBytesAgree(m: seq<Byte>)
    requires 57 <= |m| <= MAX_LENGTH
    ensures Padded(m)[..64] == Pad(m)[..64]
  {
    SecondBlockNeeded(|m|);
    FramesAgree(m, Needed(|m|) - 5, SizeBytes(|m|), ZeroCount(|m|), LengthField(m));
  }

  /** Away from 56 bytes, the code's result is the standard's hash value after the first block. */
  lemma FirstBlockIsStandard(m: seq<Byte>)
    requires |m| <= MAX_LENGTH && |m| != 56
    ensures FirstBlockHash(m) == Hash(Pad(m), 1)
  {
    OneBlock(Pad(m));
    if |m| < 56 {
      PaddingIsStandard(m);
    } else {
      FirstBytesAgree(m);
      SameBlock(Padded(m), Pad(m));
    }
  }

  lemma OneBlockSuffices(m: seq<Byte>)
    requires |m| <= 55
    ensures |Pad(m)| / BLOCK_BYTES == 1
  {
  }

  /** Main result: on messages of at most 55 bytes the code computes the SHA-1 digest. */
  lemma ShortMessagesGetTheDigest(m: seq<Byte>)
    requires |m| <= 55
    ensures FirstBlockHash(m) == Digest(m)
  {
    FirstBlockIsStandard(m);
    OneBlockSuffices(m);
  }

  /** From 64 bytes on the result is a function of the first 64 bytes alone: the blocks are not chained. */
  lemma LaterBlocksAreIgnored(m: seq<Byte>, n: seq<Byte>)
    requires 64 <= |m| <= MAX_LENGTH && 64 <= |n| <= MAX_LENGTH
    requires m[..64] == n[..64]
    ensures FirstBlockHash(m) == FirstBlockHash(n)
  {
    FrameBytes(m, Needed(|m|) - 5, SizeBytes(|m|));
    FrameBytes(n, Needed(|n|) - 5, SizeBytes(|n|));
    assert Padded(m)[..64] == Padded(m)[..|m|][..64];
    assert Padded(n)[..64] == Padded(n)[..|n|][..64];
    SameBlock(Padded(m), Padded(n));
  }
}
