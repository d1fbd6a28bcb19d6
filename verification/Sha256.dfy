/** SHA-256 as the capture path computes it, against FIPS 180-4. */
module Sha256 {
  import opened Bits

  type Word = bv32

  // ---------------------------------------------------------------- FIPS 180-4, sections 3.2, 4.1.2, 4.2.2, 5.3.3

  function Rotr(x: Word, n: bv6): Word
    requires 0 < n < 32
  {
    (x >> n) | (x << (32 - n))
  }

  /** Addition modulo `2^32`. */
  function Sum(x: Word, y: Word): Word { x + y }

  function Ch(x: Word, y: Word, z: Word): Word { (x & y) ^ (!x & z) }

  function Maj(x: Word, y: Word, z: Word): Word { (x & y) ^ (x & z) ^ (y & z) }

  function BigSigma0(x: Word): Word { Rotr(x, 2) ^ Rotr(x, 13) ^ Rotr(x, 22) }

  function BigSigma1(x: Word): Word { Rotr(x, 6) ^ Rotr(x, 11) ^ Rotr(x, 25) }

  function SmallSigma0(x: Word): Word { Rotr(x, 7) ^ Rotr(x, 18) ^ (x >> 3) }

  function SmallSigma1(x: Word): Word { Rotr(x, 17) ^ Rotr(x, 19) ^ (x >> 10) }

  type Bits32 = n: nat | n < 0x1_0000_0000

  /** Eight rows of eight. */
  const K: seq<seq<Bits32>> := [
    [0x428a2f98, 0x71374491, 0xb5c0fbcf, 0xe9b5dba5, 0x3956c25b, 0x59f111f1, 0x923f82a4, 0xab1c5ed5],
    [0xd807aa98, 0x12835b01, 0x243185be, 0x550c7dc3, 0x72be5d74, 0x80deb1fe, 0x9bdc06a7, 0xc19bf174],
    [0xe49b69c1, 0xefbe4786, 0x0fc19dc6, 0x240ca1cc, 0x2de92c6f, 0x4a7484aa, 0x5cb0a9dc, 0x76f988da],
    [0x983e5152, 0xa831c66d, 0xb00327c8, 0xbf597fc7, 0xc6e00bf3, 0xd5a79147, 0x06ca6351, 0x14292967],
    [0x27b70a85, 0x2e1b2138, 0x4d2c6dfc, 0x53380d13, 0x650a7354, 0x766a0abb, 0x81c2c92e, 0x92722c85],
    [0xa2bfe8a1, 0xa81a664b, 0xc24b8b70, 0xc76c51a3, 0xd192e819, 0xd6990624, 0xf40e3585, 0x106aa070],
    [0x19a4c116, 0x1e376c08, 0x2748774c, 0x34b0bcb5, 0x391c0cb3, 0x4ed8aa4a, 0x5b9cca4f, 0x682e6ff3],
    [0x748f82ee, 0x78a5636f, 0x84c87814, 0x8cc70208, 0x90befffa, 0xa4506ceb, 0xbef9a3f7, 0xc67178f2]
  ]

  function WordOf(n: Bits32): Word { n as Word }

  function RoundConstant(t: nat): Word
    requires t < 64
  {
    WordOf(K[t / 8][t % 8])
  }

  function Initial(): (r: seq<Word>)
    ensures |r| == 8
  {
    [0x6a09e667, 0xbb67ae85, 0x3c6ef372, 0xa54ff53a, 0x510e527f, 0x9b05688c, 0x1f83d9ab, 0x5be0cd19]
  }

  // ---------------------------------------------------------------- FIPS 180-4, section 6.2.2

  function WordAt(block: seq<Byte>, t: nat): Word
    requires 4 * t + 4 <= |block|
  {
    BigEndian(block[4 * t], block[4 * t + 1], block[4 * t + 2], block[4 * t + 3])
  }

  function BigEndian(a: Byte, b: Byte, c: Byte, d: Byte): Word {
    ((a as Word) << 24) | ((b as Word) << 16) | ((c as Word) << 8) | (d as Word)
  }

  /** The message schedule `W`. */
  function ScheduleWord(block: seq<Byte>, t: nat): Word
    requires |block| == 64
  {
    if t < 16 then WordAt(block, t)
    else NextWord(ScheduleWord(block, t - 16), ScheduleWord(block, t - 15), ScheduleWord(block, t - 7),
            ScheduleWord(block, t - 2))
  }

  function NextWord(w16: Word, w15: Word, w7: Word, w2: Word): Word {
    Sum(Sum(Sum(w16, SmallSigma0(w15)), w7), SmallSigma1(w2))
  }

  datatype Working = Working(a: Word, b: Word, c: Word, d: Word, e: Word, f: Word, g: Word, h: Word)

  function T1(v: Working, k: Word, w: Word): Word {
    Sum(Sum(Sum(Sum(v.h, BigSigma1(v.e)), Ch(v.e, v.f, v.g)), k), w)
  }

  function T2(v: Working): Word { Sum(BigSigma0(v.a), Maj(v.a, v.b, v.c)) }

  function Round(v: Working, k: Word, w: Word): Working {
    Working(Sum(T1(v, k, w), T2(v)), v.a, v.b, v.c, Sum(v.d, T1(v, k, w)), v.e, v.f, v.g)
  }

  function Rounds(v: Working, block: seq<Byte>, t: nat): Working
    requires |block| == 64 && t <= 64
  {
    if t == 0 then v else Round(Rounds(v, block, t - 1), RoundConstant(t - 1), ScheduleWord(block, t - 1))
  }

  function Loaded(s: seq<Word>): Working
    requires |s| == 8
  {
    Working(s[0], s[1], s[2], s[3], s[4], s[5], s[6], s[7])
  }

  function Added(s: seq<Word>, v: Working): (r: seq<Word>)
    requires |s| == 8
    ensures |r| == 8
  {
    [Sum(s[0], v.a), Sum(s[1], v.b), Sum(s[2], v.c), Sum(s[3], v.d),
     Sum(s[4], v.e), Sum(s[5], v.f), Sum(s[6], v.g), Sum(s[7], v.h)]
  }

  function Compressed(s: seq<Word>, block: seq<Byte>): (r: seq<Word>)
    requires |s| == 8 && |block| == 64
    ensures |r| == 8
  {
    Added(s, Rounds(Loaded(s), block, 64))
  }

  /** The hash value after the first `n` blocks. */
  function HashBlocks(s: seq<Word>, message: seq<Byte>, n: nat): (r: seq<Word>)
    requires |s| == 8 && 64 * n <= |message|
    ensures |r| == 8
  {
    if n == 0 then s else Compressed(HashBlocks(s, message, n - 1), message[64 * (n - 1)..64 * n])
  }

  // ---------------------------------------------------------------- FIPS 180-4, section 5.1.1

  function Zeros(n: nat): seq<Byte> { seq(n, _ => 0) }

  /** The fewest zero bytes after the 0x80 that leave room for the length in a whole block. */
  function ZeroCount(length: nat): nat {
    if length % 64 <= 55 then 55 - length % 64 else 119 - length % 64
  }

  /** `zeros` zero bytes after a message of `length` and its 0x80 leave exactly the length's room. */
  predicate FillsBlocks(length: nat, zeros: nat) { (length + 1 + zeros + 8) % 64 == 0 }

  lemma ZeroCountIsFewest(length: nat)
    ensures FillsBlocks(length, ZeroCount(length))
    ensures forall z: nat :: z < ZeroCount(length) ==> !FillsBlocks(length, z)
  {
    var q, r := length / 64, length % 64;
    assert length == 64 * q + r;
    forall z: nat | z <= ZeroCount(length) ensures FillsBlocks(length, z) <==> (r + 9 + z) % 64 == 0 {
      assert length + 1 + z + 8 == 64 * q + (r + 9 + z);
    }
  }

  function LowByte(n: nat): Byte { (n % 256) as Byte }

  /** The last `count` base-256 digits of a number, most significant first. */
  function BigEndianDigits(n: nat, count: nat): (r: seq<Byte>)
    ensures |r| == count
  {
    if count == 0 then [] else BigEndianDigits(n / 256, count - 1) + [LowByte(n)]
  }

  function PaddedWith(message: seq<Byte>, bits: nat): seq<Byte> {
    message + [0x80] + Zeros(ZeroCount(|message|)) + BigEndianDigits(bits, 8)
  }

  lemma PaddedLength(message: seq<Byte>, bits: nat)
    ensures |PaddedWith(message, bits)| == 64 * ((|message| + 8) / 64 + 1)
  {
    var q, r := |message| / 64, |message| % 64;
    assert |message| == 64 * q + r;
    assert (|message| + 8) / 64 == if r <= 55 then q else q + 1;
  }

  function DigestWith(message: seq<Byte>, bits: nat): (r: seq<Word>)
    ensures |r| == 8
  {
    PaddedLength(message, bits);
    HashBlocks(Initial(), PaddedWith(message, bits), (|message| + 8) / 64 + 1)
  }

  /** The hash of a message, as the standard defines it for fewer than `2^64` bits. */
  function Digest(message: seq<Byte>): seq<Word> { DigestWith(message, 8 * |message|) }

  // ---------------------------------------------------------------- compress

  method FillSchedule(w: array<Word>, block: array<Byte>, at: nat)
    requires w.Length == 64 && at + 64 <= block.Length
    modifies w
    ensures forall t :: 0 <= t < 64 ==> w[t] == ScheduleWord(block[at..at + 64], t)
  {
    LoadWords(w, block, at);
    ExtendWords(w, block[at..at + 64]);
  }

  method LoadWords(w: array<Word>, block: array<Byte>, at: nat)
    requires w.Length == 64 && at + 64 <= block.Length
    modifies w
    ensures forall t :: 0 <= t < 16 ==> w[t] == ScheduleWord(block[at..at + 64], t)
  {
    hide BigEndian, NextWord;
    ghost var words := block[at..at + 64];
    for i := 0 to 16
      invariant forall t :: 0 <= t < i ==> w[t] == ScheduleWord(words, t)
    {
      assert words[4 * i] == block[at + i * 4] && words[4 * i + 1] == block[at + i * 4 + 1];
      assert words[4 * i + 2] == block[at + i * 4 + 2] && words[4 * i + 3] == block[at + i * 4 + 3];
      w[i] := BigEndian(block[at + i * 4], block[at + i * 4 + 1], block[at + i * 4 + 2], block[at + i * 4 + 3]);
    }
  }

  method ExtendWords(w: array<Word>, ghost words: seq<Byte>)
    requires w.Length == 64 && |words| == 64
    requires forall t :: 0 <= t < 16 ==> w[t] == ScheduleWord(words, t)
    modifies w
    ensures forall t :: 0 <= t < 64 ==> w[t] == ScheduleWord(words, t)
  {
    hide SmallSigma0, SmallSigma1, BigEndian, Sum, WordAt;
    for i := 16 to 64
      invariant forall t :: 0 <= t < i ==> w[t] == ScheduleWord(words, t)
    {
      var s0 := SmallSigma0(w[i - 15]);
      var s1 := SmallSigma1(w[i - 2]);
      w[i] := Sum(Sum(Sum(w[i - 16], s0), w[i - 7]), s1);
    }
  }

  method Mix(w: array<Word>, start: Working, ghost words: seq<Byte>) returns (v: Working)
    requires w.Length == 64 && |words| == 64
    requires forall t :: 0 <= t < 64 ==> w[t] == ScheduleWord(words, t)
    ensures v == Rounds(start, words, 64)
  {
    hide BigSigma0, BigSigma1, Ch, Maj, ScheduleWord, RoundConstant, Sum;
    var a, b, c, d := start.a, start.b, start.c, start.d;
    var e, f, g, h := start.e, start.f, start.g, start.h;
    for i := 0 to 64
      invariant Working(a, b, c, d, e, f, g, h) == Rounds(start, words, i)
    {
      var s1 := BigSigma1(e);
      var ch := Ch(e, f, g);
      var t1 := Sum(Sum(Sum(Sum(h, s1), ch), RoundConstant(i)), w[i]);
      var s0 := BigSigma0(a);
      var maj := Maj(a, b, c);
      var t2 := Sum(s0, maj);
      h := g;
      g := f;
      f := e;
      e := Sum(d, t1);
      d := c;
      c := b;
      b := a;
      a := Sum(t1, t2);
    }
    v := Working(a, b, c, d, e, f, g, h);
  }

  method AddInto(state: array<Word>, v: Working)
    requires state.Length == 8
    modifies state
    ensures state[..] == Added(old(state[..]), v)
  {
    hide Sum;
    var s0, s1, s2, s3, s4, s5, s6, s7 :=
        state[0], state[1], state[2], state[3], state[4], state[5], state[6], state[7];
    state[0], state[1], state[2], state[3] := Sum(s0, v.a), Sum(s1, v.b), Sum(s2, v.c), Sum(s3, v.d);
    state[4], state[5], state[6], state[7] := Sum(s4, v.e), Sum(s5, v.f), Sum(s6, v.g), Sum(s7, v.h);
  }

  method Compress(state: array<Word>, block: array<Byte>, at: nat)
    requires state.Length == 8 && at + 64 <= block.Length
    modifies state
    ensures state[..] == Compressed(old(state[..]), old(block[at..at + 64]))
  {
    hide Rounds, Added, ScheduleWord;
    ghost var words := block[at..at + 64];
    var w := new Word[64];
    FillSchedule(w, block, at);
    var v := Mix(w, Working(state[0], state[1], state[2], state[3], state[4], state[5], state[6], state[7]), words);
    AddInto(state, v);
  }

  // ---------------------------------------------------------------- the whole message

  lemma {:induction false} BlocksOfPrefix(s: seq<Word>, a: seq<Byte>, b: seq<Byte>, n: nat)
    requires |s| == 8 && 64 * n <= |a|
    ensures HashBlocks(s, a + b, n) == HashBlocks(s, a, n)
  {
    hide Compressed;
    if n > 0 {
      BlocksOfPrefix(s, a, b, n - 1);
      assert (a + b)[64 * (n - 1)..64 * n] == a[64 * (n - 1)..64 * n];
    }
  }

  /** Each block is compressed into what the blocks before it left. */
  lemma {:induction false} BlocksChain(s: seq<Word>, a: seq<Byte>, n: nat, b: seq<Byte>, m: nat)
    requires |s| == 8 && |a| == 64 * n && 64 * m <= |b|
    ensures HashBlocks(s, a + b, n + m) == HashBlocks(HashBlocks(s, a, n), b, m)
  {
    hide *;
    var middle := HashBlocks(s, a, n);
    if m == 0 {
      BlocksOfPrefix(s, a, b, n);
      NoBlocks(middle, b);
    } else {
      BlocksChain(s, a, n, b, m - 1);
      var block := b[64 * (m - 1)..64 * (m - 1) + 64];
      SecondPart(a, b, n, m - 1);
      OneMoreBlock(s, a + b, n + m - 1, block);
      OneMoreBlock(middle, b, m - 1, block);
    }
  }

  lemma {:induction false} NoBlocks(s: seq<Word>, message: seq<Byte>)
    requires |s| == 8
    ensures HashBlocks(s, message, 0) == s
  {}

  lemma SecondPart(a: seq<Byte>, b: seq<Byte>, n: nat, m: nat)
    requires |a| == 64 * n && 64 * m + 64 <= |b|
    ensures (a + b)[64 * (n + m)..64 * (n + m) + 64] == b[64 * m..64 * m + 64]
  {}

  /** What is left of the message, the 0x80 and the length fit one block. */
  predicate FitsOneBlock(length: nat) { length % 64 + 9 <= 64 }

  /** The tail block or blocks of a padded message. */
  function Tail(message: seq<Byte>, bits: nat): (r: seq<Byte>)
    ensures |r| == if FitsOneBlock(|message|) then 64 else 128
  {
    message[|message| / 64 * 64..] + [0x80] + Zeros(ZeroCount(|message|)) + BigEndianDigits(bits, 8)
  }

  lemma PaddedSplits(message: seq<Byte>, bits: nat)
    ensures PaddedWith(message, bits) == message[..|message| / 64 * 64] + Tail(message, bits)
    ensures (|message| + 8) / 64 == |message| / 64 + if |Tail(message, bits)| == 64 then 0 else 1
  {}

  lemma {:induction false} FullBlocks(message: seq<Byte>, tail: seq<Byte>)
    ensures HashBlocks(Initial(), message[..|message| / 64 * 64] + tail, |message| / 64)
       == HashBlocks(Initial(), message, |message| / 64)
  {
    hide HashBlocks, Initial;
    var q := |message| / 64;
    assert message == message[..q * 64] + message[q * 64..];
    BlocksOfPrefix(Initial(), message[..q * 64], tail, q);
    BlocksOfPrefix(Initial(), message[..q * 64], message[q * 64..], q);
  }

  lemma OneMoreBlock(s: seq<Word>, message: seq<Byte>, n: nat, block: seq<Byte>)
    requires |s| == 8 && 64 * n + 64 <= |message| && block == message[64 * n..64 * n + 64]
    ensures HashBlocks(s, message, n + 1) == Compressed(HashBlocks(s, message, n), block)
  {
    assert message[64 * n..64 * (n + 1)] == block;
  }

  lemma HashOfTail(start: seq<Byte>, tail: seq<Byte>, q: nat)
    requires |start| == 64 * q && |tail| % 64 == 0
    ensures |tail| == 64 ==> (
              HashBlocks(Initial(), start + tail, q + 1)
              == Compressed(HashBlocks(Initial(), start + tail, q), tail))
    ensures |tail| == 128 ==> (
              HashBlocks(Initial(), start + tail, q + 2)
              == Compressed(Compressed(HashBlocks(Initial(), start + tail, q), tail[..64]), tail[64..]))
  {
    hide Initial, Compressed, HashBlocks;
    var padded := start + tail;
    if |tail| == 64 {
      assert padded[64 * q..64 * q + 64] == tail;
      OneMoreBlock(Initial(), padded, q, tail);
    }
    if |tail| == 128 {
      assert padded[64 * q..64 * q + 64] == tail[..64];
      assert padded[64 * (q + 1)..64 * (q + 1) + 64] == tail[64..];
      OneMoreBlock(Initial(), padded, q, tail[..64]);
      OneMoreBlock(Initial(), padded, q + 1, tail[64..]);
    }
  }

  lemma {:induction false} DigestBlocks(message: seq<Byte>, bits: nat, q: nat, start: seq<Byte>, tail: seq<Byte>)
    requires q == |message| / 64 && start == message[..q * 64] && tail == Tail(message, bits)
    ensures DigestWith(message, bits) == HashBlocks(Initial(), start + tail, if |tail| == 64 then q + 1 else q + 2)
  {
    hide HashBlocks, PaddedWith, Tail, Initial;
    PaddedSplits(message, bits);
  }

  /** Hashing the whole blocks in place and then the tail is hashing the padded message. */
  lemma {:induction false} DigestOfTail(message: seq<Byte>, bits: nat, full: seq<Word>, tail: seq<Byte>)
    requires full == HashBlocks(Initial(), message, |message| / 64) && tail == Tail(message, bits)
    ensures |tail| == 64 ==> DigestWith(message, bits) == Compressed(full, tail)
    ensures |tail| == 128 ==> DigestWith(message, bits) == Compressed(Compressed(full, tail[..64]), tail[64..])
  {
    var q := |message| / 64;
    var start := message[..q * 64];
    hide *;
    assert |start| == 64 * q;
    FullBlocks(message, tail);
    HashOfTail(start, tail, q);
    DigestBlocks(message, bits, q, start, tail);
  }

  // ---------------------------------------------------------------- the tail, in place

  /** `n >> (8 * i)`. */
  function ShiftedBytes(n: nat, i: nat): nat { if i == 0 then n else ShiftedBytes(n / 256, i - 1) }

  lemma {:induction false} ByteFromEnd(n: nat, count: nat, i: nat)
    requires i < count
    ensures BigEndianDigits(n, count)[count - 1 - i] == LowByte(ShiftedBytes(n, i))
  {
    hide LowByte;
    if i > 0 {
      ByteFromEnd(n / 256, count - 1, i - 1);
    }
  }

  const TWO_64: nat := 0x1_0000_0000_0000_0000

  /** `(uint64_t)len * 8`. */
  function BitCount(length: nat): nat { (8 * length) % TWO_64 }

  method WriteLength(tail: array<Byte>, tailLen: nat, bits: nat)
    requires 8 <= tailLen <= tail.Length
    modifies tail
    ensures tail[..tailLen - 8] == old(tail[..tailLen - 8])
    ensures tail[tailLen - 8..tailLen] == BigEndianDigits(bits, 8)
  {
    hide LowByte, BigEndianDigits, ShiftedBytes;
    ghost var digits := BigEndianDigits(bits, 8);
    ghost var before := tail[..tailLen - 8];
    for i := 0 to 8
      invariant tail[..tailLen - 8] == before
      invariant tail[tailLen - i..tailLen] == digits[8 - i..]
    {
      ByteFromEnd(bits, 8, i);
      tail[tailLen - 1 - i] := LowByte(ShiftedBytes(bits, i));
      assert tail[tailLen - 1 - i..tailLen] == [digits[7 - i]] + tail[tailLen - i..tailLen];
      assert digits[7 - i..] == [digits[7 - i]] + digits[8 - i..];
    }
  }

  method FillTail(data: array<Byte>, tail: array<Byte>) returns (tailLen: nat)
    requires tail.Length == 128 && data != tail
    modifies tail
    ensures tailLen == |Tail(data[..], BitCount(data.Length))|
    ensures tail[..tailLen] == Tail(data[..], BitCount(data.Length))
  {
    hide BigEndianDigits, BitCount;
    var from := data.Length / 64 * 64;
    var rest := data.Length - from;
    for j := 0 to rest
      invariant tail[..j] == data[from..from + j]
    {
      tail[j] := data[from + j];
    }
    tail[rest] := 0x80;
    tailLen := if rest + 1 + 8 <= 64 then 64 else 128;
    for j := rest + 1 to tailLen
      invariant tail[..rest] == data[from..] && tail[rest] == 0x80
      invariant forall x :: rest + 1 <= x < j ==> tail[x] == 0
    {
      tail[j] := 0;
    }
    assert tail[..tailLen - 8] == data[from..] + [0x80] + Zeros(ZeroCount(data.Length));
    WriteLength(tail, tailLen, BitCount(data.Length));
    assert tail[..tailLen] == tail[..tailLen - 8] + tail[tailLen - 8..tailLen];
  }

  // ---------------------------------------------------------------- hexadecimal

  const HEX: string := "0123456789abcdef"

  function HexDigit(nibble: Byte): char
    requires nibble < 16
  {
    HEX[nibble as int]
  }

  function High(b: Byte): (r: Byte)
    ensures r < 16
  {
    b >> 4
  }

  function Low(b: Byte): (r: Byte)
    ensures r < 16
  {
    b & 0xf
  }

  function ByteOfWord(w: Word, b: nat): Byte
    requires b < 4
  {
    ((if b == 0 then w >> 24 else if b == 1 then w >> 16 else if b == 2 then w >> 8 else w) & 0xff) as Byte
  }

  function DigestByte(s: seq<Word>, i: nat): Byte
    requires i < 4 * |s|
  {
    ByteOfWord(s[i / 4], i % 4)
  }

  /** The digest's bytes, each word most significant byte first. */
  function DigestBytes(s: seq<Word>): (r: seq<Byte>)
    ensures |r| == 4 * |s|
  {
    seq(4 * |s|, i requires 0 <= i < 4 * |s| => DigestByte(s, i))
  }

  function HexText(bytes: seq<Byte>): (r: string)
    ensures |r| == 2 * |bytes|
  {
    if bytes == [] then "" else
      HexText(bytes[..|bytes| - 1]) + [HexDigit(High(bytes[|bytes| - 1])), HexDigit(Low(bytes[|bytes| - 1]))]
  }

  method WriteWord(word: Word, out: array<char>, at: nat)
    requires at + 8 <= out.Length
    modifies out
    ensures out[..at] == old(out[..at])
    ensures out[at..at + 8] == HexText(DigestBytes([word]))
  {
    hide HexDigit, ByteOfWord, High, Low;
    ghost var bytes := DigestBytes([word]);
    ghost var before := out[..at];
    for b := 0 to 4
      invariant out[..at] == before
      invariant out[at..at + 2 * b] == HexText(bytes[..b])
    {
      var byte := ByteOfWord(word, b);
      assert bytes[b] == byte;
      HexOneMore(bytes[..b], byte);
      assert bytes[..b + 1] == bytes[..b] + [byte];
      hide HexText, DigestBytes;
      ghost var text := out[at..at + 2 * b];
      out[at + b * 2] := HexDigit(High(byte));
      out[at + b * 2 + 1] := HexDigit(Low(byte));
      assert out[at..at + 2 * b] == text;
      assert out[at..at + 2 * b + 2] == text + [HexDigit(High(byte)), HexDigit(Low(byte))];
    }
    assert bytes[..4] == bytes;
  }

  lemma {:induction false} HexOfTwo(a: seq<Byte>, b: seq<Byte>)
    ensures HexText(a + b) == HexText(a) + HexText(b)
  {
    hide HexDigit, High, Low;
    if b == [] {
      assert a + b == a;
    } else {
      HexOfTwo(a, b[..|b| - 1]);
      assert (a + b)[..|a + b| - 1] == a + b[..|b| - 1];
    }
  }

  lemma BigEndianDigitsTwo(s: seq<Word>, t: seq<Word>)
    ensures DigestBytes(s + t) == DigestBytes(s) + DigestBytes(t)
  {
    hide ByteOfWord;
    var n := 4 * |s|;
    forall i | 0 <= i < 4 * |t| ensures DigestBytes(s + t)[n + i] == DigestBytes(t)[i] {
      assert (n + i) / 4 == |s| + i / 4 && (n + i) % 4 == i % 4;
    }
  }

  method WriteHex(state: array<Word>, out: array<char>)
    requires state.Length == 8 && out.Length >= 65
    modifies out
    ensures out[..65] == HexText(DigestBytes(old(state[..]))) + ['\0']
  {
    hide HexText, DigestBytes;
    ghost var words := state[..];
    assert out[..0] == HexText(DigestBytes(words[..0])) by { NothingToWrite(); }
    for i := 0 to 8
      invariant state[..] == words
      invariant out[..8 * i] == HexText(DigestBytes(words[..i]))
    {
      WriteWord(state[i], out, i * 8);
      BigEndianDigitsTwo(words[..i], [words[i]]);
      HexOfTwo(DigestBytes(words[..i]), DigestBytes([words[i]]));
      assert words[..i + 1] == words[..i] + [words[i]];
      assert out[..8 * (i + 1)] == out[..8 * i] + out[i * 8..i * 8 + 8];
    }
    assert words[..8] == words;
    out[64] := '\0';
    assert out[..65] == out[..64] + ['\0'];
  }

  lemma NothingToWrite()
    ensures HexText(DigestBytes([])) == ""
  {}

  method HashHex(data: array<Byte>, out: array<char>)
    requires out.Length >= 65
    modifies out
    ensures out[..65] == HexText(DigestBytes(DigestWith(old(data[..]), BitCount(data.Length)))) + ['\0']
  {
    hide Compressed, HashBlocks, HexText, DigestBytes, Tail, DigestWith, BitCount;
    var state := new Word[8][0x6a09e667, 0xbb67ae85, 0x3c6ef372, 0xa54ff53a, 0x510e527f, 0x9b05688c, 0x1f83d9ab,
            0x5be0cd19];
    var fullBlocks := data.Length / 64;
    assert state[..] == Initial();
    hide Initial;
    ghost var message := data[..];
    NoBlocks(Initial(), message);
    for i := 0 to fullBlocks
      invariant data[..] == message
      invariant state[..] == HashBlocks(Initial(), message, i)
    {
      assert data[i * 64..i * 64 + 64] == message[64 * i..64 * i + 64];
      Compress(state, data, i * 64);
      OneMoreBlock(Initial(), message, i, data[i * 64..i * 64 + 64]);
    }
    var tail := new Byte[128];
    var tailLen := FillTail(data, tail);
    DigestOfTail(message, BitCount(data.Length), state[..], tail[..tailLen]);
    ghost var padded := tail[..tailLen];
    assert tail[0..0 + 64] == padded[..64];
    assert tailLen == 128 ==> tail[64..64 + 64] == padded[64..];
    Compress(state, tail, 0);
    if tailLen == 128 {
      Compress(state, tail, 64);
    }
    assert tailLen == 64 ==> padded[..64] == padded;
    assert state[..] == DigestWith(message, BitCount(data.Length));
    WriteHex(state, out);
  }

  /** For every message the standard covers, the length on the end is its own. */
  lemma BelowLimitIsTheStandard(message: seq<Byte>)
    requires |message| < 0x2000_0000_0000_0000
    ensures DigestWith(message, BitCount(|message|)) == Digest(message)
  {
    hide DigestWith;
    assert BitCount(|message|) == 8 * |message|;
  }

  // ---------------------------------------------------------------- reading the digest back

  function DigitValue(c: char): Byte {
    if c == '0' then 0 else if c == '1' then 1 else if c == '2' then 2 else if c == '3' then 3
    else if c == '4' then 4 else if c == '5' then 5 else if c == '6' then 6 else if c == '7' then 7
    else if c == '8' then 8 else if c == '9' then 9 else if c == 'a' then 10 else if c == 'b' then 11
    else if c == 'c' then 12 else if c == 'd' then 13 else if c == 'e' then 14 else 15
  }

  function Decoded(text: string): seq<Byte> {
    if |text| < 2 then [] else
      Decoded(text[..|text| - 2]) + [Joined(DigitValue(text[|text| - 2]), DigitValue(text[|text| - 1]))]
  }

  function Joined(high: Byte, low: Byte): Byte { (high << 4) | low }

  lemma DigitReads(nibble: Byte)
    requires nibble < 16
    ensures DigitValue(HexDigit(nibble)) == nibble
  {}

  lemma ByteReads(b: Byte)
    ensures Joined(DigitValue(HexDigit(High(b))), DigitValue(HexDigit(Low(b)))) == b
  {
    DigitReads(High(b));
    DigitReads(Low(b));
    hide HexDigit, DigitValue;
  }

  lemma {:induction false} DecodeOneMore(text: string, high: char, low: char)
    ensures Decoded(text + [high, low]) == Decoded(text) + [Joined(DigitValue(high), DigitValue(low))]
  {
    hide DigitValue, Joined;
    assert (text + [high, low])[..|text|] == text;
  }

  /** Hexadecimal loses nothing. */
  lemma {:induction false} HexReads(bytes: seq<Byte>)
    ensures Decoded(HexText(bytes)) == bytes
  {
    if bytes != [] {
      hide *;
      HexReads(bytes[..|bytes| - 1]);
      assert bytes == bytes[..|bytes| - 1] + [bytes[|bytes| - 1]];
      OneMoreReads(bytes[..|bytes| - 1], bytes[|bytes| - 1]);
    }
  }

  lemma {:induction false} OneMoreReads(bytes: seq<Byte>, last: Byte)
    requires Decoded(HexText(bytes)) == bytes
    ensures Decoded(HexText(bytes + [last])) == bytes + [last]
  {
    hide *;
    ByteReads(last);
    HexOneMore(bytes, last);
    DecodeOneMore(HexText(bytes), HexDigit(High(last)), HexDigit(Low(last)));
  }

  lemma {:induction false} HexOneMore(bytes: seq<Byte>, last: Byte)
    ensures HexText(bytes + [last]) == HexText(bytes) + [HexDigit(High(last)), HexDigit(Low(last))]
  {
    hide HexDigit, High, Low;
    assert (bytes + [last])[..|bytes|] == bytes;
  }

  lemma WordReads(w: Word)
    ensures BigEndian(ByteOfWord(w, 0), ByteOfWord(w, 1), ByteOfWord(w, 2), ByteOfWord(w, 3)) == w
  {
    RawWordReads(w);
  }

  lemma RawWordReads(w: Word)
    ensures (((((w >> 24) & 0xff) as Byte) as Word) << 24) | (((((w >> 16) & 0xff) as Byte) as Word) << 16)
          | (((((w >> 8) & 0xff) as Byte) as Word) << 8) | (((w & 0xff) as Byte) as Word) == w
  {}

  lemma DigestByteIs(s: seq<Word>, t: nat, b: nat)
    requires t < |s| && b < 4
    ensures DigestBytes(s)[4 * t + b] == ByteOfWord(s[t], b)
  {
    hide ByteOfWord;
    assert (4 * t + b) / 4 == t && (4 * t + b) % 4 == b;
  }

  /** The text decodes to the hash value, word for word. */
  lemma TextIsTheDigest(s: seq<Word>, t: nat)
    requires t < |s|
    ensures |Decoded(HexText(DigestBytes(s)))| == 4 * |s|
    ensures WordAt(Decoded(HexText(DigestBytes(s))), t) == s[t]
  {
    hide ByteOfWord, BigEndian, HexText, Decoded;
    HexReads(DigestBytes(s));
    WordReads(s[t]);
    DigestByteIs(s, t, 0);
    DigestByteIs(s, t, 1);
    DigestByteIs(s, t, 2);
    DigestByteIs(s, t, 3);
    hide DigestBytes;
  }

  // ---------------------------------------------------------------- where the constants come from

  const PRIMES: seq<seq<nat>> := [
    [2, 3, 5, 7, 11, 13, 17, 19],
    [23, 29, 31, 37, 41, 43, 47, 53],
    [59, 61, 67, 71, 73, 79, 83, 89],
    [97, 101, 103, 107, 109, 113, 127, 131],
    [137, 139, 149, 151, 157, 163, 167, 173],
    [179, 181, 191, 193, 197, 199, 211, 223],
    [227, 229, 233, 239, 241, 251, 257, 263],
    [269, 271, 277, 281, 283, 293, 307, 311]
  ]

  /** `fraction` is the first 32 bits of the fractional part of the cube root of `p`. */
  ghost predicate IsCubeRootFraction(p: nat, fraction: nat) {
    exists whole: nat :: IsCubeRoot(p, whole, fraction)
  }

  /** `whole + fraction / 2^32` is the cube root of `p` rounded down to a multiple of `2^-32`. */
  predicate IsCubeRoot(p: nat, whole: nat, fraction: nat) {
    var r := whole * 0x1_0000_0000 + fraction;
    fraction < 0x1_0000_0000 && r * r * r <= p * 0x1_0000_0000_0000_0000_0000_0000 < (r + 1) * (r + 1) * (r + 1)
  }

  lemma RootsOfRow0()
    ensures IsCubeRootFraction(2, 0x428a2f98)
    ensures IsCubeRootFraction(3, 0x71374491)
    ensures IsCubeRootFraction(5, 0xb5c0fbcf)
    ensures IsCubeRootFraction(7, 0xe9b5dba5)
    ensures IsCubeRootFraction(11, 0x3956c25b)
    ensures IsCubeRootFraction(13, 0x59f111f1)
    ensures IsCubeRootFraction(17, 0x923f82a4)
    ensures IsCubeRootFraction(19, 0xab1c5ed5)
  {
    assert IsCubeRoot(2, 1, 0x428a2f98);
    assert IsCubeRoot(3, 1, 0x71374491);
    assert IsCubeRoot(5, 1, 0xb5c0fbcf);
    assert IsCubeRoot(7, 1, 0xe9b5dba5);
    assert IsCubeRoot(11, 2, 0x3956c25b);
    assert IsCubeRoot(13, 2, 0x59f111f1);
    assert IsCubeRoot(17, 2, 0x923f82a4);
    assert IsCubeRoot(19, 2, 0xab1c5ed5);
  }

  lemma ConstantsRow0(i: nat)
    requires i < 8
    ensures IsCubeRootFraction(PRIMES[0][i], K[0][i])
  {
    hide IsCubeRootFraction;
    RootsOfRow0();
  }

  lemma RootsOfRow1()
    ensures IsCubeRootFraction(23, 0xd807aa98)
    ensures IsCubeRootFraction(29, 0x12835b01)
    ensures IsCubeRootFraction(31, 0x243185be)
    ensures IsCubeRootFraction(37, 0x550c7dc3)
    ensures IsCubeRootFraction(41, 0x72be5d74)
    ensures IsCubeRootFraction(43, 0x80deb1fe)
    ensures IsCubeRootFraction(47, 0x9bdc06a7)
    ensures IsCubeRootFraction(53, 0xc19bf174)
  {
    assert IsCubeRoot(23, 2, 0xd807aa98);
    assert IsCubeRoot(29, 3, 0x12835b01);
    assert IsCubeRoot(31, 3, 0x243185be);
    assert IsCubeRoot(37, 3, 0x550c7dc3);
    assert IsCubeRoot(41, 3, 0x72be5d74);
    assert IsCubeRoot(43, 3, 0x80deb1fe);
    assert IsCubeRoot(47, 3, 0x9bdc06a7);
    assert IsCubeRoot(53, 3, 0xc19bf174);
  }

  lemma ConstantsRow1(i: nat)
    requires i < 8
    ensures IsCubeRootFraction(PRIMES[1][i], K[1][i])
  {
    hide IsCubeRootFraction;
    RootsOfRow1();
  }

  lemma RootsOfRow2()
    ensures IsCubeRootFraction(59, 0xe49b69c1)
    ensures IsCubeRootFraction(61, 0xefbe4786)
    ensures IsCubeRootFraction(67, 0x0fc19dc6)
    ensures IsCubeRootFraction(71, 0x240ca1cc)
    ensures IsCubeRootFraction(73, 0x2de92c6f)
    ensures IsCubeRootFraction(79, 0x4a7484aa)
    ensures IsCubeRootFraction(83, 0x5cb0a9dc)
    ensures IsCubeRootFraction(89, 0x76f988da)
  {
    assert IsCubeRoot(59, 3, 0xe49b69c1);
    assert IsCubeRoot(61, 3, 0xefbe4786);
    assert IsCubeRoot(67, 4, 0x0fc19dc6);
    assert IsCubeRoot(71, 4, 0x240ca1cc);
    assert IsCubeRoot(73, 4, 0x2de92c6f);
    assert IsCubeRoot(79, 4, 0x4a7484aa);
    assert IsCubeRoot(83, 4, 0x5cb0a9dc);
    assert IsCubeRoot(89, 4, 0x76f988da);
  }

  lemma ConstantsRow2(i: nat)
    requires i < 8
    ensures IsCubeRootFraction(PRIMES[2][i], K[2][i])
  {
    hide IsCubeRootFraction;
    RootsOfRow2();
  }

  lemma RootsOfRow3()
    ensures IsCubeRootFraction(97, 0x983e5152)
    ensures IsCubeRootFraction(101, 0xa831c66d)
    ensures IsCubeRootFraction(103, 0xb00327c8)
    ensures IsCubeRootFraction(107, 0xbf597fc7)
    ensures IsCubeRootFraction(109, 0xc6e00bf3)
    ensures IsCubeRootFraction(113, 0xd5a79147)
    ensures IsCubeRootFraction(127, 0x06ca6351)
    ensures IsCubeRootFraction(131, 0x14292967)
  {
    assert IsCubeRoot(97, 4, 0x983e5152);
    assert IsCubeRoot(101, 4, 0xa831c66d);
    assert IsCubeRoot(103, 4, 0xb00327c8);
    assert IsCubeRoot(107, 4, 0xbf597fc7);
    assert IsCubeRoot(109, 4, 0xc6e00bf3);
    assert IsCubeRoot(113, 4, 0xd5a79147);
    assert IsCubeRoot(127, 5, 0x06ca6351);
    assert IsCubeRoot(131, 5, 0x14292967);
  }

  lemma ConstantsRow3(i: nat)
    requires i < 8
    ensures IsCubeRootFraction(PRIMES[3][i], K[3][i])
  {
    hide IsCubeRootFraction;
    RootsOfRow3();
  }

  lemma RootsOfRow4()
    ensures IsCubeRootFraction(137, 0x27b70a85)
    ensures IsCubeRootFraction(139, 0x2e1b2138)
    ensures IsCubeRootFraction(149, 0x4d2c6dfc)
    ensures IsCubeRootFraction(151, 0x53380d13)
    ensures IsCubeRootFraction(157, 0x650a7354)
    ensures IsCubeRootFraction(163, 0x766a0abb)
    ensures IsCubeRootFraction(167, 0x81c2c92e)
    ensures IsCubeRootFraction(173, 0x92722c85)
  {
    assert IsCubeRoot(137, 5, 0x27b70a85);
    assert IsCubeRoot(139, 5, 0x2e1b2138);
    assert IsCubeRoot(149, 5, 0x4d2c6dfc);
    assert IsCubeRoot(151, 5, 0x53380d13);
    assert IsCubeRoot(157, 5, 0x650a7354);
    assert IsCubeRoot(163, 5, 0x766a0abb);
    assert IsCubeRoot(167, 5, 0x81c2c92e);
    assert IsCubeRoot(173, 5, 0x92722c85);
  }

  lemma ConstantsRow4(i: nat)
    requires i < 8
    ensures IsCubeRootFraction(PRIMES[4][i], K[4][i])
  {
    hide IsCubeRootFraction;
    RootsOfRow4();
  }

  lemma RootsOfRow5()
    ensures IsCubeRootFraction(179, 0xa2bfe8a1)
    ensures IsCubeRootFraction(181, 0xa81a664b)
    ensures IsCubeRootFraction(191, 0xc24b8b70)
    ensures IsCubeRootFraction(193, 0xc76c51a3)
    ensures IsCubeRootFraction(197, 0xd192e819)
    ensures IsCubeRootFraction(199, 0xd6990624)
    ensures IsCubeRootFraction(211, 0xf40e3585)
    ensures IsCubeRootFraction(223, 0x106aa070)
  {
    assert IsCubeRoot(179, 5, 0xa2bfe8a1);
    assert IsCubeRoot(181, 5, 0xa81a664b);
    assert IsCubeRoot(191, 5, 0xc24b8b70);
    assert IsCubeRoot(193, 5, 0xc76c51a3);
    assert IsCubeRoot(197, 5, 0xd192e819);
    assert IsCubeRoot(199, 5, 0xd6990624);
    assert IsCubeRoot(211, 5, 0xf40e3585);
    assert IsCubeRoot(223, 6, 0x106aa070);
  }

  lemma ConstantsRow5(i: nat)
    requires i < 8
    ensures IsCubeRootFraction(PRIMES[5][i], K[5][i])
  {
    hide IsCubeRootFraction;
    RootsOfRow5();
  }

  lemma RootsOfRow6()
    ensures IsCubeRootFraction(227, 0x19a4c116)
    ensures IsCubeRootFraction(229, 0x1e376c08)
    ensures IsCubeRootFraction(233, 0x2748774c)
    ensures IsCubeRootFraction(239, 0x34b0bcb5)
    ensures IsCubeRootFraction(241, 0x391c0cb3)
    ensures IsCubeRootFraction(251, 0x4ed8aa4a)
    ensures IsCubeRootFraction(257, 0x5b9cca4f)
    ensures IsCubeRootFraction(263, 0x682e6ff3)
  {
    assert IsCubeRoot(227, 6, 0x19a4c116);
    assert IsCubeRoot(229, 6, 0x1e376c08);
    assert IsCubeRoot(233, 6, 0x2748774c);
    assert IsCubeRoot(239, 6, 0x34b0bcb5);
    assert IsCubeRoot(241, 6, 0x391c0cb3);
    assert IsCubeRoot(251, 6, 0x4ed8aa4a);
    assert IsCubeRoot(257, 6, 0x5b9cca4f);
    assert IsCubeRoot(263, 6, 0x682e6ff3);
  }

  lemma ConstantsRow6(i: nat)
    requires i < 8
    ensures IsCubeRootFraction(PRIMES[6][i], K[6][i])
  {
    hide IsCubeRootFraction;
    RootsOfRow6();
  }

  lemma RootsOfRow7()
    ensures IsCubeRootFraction(269, 0x748f82ee)
    ensures IsCubeRootFraction(271, 0x78a5636f)
    ensures IsCubeRootFraction(277, 0x84c87814)
    ensures IsCubeRootFraction(281, 0x8cc70208)
    ensures IsCubeRootFraction(283, 0x90befffa)
    ensures IsCubeRootFraction(293, 0xa4506ceb)
    ensures IsCubeRootFraction(307, 0xbef9a3f7)
    ensures IsCubeRootFraction(311, 0xc67178f2)
  {
    assert IsCubeRoot(269, 6, 0x748f82ee);
    assert IsCubeRoot(271, 6, 0x78a5636f);
    assert IsCubeRoot(277, 6, 0x84c87814);
    assert IsCubeRoot(281, 6, 0x8cc70208);
    assert IsCubeRoot(283, 6, 0x90befffa);
    assert IsCubeRoot(293, 6, 0xa4506ceb);
    assert IsCubeRoot(307, 6, 0xbef9a3f7);
    assert IsCubeRoot(311, 6, 0xc67178f2);
  }

  lemma ConstantsRow7(i: nat)
    requires i < 8
    ensures IsCubeRootFraction(PRIMES[7][i], K[7][i])
  {
    hide IsCubeRootFraction;
    RootsOfRow7();
  }

  /** Each round constant comes from the cube root of its prime. */
  lemma ConstantsAreCubeRoots(t: nat)
    requires t < 64
    ensures IsCubeRootFraction(PRIMES[t / 8][t % 8], K[t / 8][t % 8])
  {
    hide IsCubeRootFraction;
    var row, i := t / 8, t % 8;
    if row == 0 { ConstantsRow0(i); }
    else if row == 1 { ConstantsRow1(i); }
    else if row == 2 { ConstantsRow2(i); }
    else if row == 3 { ConstantsRow3(i); }
    else if row == 4 { ConstantsRow4(i); }
    else if row == 5 { ConstantsRow5(i); }
    else if row == 6 { ConstantsRow6(i); }
    else { ConstantsRow7(i); }
  }

  /** `whole + fraction / 2^32` is the square root of `p` rounded down to a multiple of `2^-32`. */
  predicate IsSquareRoot(p: nat, whole: nat, fraction: nat) {
    var r := whole * 0x1_0000_0000 + fraction;
    fraction < 0x1_0000_0000 && r * r <= p * 0x1_0000_0000_0000_0000 < (r + 1) * (r + 1)
  }

  ghost predicate IsSquareRootFraction(p: nat, word: Word) {
    exists whole: nat, fraction: Bits32 :: IsSquareRoot(p, whole, fraction) && word == fraction as Word
  }

  /** The initial hash value comes from the square roots of the first eight primes. */
  lemma InitialAreSquareRoots(i: nat)
    requires i < 8
    ensures IsSquareRootFraction(PRIMES[0][i], Initial()[i])
  {
    assert IsSquareRoot(2, 1, 0x6a09e667);
    assert IsSquareRoot(3, 1, 0xbb67ae85);
    assert IsSquareRoot(5, 2, 0x3c6ef372);
    assert IsSquareRoot(7, 2, 0xa54ff53a);
    assert IsSquareRoot(11, 3, 0x510e527f);
    assert IsSquareRoot(13, 3, 0x9b05688c);
    assert IsSquareRoot(17, 4, 0x1f83d9ab);
    assert IsSquareRoot(19, 4, 0x5be0cd19);
  }
}
