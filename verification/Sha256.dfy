/** SHA-256 as FIPS 180-4 defines it (sections 4.1.2, 5.1.1, 5.2.1, 5.3.3 and 6.2.2) and HMAC as RFC 2104
    section 2 defines it, on byte sequences. */
module Sha256Spec {

  type Word = bv32
  type Byte = bv8
  type State = s: seq<Word> | |s| == 8 witness [0, 0, 0, 0, 0, 0, 0, 0]
  type Block = s: seq<Byte> | |s| == 64 witness seq(64, _ => 0)

  type Constants = s: seq<Word> | |s| == 64 witness seq(64, _ => 0)

  const INITIAL: State := [
    0x6a09e667, 0xbb67ae85, 0x3c6ef372, 0xa54ff53a, 0x510e527f, 0x9b05688c, 0x1f83d9ab, 0x5be0cd19]

  /** The constants of section 4.2.2, eight to a row. */
  function RoundConstantRow(row: nat): (r: seq<Word>)
    requires row < 8
    ensures |r| == 8
  {
    if row == 0 then
      [0x428a2f98, 0x71374491, 0xb5c0fbcf, 0xe9b5dba5, 0x3956c25b, 0x59f111f1, 0x923f82a4, 0xab1c5ed5]
    else if row == 1 then
      [0xd807aa98, 0x12835b01, 0x243185be, 0x550c7dc3, 0x72be5d74, 0x80deb1fe, 0x9bdc06a7, 0xc19bf174]
    else if row == 2 then
      [0xe49b69c1, 0xefbe4786, 0x0fc19dc6, 0x240ca1cc, 0x2de92c6f, 0x4a7484aa, 0x5cb0a9dc, 0x76f988da]
    else if row == 3 then
      [0x983e5152, 0xa831c66d, 0xb00327c8, 0xbf597fc7, 0xc6e00bf3, 0xd5a79147, 0x06ca6351, 0x14292967]
    else if row == 4 then
      [0x27b70a85, 0x2e1b2138, 0x4d2c6dfc, 0x53380d13, 0x650a7354, 0x766a0abb, 0x81c2c92e, 0x92722c85]
    else if row == 5 then
      [0xa2bfe8a1, 0xa81a664b, 0xc24b8b70, 0xc76c51a3, 0xd192e819, 0xd6990624, 0xf40e3585, 0x106aa070]
    else if row == 6 then
      [0x19a4c116, 0x1e376c08, 0x2748774c, 0x34b0bcb5, 0x391c0cb3, 0x4ed8aa4a, 0x5b9cca4f, 0x682e6ff3]
    else
      [0x748f82ee, 0x78a5636f, 0x84c87814, 0x8cc70208, 0x90befffa, 0xa4506ceb, 0xbef9a3f7, 0xc67178f2]
  }

  function K(): Constants {
    seq(64, t requires 0 <= t < 64 => RoundConstantRow(t / 8)[t % 8])
  }

  /** Addition modulo 2^32. */
  function Plus(x: Word, y: Word): Word { x + y }
  function BigSigma0(x: Word): Word { x.RotateRight(2) ^ x.RotateRight(13) ^ x.RotateRight(22) }
  function BigSigma1(x: Word): Word { x.RotateRight(6) ^ x.RotateRight(11) ^ x.RotateRight(25) }
  function SmallSigma0(x: Word): Word { x.RotateRight(7) ^ x.RotateRight(18) ^ (x >> 3) }
  function SmallSigma1(x: Word): Word { x.RotateRight(17) ^ x.RotateRight(19) ^ (x >> 10) }
  function Choose(x: Word, y: Word, z: Word): Word { (x & y) ^ (!x & z) }
  function Majority(x: Word, y: Word, z: Word): Word { (x & y) ^ (x & z) ^ (y & z) }

  // The same functions by the shifts that define a rotation (section 3.2), and by the bits they choose.

  lemma BigSigma0Shifts(x: Word)
    ensures BigSigma0(x) == ((x >> 2) | (x << 30)) ^ ((x >> 13) | (x << 19)) ^ ((x >> 22) | (x << 10))
  {
  }

  lemma BigSigma1Shifts(x: Word)
    ensures BigSigma1(x) == ((x >> 6) | (x << 26)) ^ ((x >> 11) | (x << 21)) ^ ((x >> 25) | (x << 7))
  {
  }

  lemma SmallSigma0Shifts(x: Word)
    ensures SmallSigma0(x) == ((x >> 7) | (x << 25)) ^ ((x >> 18) | (x << 14)) ^ (x >> 3)
  {
  }

  lemma SmallSigma1Shifts(x: Word)
    ensures SmallSigma1(x) == ((x >> 17) | (x << 15)) ^ ((x >> 19) | (x << 13)) ^ (x >> 10)
  {
  }

  lemma ChooseTakesEither(x: Word, y: Word, z: Word)
    ensures Choose(x, y, z) == (x & y) | (!x & z)
  {
  }

  lemma MajorityOfThree(x: Word, y: Word, z: Word)
    ensures Majority(x, y, z) == (x & y) | (y & z) | (z & x)
  {
  }

  function BigEndianWord(a: Byte, b: Byte, c: Byte, d: Byte): Word {
    ((a as Word) << 24) | ((b as Word) << 16) | ((c as Word) << 8) | (d as Word)
  }

  function WordBytes(w: Word): (r: seq<Byte>)
    ensures |r| == 4
  {
    [((w >> 24) & 0xFF) as Byte, ((w >> 16) & 0xFF) as Byte, ((w >> 8) & 0xFF) as Byte, (w & 0xFF) as Byte]
  }

  /** Four bytes make a word, most significant first, and come out of it again. */
  lemma WordRoundTrip(a: Byte, b: Byte, c: Byte, d: Byte)
    ensures WordBytes(BigEndianWord(a, b, c, d)) == [a, b, c, d]
    ensures BigEndianWord(a, b, c, d) >> 24 == a as Word
  {
  }

  /** W_t for 16 <= t, from sigma_1 of W_{t-2}, W_{t-7}, sigma_0 of W_{t-15} and W_{t-16}. */
  function NextWord(s1: Word, w7: Word, s0: Word, w16: Word): Word {
    s1 + w7 + s0 + w16
  }

  /** The first t words of the message schedule. */
  function Schedule(block: Block, t: nat): (w: seq<Word>)
    requires t <= 64
    ensures |w| == t
  {
    if t == 0 then []
    else
      var w := Schedule(block, t - 1);
      var o := 4 * (t - 1);
      w + [if t <= 16 then BigEndianWord(block[o], block[o + 1], block[o + 2], block[o + 3]) 
           else NextWord(SmallSigma1(w[t - 3]), w[t - 8], SmallSigma0(w[t - 16]), w[t - 17])]
  }

  /** The working variables a to h. */
  datatype Working = Working(a: Word, b: Word, c: Word, d: Word, e: Word, f: Word, g: Word, h: Word)

  function T1(e: Word, f: Word, g: Word, h: Word, k: Word, w: Word): Word {
    h + BigSigma1(e) + Choose(e, f, g) + k + w
  }

  function T2(a: Word, b: Word, c: Word): Word {
    BigSigma0(a) + Majority(a, b, c)
  }

  function Round(v: Working, k: Word, w: Word): Working {
    var t1 := T1(v.e, v.f, v.g, v.h, k, w);
    Working(Plus(t1, T2(v.a, v.b, v.c)), v.a, v.b, v.c, Plus(v.d, t1), v.e, v.f, v.g)
  }

  /** The working variables after the first t rounds. */
  function Rounds(k: Constants, state: State, block: Block, t: nat): Working
    requires t <= 64
  {
    if t == 0 then Working(state[0], state[1], state[2], state[3], state[4], state[5], state[6], state[7])
    else Round(Rounds(k, state, block, t - 1), k[t - 1], Schedule(block, 64)[t - 1])
  }

  function Words(v: Working): (r: State) {
    [v.a, v.b, v.c, v.d, v.e, v.f, v.g, v.h]
  }

  function Compress(k: Constants, state: State, block: Block): State {
    var v := Words(Rounds(k, state, block, 64));
    seq(8, i requires 0 <= i < 8 => Plus(v[i], state[i]))
  }

  function BlockAt(message: seq<Byte>, i: nat): Block
    requires 64 * i + 64 <= |message|
  {
    message[64 * i..64 * i + 64]
  }

  /** A step function applied to the first n blocks of a message in turn. */
  function Fold(step: (State, Block) -> State, initial: State, message: seq<Byte>, n: nat): State
    requires 64 * n <= |message|
  {
    if n == 0 then initial
    else step(Fold(step, initial, message, n - 1), BlockAt(message, n - 1))
  }

  function Compressor(k: Constants): (State, Block) -> State {
    (state, block) => Compress(k, state, block)
  }

  /** The hash value after the first n blocks. */
  function Absorb(k: Constants, initial: State, message: seq<Byte>, n: nat): State
    requires 64 * n <= |message|
  {
    Fold(Compressor(k), initial, message, n)
  }

  const TWO_TO_THE_64 := 0x1_0000_0000_0000_0000

  /** The low `count` bytes of a number, most significant first. */
  function BigEndian(n: nat, count: nat): (r: seq<Byte>)
    ensures |r| == count
  {
    if count == 0 then [] else BigEndian(n / 256, count - 1) + [(n % 256) as Byte]
  }

  function FromBigEndian(s: seq<Byte>): nat {
    if s == [] then 0 else 256 * FromBigEndian(s[..|s| - 1]) + s[|s| - 1] as nat
  }

  function Power256(count: nat): nat {
    if count == 0 then 1 else 256 * Power256(count - 1)
  }

  /** Bytes that are enough for a number determine it: the length field can be read back. */
  lemma {:induction false} BigEndianRoundTrip(n: nat, count: nat)
    requires n < Power256(count)
    ensures FromBigEndian(BigEndian(n, count)) == n
  {
    if count > 0 {
      BigEndianRoundTrip(n / 256, count - 1);
      var s := BigEndian(n, count);
      assert s[..count - 1] == BigEndian(n / 256, count - 1);
      ByteOfNat(n % 256);
    }
  }

  lemma NextByte(b: Byte)
    requires b < 255
    ensures (b + 1) as nat == b as nat + 1
  {
  }

  lemma {:induction false} ByteOfNat(x: nat)
    requires x < 256
    ensures (x as Byte) as nat == x
  {
    if x > 0 {
      ByteOfNat(x - 1);
      NextByte((x - 1) as Byte);
    }
  }

  function Zeros(n: nat): seq<Byte> {
    seq(n, _ => 0)
  }

  /** The number of zero bytes: the least k with length + 1 + k congruent to 56 modulo 64. */
  function ZeroCount(length: nat): (k: nat)
    ensures k < 64 && (length + 1 + k) % 64 == 56
  {
    (119 - length % 64) % 64
  }

  function Pad(message: seq<Byte>, bits: nat): (r: seq<Byte>)
    requires bits < TWO_TO_THE_64
    ensures |r| == |message| + 9 + ZeroCount(|message|) && |r| % 64 == 0
  {
    message + [0x80] + Zeros(ZeroCount(|message|)) + BigEndian(bits, 8)
  }

  /** The words of a hash value, most significant byte first. */
  function StateBytes(state: State): (r: seq<Byte>)
    ensures |r| == 32
  {
    seq(32, i requires 0 <= i < 32 => WordBytes(state[i / 4])[i % 4])
  }

  function DigestUsing(k: Constants, initial: State, padded: seq<Byte>): (r: seq<Byte>)
    requires |padded| % 64 == 0
    ensures |r| == 32
  {
    StateBytes(Absorb(k, initial, padded, |padded| / 64))
  }

  function DigestOfPadded(padded: seq<Byte>): (r: seq<Byte>)
    requires |padded| % 64 == 0
    ensures |r| == 32
  {
    DigestUsing(K(), INITIAL, padded)
  }

  /** The standard defines the hash of a message of fewer than 2^64 bits. */
  predicate IsHashable(message: seq<Byte>) {
    8 * |message| < TWO_TO_THE_64
  }

  function Sha256(message: seq<Byte>): (r: seq<Byte>)
    requires IsHashable(message)
    ensures |r| == 32
  {
    DigestOfPadded(Pad(message, 8 * |message|))
  }

  // ----- HMAC -----

  /** The key, hashed if longer than a block, then filled up with zeros. */
  function BlockKey(key: seq<Byte>): (r: Block)
    requires IsHashable(key)
  {
    if |key| > 64 then Sha256(key) + Zeros(32) else key + Zeros(64 - |key|)
  }

  function Xor(x: Byte, y: Byte): Byte { x ^ y }

  lemma XorIsEitherNotBoth(x: Byte, y: Byte)
    ensures Xor(x, y) == (x | y) & !(x & y)
  {
  }

  function XorWith(block: Block, mask: Byte): Block {
    seq(64, i requires 0 <= i < 64 => Xor(block[i], mask))
  }

  function Hmac(key: seq<Byte>, text: seq<Byte>): (r: seq<Byte>)
    requires IsHashable(key) && 8 * (64 + |text|) < TWO_TO_THE_64
    ensures |r| == 32
  {
    Sha256(XorWith(BlockKey(key), 0x5c) + Sha256(XorWith(BlockKey(key), 0x36) + text))
  }
}
