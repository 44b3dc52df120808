/** The accelerator's SHA-256 and HMAC (engines/rust-core/src/lib.rs): an in-place message schedule, the full
    blocks of the input read where they lie, and a 128-byte tail buffer holding one or two padded blocks. */
module Sha256Native {
  import opened Sha256Spec

  /** sha256_compress. */
  method CompressBlock(k: Constants, state: array<Word>, block: seq<Byte>)
    requires state.Length == 8 && |block| == 64
    modifies state
    ensures state[..] == Compress(k, old(state[..]), block)
  {
    ghost var initial := state[..];
    var w := ExpandSchedule(block);
    var a, b, c, d := state[0], state[1], state[2], state[3];
    var e, f, g, h := state[4], state[5], state[6], state[7];
    for index := 0 to 64
      invariant Working(a, b, c, d, e, f, g, h) == Rounds(k, initial, block, index)
      invariant w[..] == Schedule(block, 64)
      invariant state[..] == initial
    {
      var temp1 := T1(e, f, g, h, k[index], w[index]);
      var temp2 := T2(a, b, c);
      h := g;
      g := f;
      f := e;
      e := Plus(d, temp1);
      d := c;
      c := b;
      b := a;
      a := Plus(temp1, temp2);
    }
    assert [a, b, c, d, e, f, g, h] == Words(Rounds(k, initial, block, 64));
    AddToState(state, [a, b, c, d, e, f, g, h]);
  }

  method AddToState(state: array<Word>, v: seq<Word>)
    requires state.Length == 8 && |v| == 8
    modifies state
    ensures forall i :: 0 <= i < 8 ==> state[i] == Plus(v[i], old(state[i]))
  {
    for i := 0 to 8
      invariant forall j :: 0 <= j < i ==> state[j] == Plus(v[j], old(state[j]))
      invariant forall j :: i <= j < 8 ==> state[j] == old(state[j])
    {
      state[i] := Plus(state[i], v[i]);
      PlusCommutes(old(state[i]), v[i]);
    }
  }

  lemma PlusCommutes(x: Word, y: Word)
    ensures Plus(x, y) == Plus(y, x)
  {
  }

  /** The 64-word schedule, each later word computed from earlier ones in the same array. */
  method ExpandSchedule(block: seq<Byte>) returns (w: array<Word>)
    requires |block| == 64
    ensures fresh(w) && w.Length == 64 && w[..] == Schedule(block, 64)
  {
    w := new Word[64](_ => 0);
    ReadBlock(block, w);
    for index := 16 to 64
      invariant w[..index] == Schedule(block, index)
    {
      ghost var words := w[..index];
      assert words[index - 2] == w[index - 2] && words[index - 7] == w[index - 7];
      assert words[index - 15] == w[index - 15] && words[index - 16] == w[index - 16];
      var s0 := SmallSigma0(w[index - 15]);
      var s1 := SmallSigma1(w[index - 2]);
      w[index] := AddScheduleWords(w[index - 16], s0, w[index - 7], s1);
      assert w[..index + 1] == words + [w[index]];
    }
  }

  /** The first sixteen words, big-endian. */
  method ReadBlock(block: seq<Byte>, w: array<Word>)
    requires |block| == 64 && w.Length == 64
    modifies w
    ensures w[..16] == Schedule(block, 16)
  {
    for index := 0 to 16
      invariant w[..index] == Schedule(block, index)
    {
      var offset := index * 4;
      w[index] := BigEndianWord(block[offset], block[offset + 1], block[offset + 2], block[offset + 3]);
      assert w[..index + 1] == w[..index] + [w[index]];
    }
  }

  method AddScheduleWords(w16: Word, s0: Word, w7: Word, s1: Word) returns (r: Word)
    ensures r == NextWord(s1, w7, s0, w16)
  {
    r := w16 + s0 + w7 + s1;
  }

  /** Compress the 64-byte blocks of `data` into the state, first to last. */
  method CompressBlocks(k: Constants, state: array<Word>, data: seq<Byte>, blocks: nat)
    requires state.Length == 8 && |data| == 64 * blocks
    modifies state
    ensures state[..] == Absorb(k, old(state[..]), data, blocks)
  {
    for index := 0 to blocks
      invariant state[..] == Absorb(k, old(state[..]), data, index)
    {
      CompressBlock(k, state, BlockAt(data, index));
    }
  }

  lemma BlockOfSecond(x: seq<Byte>, y: seq<Byte>, m: nat, i: nat)
    requires |x| == 64 * m && 64 * i + 64 <= |y|
    ensures BlockAt(x + y, m + i) == BlockAt(y, i)
  {
  }

  lemma BlockOfFirst(x: seq<Byte>, y: seq<Byte>, i: nat)
    requires 64 * i + 64 <= |x|
    ensures BlockAt(x + y, i) == BlockAt(x, i)
  {
  }

  /** Folding over one message after another is folding over their concatenation. */
  lemma {:induction false} FoldConcat(step: (State, Block) -> State, initial: State,
                                      x: seq<Byte>, y: seq<Byte>, m: nat, n: nat)
    requires |x| == 64 * m && 64 * n <= |y|
    ensures Fold(step, initial, x + y, m + n) == Fold(step, Fold(step, initial, x, m), y, n)
  {
    if n == 0 {
      FoldPrefix(step, initial, x, y, m);
    } else {
      FoldConcat(step, initial, x, y, m, n - 1);
      BlockOfSecond(x, y, m, n - 1);
    }
  }

  lemma {:induction false} FoldPrefix(step: (State, Block) -> State, initial: State, x: seq<Byte>, y: seq<Byte>, m: nat)
    requires 64 * m <= |x|
    ensures Fold(step, initial, x + y, m) == Fold(step, initial, x, m)
  {
    if m > 0 {
      FoldPrefix(step, initial, x, y, m - 1);
      BlockOfFirst(x, y, m - 1);
    }
  }

  /** The length field: the source's u64 wraps at 2^64. */
  function BitLength(bytes: seq<Byte>): (r: nat)
    ensures r < TWO_TO_THE_64
    ensures IsHashable(bytes) ==> r == 8 * |bytes|
  {
    8 * |bytes| % TWO_TO_THE_64
  }

  /** sha256_digest. */
  method Digest(bytes: seq<Byte>) returns (digest: seq<Byte>)
    ensures digest == DigestOfPadded(Pad(bytes, BitLength(bytes)))
    ensures IsHashable(bytes) ==> digest == Sha256(bytes)
  {
    digest := DigestWith(K(), INITIAL, bytes);
    assert digest == DigestOfPadded(Pad(bytes, BitLength(bytes)));
    if IsHashable(bytes) {
      StandardLength(bytes);
    }
  }

  lemma StandardLength(bytes: seq<Byte>)
    requires IsHashable(bytes)
    ensures DigestOfPadded(Pad(bytes, BitLength(bytes))) == Sha256(bytes)
  {
    assert BitLength(bytes) == 8 * |bytes|;
  }

  method DigestWith(k: Constants, initial: State, bytes: seq<Byte>) returns (digest: seq<Byte>)
    ensures digest == DigestUsing(k, initial, Pad(bytes, BitLength(bytes)))
  {
    var state := new Word[8](i requires 0 <= i < 8 => initial[i]);
    assert state[..] == initial;
    var fullBlocks := |bytes| / 64;
    CompressBlocks(k, state, bytes[..64 * fullBlocks], fullBlocks);

    var remainder := |bytes| % 64;
    var tail, paddedLength := Tail(bytes[|bytes| - remainder..], BitLength(bytes));
    CompressBlocks(k, state, tail[..paddedLength], paddedLength / 64);
    TailClosesPadding(k, initial, bytes, BitLength(bytes), fullBlocks, tail[..paddedLength], paddedLength / 64);
    digest := ToBytes(state);
  }

  lemma PaddingSplits(bytes: seq<Byte>, bits: nat, full: nat, tail: seq<Byte>, blocks: nat)
    requires bits < TWO_TO_THE_64 && full == |bytes| / 64 && |tail| == 64 * blocks
    requires var rest := bytes[|bytes| - |bytes| % 64..];
      tail == rest + [0x80] + Zeros((if |rest| < 56 then 55 else 119) - |rest|) + BigEndian(bits, 8)
    ensures Pad(bytes, bits) == bytes[..64 * full] + tail && |Pad(bytes, bits)| / 64 == full + blocks
  {
    assert bytes == bytes[..64 * full] + bytes[64 * full..];
  }

  lemma TailClosesPadding(k: Constants, initial: State, bytes: seq<Byte>, bits: nat,
                          full: nat, tail: seq<Byte>, blocks: nat)
    requires bits < TWO_TO_THE_64 && full == |bytes| / 64 && |tail| == 64 * blocks
    requires var rest := bytes[|bytes| - |bytes| % 64..];
      tail == rest + [0x80] + Zeros((if |rest| < 56 then 55 else 119) - |rest|) + BigEndian(bits, 8)
    ensures var padded := Pad(bytes, bits);
      Absorb(k, initial, padded, |padded| / 64)
      == Absorb(k, Absorb(k, initial, bytes[..64 * full], full), tail, blocks)
  {
    PaddingSplits(bytes, bits, full, tail, blocks);
    FoldConcat(Compressor(k), initial, bytes[..64 * full], tail, full, blocks);
  }

  /** The last bytes, the marker bit and the length, in one block or two. */
  method Tail(rest: seq<Byte>, bitLength: nat) returns (tail: array<Byte>, paddedLength: nat)
    requires |rest| < 64 && bitLength < TWO_TO_THE_64
    ensures fresh(tail) && tail.Length == 128
    ensures paddedLength == (if |rest| < 56 then 64 else 128)
    ensures tail[..paddedLength] == rest + [0x80] + Zeros(paddedLength - |rest| - 9) + BigEndian(bitLength, 8)
  {
    tail := new Byte[128](_ => 0);
    CopyInto(tail, 0, rest);
    tail[|rest|] := 0x80;
    assert tail[..] == rest + [0x80] + Zeros(127 - |rest|);
    paddedLength := if |rest| < 56 then 64 else 128;
    assert tail[..paddedLength - 8] == rest + [0x80] + Zeros(paddedLength - |rest| - 9);
    CopyInto(tail, paddedLength - 8, BigEndian(bitLength, 8));
  }

  /** copy_from_slice. */
  method CopyInto(target: array<Byte>, start: nat, source: seq<Byte>)
    requires start + |source| <= target.Length
    modifies target
    ensures target[..] == old(target[..start]) + source + old(target[start + |source|..])
  {
    for i := 0 to |source|
      invariant target[..] == old(target[..start]) + source[..i] + old(target[start + i..])
    {
      target[start + i] := source[i];
    }
  }

  /** to_be_bytes of every state word in turn. */
  method ToBytes(state: array<Word>) returns (digest: seq<Byte>)
    requires state.Length == 8
    ensures digest == StateBytes(state[..])
  {
    var out := new Byte[32](_ => 0);
    for index := 0 to 8
      invariant state[..] == old(state[..])
      invariant out[..4 * index] == StateBytes(state[..])[..4 * index]
    {
      var bytes := WordBytes(state[index]);
      ghost var done := out[..4 * index];
      CopyInto(out, 4 * index, bytes);
      assert out[..4 * (index + 1)] == done + bytes;
      NextStateBytes(state[..], index);
    }
    digest := out[..];
  }

  lemma NextStateBytes(state: State, index: nat)
    requires index < 8
    ensures StateBytes(state)[..4 * (index + 1)] == StateBytes(state)[..4 * index] + WordBytes(state[index])
  {
    var all, bytes := StateBytes(state), WordBytes(state[index]);
    forall j | 0 <= j < 4 ensures all[4 * index + j] == bytes[j] {
      assert (4 * index + j) / 4 == index && (4 * index + j) % 4 == j;
    }
    assert all[4 * index..4 * (index + 1)] == bytes;
    assert all[..4 * (index + 1)] == all[..4 * index] + all[4 * index..4 * (index + 1)];
  }

  /** hmac_sha256. */
  method HmacDigest(key: seq<Byte>, data: seq<Byte>) returns (digest: seq<Byte>)
    requires IsHashable(key) && 8 * (64 + |data|) < TWO_TO_THE_64
    ensures digest == Hmac(key, data)
  {
    var keyBlock := KeyBlock(key);
    var innerPad, outerPad := Pads(keyBlock);
    var innerDigest := Digest(innerPad[..] + data);
    digest := Digest(outerPad[..] + innerDigest);
  }

  method KeyBlock(key: seq<Byte>) returns (keyBlock: array<Byte>)
    requires IsHashable(key)
    ensures fresh(keyBlock) && keyBlock.Length == 64 && keyBlock[..] == BlockKey(key)
  {
    keyBlock := new Byte[64](_ => 0);
    if |key| > 64 {
      var hashed := Digest(key);
      CopyInto(keyBlock, 0, hashed);
      assert keyBlock[..] == hashed + Zeros(32);
    } else {
      CopyInto(keyBlock, 0, key);
      assert keyBlock[..] == key + Zeros(64 - |key|);
    }
  }

  method Pads(keyBlock: array<Byte>) returns (innerPad: array<Byte>, outerPad: array<Byte>)
    requires keyBlock.Length == 64
    ensures innerPad.Length == outerPad.Length == 64
    ensures innerPad[..] == XorWith(keyBlock[..], 0x36) && outerPad[..] == XorWith(keyBlock[..], 0x5c)
  {
    innerPad := new Byte[64](_ => 0);
    outerPad := new Byte[64](_ => 0);
    for index := 0 to 64
      invariant keyBlock[..] == old(keyBlock[..])
      invariant forall i :: 0 <= i < index ==> innerPad[i] == Xor(keyBlock[i], 0x36)
      invariant forall i :: 0 <= i < index ==> outerPad[i] == Xor(keyBlock[i], 0x5c)
    {
      innerPad[index] := Xor(keyBlock[index], 0x36);
      outerPad[index] := Xor(keyBlock[index], 0x5c);
    }
  }
}
