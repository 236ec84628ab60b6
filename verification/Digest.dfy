/**
 The leaf kernel's digest: one block of BLAKE2b, against section 3.3 of RFC 7693 for
 messages of any length, and the leaves cut from it.
 */
module Digest {
  import opened Arith
  import opened Bits
  import opened Words
  import opened LittleEndian
  import opened Blake2b
  import opened Equihash
  import opened Search
  import opened GpuPipeline

  // ------------------------------------------------------------------ RFC 7693

  const BLOCK_BYTES := 128

  function ZeroBytes(count: nat): (bytes: seq<byte>)
    ensures |bytes| == count && forall i :: 0 <= i < count ==> bytes[i] == 0
  {
    seq(count, _ => 0)
  }

  /** Section 2.4: bytes as 64-bit words, and words as bytes. */
  function WordsOf(bytes: seq<byte>): (ws: seq<nat>)
    requires |bytes| % 8 == 0
    ensures |ws| == |bytes| / 8
  {
    seq(|bytes| / 8, i requires 0 <= i < |bytes| / 8 => FromBytes(bytes[8 * i..8 * i + 8]))
  }

  function BytesOf(ws: seq<nat>): (bytes: seq<byte>)
    ensures |bytes| == 8 * |ws|
  {
    seq(8 * |ws|, p requires 0 <= p < 8 * |ws| => ToBytes(ws[p / 8], 8)[p % 8])
  }

  /**
   Section 2.5: the parameter block of an unkeyed, sequential hash of `nn` bytes. Its last
   16 bytes are the personalization of the BLAKE2 specification.
   */
  function Parameters(nn: nat, personal: seq<byte>): (bytes: seq<byte>)
    requires |personal| == 16
    ensures |bytes| == 64
  {
    [LowByte(nn), 0, 1, 1] + ZeroBytes(44) + personal
  }

  ghost function Initial(nn: nat, personal: seq<byte>): (h: seq<nat>)
    requires |personal| == 16
    ensures |h| == 8
  {
    seq(8, i requires 0 <= i < 8 => Xor(IV64[i], WordsOf(Parameters(nn, personal))[i]))
  }

  /** A block, padded with zeros. */
  ghost function Block(bytes: seq<byte>): Vector
    requires |bytes| <= BLOCK_BYTES
  {
    WordsOf(bytes + ZeroBytes(BLOCK_BYTES - |bytes|))
  }

  /** Section 3.3: all blocks through F, after `t` bytes; the last one with its flag set. */
  ghost function Absorb(h: seq<nat>, message: seq<byte>, t: nat): (r: seq<nat>)
    requires |h| == 8
    ensures |r| == 8
    decreases |message|
  {
    if |message| <= BLOCK_BYTES then F(h, Block(message), t + |message|, true)
    else Absorb(F(h, Block(message[..BLOCK_BYTES]), t + BLOCK_BYTES, false), message[BLOCK_BYTES..], t + BLOCK_BYTES)
  }

  /** BLAKE2b before its result is cut to `nn` bytes. */
  ghost function FullHash(nn: nat, personal: seq<byte>, message: seq<byte>): (hash: seq<byte>)
    requires |personal| == 16
    ensures |hash| == 64
  {
    BytesOf(Absorb(Initial(nn, personal), message, 0))
  }

  ghost function Hash(nn: nat, personal: seq<byte>, message: seq<byte>): (hash: seq<byte>)
    requires |personal| == 16 && nn <= 64
    ensures |hash| == nn
  {
    FullHash(nn, personal, message)[..nn]
  }

  // ------------------------------------------------------------------ words and pairs

  /** A 32-bit word of four bytes. */
  function WordAt(bytes: seq<byte>, i: nat): Word
    requires i + 4 <= |bytes|
  {
    FromBound(bytes[i..i + 4]);
    FourBytes(1);
    FromBytes(bytes[i..i + 4])
  }

  function PairAt(bytes: seq<byte>, i: nat): U64
    requires i + 8 <= |bytes|
  {
    U64(WordAt(bytes, i), WordAt(bytes, i + 4))
  }

  /** Two little-endian words are one little-endian value. */
  lemma PairIsWord(bytes: seq<byte>, i: nat)
    requires i + 8 <= |bytes|
    ensures Join(PairAt(bytes, i)) == FromBytes(bytes[i..i + 8])
  {
    FourBytes(FromBytes(bytes[i + 4..i + 8]));
    FromConcat(bytes[i..i + 4], bytes[i + 4..i + 8]);
    assert bytes[i..i + 4] + bytes[i + 4..i + 8] == bytes[i..i + 8];
  }

  function PairBytes(w: U64): (bytes: seq<byte>)
    ensures |bytes| == 8
  {
    ToBytes(w.lo, 4) + ToBytes(w.hi, 4)
  }

  lemma PairBytesJoined(w: U64)
    ensures PairBytes(w) == ToBytes(Join(w), 8)
  {
    FourBytes(1);
    FourBytes(w.hi);
    ToConcat(w.lo, w.hi, 4, 4);
  }

  // ------------------------------------------------------------------ the initial state

  /** `digest_len | 1 << 16 | 1 << 24`. */
  function FirstWord(digestLen: Word): Word {
    Or32(Or32(digestLen, 0x1_0000), 0x100_0000)
  }

  lemma FirstWordSum(digestLen: Word)
    requires digestLen < 256
    ensures FirstWord(digestLen) == digestLen + 0x101_0000
  {
    assert Pow2(8) == 0x100;
    Pow2Sum(8, 8);
    Pow2Sum(16, 8);
    OrDisjoint(digestLen, 1, 16);
    OrDisjoint(digestLen + 0x1_0000, 1, 24);
  }

  lemma FromStep(x: byte, rest: seq<byte>)
    ensures FromBytes([x] + rest) == x as nat + 256 * FromBytes(rest)
  {
    assert ([x] + rest)[1..] == rest;
  }

  lemma FlagBytes()
    ensures FromBytes([0, 1, 1]) == 0x1_0100
  {
    FromStep(1, []);
    FromStep(1, [1]);
    FromStep(0, [1, 1]);
    assert [0] + [1, 1] == [0, 1, 1] && [1] + [1] == [1, 1] && [1] + [] == [1];
  }

  lemma FirstBytes(nn: nat)
    requires nn < 256
    ensures FromBytes([LowByte(nn), 0, 1, 1]) == nn + 0x101_0000
  {
    FlagBytes();
    FromStep(LowByte(nn), [0, 1, 1]);
    assert [LowByte(nn)] + [0, 1, 1] == [LowByte(nn), 0, 1, 1];
  }

  lemma {:induction false} ZerosSpellZero(count: nat)
    ensures FromBytes(ZeroBytes(count)) == 0
  {
    if count > 0 {
      assert ZeroBytes(count)[1..] == ZeroBytes(count - 1);
      ZerosSpellZero(count - 1);
    }
  }

  lemma PaddedWord(bytes: seq<byte>, count: nat)
    requires |bytes| == 4
    ensures FromBytes(bytes + ZeroBytes(count)) == FromBytes(bytes)
  {
    FromConcat(bytes, ZeroBytes(count));
    ZerosSpellZero(count);
    FourBytes(0);
  }

  lemma ParameterSlices(nn: Word, personal: seq<byte>, from: nat)
    requires |personal| == 16
    ensures from == 0 ==> Parameters(nn, personal)[from..from + 8] == [LowByte(nn), 0, 1, 1] + ZeroBytes(4)
    ensures 8 <= from <= 40 ==> Parameters(nn, personal)[from..from + 8] == ZeroBytes(8)
    ensures 48 <= from <= 56 ==> Parameters(nn, personal)[from..from + 8] == personal[from - 48..from - 40]
  {
  }

  /** The words of the parameter block: only the first and the last two are not zero. */
  lemma ParameterWords(nn: Word, personal: seq<byte>, i: nat)
    requires |personal| == 16 && nn < 256 && i < 8
    ensures WordsOf(Parameters(nn, personal))[i]
         == if i == 0 then nn + 0x101_0000
            else if i < 6 then 0
            else FromBytes(personal[8 * i - 48..8 * i - 40])
  {
    ParameterSlices(nn, personal, 8 * i);
    if i == 0 {
      FirstBytes(nn);
      PaddedWord([LowByte(nn), 0, 1, 1], 4);
    } else if i < 6 {
      ZerosSpellZero(8);
    }
  }

  /** The kernel's initial state: the initialization vector with three of its words changed. */
  function StartState(digestLen: Word, personal: seq<byte>): (h: seq<U64>)
    requires |personal| == 16
    ensures |h| == 8
  {
    IV[0 := U64(Xor32(IV[0].lo, FirstWord(digestLen)), IV[0].hi)]
      [6 := XorPair(IV[6], PairAt(personal, 0))]
      [7 := XorPair(IV[7], PairAt(personal, 8))]
  }

  lemma LowXor(w: U64, x: Word)
    ensures Join(U64(Xor32(w.lo, x), w.hi)) == Xor(Join(w), x)
  {
    XorNothing(w.hi);
    XorIsXor(w, U64(x, 0));
  }

  /** Word `i` of the kernel's state against the parameter block. */
  lemma StartWord(digestLen: Word, personal: seq<byte>, i: nat)
    requires |personal| == 16 && digestLen < 256 && i < 8
    ensures Join(StartState(digestLen, personal)[i])
         == Xor(Join(IV[i]), WordsOf(Parameters(digestLen, personal))[i])
  {
    ParameterWords(digestLen, personal, i);
    if i == 0 {
      FirstWordSum(digestLen);
      LowXor(IV[0], FirstWord(digestLen));
    } else if i < 6 {
      XorNothing(Join(IV[i]));
    } else {
      PairIsWord(personal, 8 * i - 48);
      XorIsXor(IV[i], PairAt(personal, 8 * i - 48));
    }
  }

  lemma StartIsInitial(digestLen: Word, personal: seq<byte>)
    requires |personal| == 16 && digestLen < 256
    ensures Joined(StartState(digestLen, personal)) == Initial(digestLen, personal)
  {
    IvJoined();
    forall i | 0 <= i < 8 ensures Joined(StartState(digestLen, personal))[i] == Initial(digestLen, personal)[i] {
      StartWord(digestLen, personal, i);
      assert Joined(IV)[i] == IV64[i];
    }
  }

  // ------------------------------------------------------------------ the kernel

  /** What a call hashes: the input, the nonce and the number of the call. */
  function Message(input: seq<byte>, nonce: Nonce, call: nat): seq<byte> {
    input + nonce + ToBytes(call, 4)
  }

  lemma PairsAreWords(bytes: seq<byte>, block: seq<U64>)
    requires |bytes| == BLOCK_BYTES && |block| == 16
    requires forall j :: 0 <= j < 16 ==> block[j] == PairAt(bytes, 8 * j)
    ensures Joined(block) == WordsOf(bytes)
  {
    forall i | 0 <= i < 16 ensures Joined(block)[i] == WordsOf(bytes)[i] {
      PairIsWord(bytes, 8 * i);
    }
  }

  /** The input stands at byte 0, the nonce at byte 81, the counter at byte 113, its low byte first. */
  lemma MessagePlaces(input: seq<byte>, nonce: Nonce, call: Word)
    requires |input| == 81 && |nonce| == 32
    ensures var m := Message(input, nonce, call);
            && |m| == 117 && m[0..81] == input && m[81..113] == nonce
            && m[113] as nat == call % 0x100 && m[114] as nat == call / 0x100 % 0x100
            && m[115] as nat == call / 0x1_0000 % 0x100 && m[116] as nat == call / 0x100_0000
  {
    var m := Message(input, nonce, call);
    assert m[0..81] == input && m[81..113] == nonce && m[113..117] == ToBytes(call, 4);
    CounterBytes(call);
  }

  lemma CounterBytes(call: Word)
    ensures var c := ToBytes(call, 4);
            && c[0] as nat == call % 0x100 && c[1] as nat == call / 0x100 % 0x100
            && c[2] as nat == call / 0x1_0000 % 0x100 && c[3] as nat == call / 0x100_0000
  {
    FourLowBytes(call);
    Quarters(call);
  }

  lemma FourLowBytes(x: nat)
    ensures ToBytes(x, 4)
         == [LowByte(x), LowByte(x / 256), LowByte(x / 256 / 256), LowByte(x / 256 / 256 / 256)]
  {
    assert ToBytes(x / 256 / 256 / 256, 1) == [LowByte(x / 256 / 256 / 256)];
    assert ToBytes(x / 256 / 256, 2) == [LowByte(x / 256 / 256)] + ToBytes(x / 256 / 256 / 256, 1);
    assert ToBytes(x / 256, 3) == [LowByte(x / 256)] + ToBytes(x / 256 / 256, 2);
  }

  lemma Quarters(x: Word)
    ensures x / 256 / 256 == x / 0x1_0000 && x / 256 / 256 / 256 == x / 0x100_0000 < 0x100
  {
  }

  /** No two inputs, nonces and calls hash the same message. */
  lemma MessageInjective(input: seq<byte>, nonce: Nonce, call: Word, input': seq<byte>, nonce': Nonce, call': Word)
    requires |input| == |input'| == 81 && |nonce| == |nonce'| == 32
    ensures Message(input, nonce, call) == Message(input', nonce', call')
       <==> input == input' && nonce == nonce' && call == call'
  {
    var m, m' := Message(input, nonce, call), Message(input', nonce', call');
    assert m[..81] == input && m[81..113] == nonce && m[113..] == ToBytes(call, 4);
    assert m'[..81] == input' && m'[81..113] == nonce' && m'[113..] == ToBytes(call', 4);
    FourBytes(1);
    RoundTrip(call, 4);
    RoundTrip(call', 4);
  }

  /** The message at the front of a block of zeros. */
  method FillBytes(input: seq<byte>, nonce: Nonce, call: Word) returns (block: seq<byte>)
    requires |input| == 81 && |nonce| == 32
    ensures |block| == BLOCK_BYTES && block == Message(input, nonce, call) + ZeroBytes(BLOCK_BYTES - 117)
  {
    var bytes := new byte[BLOCK_BYTES](_ => 0);
    forall i | 0 <= i < 81 {
      bytes[i] := input[i];
    }
    forall i | 81 <= i < 113 {
      bytes[i] := nonce[i - 81];
    }
    var counter := ToBytes(call, 4);
    forall i | 113 <= i < 117 {
      bytes[i] := counter[i - 113];
    }
    block := bytes[..];
  }

  method FillBlock(bytes: seq<byte>) returns (block: seq<U64>)
    requires |bytes| == BLOCK_BYTES
    ensures |block| == 16 && Joined(block) == WordsOf(bytes)
  {
    var words := new U64[16](_ => U64(0, 0));
    for i := 0 to 16
      invariant forall j :: 0 <= j < i ==> words[j] == PairAt(bytes, 8 * j)
    {
      words[i] := PairAt(bytes, 8 * i);
    }
    block := words[..];
    PairsAreWords(bytes, block);
  }

  /** The first 60 bytes of the final state. */
  method TakeBytes(h: array<U64>) returns (out: seq<byte>)
    requires h.Length == 8
    ensures out == BytesOf(Joined(h[..]))[..60]
  {
    var digest := new byte[60](_ => 0);
    ghost var want := BytesOf(Joined(h[..]));
    for i := 0 to 8
      invariant forall p :: 0 <= p < 60 && p < 8 * i ==> digest[p] == want[p]
    {
      var bytes := PairBytes(h[i]);
      PairBytesJoined(h[i]);
      for j := 0 to 8
        invariant forall p :: 0 <= p < 60 && p < 8 * i + j ==> digest[p] == want[p]
      {
        if 8 * i + j < 60 {
          assert (8 * i + j) / 8 == i && (8 * i + j) % 8 == j;
          digest[8 * i + j] := bytes[j];
        }
      }
    }
    out := digest[..];
  }

  /** The compression of the one block and the bytes of its result. */
  method HashBlock(start: seq<U64>, bytes: seq<byte>) returns (out: seq<byte>)
    requires |start| == 8 && |bytes| == BLOCK_BYTES
    ensures out == OneBlockHash(Joined(start), bytes)[..60]
  {
    var h := new U64[8](i requires 0 <= i < 8 => start[i]);
    assert h[..] == start;
    var block := FillBlock(bytes);
    Compress(h, block, U64(117, 0), BASE - 1);
    out := TakeBytes(h);
  }

  /**
   The kernel's digest is the hash with the given length in its parameter block, cut to 60
   bytes; for the length 60 it is BLAKE2b-60.
   */
  method KernelDigest(personal: seq<byte>, digestLen: Word, input: seq<byte>, nonce: Nonce, call: Word)
    returns (out: seq<byte>)
    requires |personal| == 16 && |input| == 81 && |nonce| == 32
    ensures |out| == 60
    ensures digestLen <= 64 ==> out == FullHash(digestLen, personal, Message(input, nonce, call))[..60]
  {
    var bytes := FillBytes(input, nonce, call);
    out := HashBlock(StartState(digestLen, personal), bytes);
    if digestLen <= 64 {
      StartIsInitial(digestLen, personal);
      OneBlock(digestLen, personal, Message(input, nonce, call), bytes);
    }
  }

  /** The state after one final block of 117 bytes, as bytes. */
  ghost function OneBlockHash(h: seq<nat>, block: seq<byte>): (hash: seq<byte>)
    requires |h| == 8 && |block| == BLOCK_BYTES
    ensures |hash| == 64
  {
    BytesOf(F(h, WordsOf(block), 117, true))
  }

  /** A message of one block is hashed by a single call of F. */
  lemma OneBlock(nn: nat, personal: seq<byte>, message: seq<byte>, block: seq<byte>)
    requires |personal| == 16 && |message| == 117 && |block| == BLOCK_BYTES
    requires block == message + ZeroBytes(BLOCK_BYTES - 117)
    ensures FullHash(nn, personal, message)
         == OneBlockHash(Initial(nn, personal), block)
  {
  }

  // ------------------------------------------------------------------ leaves

  /** "ZcashPoW" and the two parameters. */
  function Personal(n: nat, k: nat): (bytes: seq<byte>)
    ensures |bytes| == 16
  {
    [0x5A, 0x63, 0x61, 0x73, 0x68, 0x50, 0x6F, 0x57] + ToBytes(n, 4) + ToBytes(k, 4)
  }

  /** "ZcashPoW", then 96 and 5 in four bytes each, low byte first. */
  lemma PersonalBytes()
    ensures Personal(96, 5)
         == [0x5A, 0x63, 0x61, 0x73, 0x68, 0x50, 0x6F, 0x57, 0x60, 0, 0, 0, 0x05, 0, 0, 0]
  {
    FourLowBytes(96);
    FourLowBytes(5);
    assert LowByte(96) == 0x60 && LowByte(5) == 0x05 && LowByte(0) == 0;
  }

  lemma OutputFits(n: nat)
    requires 0 < n <= 512
    ensures HashOutputLen(n) <= 64
  {
  }

  /** The digest behind the leaves of Equihash `(n, k)`, for every input. */
  ghost function LeafDigest(n: nat, k: nat, input: seq<byte>): (digest: (Nonce, nat) -> seq<byte>)
    requires 0 < n <= 512
    ensures DigestFits(digest, n)
  {
    OutputFits(n);
    (nonce: Nonce, call: nat) => Hash(HashOutputLen(n), Personal(n, k), Message(input, nonce, call))
  }

  method LeafCall(input: seq<byte>, nonce: Nonce, call: Word) returns (full: seq<byte>)
    requires |input| == 81 && |nonce| == 32
    ensures |full| == 60 && full == LeafDigest(96, 5, input)(nonce, call)
  {
    full := KernelDigest(Personal(96, 5), 60, input, nonce, call);
    assert HashOutputLen(96) == 60;
  }

  /** The leaves of one digest call, as many as asked for. */
  method AddLeaves(ghost digest: (Nonce, nat) -> seq<byte>, ghost nonce: Nonce, call: nat, full: seq<byte>,
                   count: nat, before: seq<byte>) returns (out: seq<byte>)
    requires DigestFits(digest, 96) && |full| == 60 && full == digest(nonce, call)
    requires 5 * call <= count && HoldsLeaves(digest, nonce, before, 5 * call)
    ensures HoldsLeaves(digest, nonce, out, Min(5 * call + 5, count))
  {
    out := before;
    for j := 0 to 5
      invariant 5 * call + j <= count
      invariant HoldsLeaves(digest, nonce, out, 5 * call + j)
    {
      if 5 * call + j >= count {
        return;
      }
      NextLeaf(digest, nonce, call, j, out);
      out := out + full[j * LEAF_BYTES..(j + 1) * LEAF_BYTES];
    }
  }

  /** Five leaves a digest call, in order: the leaves the solver generates for the nonce. */
  method LeafBytes(input: seq<byte>, nonce: Nonce, count: Word) returns (out: seq<byte>)
    requires |input| == 81 && |nonce| == 32
    ensures HoldsLeaves(LeafDigest(96, 5, input), nonce, out, count)
  {
    ghost var digest := LeafDigest(96, 5, input);
    out := [];
    for call := 0 to (count + 4) / 5
      invariant HoldsLeaves(digest, nonce, out, Min(5 * call, count))
    {
      var full := LeafCall(input, nonce, call);
      out := AddLeaves(digest, nonce, call, full, count, out);
    }
  }

  /** What that says of one slot of the buffer. */
  lemma SlotIsLeaf(digest: (Nonce, nat) -> seq<byte>, nonce: Nonce, out: seq<byte>, count: nat, i: nat)
    requires DigestFits(digest, 96) && HoldsLeaves(digest, nonce, out, count) && i < count
    ensures i * LEAF_BYTES + LEAF_BYTES <= |out|
    ensures out[i * LEAF_BYTES..i * LEAF_BYTES + LEAF_BYTES] == GenerateLeafHash(digest, nonce, 96, i)
  {
    LeafOfBuffer(out, LEAF_BYTES, count, i);
    LeafOfNonce(digest, nonce, 96, count, i);
  }

  /** The bytes are those of the first `made` leaves of the nonce. */
  ghost predicate HoldsLeaves(digest: (Nonce, nat) -> seq<byte>, nonce: Nonce, out: seq<byte>, made: nat)
    requires DigestFits(digest, 96)
  {
    |out| == made * LEAF_BYTES && LeavesOf(out, LEAF_BYTES, made) == NonceLeaves(digest, nonce, 96, made)
  }

  lemma LeafFromCall(digest: (Nonce, nat) -> seq<byte>, nonce: Nonce, call: nat, j: nat)
    requires DigestFits(digest, 96) && j < 5
    ensures |digest(nonce, call)| == 60
    ensures GenerateLeafHash(digest, nonce, 96, 5 * call + j)
         == digest(nonce, call)[j * LEAF_BYTES..(j + 1) * LEAF_BYTES]
  {
    assert 512 / 96 == 5 && HashOutputLen(96) == 60;
    assert (5 * call + j) / 5 == call && (5 * call + j) % 5 == j;
  }

  lemma NextLeaf(digest: (Nonce, nat) -> seq<byte>, nonce: Nonce, call: nat, j: nat, out: seq<byte>)
    requires DigestFits(digest, 96) && j < 5 && HoldsLeaves(digest, nonce, out, 5 * call + j)
    ensures |digest(nonce, call)| == 60
    ensures HoldsLeaves(digest, nonce, out + digest(nonce, call)[j * LEAF_BYTES..(j + 1) * LEAF_BYTES],
                        5 * call + j + 1)
  {
    LeafFromCall(digest, nonce, call, j);
    AppendLeaf(digest, nonce, out, 5 * call + j, digest(nonce, call)[j * LEAF_BYTES..(j + 1) * LEAF_BYTES]);
  }

  lemma AppendLeaf(digest: (Nonce, nat) -> seq<byte>, nonce: Nonce, out: seq<byte>, i: nat, leaf: seq<byte>)
    requires DigestFits(digest, 96) && HoldsLeaves(digest, nonce, out, i)
    requires leaf == GenerateLeafHash(digest, nonce, 96, i)
    ensures HoldsLeaves(digest, nonce, out + leaf, i + 1)
  {
    LeavesPrefix(out, leaf, i);
    assert (out + leaf)[i * LEAF_BYTES..i * LEAF_BYTES + LEAF_BYTES] == leaf;
  }

  lemma {:induction false} LeavesPrefix(out: seq<byte>, more: seq<byte>, i: nat)
    requires i * LEAF_BYTES <= |out|
    ensures LeavesOf(out + more, LEAF_BYTES, i) == LeavesOf(out, LEAF_BYTES, i)
  {
    if i > 0 {
      LeavesPrefix(out, more, i - 1);
      var from := (i - 1) * LEAF_BYTES;
      assert (out + more)[from..from + LEAF_BYTES] == out[from..from + LEAF_BYTES];
    }
  }
}
