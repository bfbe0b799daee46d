/**
 * The streaming SHA-256 of tee-supplicant. The compression of one block is a
 * parameter: what is proved holds whatever it computes. The subject is the
 * buffering of partial blocks, the padding, and the agreement with the one-shot
 * definition of FIPS 180-2, sections 5.1.1 and 6.2.
 */
module Sha256 {
  import opened Words

  const BLOCK := 64
  const DIGEST := 32

  type State = s: seq<u32> | |s| == 8 witness [0, 0, 0, 0, 0, 0, 0, 0]

  type Compress = (State, Bytes) -> State

  const H0: State := [0x6a09e667, 0xbb67ae85, 0x3c6ef372, 0xa54ff53a, 0x510e527f, 0x9b05688c, 0x1f83d9ab, 0x5be0cd19]

  /** The first 32 bits of the fraction of the square root of n, whose whole part is r. */
  predicate RootBits(n: nat, r: nat, bits: nat) {
    var x := r * WORD + bits;
    bits < WORD && x * x <= n * WORD * WORD < (x + 1) * (x + 1)
  }

  /** FIPS 180-2 section 5.3.2: the initial state is made of the square roots of the first eight primes. */
  lemma InitialState()
    ensures RootBits(2, 1, H0[0]) && RootBits(3, 1, H0[1]) && RootBits(5, 2, H0[2]) && RootBits(7, 2, H0[3])
    ensures RootBits(11, 3, H0[4]) && RootBits(13, 3, H0[5]) && RootBits(17, 4, H0[6]) && RootBits(19, 4, H0[7])
  {
  }

  // ----- The one-shot definition -----

  /** Compresses the first n blocks of a message in order. */
  function Fold(f: Compress, h: State, msg: Bytes, n: nat): (r: State)
    requires BLOCK * n <= |msg|
  {
    if n == 0 then h else f(Fold(f, h, msg, n - 1), msg[BLOCK * (n - 1)..BLOCK * n])
  }

  /** Every block goes through the compression once, in the order of the message. */
  lemma BlockByBlock(f: Compress, h: State, msg: Bytes, n: nat)
    requires BLOCK * (n + 1) <= |msg|
    ensures Fold(f, h, msg, 0) == h
    ensures Fold(f, h, msg, n + 1) == f(Fold(f, h, msg, n), msg[64 * n..64 * n + 64])
  {
  }

  lemma {:induction false} FoldSplit(f: Compress, h: State, msg: Bytes, i: nat, j: nat)
    requires BLOCK * (i + j) <= |msg|
    ensures Fold(f, h, msg, i + j) == Fold(f, Fold(f, h, msg, i), msg[BLOCK * i..], j)
    decreases j
  {
    if j > 0 {
      FoldSplit(f, h, msg, i, j - 1);
      assert msg[BLOCK * i..][BLOCK * (j - 1)..BLOCK * j] == msg[BLOCK * (i + j - 1)..BLOCK * (i + j)];
    }
  }

  lemma {:induction false} FoldPrefix(f: Compress, h: State, a: Bytes, b: Bytes, n: nat)
    requires BLOCK * n <= |a| && BLOCK * n <= |b| && a[..BLOCK * n] == b[..BLOCK * n]
    ensures Fold(f, h, a, n) == Fold(f, h, b, n)
    decreases n
  {
    if n > 0 {
      assert a[..BLOCK * (n - 1)] == a[..BLOCK * n][..BLOCK * (n - 1)] == b[..BLOCK * n][..BLOCK * (n - 1)] ==
             b[..BLOCK * (n - 1)];
      assert a[BLOCK * (n - 1)..BLOCK * n] == a[..BLOCK * n][BLOCK * (n - 1)..] == b[..BLOCK * n][BLOCK * (n - 1)..] ==
             b[BLOCK * (n - 1)..BLOCK * n];
      FoldPrefix(f, h, a, b, n - 1);
    }
  }

  /** The number of blocks of a message of n bytes once it is padded. */
  function PaddedBlocks(n: nat): (k: nat)
    ensures BLOCK * k - BLOCK < n + 9 <= BLOCK * k
  {
    (n + 9 + (BLOCK - 1)) / BLOCK
  }

  /** The message, the byte 0x80, the fewest zeros that fill a block, and the length field. */
  function PadWith(msg: Bytes, length: Bytes): (r: Bytes)
    requires |length| == 8
    ensures |r| == BLOCK * PaddedBlocks(|msg|)
  {
    msg + [0x80] + Zeros(BLOCK * PaddedBlocks(|msg|) - |msg| - 9) + length
  }

  /** FIPS 180-2 section 5.1.1: the length field holds the number of bits in 64 bits. */
  function FipsPad(msg: Bytes): (r: Bytes)
    requires |msg| < 0x2000_0000_0000_0000
    ensures |r| == BLOCK * PaddedBlocks(|msg|)
  {
    PadWith(msg, Be32(8 * |msg| / WORD) + Be32(8 * |msg| % WORD))
  }

  lemma FourParts(a: Bytes, b: u8, zeros: nat, length: Bytes)
    requires |length| == 8
    ensures var r, n := a + [b] + Zeros(zeros) + length, |a|;
            && |r| == n + 9 + zeros && r[..n] == a && r[n] == b && (forall i :: n < i < |r| - 8 ==> r[i] == 0)
            && r[|r| - 8..|r| - 4] == length[..4] && r[|r| - 4..] == length[4..]
  {
  }

  lemma LengthBytes(bits: nat)
    requires bits < WORD * WORD
    ensures var length := Be32(bits / WORD) + Be32(bits % WORD);
            FromBe32(length[..4]) * WORD + FromBe32(length[4..]) == bits
  {
    var length := Be32(bits / WORD) + Be32(bits % WORD);
    assert length[..4] == Be32(bits / WORD) && length[4..] == Be32(bits % WORD);
  }

  /** A message of n bytes, padded with a length field to k blocks, byte by byte. */
  predicate Padded(msg: Bytes, bits: nat, r: Bytes) {
    var n := |msg|;
    && n + 9 <= |r| < n + 9 + 64
    && r[..n] == msg && r[n] == 0x80 && (forall i :: n < i < |r| - 8 ==> r[i] == 0)
    && FromBe32(r[|r| - 8..|r| - 4]) * WORD + FromBe32(r[|r| - 4..]) == bits
  }

  lemma PaddedTo(msg: Bytes, bits: nat, k: nat)
    requires bits < WORD * WORD && BLOCK * k - BLOCK < |msg| + 9 <= BLOCK * k
    ensures var length := Be32(bits / WORD) + Be32(bits % WORD);
            Padded(msg, bits, msg + [0x80] + Zeros(BLOCK * k - |msg| - 9) + length)
  {
    FourParts(msg, 0x80, BLOCK * k - |msg| - 9, Be32(bits / WORD) + Be32(bits % WORD));
    LengthBytes(bits);
  }

  lemma WholeBlocks(k: nat)
    ensures BLOCK * k % 64 == 0
  {
  }

  /** The padding of the standard, byte by byte. */
  lemma PaddingBytes(msg: Bytes)
    requires |msg| < 0x2000_0000_0000_0000
    ensures Padded(msg, 8 * |msg|, FipsPad(msg)) && |FipsPad(msg)| % 64 == 0
  {
    PaddedTo(msg, 8 * |msg|, PaddedBlocks(|msg|));
    WholeBlocks(PaddedBlocks(|msg|));
  }

  /** The padding of the code: only the low 32 bits of the length are written. */
  function CodePad(msg: Bytes): (r: Bytes)
    ensures |r| == BLOCK * PaddedBlocks(|msg|)
  {
    PadWith(msg, Zeros(4) + Be32(8 * |msg| % WORD))
  }

  /** The code pads as the standard says exactly for messages shorter than 2^29 bytes. */
  lemma PaddingIsStandardIff(msg: Bytes)
    requires |msg| < 0x2000_0000_0000_0000
    ensures CodePad(msg) == FipsPad(msg) <==> |msg| < 0x2000_0000
  {
    var high := 8 * |msg| / WORD;
    var at := BLOCK * PaddedBlocks(|msg|) - 8;
    assert CodePad(msg)[at..][..4] == Zeros(4) && FipsPad(msg)[at..][..4] == Be32(high);
    if |msg| < 0x2000_0000 {
      assert high == 0 && Be32(0) == Zeros(4);
    } else {
      assert high > 0 && FromBe32(Be32(high)) != FromBe32(Zeros(4));
    }
  }

  /** The words of the state, most significant byte first. */
  function Unpack(h: seq<u32>): (d: Bytes)
    ensures |d| == 4 * |h|
  {
    if h == [] then [] else Unpack(h[..|h| - 1]) + Be32(h[|h| - 1])
  }

  /** Word i of the state in the digest. */
  lemma {:induction false} DigestWords(h: seq<u32>, i: nat)
    requires i < |h|
    ensures Unpack(h)[4 * i..4 * i + 4] == Be32(h[i])
    decreases |h|
  {
    var last := |h| - 1;
    assert Unpack(h) == Unpack(h[..last]) + Be32(h[last]);
    if i < last {
      DigestWords(h[..last], i);
      assert Unpack(h)[4 * i..4 * i + 4] == Unpack(h[..last])[4 * i..4 * i + 4];
    }
  }

  /** The digest of a message as the code pads it. */
  function Hash(f: Compress, msg: Bytes): (d: Bytes)
    ensures |d| == DIGEST
  {
    Unpack(Fold(f, H0, CodePad(msg), PaddedBlocks(|msg|)))
  }

  /** The digest of FIPS 180-2. */
  function FipsHash(f: Compress, msg: Bytes): (d: Bytes)
    requires |msg| < 0x2000_0000_0000_0000
    ensures |d| == DIGEST
  {
    Unpack(Fold(f, H0, FipsPad(msg), PaddedBlocks(|msg|)))
  }

  lemma HashIsStandard(f: Compress, msg: Bytes)
    requires |msg| < 0x2000_0000
    ensures Hash(f, msg) == FipsHash(f, msg)
  {
    PaddingIsStandardIff(msg);
  }

  // ----- What a context holds -----

  /** The state is the fold of the first nb blocks of msg, the buffer holds the rest. */
  predicate Holds(f: Compress, msg: Bytes, nb: nat, h: State, tail: Bytes) {
    && |msg| == BLOCK * nb + |tail| && |tail| < BLOCK
    && h == Fold(f, H0, msg, nb)
    && tail == msg[BLOCK * nb..]
  }

  lemma ModMultiple(x: nat, k: nat)
    ensures (WORD * k + x) % WORD == x % WORD
  {
  }

  lemma ModAdd(a: nat, b: nat)
    ensures (a % WORD + b) % WORD == (a + b) % WORD
  {
    ModMultiple(a % WORD + b, a / WORD);
  }

  lemma BitLength(whole: nat, len: nat)
    ensures 8 * ((whole % WORD + len) % WORD) % WORD == 8 * (whole + len) % WORD
  {
    ModAdd(whole, len);
    var n := whole + len;
    assert n == WORD * (n / WORD) + n % WORD;
    assert 8 * n == WORD * (8 * (n / WORD)) + 8 * (n % WORD);
    ModMultiple(8 * (n % WORD), 8 * (n / WORD));
  }

  /** A short chunk only extends the buffer. */
  lemma AbsorbShort(f: Compress, msg: Bytes, nb: nat, h: State, tail: Bytes, message: Bytes)
    requires Holds(f, msg, nb, h, tail) && |tail| + |message| < BLOCK
    ensures Holds(f, msg + message, nb, h, tail + message)
  {
    FoldPrefix(f, H0, msg, msg + message, nb);
  }

  /** A long chunk fills the buffer, is compressed block by block, and leaves its rest in the buffer. */
  lemma AbsorbLong(f: Compress, msg: Bytes, nb: nat, h: State, tail: Bytes, fill: Bytes, shifted: Bytes, blockNb: nat)
    requires Holds(f, msg, nb, h, tail) && |tail| + |fill| == BLOCK
    requires BLOCK * blockNb <= |shifted| < BLOCK * blockNb + BLOCK
    ensures Holds(f, msg + (fill + shifted), nb + 1 + blockNb, Fold(f, Fold(f, h, tail + fill, 1), shifted, blockNb),
                  shifted[BLOCK * blockNb..])
  {
    var all := msg + (fill + shifted);
    Slices(msg, nb, tail, fill, shifted, blockNb);
    assert Fold(f, H0, all, nb + 1 + blockNb) == Fold(f, Fold(f, h, tail + fill, 1), shifted, blockNb) by {
      FoldOver(f, msg, nb, all, tail + fill, shifted, blockNb);
    }
  }

  lemma FoldOver(f: Compress, msg: Bytes, nb: nat, all: Bytes, full: Bytes, shifted: Bytes, blockNb: nat)
    requires BLOCK * nb <= |msg| && BLOCK * nb <= |all| && all[..BLOCK * nb] == msg[..BLOCK * nb]
    requires |full| == BLOCK && BLOCK * blockNb <= |shifted| && all[BLOCK * nb..] == full + shifted
    ensures BLOCK * (nb + 1 + blockNb) <= |all|
    ensures Fold(f, H0, all, nb + 1 + blockNb) == Fold(f, Fold(f, Fold(f, H0, msg, nb), full, 1), shifted, blockNb)
  {
    var k := 1 + blockNb;
    assert |all| == BLOCK * nb + |full| + |shifted|;
    FoldPrefix(f, H0, msg, all, nb);
    FoldSplit(f, H0, all, nb, k);
    FoldBoth(f, Fold(f, H0, msg, nb), full, shifted, blockNb);
  }

  /** The fold of a block and what follows it. */
  lemma FoldBoth(f: Compress, h: State, full: Bytes, shifted: Bytes, blockNb: nat)
    requires |full| == BLOCK && BLOCK * blockNb <= |shifted|
    ensures Fold(f, h, full + shifted, 1 + blockNb) == Fold(f, Fold(f, h, full, 1), shifted, blockNb)
  {
    FoldSplit(f, h, full + shifted, 1, blockNb);
    assert (full + shifted)[BLOCK..] == shifted && (full + shifted)[..BLOCK] == full;
    FoldPrefix(f, h, full + shifted, full, 1);
  }

  lemma Slices(msg: Bytes, nb: nat, tail: Bytes, fill: Bytes, shifted: Bytes, blockNb: nat)
    requires |msg| == BLOCK * nb + |tail| && tail == msg[BLOCK * nb..] && |tail| + |fill| == BLOCK &&
             BLOCK * blockNb <= |shifted|
    ensures var all := msg + (fill + shifted);
            && all[..BLOCK * nb] == msg[..BLOCK * nb]
            && all[BLOCK * nb..] == (tail + fill) + shifted
            && all[BLOCK * (nb + 1 + blockNb)..] == shifted[BLOCK * blockNb..]
  {
    var all := msg + (fill + shifted);
    var rest := all[BLOCK * nb..];
    assert rest == (tail + fill) + shifted;
    assert all[BLOCK * (nb + 1 + blockNb)..] == rest[BLOCK * (1 + blockNb)..];
  }

  /** What sha256_final() puts behind the buffered bytes. */
  function Ending(tail: Bytes, field: Bytes): (r: Bytes)
    requires |tail| < BLOCK && |field| == 4
    ensures |r| == if 55 < |tail| then 2 * BLOCK else BLOCK
  {
    tail + [0x80] + Zeros((if 55 < |tail| then 2 * BLOCK else BLOCK) - |tail| - 5) + field
  }

  /** Compressing the ending completes the digest. */
  lemma FinalFold(f: Compress, msg: Bytes, nb: nat, h: State, tail: Bytes, blockNb: nat)
    requires Holds(f, msg, nb, h, tail) && blockNb == if 55 < |tail| then 2 else 1
    ensures Hash(f, msg) == Unpack(Fold(f, h, Ending(tail, Be32(8 * |msg| % WORD)), blockNb))
  {
    assert PaddedBlocks(|msg|) == nb + blockNb;
    var all := CodePad(msg);
    assert all[..BLOCK * nb] == msg[..BLOCK * nb];
    FoldPrefix(f, H0, msg, all, nb);
    FoldSplit(f, H0, all, nb, blockNb);
    PadEnds(msg, nb, tail, blockNb);
  }

  lemma PadEnds(msg: Bytes, nb: nat, tail: Bytes, blockNb: nat)
    requires |msg| == BLOCK * nb + |tail| && |tail| < BLOCK && tail == msg[BLOCK * nb..] &&
             blockNb == if 55 < |tail| then 2 else 1
    ensures CodePad(msg)[BLOCK * nb..] == Ending(tail, Be32(8 * |msg| % WORD))
  {
    assert PaddedBlocks(|msg|) == nb + blockNb;
    var zeros := BLOCK * blockNb - |tail| - 9;
    var field := Be32(8 * |msg| % WORD);
    assert CodePad(msg) == msg + [0x80] + Zeros(zeros) + (Zeros(4) + field);
    assert Zeros(zeros) + Zeros(4) == Zeros(zeros + 4);
  }

  lemma PaddingLayout(b0: Bytes, len: nat, pmLen: nat, field: Bytes)
    requires len + 5 <= pmLen <= |b0| && |field| == 4
    ensures Splice(Splice(Splice(b0, len, Zeros(pmLen - len)), len, [0x80]), pmLen - 4, field)[..pmLen] ==
            b0[..len] + [0x80] + Zeros(pmLen - len - 5) + field
  {
    var s1 := Splice(b0, len, Zeros(pmLen - len));
    assert s1[..len] == b0[..len] && s1[len + 1..pmLen - 4] == Zeros(pmLen - len - 5);
    var s2 := Splice(s1, len, [0x80]);
    assert s2[..pmLen - 4] == b0[..len] + [0x80] + Zeros(pmLen - len - 5);
  }

  // ----- The context -----

  class Context {
    const f: Compress
    var totLen: u32
    var len: nat
    const block: array<u8>
    var h: State
    ghost var msg: Bytes    // everything hashed so far
    ghost var blocks: nat   // the number of its blocks that are compressed

    ghost predicate Valid()
      reads this, block
    {
      block.Length == 2 * BLOCK && len < BLOCK && totLen == BLOCK * blocks % WORD &&
          Holds(f, msg, blocks, h, block[..len])
    }

    /** A zeroed context after sha256_init(). */
    constructor (f: Compress)
      ensures Valid() && fresh(block) && msg == [] && this.f == f
    {
      this.f := f;
      totLen, len, h := 0, 0, H0;
      block := new u8[2 * BLOCK](_ => 0);
      msg, blocks := [], 0;
    }

    /** sha256_init(), which leaves the buffer as it is. */
    method Init()
      requires block.Length == 2 * BLOCK
      modifies this
      ensures Valid() && msg == []
    {
      h := H0;
      len, totLen := 0, 0;
      msg, blocks := [], 0;
    }

    /** memcpy() from another context. */
    method CopyFrom(other: Context)
      requires other.Valid() && other.f == f && block.Length == 2 * BLOCK && block != other.block && this != other
      modifies this, block
      ensures Valid() && msg == other.msg
    {
      totLen, len, h, msg, blocks := other.totLen, other.len, other.h, other.msg, other.blocks;
      forall i | 0 <= i < block.Length { block[i] := other.block[i]; }
      assert block[..len] == other.block[..len];
    }

    /** The block loop of sha256_transf(). */
    method Transf(message: Bytes, blockNb: nat)
      requires BLOCK * blockNb <= |message|
      modifies this`h
      ensures h == Fold(f, old(h), message, blockNb)
    {
      for i := 0 to blockNb
        invariant h == Fold(f, old(h), message, i)
      {
        h := f(h, message[BLOCK * i..BLOCK * (i + 1)]);
      }
    }

    /** memcpy() into the buffer. */
    method Store(at: nat, data: Bytes)
      requires at + |data| <= block.Length
      modifies block
      ensures block[..] == Splice(old(block[..]), at, data)
    {
      forall i | 0 <= i < |data| { block[at + i] := data[i]; }
    }

    /** Compresses the full buffer and the whole blocks of the chunk, and leaves the rest in the buffer. */
    method Drain(ghost full: Bytes, shifted: Bytes, blockNb: nat)
      requires block.Length == 2 * BLOCK && |full| == BLOCK && block[..][..BLOCK] == full
      requires BLOCK * blockNb <= |shifted| < BLOCK * blockNb + BLOCK
      modifies this`h, block
      ensures h == Fold(f, Fold(f, old(h), full, 1), shifted, blockNb)
      ensures block[..|shifted| - BLOCK * blockNb] == shifted[BLOCK * blockNb..]
    {
      FoldPrefix(f, h, block[..], full, 1);
      Transf(block[..], 1);
      Transf(shifted, blockNb);
      Store(0, shifted[BLOCK * blockNb..]);
    }

    /** sha256_update(). Longer chunks overflow the int that indexes them in sha256_transf(). */
    method Update(message: Bytes)
      requires Valid() && |message| < 0x8000_0000
      modifies this, block
      ensures Valid() && msg == old(msg) + message
    {
      ghost var tail := block[..len];
      var tmpLen := BLOCK - len;
      var remLen := if |message| < tmpLen then |message| else tmpLen;
      Store(len, message[..remLen]);
      assert block[..][..len + remLen] == tail + message[..remLen];
      ghost var before := msg;
      msg := msg + message;
      if len + |message| < BLOCK {
        AbsorbShort(f, before, blocks, h, tail, message);
        len := len + |message|;
        assert block[..len] == tail + message;
        return;
      }
      assert message == message[..remLen] + message[remLen..];
      Flush(before, tail, message[..remLen], message[remLen..]);
    }

    /** The part of sha256_update() behind the early return; `fill` is already in the buffer. */
    method Flush(ghost before: Bytes, ghost tail: Bytes, fill: Bytes, shifted: Bytes)
      requires block.Length == 2 * BLOCK && totLen == BLOCK * blocks % WORD && Holds(f, before, blocks, h, tail)
      requires |tail| + |fill| == BLOCK && block[..][..BLOCK] == tail + fill && msg == before + (fill + shifted)
      modifies this`h, this`len, this`totLen, this`blocks, block
      ensures Valid()
    {
      var newLen := |shifted|;
      var blockNb := newLen / BLOCK;
      AbsorbLong(f, before, blocks, h, tail, fill, shifted, blockNb);
      Drain(tail + fill, shifted, blockNb);
      len := newLen % BLOCK;
      ModAdd(BLOCK * blocks, BLOCK * (blockNb + 1));
      totLen := (totLen + BLOCK * (blockNb + 1)) % WORD;
      blocks := blocks + 1 + blockNb;
    }

    method StorePadding(pmLen: nat, field: Bytes)
      requires len + 5 <= pmLen <= block.Length && |field| == 4
      modifies block
      ensures block[..pmLen] == old(block[..len]) + [0x80] + Zeros(pmLen - len - 5) + field
    {
      ghost var b0 := block[..];
      Store(len, Zeros(pmLen - len));
      Store(len, [0x80]);
      Store(pmLen - 4, field);
      PaddingLayout(b0, len, pmLen, field);
    }

    /** The length field of sha256_final(), in bits and in 32 bits. */
    method LengthField() returns (lenB: u32)
      requires Valid()
      ensures lenB == 8 * |msg| % WORD
    {
      lenB := 8 * ((totLen + len) % WORD) % WORD;
      BitLength(BLOCK * blocks, len);
    }

    /** The compression of the last blocks, which lie in the buffer. */
    method CompressLast(blockNb: nat)
      requires block.Length == 2 * BLOCK && 1 <= blockNb <= 2
      modifies this`h
      ensures h == Fold(f, old(h), block[..BLOCK * blockNb], blockNb)
    {
      FoldPrefix(f, h, block[..], block[..BLOCK * blockNb], blockNb);
      Transf(block[..], blockNb);
    }

    /** The last blocks of sha256_final(): padding and compression. */
    method Finish()
      requires Valid()
      modifies this`h, block
      ensures Hash(f, msg) == Unpack(h)
    {
      FinalFold(f, msg, blocks, h, block[..len], if 55 < len then 2 else 1);
      var lenB := LengthField();
      PadAndCompress(Be32(lenB));
    }

    method PadAndCompress(field: Bytes)
      requires block.Length == 2 * BLOCK && len < BLOCK && |field| == 4
      modifies this`h, block
      ensures h == Fold(f, old(h), Ending(old(block[..len]), field), if 55 < len then 2 else 1)
    {
      var blockNb := if 55 < len % BLOCK then 2 else 1;
      StorePadding(BLOCK * blockNb, field);
      CompressLast(blockNb);
    }

    /** sha256_final() */
    method Final() returns (digest: Bytes)
      requires Valid()
      modifies this, block
      ensures digest == Hash(f, msg) && msg == old(msg)
    {
      Finish();
      digest := [];
      for i := 0 to 8
        invariant digest == Unpack(h[..i])
      {
        assert h[..i + 1][..i] == h[..i];
        digest := digest + Be32(h[i]);
      }
      assert h[..8] == h;
    }
  }

  // ----- Whole runs -----

  function Concat(chunks: seq<Bytes>): (msg: Bytes)
  {
    if chunks == [] then [] else Concat(chunks[..|chunks| - 1]) + chunks[|chunks| - 1]
  }

  /** However a message is cut into chunks, the digest is that of the whole message. */
  method HashChunks(f: Compress, chunks: seq<Bytes>) returns (digest: Bytes)
    requires forall i :: 0 <= i < |chunks| ==> |chunks[i]| < 0x8000_0000
    ensures digest == Hash(f, Concat(chunks))
    ensures |Concat(chunks)| < 0x2000_0000 ==> digest == FipsHash(f, Concat(chunks))
  {
    var ctx := new Context(f);
    for i := 0 to |chunks|
      invariant ctx.Valid() && ctx.f == f && fresh(ctx) && fresh(ctx.block)
      invariant ctx.msg == Concat(chunks[..i])
    {
      assert chunks[..i + 1][..i] == chunks[..i];
      ctx.Update(chunks[i]);
    }
    assert chunks[..|chunks|] == chunks;
    digest := ctx.Final();
    if |Concat(chunks)| < 0x2000_0000 {
      HashIsStandard(f, Concat(chunks));
    }
  }

  /** sha256() */
  method HashOneShot(f: Compress, message: Bytes) returns (digest: Bytes)
    requires |message| < 0x8000_0000
    ensures digest == Hash(f, message)
    ensures |message| < 0x2000_0000 ==> digest == FipsHash(f, message)
  {
    var ctx := new Context(f);
    ctx.Update(message);
    assert [] + message == message;
    digest := ctx.Final();
    if |message| < 0x2000_0000 {
      HashIsStandard(f, message);
    }
  }
}
