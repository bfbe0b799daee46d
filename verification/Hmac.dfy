/** HMAC-SHA-256 (RFC 2104, section 2) on top of the streaming hash, with its saved contexts for reuse. */
module Hmac {
  import opened Words
  import opened Sha256

  const IPAD := 0x36
  const OPAD := 0x5c

  // ----- The one-shot definition -----

  /** The key brought to one block: hashed if it is longer, then filled with zeros. */
  function KeyBlock(f: Compress, key: Bytes): (k: Bytes)
    ensures |k| == BLOCK
  {
    var used := if |key| > BLOCK then Hash(f, key) else key;
    used + Zeros(BLOCK - |used|)
  }

  function XorAll(k: Bytes, c: u8): (r: Bytes)
    ensures |r| == |k| && forall i :: 0 <= i < |k| ==> r[i] == Xor(k[i], c)
  {
    seq(|k|, i requires 0 <= i < |k| => Xor(k[i], c))
  }

  /** H((K xor opad) || H((K xor ipad) || M)) */
  function Mac(f: Compress, key: Bytes, msg: Bytes): (m: Bytes)
    ensures |m| == DIGEST
  {
    Hash(f, XorAll(KeyBlock(f, key), OPAD) + Hash(f, XorAll(KeyBlock(f, key), IPAD) + msg))
  }

  /** RFC 2104 with the digest of FIPS 180-2. */
  function Rfc2104(f: Compress, key: Bytes, msg: Bytes): (m: Bytes)
    requires |key| < 0x2000_0000 && |msg| < 0x2000_0000
    ensures |m| == DIGEST
  {
    var used := if |key| > BLOCK then FipsHash(f, key) else key;
    var k := used + Zeros(BLOCK - |used|);
    FipsHash(f, XorAll(k, 0x5c) + FipsHash(f, XorAll(k, 0x36) + msg))
  }

  lemma MacIsRfc2104(f: Compress, key: Bytes, msg: Bytes)
    requires |key| < 0x2000_0000 && BLOCK + |msg| < 0x2000_0000
    ensures Mac(f, key, msg) == Rfc2104(f, key, msg)
  {
    if |key| > BLOCK {
      HashIsStandard(f, key);
    }
    var k := KeyBlock(f, key);
    HashIsStandard(f, XorAll(k, IPAD) + msg);
    HashIsStandard(f, XorAll(k, OPAD) + Hash(f, XorAll(k, IPAD) + msg));
  }

  lemma XorZero()
    ensures Xor(0, IPAD) == IPAD && Xor(0, OPAD) == OPAD
  {
  }

  // ----- The context -----

  class Context {
    const f: Compress
    const inside: Sha256.Context
    const outside: Sha256.Context
    const insideReinit: Sha256.Context
    const outsideReinit: Sha256.Context
    const ipad: array<u8>
    const opad: array<u8>
    ghost var key: Bytes
    ghost var msg: Bytes    // what has been authenticated since the last init or reinit

    /** The four hash contexts are separate and use the same compression. */
    ghost predicate Shape()
      reads this
    {
      && inside != outside && inside != insideReinit && inside != outsideReinit
      && outside != insideReinit && outside != outsideReinit && insideReinit != outsideReinit
      && inside.block != outside.block && inside.block != insideReinit.block && inside.block != outsideReinit.block
      && outside.block != insideReinit.block && outside.block != outsideReinit.block &&
         insideReinit.block != outsideReinit.block
      && ipad !in {opad, inside.block, outside.block, insideReinit.block, outsideReinit.block}
      && opad !in {inside.block, outside.block, insideReinit.block, outsideReinit.block}
      && inside.f == f && outside.f == f && insideReinit.f == f && outsideReinit.f == f
      && inside.block.Length == 2 * BLOCK && outside.block.Length == 2 * BLOCK
      && insideReinit.block.Length == 2 * BLOCK && outsideReinit.block.Length == 2 * BLOCK
      && ipad.Length == BLOCK && opad.Length == BLOCK
    }

    ghost function Active(): (objs: set<object>) {
      {inside, inside.block, outside, outside.block}
    }

    ghost function Saved(): (objs: set<object>) {
      {insideReinit, insideReinit.block, outsideReinit, outsideReinit.block}
    }

    /** The saved contexts have absorbed the padded key. */
    ghost predicate Keyed()
      reads this, Saved()
    {
      && Shape()
      && insideReinit.Valid() && insideReinit.msg == XorAll(KeyBlock(f, key), IPAD)
      && outsideReinit.Valid() && outsideReinit.msg == XorAll(KeyBlock(f, key), OPAD)
    }

    /** The active contexts have absorbed the padded key and, inside, the message so far. */
    ghost predicate Valid()
      reads this, Active(), Saved()
    {
      && Keyed()
      && inside.Valid() && inside.msg == XorAll(KeyBlock(f, key), IPAD) + msg
      && outside.Valid() && outside.msg == XorAll(KeyBlock(f, key), OPAD)
    }

    constructor (f: Compress)
      ensures Shape() && this.f == f
      ensures fresh(Active() + Saved() + {ipad, opad})
    {
      this.f := f;
      inside := new Sha256.Context(f);
      outside := new Sha256.Context(f);
      insideReinit := new Sha256.Context(f);
      outsideReinit := new Sha256.Context(f);
      ipad := new u8[BLOCK](_ => 0);
      opad := new u8[BLOCK](_ => 0);
    }

    /** The pads of hmac_sha256_init(). */
    method FillPads(used: Bytes)
      requires ipad.Length == BLOCK && opad.Length == BLOCK && ipad != opad && |used| <= BLOCK
      modifies ipad, opad
      ensures ipad[..] == XorAll(used + Zeros(BLOCK - |used|), IPAD)
      ensures opad[..] == XorAll(used + Zeros(BLOCK - |used|), OPAD)
    {
      var num := |used|;
      XorZero();
      forall i | num <= i < BLOCK { ipad[i] := IPAD; }
      forall i | num <= i < BLOCK { opad[i] := OPAD; }
      for i := 0 to num
        invariant forall j :: 0 <= j < i ==> ipad[j] == Xor(used[j], IPAD) && opad[j] == Xor(used[j], OPAD)
        invariant forall j :: num <= j < BLOCK ==> ipad[j] == IPAD && opad[j] == OPAD
      {
        ipad[i] := Xor(used[i], IPAD);
        opad[i] := Xor(used[i], OPAD);
      }
    }

    static method Absorb(ctx: Sha256.Context, pad: Bytes)
      requires ctx.block.Length == 2 * BLOCK && |pad| == BLOCK
      modifies ctx, ctx.block
      ensures ctx.Valid() && ctx.msg == pad
    {
      ctx.Init();
      ctx.Update(pad);
    }

    /** hmac_sha256_init() */
    method Init(key: Bytes)
      requires Shape() && |key| < 0x8000_0000
      modifies this, Active(), Saved(), ipad, opad
      ensures Valid() && this.key == key && msg == []
    {
      var used := key;
      if |key| > BLOCK {
        used := HashOneShot(f, key);
      }
      ghost var block := KeyBlock(f, key);
      assert used + Zeros(BLOCK - |used|) == block;
      FillPads(used);
      this.key, msg := key, [];
      Absorb(inside, ipad[..]);
      Absorb(outside, opad[..]);
      insideReinit.CopyFrom(inside);
      outsideReinit.CopyFrom(outside);
    }

    /** hmac_sha256_reinit(): after any use, the context is as after init with the same key. */
    method Reinit()
      requires Keyed()
      modifies this`msg, Active()
      ensures Valid() && key == old(key) && msg == []
    {
      inside.CopyFrom(insideReinit);
      outside.CopyFrom(outsideReinit);
      msg := [];
    }

    /** hmac_sha256_update() */
    method Update(message: Bytes)
      requires Valid() && |message| < 0x8000_0000
      modifies this`msg, inside, inside.block
      ensures Valid() && key == old(key) && msg == old(msg) + message
    {
      inside.Update(message);
      AppendMore(XorAll(KeyBlock(f, key), IPAD), msg, message);
      msg := msg + message;
    }

    /** hmac_sha256_final(); the saved contexts survive it. */
    method Final(macSize: nat) returns (mac: Bytes)
      requires Valid() && macSize <= DIGEST
      modifies Active()
      ensures mac == Mac(f, key, msg)[..macSize]
      ensures macSize == DIGEST ==> mac == Mac(f, key, msg)
      ensures Keyed()
    {
      var digestInside := inside.Final();
      outside.Update(digestInside);
      var macTemp := outside.Final();
      mac := macTemp[..macSize];
    }
  }

  lemma AppendMore(a: Bytes, b: Bytes, c: Bytes)
    ensures a + b + c == a + (b + c)
  {
  }

  /**
   * However a message is cut into chunks, the MAC is that of RFC 2104; reusing the
   * context for a second message changes nothing.
   */
  method MacChunks(f: Compress, key: Bytes, chunks: seq<Bytes>, again: seq<Bytes>) returns (mac: Bytes, second: Bytes)
    requires |key| < 0x8000_0000
    requires forall c :: c in chunks || c in again ==> |c| < 0x8000_0000
    ensures mac == Mac(f, key, Concat(chunks)) && second == Mac(f, key, Concat(again))
    ensures |key| < 0x2000_0000 && BLOCK + |Concat(chunks)| < 0x2000_0000 ==> mac == Rfc2104(f, key, Concat(chunks))
  {
    if |key| < 0x2000_0000 && BLOCK + |Concat(chunks)| < 0x2000_0000 {
      MacIsRfc2104(f, key, Concat(chunks));
    }
    var ctx := new Context(f);
    ctx.Init(key);
    mac := Feed(ctx, chunks, key);
    ctx.Reinit();
    second := Feed(ctx, again, key);
  }

  method UpdateAll(ctx: Context, chunks: seq<Bytes>)
    requires ctx.Valid()
    requires forall c :: c in chunks ==> |c| < 0x8000_0000
    modifies ctx`msg, ctx.inside, ctx.inside.block
    ensures ctx.Valid() && ctx.msg == old(ctx.msg) + Concat(chunks) && ctx.key == old(ctx.key)
  {
    for i := 0 to |chunks|
      invariant ctx.Valid() && ctx.msg == old(ctx.msg) + Concat(chunks[..i]) && ctx.key == old(ctx.key)
    {
      assert chunks[..i + 1][..i] == chunks[..i];
      AppendMore(old(ctx.msg), Concat(chunks[..i]), chunks[i]);
      ctx.Update(chunks[i]);
    }
    assert chunks[..|chunks|] == chunks;
  }

  method Feed(ctx: Context, chunks: seq<Bytes>, ghost key: Bytes) returns (mac: Bytes)
    requires ctx.Valid() && ctx.msg == [] && ctx.key == key
    requires forall c :: c in chunks ==> |c| < 0x8000_0000
    modifies ctx`msg, ctx.Active()
    ensures mac == Mac(ctx.f, key, Concat(chunks)) && ctx.Keyed() && ctx.key == key
  {
    UpdateAll(ctx, chunks);
    assert [] + Concat(chunks) == Concat(chunks);
    mac := ctx.Final(DIGEST);
  }
}
