/**
 * The binary format of signed TAs and subkeys: one image, written and parsed.
 * Signing, hashing and the naming hash are parameters.
 */
module SignedImage {
  import opened Words

  const MAGIC := 0x4f545348
  const BOOTSTRAP_TA := 1
  const SUBKEY := 3
  const ALG_PSS := 0x70414930
  const ALG_V1_5 := 0x70004830
  const ATTR_MODULUS := 0xD0000130
  const ATTR_EXPONENT := 0xD0000230
  const HASH_SIZE := 32
  const SHDR_SIZE := 20
  const SK_HDR_SIZE := 20
  const UUID_SIZE := 16
  const ATTRS_END := 60  // 16 + 5 * 4 + 2 * 3 * 4

  /** The public numbers of an RSA key. */
  datatype Key = Key(n: nat, e: nat)

  datatype Error = StructError | BadMagic | BadAlgorithm | BadDigestLength | BadImageSize | NoAttribute | Unsupported

  datatype Result<+T> = Ok(value: T) | Err(error: Error) {
    predicate IsFailure() { Err? }

    function PropagateFailure<U>(): (r: Result<U>)
      requires Err?
    {
      Err(error)
    }

    function Extract(): (t: T)
      requires Ok?
    {
      value
    }
  }

  // ----- Python slices and integers -----

  /** s[a:b], which stops at the end of s. */
  function Slice(s: Bytes, a: nat, b: nat): (r: Bytes) {
    if a >= |s| || b <= a then [] else if b > |s| then s[a..] else s[a..b]
  }

  function From(s: Bytes, a: nat): (r: Bytes) {
    if a >= |s| then [] else s[a..]
  }

  function BitLength(x: nat): (n: nat) {
    if x == 0 then 0 else 1 + BitLength(x / 2)
  }

  /** x.to_bytes(len, 'big') */
  function ToBytes(x: nat, len: nat): (s: Bytes)
    ensures |s| == len
  {
    if len == 0 then [] else ToBytes(x / 0x100, len - 1) + [x % 0x100]
  }

  /** int.from_bytes(s, 'big') */
  function FromBytes(s: Bytes): (x: nat) {
    if s == [] then 0 else 0x100 * FromBytes(s[..|s| - 1]) + s[|s| - 1]
  }

  /** int_to_bytes(): one spare bit, so the top bit is clear. */
  function IntToBytes(x: nat): (s: Bytes) {
    ToBytes(x, (BitLength(x) + 8) / 8)
  }

  lemma BitLengthTwo(x: nat)
    ensures x >= 4 ==> BitLength(x) == BitLength(x / 4) + 2
    ensures x < 4 ==> BitLength(x) <= 2
  {
    assert x / 2 / 2 == x / 4;
    assert BitLength(x / 2) == if x / 2 == 0 then 0 else 1 + BitLength(x / 2 / 2);
  }

  lemma BitLengthFour(x: nat)
    ensures x >= 16 ==> BitLength(x) == BitLength(x / 16) + 4
    ensures x < 16 ==> BitLength(x) <= 4
  {
    assert x / 4 / 4 == x / 16;
    BitLengthTwo(x);
    BitLengthTwo(x / 4);
  }

  lemma BitLengthByte(x: nat)
    ensures x >= 0x100 ==> BitLength(x) == BitLength(x / 0x100) + 8
    ensures x < 0x100 ==> BitLength(x) <= 8
  {
    assert x / 16 / 16 == x / 0x100;
    BitLengthFour(x);
    BitLengthFour(x / 16);
  }

  lemma FromBytesAppend(s: Bytes, c: u8)
    ensures FromBytes(s + [c]) == 0x100 * FromBytes(s) + c
  {
    assert (s + [c])[..|s|] == s;
  }

  lemma {:induction false} BytesRoundTrip(x: nat, len: nat)
    requires BitLength(x) <= 8 * len
    ensures FromBytes(ToBytes(x, len)) == x
    decreases len
  {
    if len > 0 {
      BitLengthByte(x);
      BytesRoundTrip(x / 0x100, len - 1);
      FromBytesAppend(ToBytes(x / 0x100, len - 1), x % 0x100);
    }
  }

  /** A number of len bytes has at most eight bits for each. */
  lemma {:induction false} BitsOfBytes(s: Bytes)
    ensures BitLength(FromBytes(s)) <= 8 * |s|
    decreases |s|
  {
    if s != [] {
      var front, x := s[..|s| - 1], FromBytes(s);
      BitsOfBytes(front);
      BitLengthByte(x);
      assert x / 0x100 == FromBytes(front);
    }
  }

  /** The bytes of a number give the number back. */
  lemma IntRoundTrip(x: nat)
    ensures FromBytes(IntToBytes(x)) == x
  {
    BytesRoundTrip(x, (BitLength(x) + 8) / 8);
  }

  // ----- Headers -----

  /** struct.pack('<IIIIHH', ...) */
  function Shdr(imgType: u32, imgSize: u32, algo: u32, sigSize: u16): (s: Bytes)
    ensures |s| == SHDR_SIZE
  {
    Le32(MAGIC) + Le32(imgType) + Le32(imgSize) + Le32(algo) + Le16(HASH_SIZE) + Le16(sigSize)
  }

  datatype Header = Header(magic: u32, imgType: u32, imgSize: u32, algo: u32, hashSize: u16, sigSize: u16)

  function UnpackShdr(s: Bytes): (r: Result<Header>) {
    if |s| != SHDR_SIZE then Err(StructError)
    else Ok(Header(FromLe32(s[..4]), FromLe32(s[4..8]), FromLe32(s[8..12]), FromLe32(s[12..16]), FromLe16(s[16..18]),
        FromLe16(s[18..])))
  }

  lemma ShdrRoundTrip(imgType: u32, imgSize: u32, algo: u32, sigSize: u16)
    ensures UnpackShdr(Shdr(imgType, imgSize, algo, sigSize)) ==
            Ok(Header(MAGIC, imgType, imgSize, algo, HASH_SIZE, sigSize))
  {
    var s := Shdr(imgType, imgSize, algo, sigSize);
    assert s[..4] == Le32(MAGIC) && s[4..8] == Le32(imgType) && s[8..12] == Le32(imgSize) && s[12..16] == Le32(algo);
    assert s[16..18] == Le16(HASH_SIZE) && s[18..] == Le16(sigSize);
  }

  /** The header of a TA of one byte with a signature of 256 bytes, byte by byte; it starts with "HSTO". */
  lemma HeaderBytes()
    ensures Shdr(BOOTSTRAP_TA, 1, ALG_V1_5, 0x100) ==
            [0x48, 0x53, 0x54, 0x4f] + [1, 0, 0, 0] + [1, 0, 0, 0] + [0x30, 0x48, 0x00, 0x70] + [32, 0] + [0, 1]
  {
    ByteOrder(1);
    ByteOrder(32);
  }

  function SubkeyHdr(nameSize: u32, version: u32, maxDepth: u32, algo: u32): (s: Bytes)
    ensures |s| == SK_HDR_SIZE
  {
    Le32(nameSize) + Le32(version) + Le32(maxDepth) + Le32(algo) + Le32(2)
  }

  datatype SubkeyHeader = SubkeyHeader(nameSize: u32, version: u32, maxDepth: u32, algo: u32, attrCount: u32)

  function UnpackSubkeyHdr(s: Bytes): (r: Result<SubkeyHeader>) {
    if |s| != SK_HDR_SIZE then Err(StructError)
    else Ok(SubkeyHeader(FromLe32(s[..4]), FromLe32(s[4..8]), FromLe32(s[8..12]), FromLe32(s[12..16]),
        FromLe32(s[16..])))
  }

  lemma SubkeyHdrRoundTrip(nameSize: u32, version: u32, maxDepth: u32, algo: u32)
    ensures UnpackSubkeyHdr(SubkeyHdr(nameSize, version, maxDepth, algo)) ==
            Ok(SubkeyHeader(nameSize, version, maxDepth, algo, 2))
  {
    var s := SubkeyHdr(nameSize, version, maxDepth, algo);
    assert s[..4] == Le32(nameSize) && s[4..8] == Le32(version) && s[8..12] == Le32(maxDepth) &&
           s[12..16] == Le32(algo) && s[16..] == Le32(2);
  }

  /** One attribute reference: identifier, offset from the start of the image, length. */
  function AttrRef(id: u32, offs: u32, len: u32): (s: Bytes)
    ensures |s| == 12
  {
    Le32(id) + Le32(offs) + Le32(len)
  }

  // ----- Images -----

  /** A signed image, as the signer holds it before writing and the parser after reading. */
  datatype Image =
    | Ta(algo: u32, digest: Bytes, sig: Bytes, uuid: Bytes, taVersion: Bytes, img: Bytes)
    | Subkey(algo: u32, digest: Bytes, sig: Bytes, uuid: Bytes, nameSize: u32, version: u32, maxDepth: u32, key: Key)
  {
    /** The payload of the image, which img_size counts. */
    function Body(): (s: Bytes)
      requires Fits()
    {
      if Ta? then img else SubkeyBody(uuid, nameSize, version, maxDepth, algo, IntToBytes(key.n), IntToBytes(key.e))
    }

    /** The fields have their sizes, sizes and offsets fit their fields, and the algorithm is known. */
    predicate Fits() {
      && algo in {ALG_PSS, ALG_V1_5} && |digest| == HASH_SIZE && |sig| < 0x1_0000 && |uuid| == UUID_SIZE
      && (if Ta? then |taVersion| == 4 && |img| < WORD
          else ATTRS_END + |IntToBytes(key.n)| + |IntToBytes(key.e)| < WORD)
    }

    function Header(): (s: Bytes)
      requires Fits()
      ensures |s| == SHDR_SIZE
    {
      BodySize(this);
      Shdr(if Ta? then BOOTSTRAP_TA else SUBKEY, |Body()|, algo, |sig|)
    }

    /** What the digest is computed over. */
    function Hashed(): (s: Bytes)
      requires Fits()
    {
      if Ta? then Header() + uuid + taVersion + img else Header() + Body()
    }

    /** The image as write() emits it. */
    function Encoded(): (s: Bytes)
      requires Fits()
    {
      Header() + digest + sig + (if Ta? then uuid + taVersion + img else Body())
    }
  }

  function SubkeyBody(uuid: Bytes, nameSize: u32, version: u32, maxDepth: u32, algo: u32, n: Bytes,
                      e: Bytes): (s: Bytes)
    requires |uuid| == UUID_SIZE && ATTRS_END + |n| + |e| < WORD
    ensures |s| == ATTRS_END + |n| + |e|
  {
    uuid + SubkeyHdr(nameSize, version, maxDepth, algo)
    + AttrRef(ATTR_MODULUS, ATTRS_END, |n|) + AttrRef(ATTR_EXPONENT, ATTRS_END + |n|, |e|) + n + e
  }

  lemma BodySize(i: Image)
    requires i.Fits()
    ensures |i.Body()| < WORD
  {
  }

  // ----- Parsing -----

  /** What parse() leaves in a BinaryImage; a subkey also has the bytes behind it. */
  datatype Parsed = Parsed(shdr: Bytes, image: Image, nameImg: Bytes, nextInf: Bytes, img: Bytes)

  /** find_attr(): the bytes of the first attribute reference with that identifier, from reference k on. */
  function FindAttr(inf: Bytes, subkeyOffs: nat, count: u32, id: u32, k: nat): (r: Result<Bytes>)
    requires k <= count
    decreases count - k
  {
    if k == count then Err(NoAttribute)
    else
      var o := subkeyOffs + UUID_SIZE + SK_HDR_SIZE + k * 12;
      var ref := Slice(inf, o, o + 12);
      if |ref| != 12 then Err(StructError)
      else if FromLe32(ref[..4]) == id then
        var at := subkeyOffs + FromLe32(ref[4..8]);
        Ok(Slice(inf, at, at + FromLe32(ref[8..])))
      else FindAttr(inf, subkeyOffs, count, id, k + 1)
  }

  /** The part of parse() behind the signature of a TA. */
  function ParseTa(inf: Bytes, h: Header, digest: Bytes, sig: Bytes, offs: nat): (r: Result<Parsed>) {
    var uuid := Slice(inf, offs, offs + UUID_SIZE);
    var version := Slice(inf, offs + UUID_SIZE, offs + UUID_SIZE + 4);
    var img := From(inf, offs + UUID_SIZE + 4);
    if |img| != h.imgSize then Err(BadImageSize)
    else Ok(Parsed(Slice(inf, 0, SHDR_SIZE), Ta(h.algo, digest, sig, uuid, version, img), [], [], img))
  }

  /** The part of parse() behind the signature of a subkey. */
  function ParseSubkey(inf: Bytes, h: Header, digest: Bytes, sig: Bytes, subkeyOffs: nat): (r: Result<Parsed>) {
    var sk :- UnpackSubkeyHdr(Slice(inf, subkeyOffs + UUID_SIZE, subkeyOffs + UUID_SIZE + SK_HDR_SIZE));
    var n :- FindAttr(inf, subkeyOffs, sk.attrCount, ATTR_MODULUS, 0);
    var e :- FindAttr(inf, subkeyOffs, sk.attrCount, ATTR_EXPONENT, 0);
    SubkeyFields(inf, h, digest, sig, subkeyOffs, sk, Key(FromBytes(n), FromBytes(e)))
  }

  function SubkeyFields(inf: Bytes, h: Header, digest: Bytes, sig: Bytes, subkeyOffs: nat, sk: SubkeyHeader,
                        key: Key): (r: Result<Parsed>) {
    var uuid := Slice(inf, subkeyOffs, subkeyOffs + UUID_SIZE);
    var attrOffs := subkeyOffs + UUID_SIZE + SK_HDR_SIZE;
    var attr := if h.imgSize < UUID_SIZE + SK_HDR_SIZE then [] else Slice(inf, attrOffs, subkeyOffs + h.imgSize);
    var offs := attrOffs + |attr|;
    var img := Slice(inf, subkeyOffs, offs);
    if |img| != h.imgSize then Err(BadImageSize)
    else Ok(Parsed(Slice(inf, 0, SHDR_SIZE), Subkey(h.algo, digest, sig, uuid, sk.nameSize, sk.version, sk.maxDepth,
        key),
                   Slice(inf, offs, offs + sk.nameSize), From(inf, offs + sk.nameSize), img))
  }

  /** BinaryImage.parse() */
  function Parse(inf: Bytes): (r: Result<Parsed>) {
    var h :- UnpackShdr(Slice(inf, 0, SHDR_SIZE));
    if h.magic != MAGIC then Err(BadMagic)
    else if h.algo !in {ALG_PSS, ALG_V1_5} then Err(BadAlgorithm)
    else if h.hashSize != HASH_SIZE then Err(BadDigestLength)
    else
      var digest := Slice(inf, SHDR_SIZE, SHDR_SIZE + HASH_SIZE);
      var sig := Slice(inf, SHDR_SIZE + HASH_SIZE, SHDR_SIZE + HASH_SIZE + h.sigSize);
      var offs := SHDR_SIZE + HASH_SIZE + h.sigSize;
      if h.imgType == BOOTSTRAP_TA then ParseTa(inf, h, digest, sig, offs)
      else if h.imgType == SUBKEY then ParseSubkey(inf, h, digest, sig, offs)
      else Err(Unsupported)
  }

  /** Whatever is parsed has the header of such an image in front, and digest and signature behind it. */
  lemma ParsedIsInFile(inf: Bytes)
    requires Parse(inf).Ok?
    ensures |inf| >= 20 && Parse(inf).value.shdr == inf[..20] && inf[..4] == [0x48, 0x53, 0x54, 0x4f]
    ensures FromLe32(inf[4..8]) == (if Parse(inf).value.image.Ta? then 1 else 3)
    ensures FromLe32(inf[12..16]) == Parse(inf).value.image.algo && FromLe32(inf[12..16]) in {0x70414930, 0x70004830}
    ensures FromLe16(inf[16..18]) == 32 && |Parse(inf).value.img| == FromLe32(inf[8..12])
    ensures Parse(inf).value.image.digest == Slice(inf, 20, 52)
    ensures Parse(inf).value.image.sig == Slice(inf, 52, 52 + FromLe16(inf[18..20]))
  {
    var s := Slice(inf, 0, SHDR_SIZE);
    assert s == inf[..20];
    assert s[..4] == inf[..4] && s[4..8] == inf[4..8] && s[8..12] == inf[8..12] && s[12..16] == inf[12..16];
    assert s[16..18] == inf[16..18] && s[18..] == inf[18..20];
    MagicBytes(inf[..4]);
  }

  lemma MagicBytes(s: Bytes)
    requires |s| == 4 && FromLe32(s) == MAGIC
    ensures s == [0x48, 0x53, 0x54, 0x4f]
  {
  }

  // ----- Round trips -----

  lemma SliceMiddle(a: Bytes, b: Bytes, c: Bytes)
    ensures Slice(a + b + c, |a|, |a| + |b|) == b
    ensures From(a + b + c, |a| + |b|) == c
  {
    var s := a + b + c;
    if b != [] {
      assert s[|a|..|a| + |b|] == b;
      assert |c| == 0 ==> s[|a|..] == b;
    }
    if c != [] {
      assert s[|a| + |b|..] == c;
    }
  }

  /** Four parts in a row are found by their offsets. */
  lemma SliceFour(a: Bytes, b: Bytes, c: Bytes, d: Bytes)
    ensures var s := a + b + c + d;
            && Slice(s, 0, |a|) == a && Slice(s, |a|, |a| + |b|) == b
            && Slice(s, |a| + |b|, |a| + |b| + |c|) == c && From(s, |a| + |b| + |c|) == d
  {
    var s := a + b + c + d;
    SliceMiddle([], a, b + c + d);
    assert s == [] + a + (b + c + d);
    SliceMiddle(a, b, c + d);
    assert s == a + b + (c + d);
    SliceMiddle(a + b, c, d);
    assert s == (a + b) + c + d;
  }

  /** Slices behind a prefix are slices of what follows it. */
  lemma SliceBehind(front: Bytes, rest: Bytes, a: nat, b: nat)
    ensures Slice(front + rest, |front| + a, |front| + b) == Slice(rest, a, b)
    ensures From(front + rest, |front| + a) == From(rest, a)
  {
    var s := front + rest;
    if a < |rest| {
      assert s[|front| + a..] == rest[a..];
      if a < b <= |rest| {
        assert s[|front| + a..|front| + b] == rest[a..b];
      }
    }
  }

  function HeaderOf(i: Image): (h: Header)
    requires i.Fits()
  {
    BodySize(i);
    Header(MAGIC, if i.Ta? then BOOTSTRAP_TA else SUBKEY, |i.Body()|, i.algo, HASH_SIZE, |i.sig|)
  }

  /** Parsing an encoded image comes down to parsing what is behind its signature. */
  lemma PrefixIsParsed(i: Image, rest: Bytes)
    requires i.Fits()
    ensures var inf := i.Header() + i.digest + i.sig + rest;
            var offs := SHDR_SIZE + HASH_SIZE + |i.sig|;
            && Slice(inf, 0, SHDR_SIZE) == i.Header()
            && Parse(inf) == if i.Ta? then ParseTa(inf, HeaderOf(i), i.digest, i.sig, offs)
                             else ParseSubkey(inf, HeaderOf(i), i.digest, i.sig, offs)
  {
    HeaderIsUnpacked(i);
    SliceFour(i.Header(), i.digest, i.sig, rest);
    ParsedByType(i.Header() + i.digest + i.sig + rest, HeaderOf(i), i.digest, i.sig);
  }

  lemma HeaderIsUnpacked(i: Image)
    requires i.Fits()
    ensures UnpackShdr(i.Header()) == Ok(HeaderOf(i))
  {
    BodySize(i);
    ShdrRoundTrip(if i.Ta? then BOOTSTRAP_TA else SUBKEY, |i.Body()|, i.algo, |i.sig|);
  }

  lemma ParsedByType(inf: Bytes, h: Header, digest: Bytes, sig: Bytes)
    requires UnpackShdr(Slice(inf, 0, SHDR_SIZE)) == Ok(h) && h.imgType in {BOOTSTRAP_TA, SUBKEY}
    requires h.magic == MAGIC && h.algo in {ALG_PSS, ALG_V1_5} && h.hashSize == HASH_SIZE
    requires Slice(inf, SHDR_SIZE, SHDR_SIZE + HASH_SIZE) == digest
    requires Slice(inf, SHDR_SIZE + HASH_SIZE, SHDR_SIZE + HASH_SIZE + h.sigSize) == sig
    ensures var offs := SHDR_SIZE + HASH_SIZE + h.sigSize;
            Parse(inf) == if h.imgType == BOOTSTRAP_TA then ParseTa(inf, h, digest, sig, offs)
                          else ParseSubkey(inf, h, digest, sig, offs)
  {
  }

  lemma TaPartIsParsed(front: Bytes, h: Header, digest: Bytes, sig: Bytes, uuid: Bytes, taVersion: Bytes, img: Bytes)
    requires |uuid| == UUID_SIZE && |taVersion| == 4 && h.imgSize == |img|
    ensures var inf := front + (uuid + taVersion + img);
            ParseTa(inf, h, digest, sig, |front|) ==
            Ok(Parsed(Slice(inf, 0, SHDR_SIZE), Ta(h.algo, digest, sig, uuid, taVersion, img), [], [], img))
  {
    var rest := uuid + taVersion + img;
    SliceBehind(front, rest, 0, UUID_SIZE);
    SliceBehind(front, rest, UUID_SIZE, UUID_SIZE + 4);
    SliceMiddle([], uuid, taVersion + img);
    assert [] + uuid + (taVersion + img) == rest;
    SliceMiddle(uuid, taVersion, img);
  }

  /** A TA image is parsed back. */
  lemma TaRoundTrip(i: Image)
    requires i.Ta? && i.Fits()
    ensures Parse(i.Encoded()) == Ok(Parsed(i.Header(), i, [], [], i.img))
  {
    var front := i.Header() + i.digest + i.sig;
    PrefixIsParsed(i, i.uuid + i.taVersion + i.img);
    TaPartIsParsed(front, HeaderOf(i), i.digest, i.sig, i.uuid, i.taVersion, i.img);
  }

  // ----- Subkeys -----

  lemma AttrRefRoundTrip(id: u32, offs: u32, len: u32)
    ensures var s := AttrRef(id, offs, len);
            FromLe32(s[..4]) == id && FromLe32(s[4..8]) == offs && FromLe32(s[8..]) == len
  {
    var s := AttrRef(id, offs, len);
    assert s[..4] == Le32(id) && s[4..8] == Le32(offs) && s[8..] == Le32(len);
  }

  /** The parts of a subkey body lie from offset o on. */
  predicate PartsAt(inf: Bytes, o: nat, uuid: Bytes, hdr: Bytes, n: Bytes, e: Bytes)
    requires ATTRS_END + |n| + |e| < WORD
  {
    && Slice(inf, o, o + 16) == uuid && Slice(inf, o + 16, o + 36) == hdr
    && Slice(inf, o + 36, o + 48) == AttrRef(ATTR_MODULUS, ATTRS_END, |n|)
    && Slice(inf, o + 48, o + 60) == AttrRef(ATTR_EXPONENT, ATTRS_END + |n|, |e|)
    && Slice(inf, o + 60, o + 60 + |n|) == n && Slice(inf, o + 60 + |n|, o + 60 + |n| + |e|) == e
  }

  lemma BodyParts(uuid: Bytes, hdr: Bytes, n: Bytes, e: Bytes, tail: Bytes)
    requires |uuid| == UUID_SIZE && |hdr| == SK_HDR_SIZE && ATTRS_END + |n| + |e| < WORD
    ensures PartsAt(uuid + hdr + AttrRef(ATTR_MODULUS, ATTRS_END, |n|) + AttrRef(ATTR_EXPONENT, ATTRS_END + |n|, |e|) +
            n + e + tail,
                    0, uuid, hdr, n, e)
  {
    var a1, a2 := AttrRef(ATTR_MODULUS, ATTRS_END, |n|), AttrRef(ATTR_EXPONENT, ATTRS_END + |n|, |e|);
    var s := uuid + hdr + a1 + a2 + n + e + tail;
    SliceFour(uuid, hdr, a1, a2 + n + e + tail);
    assert s == uuid + hdr + a1 + (a2 + n + e + tail);
    var front := uuid + hdr + a1;
    SliceFour(a2, n, e, tail);
    assert s == front + (a2 + n + e + tail);
    SliceBehind(front, a2 + n + e + tail, 0, 12);
    SliceBehind(front, a2 + n + e + tail, 12, 12 + |n|);
    SliceBehind(front, a2 + n + e + tail, 12 + |n|, 12 + |n| + |e|);
  }

  lemma PartsBehind(front: Bytes, s: Bytes, uuid: Bytes, hdr: Bytes, n: Bytes, e: Bytes)
    requires ATTRS_END + |n| + |e| < WORD && PartsAt(s, 0, uuid, hdr, n, e)
    ensures PartsAt(front + s, |front|, uuid, hdr, n, e)
  {
    SliceBehind(front, s, 0, 16);
    SliceBehind(front, s, 16, 36);
    SliceBehind(front, s, 36, 48);
    SliceBehind(front, s, 48, 60);
    SliceBehind(front, s, 60, 60 + |n|);
    SliceBehind(front, s, 60 + |n|, 60 + |n| + |e|);
  }

  /** find_attr() follows the two references of a subkey. */
  lemma AttributesAreFound(inf: Bytes, o: nat, uuid: Bytes, hdr: Bytes, n: Bytes, e: Bytes)
    requires ATTRS_END + |n| + |e| < WORD && PartsAt(inf, o, uuid, hdr, n, e)
    ensures FindAttr(inf, o, 2, ATTR_MODULUS, 0) == Ok(n) && FindAttr(inf, o, 2, ATTR_EXPONENT, 0) == Ok(e)
  {
    AttrRefRoundTrip(ATTR_MODULUS, ATTRS_END, |n|);
    AttrRefRoundTrip(ATTR_EXPONENT, ATTRS_END + |n|, |e|);
    assert FindAttr(inf, o, 2, ATTR_EXPONENT, 1) == Ok(e);
  }

  lemma FieldsAreParsed(inf: Bytes, o: nat, h: Header, digest: Bytes, sig: Bytes, sk: SubkeyHeader, key: Key,
                        body: Bytes, tail: Bytes)
    requires h.imgSize == |body| >= ATTRS_END && TailAt(inf, o, body, tail, sk.nameSize)
    ensures SubkeyFields(inf, h, digest, sig, o, sk, key) ==
            Ok(Parsed(Slice(inf, 0, SHDR_SIZE),
                      Subkey(h.algo, digest, sig, Slice(inf, o, o + UUID_SIZE), sk.nameSize, sk.version, sk.maxDepth,
                          key),
                      Slice(tail, 0, sk.nameSize), From(tail, sk.nameSize), body))
  {
  }

  /** What parse() reads behind the signature of a subkey, when its parts lie there. */
  lemma SubkeyPartIsParsed(inf: Bytes, o: nat, h: Header, i: Image, hdr: Bytes, n: Bytes, e: Bytes, body: Bytes,
                           tail: Bytes)
    requires i.Subkey? && h.algo == i.algo && h.imgSize == |body| >= ATTRS_END && ATTRS_END + |n| + |e| < WORD
    requires hdr == SubkeyHdr(i.nameSize, i.version, i.maxDepth, i.algo) && FromBytes(n) == i.key.n &&
             FromBytes(e) == i.key.e
    requires PartsAt(inf, o, i.uuid, hdr, n, e) && TailAt(inf, o, body, tail, i.nameSize)
    ensures ParseSubkey(inf, h, i.digest, i.sig, o) ==
            Ok(Parsed(Slice(inf, 0, SHDR_SIZE), i, Slice(tail, 0, i.nameSize), From(tail, i.nameSize), body))
  {
    AttributesAreFound(inf, o, i.uuid, hdr, n, e);
    SubkeyHdrRoundTrip(i.nameSize, i.version, i.maxDepth, i.algo);
    var sk := SubkeyHeader(i.nameSize, i.version, i.maxDepth, i.algo, 2);
    FieldsAreParsed(inf, o, h, i.digest, i.sig, sk, i.key, body, tail);
  }

  /** An encoded subkey lies behind its signature as parse() expects it. */
  lemma SubkeyLayout(i: Image, front: Bytes, tail: Bytes)
    requires i.Subkey? && i.Fits()
    ensures PartsAt(front + (i.Body() + tail), |front|, i.uuid, SubkeyHdr(i.nameSize, i.version, i.maxDepth, i.algo),
                    IntToBytes(i.key.n), IntToBytes(i.key.e))
    ensures |i.Body()| >= ATTRS_END && TailAt(front + (i.Body() + tail), |front|, i.Body(), tail, i.nameSize)
  {
    var n, e, hdr := IntToBytes(i.key.n), IntToBytes(i.key.e), SubkeyHdr(i.nameSize, i.version, i.maxDepth, i.algo);
    BodyParts(i.uuid, hdr, n, e, tail);
    PartsBehind(front, i.Body() + tail, i.uuid, hdr, n, e);
    BodySlices(front, i.Body(), tail, i.nameSize);
  }

  lemma SubkeyBehindSignature(i: Image, front: Bytes, inf: Bytes, tail: Bytes)
    requires i.Subkey? && i.Fits() && inf == front + (i.Body() + tail)
    ensures ParseSubkey(inf, HeaderOf(i), i.digest, i.sig, |front|) ==
            Ok(Parsed(Slice(inf, 0, SHDR_SIZE), i, Slice(tail, 0, i.nameSize), From(tail, i.nameSize), i.Body()))
  {
    SubkeyLayout(i, front, tail);
    IntRoundTrip(i.key.n);
    IntRoundTrip(i.key.e);
    SubkeyPartIsParsed(inf, |front|, HeaderOf(i), i, SubkeyHdr(i.nameSize, i.version, i.maxDepth, i.algo),
                       IntToBytes(i.key.n), IntToBytes(i.key.e), i.Body(), tail);
  }

  lemma Regroup(a: Bytes, b: Bytes, c: Bytes, d: Bytes, e: Bytes)
    ensures a + b + c + d + e == (a + b + c) + (d + e)
  {
  }

  /** A subkey is parsed back, with the bytes behind it cut into the name and the next image. */
  lemma SubkeyRoundTrip(i: Image, tail: Bytes)
    requires i.Subkey? && i.Fits()
    ensures Parse(i.Encoded() + tail) == Ok(Parsed(i.Header(), i, Slice(tail, 0, i.nameSize), From(tail, i.nameSize),
            i.Body()))
  {
    Regroup(i.Header(), i.digest, i.sig, i.Body(), tail);
    PrefixIsParsed(i, i.Body() + tail);
    SubkeyBehindSignature(i, i.Header() + i.digest + i.sig, i.Encoded() + tail, tail);
  }

  /** The body and the bytes behind it, as parse() slices them. */
  predicate TailAt(inf: Bytes, o: nat, body: Bytes, tail: Bytes, nameSize: u32)
    requires |body| >= ATTRS_END
  {
    && |Slice(inf, o + 36, o + |body|)| == |body| - 36
    && Slice(inf, o, o + |body|) == body
    && Slice(inf, o + |body|, o + |body| + nameSize) == Slice(tail, 0, nameSize)
    && From(inf, o + |body| + nameSize) == From(tail, nameSize)
  }

  lemma BodySlices(front: Bytes, body: Bytes, tail: Bytes, nameSize: u32)
    requires |body| >= ATTRS_END
    ensures TailAt(front + (body + tail), |front|, body, tail, nameSize)
  {
    BodyIsFound(front, body, tail);
    TailIsFound(front, body, tail, nameSize);
  }

  lemma BodyIsFound(front: Bytes, body: Bytes, tail: Bytes)
    requires |body| >= ATTRS_END
    ensures var inf, o := front + (body + tail), |front|;
            |Slice(inf, o + 36, o + |body|)| == |body| - 36 && Slice(inf, o, o + |body|) == body
  {
    SliceBehind(front, body + tail, 36, |body|);
    SliceBehind(front, body + tail, 0, |body|);
    SliceFront(body, tail);
  }

  lemma SliceFront(a: Bytes, b: Bytes)
    ensures Slice(a + b, 0, |a|) == a
  {
    SliceMiddle([], a, b);
    assert [] + a + b == a + b;
  }

  lemma TailIsFound(front: Bytes, body: Bytes, tail: Bytes, n: nat)
    ensures var inf, o := front + (body + tail), |front| + |body|;
            Slice(inf, o, o + n) == Slice(tail, 0, n) && From(inf, o + n) == From(tail, n)
  {
    assert front + (body + tail) == (front + body) + tail;
    SliceBehind(front + body, tail, 0, n);
    SliceBehind(front + body, tail, n, 0);
  }
}
