/**
 * Mechanisms and their parameters on the wire: [type][size][parameters]. What the
 * parameters of a mechanism consist of depends on its type only.
 */
module Mechanism {
  import opened Common
  import opened Words
  import opened Serialize

  /** The functions serialize_mecha_*() that a mechanism can be given to. */
  datatype Shape = Bare | Iv | Counter | DeriveString | CbcData | Ecdh | Pss | Oaep | MacLength | KeyWrap | EdDsa

  /** The mechanisms serialize_ck_mecha_params() knows, by CKM_ number. */
  function ShapeOf(kind: u64): (s: Option<Shape>) {
    if kind in {0x0350, 0x1080, 0x1081, 0x108a, 0x0210, 0x0220, 0x0255, 0x0250, 0x0260, 0x0270,
                0x0211, 0x0221, 0x0256, 0x0251, 0x0261, 0x0271, 0x1040, 0x1055,
                0x1041, 0x1042, 0x1043, 0x1044, 0x1045, 0x1046,
                0x0000, 0x0001, 0x0005, 0x0006, 0x0046, 0x0040, 0x0041, 0x0042} then Some(Bare)
    else if kind == 0x1057 then Some(EdDsa)
    else if kind in {0x1082, 0x1085, 0x1089} then Some(Iv)
    else if kind == 0x1086 then Some(Counter)
    else if kind == 0x1104 then Some(DeriveString)
    else if kind == 0x1105 then Some(CbcData)
    else if kind in {0x1050, 0x1051} then Some(Ecdh)
    else if kind in {0x000d, 0x000e, 0x0043, 0x0044, 0x0045, 0x0047} then Some(Pss)
    else if kind == 0x0009 then Some(Oaep)
    else if kind in {0x108b, 0x0212, 0x0222, 0x0257, 0x0252, 0x0262, 0x0272} then Some(MacLength)
    else if kind == 0x1054 then Some(KeyWrap)
    else None
  }

  /** A piece of a parameter structure: an integer, a 16-byte array, memory with its length, or all of the memory. */
  datatype Part = Word(value: u64) | Block(bytes: Bytes) | Counted(bytes: Bytes) | Whole(bytes: Bytes)
  {
    /** What the piece takes on the wire. */
    function Bytes(): (s: Words.Bytes) {
      match this
      case Word(v) => Le32(v % WORD)
      case Block(b) => b
      case Counted(b) => Le32(|b| % WORD) + b
      case Whole(b) => b
    }

    /** The piece with integers cut to 32 bits. */
    function Narrow(): (p: Part) {
      if Word? then Word(value % WORD) else this
    }
  }

  datatype PartKind = AWord | ABlock | ACounted | AWhole

  /** The pieces of the parameters of a mechanism, in the order they are written. */
  function Pattern(s: Shape): (p: seq<PartKind>) {
    match s
    case Bare => []
    case Iv => [AWhole]
    case Counter => [AWord, ABlock]
    case DeriveString => [ACounted]
    case CbcData => [ABlock, ACounted]
    case Ecdh => [AWord, ACounted, ACounted]
    case Pss => [AWord, AWord, AWord]
    case Oaep => [AWord, AWord, AWord, ACounted]
    case MacLength => [AWord]
    case KeyWrap => [AWord, AWord, AWord, AWord, ACounted]
    case EdDsa => [AWord, ACounted]
  }

  predicate IsOf(p: Part, k: PartKind) {
    match k
    case AWord => p.Word?
    case ABlock => p.Block? && |p.bytes| == 16
    case ACounted => p.Counted?
    case AWhole => p.Whole?
  }

  predicate Conforms(parts: seq<Part>, pattern: seq<PartKind>) {
    |parts| == |pattern| && forall k :: 0 <= k < |parts| ==> IsOf(parts[k], pattern[k])
  }

  /** CK_MECHANISM: its type, ulParameterLen, and what pParameter points to. */
  datatype Mech = Mech(kind: u64, paramLen: u64, parts: seq<Part>)

  /** The parameters are the structure that goes with the type. */
  predicate WellTyped(m: Mech) {
    var shape := ShapeOf(m.kind);
    && (shape.Some? && shape != Some(Bare) ==> Conforms(m.parts, Pattern(shape.value)))
    && (shape == Some(Iv) ==> |m.parts[0].bytes| == m.paramLen)
  }

  // ----- Written -----

  function Body(parts: seq<Part>): (s: Bytes) {
    if parts == [] then [] else parts[0].Bytes() + Body(parts[1..])
  }

  /** The ulParameterLen a function insists on. */
  function Insists(s: Shape): (n: Option<(u64, Rv)>) {
    match s
    case Bare => Some((0, MechanismParamInvalid))
    case Pss => Some((24, ArgumentsBad))
    case Oaep => Some((40, ArgumentsBad))
    case KeyWrap => Some((16, ArgumentsBad))
    case MacLength => Some((8, ArgumentsBad))
    case _ => None
  }

  /** The size each function computes before it writes. */
  function DeclaredSize(s: Shape, parts: seq<Part>): (n: nat)
    requires s != Bare ==> Conforms(parts, Pattern(s))
  {
    match s
    case Bare => 0
    case Iv => |parts[0].bytes|
    case Counter => 4 + 16
    case DeriveString => 4 + |parts[0].bytes|
    case CbcData => 16 + 4 + |parts[1].bytes|
    case Ecdh => 3 * 4 + |parts[1].bytes| + |parts[2].bytes|
    case Pss => 3 * 4
    case Oaep => 4 * 4 + |parts[3].bytes|
    case MacLength => 4
    case KeyWrap => 5 * 4 + |parts[4].bytes|
    case EdDsa => 2 * 4 + |parts[1].bytes|
  }

  /** serialize_ck_mecha_params() */
  function Blob(m: Mech): (w: Wire)
    requires WellTyped(m)
  {
    var shape := ShapeOf(m.kind);
    if m.kind % WORD == UNDEFINED_ID || shape.None? then Fail(MechanismInvalid)
    else
      var insists := Insists(shape.value);
      if insists.Some? && m.paramLen != insists.value.0 then Fail(insists.value.1)
      else
        var parts := Written(m, shape.value);
        Wire(Le32(m.kind % WORD) + Le32(DeclaredSize(shape.value, parts) % WORD) + Body(parts))
  }

  /** A mechanism without parameters writes none, whatever pParameter is. */
  function Written(m: Mech, s: Shape): (parts: seq<Part>) {
    if s == Bare then [] else m.parts
  }

  lemma BodyStep(parts: seq<Part>, n: nat)
    requires n < |parts|
    ensures Body(parts[n..]) == parts[n].Bytes() + Body(parts[n + 1..])
  {
    assert parts[n..][1..] == parts[n + 1..];
  }

  /** serialize_ck_mecha_params(): each serialize_mecha_*() appends type, size and the pieces of its structure. */
  method SerializeMechanism(obj: Serializer, m: Mech) returns (rv: Rv)
    requires WellTyped(m)
    modifies obj
    ensures rv == CkOk ==> Blob(m) == Wire(obj.buffer)
    ensures rv != CkOk && rv != HostMemory ==> Blob(m) == Fail(rv)
  {
    obj.buffer, obj.itemCount := [], 0;
    obj.kind := m.kind % WORD;
    if obj.kind == UNDEFINED_ID {
      return MechanismInvalid;
    }
    var shape := ShapeOf(m.kind);
    if shape.None? {
      return MechanismInvalid;
    }
    var insists := Insists(shape.value);
    if insists.Some? && m.paramLen != insists.value.0 {
      return insists.value.1;
    }
    var parts := Written(m, shape.value);
    rv := AppendBlob(obj, obj.kind, DeclaredSize(shape.value, parts) % WORD, parts);
  }

  /** What all the functions do: type, size, pieces. */
  method AppendBlob(obj: Serializer, kind: u32, size: u32, parts: seq<Part>) returns (rv: Rv)
    requires obj.buffer == []
    modifies obj`buffer
    ensures rv == CkOk || rv == HostMemory
    ensures rv == CkOk ==> obj.buffer == Le32(kind) + Le32(size) + Body(parts)
  {
    Small(kind);
    Small(size);
    rv := obj.Append32(kind);
    if rv != CkOk {
      return;
    }
    rv := obj.Append32(size);
    if rv != CkOk {
      return;
    }
    rv := AppendParts(obj, parts);
  }

  lemma Small(x: u32)
    ensures x % WORD == x
  {
  }

  lemma CutTwice(x: nat)
    ensures x % WORD % WORD == x % WORD
  {
  }

  method AppendParts(obj: Serializer, parts: seq<Part>) returns (rv: Rv)
    modifies obj`buffer
    ensures rv == CkOk || rv == HostMemory
    ensures rv == CkOk ==> obj.buffer == old(obj.buffer) + Body(parts)
  {
    var n := 0;
    rv := CkOk;
    while n < |parts|
      invariant 0 <= n <= |parts| && rv == CkOk && obj.buffer + Body(parts[n..]) == old(obj.buffer) + Body(parts)
    {
      rv := AppendPart(obj, parts[n]);
      if rv != CkOk {
        return;
      }
      BodyStep(parts, n);
      n := n + 1;
    }
  }

  method AppendPart(obj: Serializer, p: Part) returns (rv: Rv)
    modifies obj`buffer
    ensures rv == CkOk || rv == HostMemory
    ensures rv == CkOk ==> obj.buffer == old(obj.buffer) + p.Bytes()
  {
    match p {
      case Word(v) =>
        rv := obj.Append32(v);
      case Counted(b) =>
        rv := obj.Append32(|b| % WORD);
        if rv == CkOk {
          rv := obj.Append(b);
          CutTwice(|b|);
        }
      case Block(b) =>
        rv := obj.Append(b);
      case Whole(b) =>
        rv := obj.Append(b);
    }
  }

  // ----- Read -----

  /** The pieces of a pattern from the front of s, which they have to use up. */
  function ReadParts(pattern: seq<PartKind>, s: Bytes): (r: Option<seq<Part>>)
    decreases |pattern|
  {
    if pattern == [] then if s == [] then Some([]) else None
    else
      var p := ReadPart(pattern[0], s);
      if p.None? then None
      else
        var rest := ReadParts(pattern[1..], s[|p.value.Bytes()|..]);
        if rest.None? then None else Some([p.value] + rest.value)
  }

  function ReadPart(k: PartKind, s: Bytes): (p: Option<Part>)
    ensures p.Some? ==> |p.value.Bytes()| <= |s|
  {
    match k
    case AWord => if |s| < 4 then None else Some(Word(FromLe32(s[..4])))
    case ABlock => if |s| < 16 then None else Some(Block(s[..16]))
    case ACounted =>
      if |s| < 4 || 4 + FromLe32(s[..4]) > |s| then None else Some(Counted(s[4..4 + FromLe32(s[..4])]))
    case AWhole => Some(Whole(s))
  }

  /** Where a serialised mechanism ends: type, parameters, and what follows. */
  function Split(s: Bytes): (r: Option<(u32, Bytes, Bytes)>) {
    if !Starts(s) then None else Some((IdOf(s), DataOf(s), RestOf(s)))
  }

  // ----- Written and read -----

  function Taken(parts: seq<Part>, k: nat): (n: nat) {
    if k < |parts| then |parts[k].Bytes()| else 0
  }

  lemma SizeStep(parts: seq<Part>, n: nat)
    ensures n < |parts| ==> |Body(parts[n..])| == Taken(parts, n) + |Body(parts[n + 1..])|
  {
    if n < |parts| {
      BodyStep(parts, n);
    }
  }

  lemma SizeOfFive(parts: seq<Part>)
    requires |parts| <= 5
    ensures |Body(parts)| == Taken(parts, 0) + Taken(parts, 1) + Taken(parts, 2) + Taken(parts, 3) + Taken(parts, 4)
  {
    assert parts[0..] == parts && parts[|parts|..] == [];
    SizeStep(parts, 0);
    SizeStep(parts, 1);
    SizeStep(parts, 2);
    SizeStep(parts, 3);
    SizeStep(parts, 4);
  }

  /** The announced size is the size of what is written. */
  lemma SizeIsExact(s: Shape, parts: seq<Part>)
    requires Conforms(parts, Pattern(s))
    ensures DeclaredSize(s, parts) == |Body(parts)|
  {
    SizeOfFive(parts);
  }

  predicate WholeIsLast(pattern: seq<PartKind>) {
    forall k :: 0 <= k < |pattern| - 1 ==> pattern[k] != AWhole
  }

  function Narrowed(parts: seq<Part>): (r: seq<Part>) {
    seq(|parts|, k requires 0 <= k < |parts| => parts[k].Narrow())
  }

  lemma PartRoundTrip(p: Part, k: PartKind, rest: Bytes)
    requires IsOf(p, k) && |p.Bytes()| < WORD && (k == AWhole ==> rest == [])
    ensures ReadPart(k, p.Bytes() + rest) == Some(p.Narrow())
    ensures (p.Bytes() + rest)[|p.Narrow().Bytes()|..] == rest
  {
    var s := p.Bytes() + rest;
    match p {
      case Word(v) =>
        CutTwice(v);
        assert s[..4] == Le32(v % WORD);
      case Counted(b) =>
        SmallMod(|b|);
        assert s[..4] == Le32(|b|) && s[4..4 + |b|] == b;
      case Block(b) =>
        assert s[..16] == b;
      case Whole(b) =>
        assert s == b;
    }
  }

  /** Parameters are read back piece by piece, integers cut to 32 bits. */
  lemma {:induction false} PartsRoundTrip(parts: seq<Part>, pattern: seq<PartKind>)
    requires Conforms(parts, pattern) && WholeIsLast(pattern) && |Body(parts)| < WORD
    ensures ReadParts(pattern, Body(parts)) == Some(Narrowed(parts))
    decreases |parts|
  {
    if parts == [] {
      assert Narrowed(parts) == [];
    } else {
      var rest := Body(parts[1..]);
      if pattern[0] == AWhole {
        assert parts[1..] == [];
      }
      PartRoundTrip(parts[0], pattern[0], rest);
      PartsRoundTrip(parts[1..], pattern[1..]);
      NarrowedCons(parts);
      ReadOn(pattern, Body(parts), parts[0].Narrow(), rest);
    }
  }

  lemma NarrowedCons(parts: seq<Part>)
    requires parts != []
    ensures Narrowed(parts) == [parts[0].Narrow()] + Narrowed(parts[1..])
  {
  }

  lemma ReadOn(pattern: seq<PartKind>, s: Bytes, p: Part, rest: Bytes)
    requires pattern != [] && ReadPart(pattern[0], s) == Some(p) && s[|p.Bytes()|..] == rest
    ensures var r := ReadParts(pattern[1..], rest);
            ReadParts(pattern, s) == if r.None? then None else Some([p] + r.value)
  {
  }

  lemma PatternsAreGood(s: Shape)
    ensures WholeIsLast(Pattern(s))
  {
  }

  /**
   * A serialised mechanism says where it ends, and its type says how to read its
   * parameters: every piece comes back, integers cut to 32 bits.
   */
  lemma BlobRoundTrip(m: Mech, rest: Bytes)
    requires WellTyped(m) && Blob(m).Wire? && |Blob(m).bytes| < WORD
    ensures var shape := ShapeOf(m.kind).value;
            var parts := Written(m, shape);
            && Split(Blob(m).bytes + rest) == Some((m.kind, Body(parts), rest))
            && ReadParts(Pattern(shape), Body(parts)) == Some(Narrowed(parts))
  {
    var shape := ShapeOf(m.kind).value;
    var parts := Written(m, shape);
    SizeIsExact(shape, parts);
    PatternsAreGood(shape);
    KnownIsNarrow(m.kind);
    BlobIsFrame(m.kind, Body(parts));
    PartsRoundTrip(parts, Pattern(shape));
    FrameSplits(m.kind, Body(parts), rest);
  }

  lemma KnownIsNarrow(kind: u64)
    requires ShapeOf(kind).Some?
    ensures kind < WORD
  {
  }

  lemma BlobIsFrame(kind: u64, body: Bytes)
    requires kind < WORD && 8 + |body| < WORD
    ensures Le32(kind % WORD) + Le32(|body| % WORD) + body == Le32(kind) + Le32(|body|) + body
  {
    SmallMod(kind);
    SmallMod(|body|);
  }

  lemma FrameSplits(kind: u32, body: Bytes, rest: Bytes)
    requires |body| < WORD
    ensures var s := Le32(kind) + Le32(|body|) + body + rest; Split(s) == Some((kind, body, rest))
  {
    var s := Le32(kind) + Le32(|body|) + body + rest;
    HeadParts(Le32(kind), Le32(|body|), body + rest);
    assert s == Le32(kind) + Le32(|body|) + (body + rest);
    assert s[HEAD_SIZE..][..|body|] == body;
  }

  /** What a request with a mechanism and attributes says, as far as the wire tells. */
  function ReadRequest(s: Bytes): (r: Option<(u32, seq<Part>, seq<Node>)>) {
    var split := Split(s);
    if split.None? then None
    else
      var shape := ShapeOf(split.value.0);
      if shape.None? then None
      else
        var parts, nodes := ReadParts(Pattern(shape.value), split.value.1), ReadObject(split.value.2);
        if parts.None? || nodes.Malformed? then None else Some((split.value.0, parts.value, nodes.nodes))
  }

  /** A mechanism followed by attributes splits into exactly these. */
  lemma RequestRoundTrip(m: Mech, attrs: seq<Attribute>)
    requires WellTyped(m) && AllTyped(attrs) && AllNarrow(attrs)
    requires Blob(m).Wire? && |Blob(m).bytes| < WORD && Object(attrs).Wire? && |Object(attrs).bytes| < WORD
    ensures ReadRequest(Blob(m).bytes + Object(attrs).bytes) ==
            Some((m.kind, Narrowed(Written(m, ShapeOf(m.kind).value)), Meanings(attrs)))
  {
    BlobRoundTrip(m, Object(attrs).bytes);
    ObjectRoundTrip(attrs);
  }

  // ----- What is on the wire, byte by byte -----

  /** CKM_AES_CBC with its initialisation vector. */
  lemma CbcOnTheWire(iv: Bytes)
    requires |iv| == 16
    ensures WellTyped(Mech(0x1082, 16, [Whole(iv)]))
    ensures Blob(Mech(0x1082, 16, [Whole(iv)])) == Wire([0x82, 0x10, 0, 0] + [16, 0, 0, 0] + iv)
  {
    assert Body([Whole(iv)][1..]) == [];
    ByteOrder(16);
    assert Le32(0x1082) == [0x82, 0x10, 0, 0];
    assert Body([Whole(iv)]) == iv + [];
  }

  lemma WordOnTheWire(b: u8)
    ensures Word(b).Bytes() == [b, 0, 0, 0]
  {
    ByteOrder(b);
  }

  lemma ThreeWords(a: u8, b: u8, c: u8)
    ensures Body([Word(a), Word(b), Word(c)]) == [a, 0, 0, 0] + ([b, 0, 0, 0] + [c, 0, 0, 0])
  {
    var parts := [Word(a), Word(b), Word(c)];
    BodyStep(parts, 0);
    BodyStep(parts, 1);
    BodyStep(parts, 2);
    assert parts[0..] == parts && parts[3..] == [];
    WordOnTheWire(a);
    WordOnTheWire(b);
    WordOnTheWire(c);
    assert [c, 0, 0, 0] + Body([]) == [c, 0, 0, 0];
  }

  lemma PssShape()
    ensures ShapeOf(0x000d) == Some(Pss)
  {
  }

  /** CKM_RSA_PKCS_PSS with hash, mask generation function and salt length. */
  lemma PssOnTheWire(m: Mech, hash: u8, mgf: u8, salt: u8)
    requires m.kind == 0x000d && m.paramLen == 24 && m.parts == [Word(hash), Word(mgf), Word(salt)]
    ensures WellTyped(m)
    ensures Blob(m) == Wire([0x0d, 0, 0, 0] + [12, 0, 0, 0] +
                            ([hash, 0, 0, 0] + ([mgf, 0, 0, 0] + [salt, 0, 0, 0])))
  {
    PssShape();
    ThreeWords(hash, mgf, salt);
    ByteOrder(0x0d);
    ByteOrder(12);
  }

  /** The length of a structure that goes with a shape, where it is looked at. */
  predicate LengthOk(s: Shape, n: u64) {
    match s
    case Bare => n == 0
    case Pss => n == 24
    case Oaep => n == 40
    case KeyWrap => n == 16
    case MacLength => n == 8
    case _ => true
  }

  /** A mechanism is sent exactly when it is known and its structure has its length. */
  lemma SentIff(m: Mech)
    requires WellTyped(m)
    ensures Blob(m).Wire? <==> ShapeOf(m.kind).Some? && LengthOk(ShapeOf(m.kind).value, m.paramLen)
    ensures ShapeOf(m.kind).None? ==> Blob(m) == Fail(MechanismInvalid)
  {
    if ShapeOf(m.kind).Some? {
      KnownIsSmall(m.kind);
    }
  }

  lemma KnownIsSmall(kind: u64)
    requires ShapeOf(kind).Some?
    ensures kind < 0x2000
  {
  }

  /** The structures have their sizes: any other ulParameterLen is refused. */
  lemma LengthsAreChecked(m: Mech)
    requires WellTyped(m)
    ensures m.kind == 0x1080 && m.paramLen != 0 ==> Blob(m) == Fail(MechanismParamInvalid)
    ensures m.kind == 0x000d && m.paramLen != 24 ==> Blob(m) == Fail(ArgumentsBad)
    ensures m.kind == 0x0009 && m.paramLen != 40 ==> Blob(m) == Fail(ArgumentsBad)
    ensures m.kind == 0x1054 && m.paramLen != 16 ==> Blob(m) == Fail(ArgumentsBad)
    ensures m.kind == 0x108b && m.paramLen != 8 ==> Blob(m) == Fail(ArgumentsBad)
  {
  }
}
