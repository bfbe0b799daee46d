/**
 * PKCS#11 attribute lists as the client library sends them to the TA: a head with
 * byte size and item count, then [id][size][data] for each attribute, where the
 * data of a template attribute is such an object again.
 */
module Serialize {
  import opened Words

  const UNDEFINED_ID := 0xFFFF_FFFF
  const ARRAY_FLAG := 0x4000_0000
  const WRAP_TEMPLATE := 0x0211 + ARRAY_FLAG
  const UNWRAP_TEMPLATE := 0x0212 + ARRAY_FLAG
  const DERIVE_TEMPLATE := 0x0213 + ARRAY_FLAG
  const ALLOWED_MECHANISMS := 0x0600 + ARRAY_FLAG
  const KEY_GEN_MECHANISM := 0x0166
  const HEAD_SIZE := 8         // of an object and of an attribute
  const ULONG_SIZE := 8        // CK_ULONG on the client

  type u64 = x: int | 0 <= x < 0x1_0000_0000_0000_0000

  datatype Rv =
    | CkOk | HostMemory | AttributeTypeInvalid | AttributeValueInvalid | MechanismInvalid | ArgumentsBad
    | MechanismParamInvalid

  /**
   * What pValue and ulValueLen describe: no memory, plain memory, or an array of
   * attributes (a template without any may have no memory).
   */
  datatype Value = Null(len: u64) | Data(bytes: Bytes) | Template(attrs: seq<Attribute>)

  datatype Attribute = Attribute(id: u64, value: Value)

  predicate IsTemplate(id: u64) {
    id == DERIVE_TEMPLATE || id == WRAP_TEMPLATE || id == UNWRAP_TEMPLATE
  }

  /** ck_attr_is_ulong() */
  predicate IsUlong(id: u64) {
    id in {0x0000, 0x0080, 0x0087, 0x008c, 0x0100, 0x0300, 0x0500, KEY_GEN_MECHANISM, 0x0161, 0x0121}
  }

  /** The memory an attribute points to is what its type says, and lengths of mechanism lists fit 32 bits. */
  predicate WellTyped(a: Attribute)
    decreases a
  {
    if IsTemplate(a.id) then
      a.value.Template? && forall k :: 0 <= k < |a.value.attrs| ==> WellTyped(a.value.attrs[k])
    else if a.id == ALLOWED_MECHANISMS then
      (a.value.Null? && a.value.len < ULONG_SIZE) || (a.value.Data? && |a.value.bytes| < WORD)
    else a.value.Null? || a.value.Data?
  }

  predicate AllTyped(attrs: seq<Attribute>) {
    forall k :: 0 <= k < |attrs| ==> WellTyped(attrs[k])
  }

  // ----- The wire format, written -----

  datatype Wire = Wire(bytes: Bytes) | Fail(rv: Rv)

  /** CK_ULONG m of an array, truncated to 32 bits. */
  function LowWord(bytes: Bytes, m: nat): (w: u32)
    requires ULONG_SIZE * m + ULONG_SIZE <= |bytes|
  {
    FromLe32(bytes[8 * m..8 * m + 4])
  }

  /** The 32-bit words of the first n mechanisms of a list; a list with the undefined mechanism is refused. */
  function MechanismWords(bytes: Bytes, n: nat): (w: Wire)
    requires ULONG_SIZE * n <= |bytes|
    ensures w.Wire? ==> |w.bytes| == 4 * n
    ensures w.Fail? ==> w.rv == MechanismInvalid
  {
    if n == 0 then Wire([])
    else
      var front := MechanismWords(bytes, n - 1);
      if front.Fail? then front
      else if LowWord(bytes, n - 1) == UNDEFINED_ID then Fail(MechanismInvalid)
      else Wire(front.bytes + Le32(LowWord(bytes, n - 1)))
  }

  /** A list of mechanisms is sent exactly when none of them is the undefined one in its low 32 bits. */
  lemma {:induction false} MechanismsSentIff(bytes: Bytes, n: nat)
    requires ULONG_SIZE * n <= |bytes|
    ensures MechanismWords(bytes, n).Wire? <==> forall m :: 0 <= m < n ==> LowWord(bytes, m) != 0xFFFF_FFFF
  {
    if n > 0 {
      MechanismsSentIff(bytes, n - 1);
    }
  }

  /** Mechanism m of a list that is sent. */
  lemma {:induction false} MechanismOnTheWire(bytes: Bytes, n: nat, m: nat)
    requires ULONG_SIZE * n <= |bytes| && MechanismWords(bytes, n).Wire? && m < n
    ensures MechanismWords(bytes, n).bytes[4 * m..4 * m + 4] == bytes[8 * m..8 * m + 4]
  {
    var front := MechanismWords(bytes, n - 1).bytes;
    if m < n - 1 {
      MechanismOnTheWire(bytes, n - 1, m);
      assert MechanismWords(bytes, n).bytes[4 * m..4 * m + 4] == front[4 * m..4 * m + 4];
    } else {
      LowBytes(bytes[8 * m..8 * m + 4]);
    }
  }

  lemma LowBytes(s: Bytes)
    requires |s| == 4
    ensures Le32(FromLe32(s)) == s
  {
    var b: nat := (s[2] as int) + 0x100 * (s[3] as int);
    var a: nat := (s[1] as int) + 0x100 * b;
    LowByte(FromLe32(s), s[0], a);
    LowByte(a, s[1], b);
    LowByte(b, s[2], s[3]);
  }

  lemma LowByte(x: nat, low: u8, rest: nat)
    requires x == (low as int) + 0x100 * rest
    ensures x % 0x100 == low && x / 0x100 == rest
  {
  }

  /** The value of an attribute that is not a template, as the TA gets it. */
  function Plain(a: Attribute): (w: Wire)
    requires WellTyped(a) && !IsTemplate(a.id)
    ensures w.Wire? ==> |w.bytes| < WORD
  {
    if a.value.Null? then Wire([])
    else if a.id == ALLOWED_MECHANISMS then MechanismWords(a.value.bytes, |a.value.bytes| / ULONG_SIZE)
    else if IsUlong(a.id) then
      if |a.value.bytes| < ULONG_SIZE then Fail(AttributeValueInvalid) else Wire(Le32(LowWord(a.value.bytes, 0)))
    else Wire(a.value.bytes[..|a.value.bytes| % WORD])
  }

  /** [id][size][data] */
  function Framed(id: u64, data: Bytes): (s: Bytes)
    ensures |s| == HEAD_SIZE + |data|
  {
    Le32(id % WORD) + Le32(|data| % WORD) + data
  }

  /** An object: its head, then its items. */
  function WithHead(count: nat, items: Bytes): (s: Bytes)
    ensures |s| == HEAD_SIZE + |items|
  {
    Le32(|items| % WORD) + Le32(count % WORD) + items
  }

  /** The data of an attribute. */
  function Payload(a: Attribute): (w: Wire)
    requires WellTyped(a)
    decreases a, 0
  {
    if a.id == UNDEFINED_ID then Fail(AttributeTypeInvalid)
    else if IsTemplate(a.id) then
      var items := Items(a.value.attrs);
      if items.Fail? then items else Wire(WithHead(|a.value.attrs|, items.bytes))
    else Plain(a)
  }

  /** The attributes of a list one after the other, up to the first that is refused. */
  function Items(attrs: seq<Attribute>): (w: Wire)
    requires AllTyped(attrs)
    decreases attrs, 1
  {
    if attrs == [] then Wire([])
    else
      var front := Items(attrs[..|attrs| - 1]);
      if front.Fail? then front
      else
        var a := attrs[|attrs| - 1];
        var data := Payload(a);
        if data.Fail? then data else Wire(front.bytes + Framed(a.id, data.bytes))
  }

  /** serialize_ck_attributes() */
  function Object(attrs: seq<Attribute>): (w: Wire)
    requires AllTyped(attrs)
  {
    var items := Items(attrs);
    if items.Fail? then items else Wire(WithHead(|attrs|, items.bytes))
  }

  // ----- The wire format, read -----

  /** What the wire holds: an attribute with plain data, or with a list of attributes. */
  datatype Node = Leaf(id: u32, data: Bytes) | Inner(id: u32, children: seq<Node>)

  datatype Reading = Nodes(nodes: seq<Node>) | Malformed

  /** One attribute in front of s, from its head; the size of the data has to be there. */
  predicate Starts(s: Bytes) {
    |s| >= HEAD_SIZE && HEAD_SIZE + FromLe32(s[4..8]) <= |s|
  }

  function IdOf(s: Bytes): (id: u32)
    requires Starts(s)
  {
    FromLe32(s[..4])
  }

  function DataOf(s: Bytes): (data: Bytes)
    requires Starts(s)
    ensures |data| <= |s| - HEAD_SIZE
  {
    s[HEAD_SIZE..HEAD_SIZE + FromLe32(s[4..8])]
  }

  function RestOf(s: Bytes): (rest: Bytes)
    requires Starts(s)
    ensures |rest| < |s|
  {
    s[HEAD_SIZE + FromLe32(s[4..8])..]
  }

  /** A reader that knows the format only: attributes up to the end of s. */
  function ReadItems(s: Bytes): (r: Reading)
    decreases |s|, 0
  {
    if s == [] then Nodes([])
    else if !Starts(s) then Malformed
    else
      var node := ReadData(IdOf(s), DataOf(s));
      var rest := ReadItems(RestOf(s));
      if node.Malformed? || rest.Malformed? then Malformed else Nodes(node.nodes + rest.nodes)
  }

  /** The one node an identifier and its data stand for. */
  function ReadData(id: u32, data: Bytes): (r: Reading)
    ensures r.Nodes? ==> |r.nodes| == 1
    decreases |data|, 2
  {
    if !IsTemplate(id) then Nodes([Leaf(id, data)])
    else
      var children := ReadObject(data);
      if children.Malformed? then Malformed else Nodes([Inner(id, children.nodes)])
  }

  /** An object: attrs_size counts the bytes behind the head and attrs_count the attributes in them. */
  function ReadObject(s: Bytes): (r: Reading)
    decreases |s|, 1
  {
    if |s| < HEAD_SIZE || FromLe32(s[..4]) != |s| - HEAD_SIZE then Malformed
    else
      var items := ReadItems(s[HEAD_SIZE..]);
      if items.Malformed? || |items.nodes| != FromLe32(s[4..8]) then Malformed else items
  }

  // ----- Written and read -----

  /** Types are 32-bit, also inside templates. */
  predicate NarrowTypes(a: Attribute)
    decreases a
  {
    a.id < WORD && (a.value.Template? ==> forall k :: 0 <= k < |a.value.attrs| ==> NarrowTypes(a.value.attrs[k]))
  }

  predicate AllNarrow(attrs: seq<Attribute>) {
    forall k :: 0 <= k < |attrs| ==> NarrowTypes(attrs[k])
  }

  /** What an attribute means on the wire. */
  function Meaning(a: Attribute): (n: Node)
    requires WellTyped(a) && Payload(a).Wire? && NarrowTypes(a)
    decreases a, 0
  {
    if !IsTemplate(a.id) then Leaf(a.id, Payload(a).bytes)
    else Inner(a.id, Meanings(a.value.attrs))
  }

  function Meanings(attrs: seq<Attribute>): (r: seq<Node>)
    requires AllTyped(attrs) && Items(attrs).Wire? && AllNarrow(attrs)
    ensures |r| == |attrs|
    decreases attrs, 1
  {
    if attrs == [] then [] else Meanings(attrs[..|attrs| - 1]) + [Meaning(attrs[|attrs| - 1])]
  }

  /** The first attribute of s is the first attribute of s with more behind it. */
  lemma StartsAppend(s: Bytes, t: Bytes)
    requires Starts(s)
    ensures Starts(s + t) && IdOf(s + t) == IdOf(s) && DataOf(s + t) == DataOf(s) && RestOf(s + t) == RestOf(s) + t
  {
    var st := s + t;
    assert st[..4] == s[..4] && st[4..8] == s[4..8];
  }

  lemma Associate4(a: Bytes, b: Bytes, c: Bytes, d: Bytes)
    ensures a + b + c + d == a + (b + c + d)
  {
  }

  lemma Associate(a: seq<Node>, b: seq<Node>, c: seq<Node>)
    ensures a + (b + c) == a + b + c
  {
  }

  /** Reading is a homomorphism: attributes that can be read keep their meaning in front of others. */
  lemma {:induction false} ReadAppend(s: Bytes, t: Bytes)
    requires ReadItems(s).Nodes? && ReadItems(t).Nodes?
    ensures ReadItems(s + t) == Nodes(ReadItems(s).nodes + ReadItems(t).nodes)
    decreases |s|
  {
    if s == [] {
      assert s + t == t;
    } else {
      StartsAppend(s, t);
      ReadAppend(RestOf(s), t);
      Associate(ReadData(IdOf(s), DataOf(s)).nodes, ReadItems(RestOf(s)).nodes, ReadItems(t).nodes);
    }
  }

  lemma HeadParts(x: Bytes, y: Bytes, rest: Bytes)
    requires |x| == |y| == 4
    ensures var s := x + y + rest; s[..4] == x && s[4..8] == y && s[HEAD_SIZE..] == rest
  {
  }

  lemma SmallMod(x: nat)
    requires x < WORD
    ensures x % WORD == x
  {
  }

  lemma FramedParts(id: u32, data: Bytes)
    requires |data| < WORD
    ensures var s := Framed(id, data); Starts(s) && IdOf(s) == id && DataOf(s) == data && RestOf(s) == []
  {
    SmallMod(id);
    SmallMod(|data|);
    HeadParts(Le32(id), Le32(|data|), data);
  }

  lemma ReadFramed(id: u32, data: Bytes)
    requires |data| < WORD
    ensures ReadItems(Framed(id, data)) == ReadData(id, data)
  {
    FramedParts(id, data);
    var node := ReadData(id, data);
    if node.Nodes? {
      assert node.nodes + [] == node.nodes;
    }
  }

  lemma ReadWithHead(count: nat, items: Bytes)
    requires |items| < WORD && count < WORD
    ensures var r := ReadItems(items);
            ReadObject(WithHead(count, items)) == if r.Malformed? || |r.nodes| != count then Malformed else r
  {
    SmallMod(|items|);
    SmallMod(count);
    HeadParts(Le32(|items|), Le32(count), items);
  }

  lemma {:induction false} ItemsAreLong(attrs: seq<Attribute>)
    requires AllTyped(attrs) && Items(attrs).Wire?
    ensures |Items(attrs).bytes| >= HEAD_SIZE * |attrs|
    decreases |attrs|
  {
    if attrs != [] {
      ItemsAreLong(attrs[..|attrs| - 1]);
    }
  }

  lemma {:induction false} ItemsRoundTrip(attrs: seq<Attribute>)
    requires AllTyped(attrs) && AllNarrow(attrs) && Items(attrs).Wire? && |Items(attrs).bytes| < WORD
    ensures ReadItems(Items(attrs).bytes) == Nodes(Meanings(attrs))
    decreases attrs, 1
  {
    if attrs != [] {
      var front, a := attrs[..|attrs| - 1], attrs[|attrs| - 1];
      ItemsRoundTrip(front);
      PayloadRoundTrip(a);
      ReadFramed(a.id, Payload(a).bytes);
      ReadAppend(Items(front).bytes, Framed(a.id, Payload(a).bytes));
    }
  }

  lemma {:induction false} PayloadRoundTrip(a: Attribute)
    requires WellTyped(a) && NarrowTypes(a) && Payload(a).Wire? && |Payload(a).bytes| < WORD
    ensures ReadData(a.id, Payload(a).bytes) == Nodes([Meaning(a)])
    decreases a, 0
  {
    if IsTemplate(a.id) {
      ItemsRoundTrip(a.value.attrs);
      ItemsAreLong(a.value.attrs);
      ReadWithHead(|a.value.attrs|, Items(a.value.attrs).bytes);
    }
  }

  /**
   * A serialised list, nested templates included, is read back by a reader of
   * [id][size][data] alone: it consumes exactly attrs_size bytes and finds
   * attrs_count attributes, which are the ones that were written.
   */
  lemma ObjectRoundTrip(attrs: seq<Attribute>)
    requires AllTyped(attrs) && AllNarrow(attrs) && Object(attrs).Wire? && |Object(attrs).bytes| < WORD
    ensures ReadObject(Object(attrs).bytes) == Nodes(Meanings(attrs))
  {
    ItemsRoundTrip(attrs);
    ItemsAreLong(attrs);
    ReadWithHead(|attrs|, Items(attrs).bytes);
  }

  /** Equal bytes come from attributes that mean the same. */
  lemma UniquelyDecodable(a: seq<Attribute>, b: seq<Attribute>)
    requires AllTyped(a) && AllNarrow(a) && AllTyped(b) && AllNarrow(b)
    requires Object(a).Wire? && Object(a) == Object(b) && |Object(a).bytes| < WORD
    ensures Meanings(a) == Meanings(b)
  {
    ObjectRoundTrip(a);
    ObjectRoundTrip(b);
  }

  /** Types beyond 32 bits are cut, so that such a type and its low word are written alike. */
  lemma WideTypesCollide(id: u32, data: Bytes)
    requires !IsTemplate(id) && id != UNDEFINED_ID && id != ALLOWED_MECHANISMS && !IsUlong(id)
    ensures var a, b := [Attribute(id, Data(data))], [Attribute(id + WORD, Data(data))];
            a != b && Object(a) == Object(b)
  {
    var a, b := Attribute(id, Data(data)), Attribute(id + WORD, Data(data));
    SingleItem(a, data[..|data| % WORD]);
    SingleItem(b, data[..|data| % WORD]);
    FramedCuts(id, data[..|data| % WORD]);
  }

  lemma FramedCuts(id: u32, data: Bytes)
    ensures Framed(id, data) == Framed(id + WORD, data)
  {
    assert (id + WORD) % WORD == id % WORD;
  }

  lemma SingleItem(a: Attribute, data: Bytes)
    requires WellTyped(a) && Payload(a) == Wire(data)
    ensures Object([a]) == Wire(WithHead(1, Framed(a.id, data)))
  {
    assert [a][..0] == [];
    assert Items([]) == Wire([]);
    assert [] + Framed(a.id, data) == Framed(a.id, data);
  }

  /** The attributes of a list in front of other bytes: the head says where they end. */
  lemma ObjectIsSelfDelimiting(attrs: seq<Attribute>, rest: Bytes)
    requires AllTyped(attrs) && Object(attrs).Wire? && |Object(attrs).bytes| < WORD
    ensures var s := Object(attrs).bytes + rest;
            |s| >= HEAD_SIZE && HEAD_SIZE + FromLe32(s[..4]) == |Object(attrs).bytes|
  {
    var items := Items(attrs).bytes;
    SmallMod(|items|);
    HeadParts(Le32(|items|), Le32(|attrs| % WORD), items + rest);
    assert WithHead(|attrs|, items) + rest == Le32(|items|) + Le32(|attrs| % WORD) + (items + rest);
  }

  // ----- The serialiser -----

  /** struct serializer; buffer holds `size` bytes. Memory may run out at every append. */
  class Serializer {
    var buffer: Bytes
    var itemCount: nat
    var kind: u32

    constructor ()
      ensures buffer == [] && itemCount == 0
    {
      buffer, itemCount, kind := [], 0, 0;
    }

    /** serialize_buffer() */
    method Append(data: Bytes) returns (rv: Rv)
      modifies this`buffer
      ensures rv == CkOk || rv == HostMemory
      ensures buffer == if rv == CkOk then old(buffer) + data else old(buffer)
    {
      if * {
        return HostMemory;
      }
      buffer := buffer + data;
      rv := CkOk;
    }

    /** serialize_32b() and serialize_ck_ulong(), which cut their argument to 32 bits. */
    method Append32(data: u64) returns (rv: Rv)
      modifies this`buffer
      ensures rv == CkOk || rv == HostMemory
      ensures buffer == if rv == CkOk then old(buffer) + Le32(data % WORD) else old(buffer)
    {
      rv := Append(Le32(data % WORD));
    }

    /** finalize_serial_object() */
    method Finalize()
      requires |buffer| >= HEAD_SIZE
      modifies this`buffer
      ensures buffer == WithHead(itemCount, old(buffer)[HEAD_SIZE..])
    {
      var size := |buffer| - HEAD_SIZE;
      buffer := Splice(buffer, 0, Le32(size % WORD) + Le32(itemCount % WORD));
    }

    /** Appends [id][size][data] and counts it. */
    method AppendFramed(id: u64, data: Bytes) returns (rv: Rv)
      modifies this`buffer, this`itemCount
      ensures rv == CkOk || rv == HostMemory
      ensures rv == CkOk ==> buffer == old(buffer) + Framed(id, data) && itemCount == old(itemCount) + 1
    {
      rv := Append32(id);
      if rv != CkOk {
        return;
      }
      rv := Append32(|data| % WORD);
      if rv != CkOk {
        return;
      }
      rv := Append(data);
      if rv != CkOk {
        return;
      }
      itemCount := itemCount + 1;
      assert buffer == old(buffer) + Framed(id, data) by {
        Associate4(old(buffer), Le32(id % WORD), Le32(|data| % WORD), data);
        SmallMod(|data| % WORD);
      }
    }

    /** serialize_ck_attribute() */
    method SerializeAttribute(a: Attribute) returns (rv: Rv)
      requires WellTyped(a)
      modifies this`buffer, this`itemCount
      ensures rv == CkOk ==> Payload(a).Wire? && buffer == old(buffer) + Framed(a.id, Payload(a).bytes)
      ensures rv == CkOk ==> itemCount == old(itemCount) + 1
      ensures rv != CkOk && rv != HostMemory ==> Payload(a) == Fail(rv)
      decreases a, 1
    {
      if a.id == UNDEFINED_ID {
        return AttributeTypeInvalid;
      }
      if IsTemplate(a.id) {
        rv := SerializeIndirect(a);
        return;
      }
      var data := [];
      if a.id == ALLOWED_MECHANISMS {
        rv, data := CopyMechanisms(a);
        if rv != CkOk {
          return;
        }
      } else if a.value.Null? {
      } else if IsUlong(a.id) {
        if |a.value.bytes| < ULONG_SIZE {
          return AttributeValueInvalid;
        }
        data := Le32(LowWord(a.value.bytes, 0));
      } else {
        data := a.value.bytes[..|a.value.bytes| % WORD];
      }
      rv := AppendFramed(a.id, data);
    }

    /** serialize_indirect_attribute() */
    method SerializeIndirect(a: Attribute) returns (rv: Rv)
      requires WellTyped(a) && IsTemplate(a.id)
      modifies this`buffer, this`itemCount
      ensures rv == CkOk ==> Payload(a).Wire? && buffer == old(buffer) + Framed(a.id, Payload(a).bytes)
      ensures rv == CkOk ==> itemCount == old(itemCount) + 1
      ensures rv != CkOk && rv != HostMemory ==> Payload(a) == Fail(rv)
      decreases a, 0
    {
      var obj2 := new Serializer();
      rv := obj2.SerializeAttributes(a.value.attrs);
      if rv != CkOk {
        return;
      }
      rv := AppendFramed(a.id, obj2.buffer);
    }

    /** One round of serialize_ck_attributes(). */
    method AddItem(attrs: seq<Attribute>, n: nat) returns (rv: Rv)
      requires AllTyped(attrs) && n < |attrs| && |buffer| >= HEAD_SIZE && Items(attrs[..n]) == Wire(buffer[HEAD_SIZE..])
      modifies this`buffer, this`itemCount
      ensures rv == CkOk ==> |buffer| >= HEAD_SIZE && Items(attrs[..n + 1]) == Wire(buffer[HEAD_SIZE..])
      ensures rv == CkOk ==> itemCount == old(itemCount) + 1
      ensures rv != CkOk && rv != HostMemory ==> Items(attrs) == Fail(rv)
      decreases attrs, 2
    {
      rv := SerializeAttribute(attrs[n]);
      ItemsStep(attrs, n);
      if rv == CkOk {
        Behind(old(buffer), Framed(attrs[n].id, Payload(attrs[n]).bytes), HEAD_SIZE);
      } else if rv != HostMemory {
        FailureStays(attrs, n + 1);
      }
    }

    /** serialize_ck_attributes(): on success the buffer holds the object, on failure nothing. */
    method SerializeAttributes(attrs: seq<Attribute>) returns (rv: Rv)
      requires AllTyped(attrs)
      modifies this
      ensures rv == CkOk ==> Object(attrs) == Wire(buffer) && itemCount == |attrs|
      ensures rv != CkOk && rv != HostMemory ==> Object(attrs) == Fail(rv)
      ensures rv != CkOk ==> buffer == []
      decreases attrs, 3
    {
      buffer, itemCount, kind := [], 0, 0;
      rv := Append(Zeros(HEAD_SIZE));
      if rv != CkOk {
        return;
      }
      var n := 0;
      while n < |attrs|
        invariant 0 <= n <= |attrs| && |buffer| >= HEAD_SIZE && itemCount == n && rv == CkOk
        invariant Items(attrs[..n]) == Wire(buffer[HEAD_SIZE..])
      {
        rv := AddItem(attrs, n);
        if rv != CkOk {
          buffer := [];
          return;
        }
        n := n + 1;
      }
      assert attrs[..n] == attrs;
      Finalize();
    }
  }

  lemma ItemsStep(attrs: seq<Attribute>, n: nat)
    requires AllTyped(attrs) && n < |attrs|
    ensures var front, data := Items(attrs[..n]), Payload(attrs[n]);
            Items(attrs[..n + 1]) == if front.Fail? then front else if data.Fail? then data
                                     else Wire(front.bytes + Framed(attrs[n].id, data.bytes))
  {
    assert attrs[..n + 1][..n] == attrs[..n];
  }

  lemma Behind(s: Bytes, t: Bytes, k: nat)
    requires k <= |s|
    ensures (s + t)[k..] == s[k..] + t
  {
  }

  /** The copying loop of serialize_ck_attribute() for a list of mechanisms. */
  method CopyMechanisms(a: Attribute) returns (rv: Rv, data: Bytes)
    requires WellTyped(a) && a.id == ALLOWED_MECHANISMS
    ensures rv == CkOk ==> Plain(a) == Wire(data)
    ensures rv != CkOk && rv != HostMemory ==> Plain(a) == Fail(rv)
  {
    var n := (if a.value.Null? then a.value.len else |a.value.bytes|) / ULONG_SIZE;
    data := [];
    if * {
      return HostMemory, [];
    }
    var list := if a.value.Null? then [] else a.value.bytes;
    var m := 0;
    while m < n
      invariant 0 <= m <= n && ULONG_SIZE * n <= |list| && MechanismWords(list, m) == Wire(data)
    {
      var word := LowWord(list, m);
      if word == UNDEFINED_ID {
        WordsFail(list, m + 1, n);
        return MechanismInvalid, data;
      }
      data := data + Le32(word);
      m := m + 1;
    }
    rv := CkOk;
  }

  /** A refused mechanism refuses every longer list. */
  lemma {:induction false} WordsFail(bytes: Bytes, m: nat, n: nat)
    requires m <= n && ULONG_SIZE * n <= |bytes| && MechanismWords(bytes, m).Fail?
    ensures MechanismWords(bytes, n) == MechanismWords(bytes, m)
  {
    if m < n {
      WordsFail(bytes, m, n - 1);
    }
  }

  /** A refused attribute refuses every longer list. */
  lemma {:induction false} FailureStays(attrs: seq<Attribute>, n: nat)
    requires AllTyped(attrs) && n <= |attrs| && Items(attrs[..n]).Fail?
    ensures Items(attrs) == Items(attrs[..n])
    decreases |attrs|
  {
    if n == |attrs| {
      assert attrs[..n] == attrs;
    } else {
      assert attrs[..|attrs| - 1][..n] == attrs[..n];
      FailureStays(attrs[..|attrs| - 1], n);
    }
  }

  // ----- What is on the wire, byte by byte -----

  /** CKA_LABEL with one byte: the head of the object, that of the attribute, and the byte. */
  lemma LabelOnTheWire(b: u8)
    ensures Object([Attribute(3, Data([b]))]) == Wire([9, 0, 0, 0, 1, 0, 0, 0] + [3, 0, 0, 0, 1, 0, 0, 0] + [b])
  {
    var a := Attribute(3, Data([b]));
    OneOnTheWire(a, [b]);
    ByteOrder(9);
    ByteOrder(1);
    ByteOrder(3);
  }

  /** CKA_CLASS, an integer of eight bytes that goes as four. */
  lemma ClassOnTheWire(b: u8)
    ensures Object([Attribute(0, Data([b, 0, 0, 0, 0, 0, 0, 0]))]) ==
            Wire([12, 0, 0, 0, 1, 0, 0, 0] + [0, 0, 0, 0, 4, 0, 0, 0] + [b, 0, 0, 0])
  {
    var bytes: Bytes := [b, 0, 0, 0, 0, 0, 0, 0];
    assert bytes[0..4] == [b, 0, 0, 0];
    ByteOrder(b);
    ByteOrder(12);
    ByteOrder(1);
    ByteOrder(0);
    ByteOrder(4);
    OneOnTheWire(Attribute(0, Data(bytes)), [b, 0, 0, 0]);
  }

  lemma OneOnTheWire(a: Attribute, data: Bytes)
    requires WellTyped(a) && Payload(a) == Wire(data) && a.id < WORD && HEAD_SIZE + |data| < WORD
    ensures Object([a]) == Wire(Le32(HEAD_SIZE + |data|) + Le32(1) + (Le32(a.id) + Le32(|data|) + data))
  {
    SingleItem(a, data);
    HeadAndFrame(a.id, data);
  }

  lemma HeadAndFrame(id: u64, data: Bytes)
    requires id < WORD && HEAD_SIZE + |data| < WORD
    ensures WithHead(1, Framed(id, data)) == Le32(HEAD_SIZE + |data|) + Le32(1) + (Le32(id) + Le32(|data|) + data)
  {
    assert id % WORD == id && |data| % WORD == |data| && (HEAD_SIZE + |data|) % WORD == HEAD_SIZE + |data|;
  }
}
