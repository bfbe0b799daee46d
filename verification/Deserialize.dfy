/**
 * What the TA sends back for a list of attributes, copied into the caller's
 * template. The caller's template says how far the cursor moves; the bytes that
 * came back say what each attribute is.
 */
module Deserialize {
  import opened Common
  import opened Words
  import opened Serialize

  const UNAVAILABLE32 := 0xFFFF_FFFF
  const UNAVAILABLE64: u64 := 0xFFFF_FFFF_FFFF_FFFF

  /** A CK_ATTRIBUTE of the caller: type, ulValueLen and the memory behind pValue. */
  datatype Slot = Slot(id: u64, len: u64, mem: Option<Bytes>)

  function Le64(v: u64): (s: Bytes)
    ensures |s| == 8
  {
    Le32(v % WORD) + Le32(v / WORD)
  }

  /** Byte strings and integers; templates and mechanism lists apart. */
  predicate Simple(id: u64) {
    id < WORD && id != UNDEFINED_ID && !IsTemplate(id) && id != ALLOWED_MECHANISMS
  }

  /** The caller's memory has the announced size. */
  predicate GoodSlot(s: Slot) {
    Simple(s.id) && s.len < WORD && (s.mem.Some? ==> |s.mem.value| == s.len)
  }

  predicate AllGood(slots: seq<Slot>) {
    forall k :: 0 <= k < |slots| ==> GoodSlot(slots[k])
  }

  /** The bytes the cursor skips behind the head of an attribute. */
  function Room(s: Slot): (n: nat) {
    if s.mem.None? then 0 else if IsUlong(s.id) then 4 else s.len
  }

  /** Where the cursor is at attribute k. */
  function Cursor(slots: seq<Slot>, k: nat): (n: nat)
    requires k <= |slots|
  {
    if k == 0 then HEAD_SIZE else Cursor(slots, k - 1) + HEAD_SIZE + Room(slots[k - 1])
  }

  // ----- One attribute -----

  datatype Outcome = Outcome(slot: Slot, rv: Rv)

  /** How many bytes of data are read for an attribute that comes back as `id` with `size`. */
  function Reads(s: Slot, id: u32, size: u32): (n: nat) {
    if size == UNAVAILABLE32 || s.mem.None? || s.len < size then 0
    else if IsUlong(id) then if s.len < ULONG_SIZE then 0 else 4
    else size
  }

  /**
   * The data of an attribute is read beyond its own bytes exactly when an integer comes
   * back as a longer byte string.
   */
  lemma ReadsBeyondIff(s: Slot, id: u32, size: u32)
    requires GoodSlot(s)
    ensures Reads(s, id, size) > Room(s) <==>
            s.mem.Some? && IsUlong(s.id) && !IsUlong(id) && size != UNAVAILABLE32 && 4 < size <= s.len
  {
  }

  /**
   * The bytes of an attribute are there and nothing beyond them is read; it comes back as
   * a byte string or an integer.
   */
  predicate Fits(s: Slot, bytes: Bytes) {
    && |bytes| == HEAD_SIZE + Room(s)
    && var id := FromLe32(bytes[..4]);
    && !IsTemplate(id) && id != ALLOWED_MECHANISMS && Reads(s, id, FromLe32(bytes[4..8])) <= Room(s)
  }

  /** What becomes of an attribute, from its own bytes alone; memory too short for an integer is refused. */
  function Decode(s: Slot, bytes: Bytes): (r: Outcome)
    requires GoodSlot(s) && Fits(s, bytes)
  {
    var id, size, data := FromLe32(bytes[..4]), FromLe32(bytes[4..8]), bytes[HEAD_SIZE..];
    var t := s.(id := id);
    if size == UNAVAILABLE32 then Outcome(t.(len := UNAVAILABLE64), CkOk)
    else if t.mem.None? && IsUlong(id) then Outcome(t.(len := ULONG_SIZE), CkOk)
    else if t.len < size then Outcome(t.(len := size), CkOk)
    else if t.mem.None? then Outcome(t, CkOk)
    else if IsUlong(id) then
      if t.len < ULONG_SIZE then Outcome(t, AttributeValueInvalid)
      else
        var ulong := Le64(Widened(id, FromLe32(data[..4])));
        Outcome(t.(mem := Some(Splice(t.mem.value, 0, ulong)), len := ULONG_SIZE), CkOk)
    else Outcome(t.(mem := Some(Splice(t.mem.value, 0, data[..size])), len := size), CkOk)
  }

  /** A 32-bit integer of the TA as a CK_ULONG. */
  function Widened(id: u64, w: u32): (v: u64) {
    if id == KEY_GEN_MECHANISM && w == UNAVAILABLE32 then UNAVAILABLE64 else w
  }

  /**
   * A size of all ones says that the value is not available: the caller gets
   * CK_UNAVAILABLE_INFORMATION as ulValueLen, and its memory is left alone.
   */
  lemma UnavailableArrives(s: Slot, bytes: Bytes)
    requires GoodSlot(s) && Fits(s, bytes) && bytes[4..8] == [0xFF, 0xFF, 0xFF, 0xFF]
    ensures Decode(s, bytes) == Outcome(Slot(FromLe32(bytes[..4]), 0xFFFF_FFFF_FFFF_FFFF, s.mem), CkOk)
  {
    assert FromLe32([0xFF, 0xFF, 0xFF, 0xFF]) == 0xFFFF_FFFF;
  }

  /**
   * An integer does not go into memory that is too short for a CK_ULONG: the call fails
   * and the memory is left alone.
   */
  lemma ShortMemoryIsRefused(s: Slot, bytes: Bytes)
    requires GoodSlot(s) && Fits(s, bytes) && s.mem.Some? && s.len < 8 && IsUlong(FromLe32(bytes[..4]))
    requires FromLe32(bytes[4..8]) <= s.len
    ensures Decode(s, bytes) == Outcome(Slot(FromLe32(bytes[..4]), s.len, s.mem), AttributeValueInvalid)
  {
  }

  /** Besides the head, an attribute depends on no more of its bytes than are said to be read. */
  lemma NoMoreIsRead(s: Slot, bytes: Bytes, others: Bytes)
    requires GoodSlot(s) && Fits(s, bytes) && Fits(s, others)
    requires var n := HEAD_SIZE + Reads(s, FromLe32(bytes[..4]), FromLe32(bytes[4..8])); bytes[..n] == others[..n]
    ensures Decode(s, bytes) == Decode(s, others)
  {
    var id, size := FromLe32(bytes[..4]), FromLe32(bytes[4..8]);
    var n := Reads(s, id, size);
    var own, other := bytes[..HEAD_SIZE + n], others[..HEAD_SIZE + n];
    assert bytes[..4] == own[..4] == other[..4] == others[..4];
    assert bytes[4..8] == own[4..8] == other[4..8] == others[4..8];
    assert bytes[HEAD_SIZE..][..n] == own[HEAD_SIZE..] == other[HEAD_SIZE..] == others[HEAD_SIZE..][..n];
  }

  lemma SubSlice(s: Bytes, a: nat, b: nat, c: nat, d: nat)
    requires a <= b <= |s| && c <= d <= b - a
    ensures s[a..b][c..d] == s[a + c..a + d]
  {
    var t := s[a..b];
    forall i | 0 <= i < d - c ensures t[c..d][i] == s[a + c..a + d][i] {
      assert t[c + i] == s[a + c + i];
    }
  }

  /** deserialize_ck_attribute(), on the bytes from the cursor on. */
  method DeserializeAttribute(input: Bytes, at: nat, s: Slot) returns (r: Slot, rv: Rv)
    requires GoodSlot(s) && at + HEAD_SIZE + Room(s) <= |input| && Fits(s, input[at..at + HEAD_SIZE + Room(s)])
    ensures Outcome(r, rv) == Decode(s, input[at..at + HEAD_SIZE + Room(s)])
  {
    var end := at + HEAD_SIZE + Room(s);
    ghost var own := input[at..end];
    SubSlice(input, at, end, 0, 4);
    SubSlice(input, at, end, 4, 8);
    var id, size := FromLe32(input[at..at + 4]), FromLe32(input[at + 4..at + 8]);
    var data := at + HEAD_SIZE;
    assert own[HEAD_SIZE..] == input[data..end];
    rv := CkOk;
    r := s.(id := id);
    if size == UNAVAILABLE32 {
      r := r.(len := UNAVAILABLE64);
      return;
    }
    if r.mem.None? && IsUlong(r.id) {
      r := r.(len := ULONG_SIZE);
      return;
    }
    if r.len < size {
      r := r.(len := size);
      return;
    }
    if r.mem.None? {
      return;
    }
    if IsUlong(r.id) {
      if r.len < ULONG_SIZE {
        rv := AttributeValueInvalid;
        return;
      }
      SubSlice(input, data, end, 0, 4);
      var word := FromLe32(input[data..data + 4]);
      var ulong := Widened(r.id, word);
      r := r.(mem := Some(Splice(r.mem.value, 0, Le64(ulong))), len := ULONG_SIZE);
      return;
    }
    SubSlice(input, data, end, 0, size);
    r := r.(mem := Some(Splice(r.mem.value, 0, input[data..data + size])), len := size);
  }

  // ----- The whole list -----

  /** The bytes of attribute k. */
  function Own(input: Bytes, slots: seq<Slot>, k: nat): (s: Bytes)
    requires k < |slots| && Cursor(slots, k + 1) <= |input|
  {
    input[Cursor(slots, k)..Cursor(slots, k + 1)]
  }

  /** The answer covers attribute k of the template. */
  predicate Covered(input: Bytes, slots: seq<Slot>, k: nat)
    requires k < |slots|
  {
    GoodSlot(slots[k]) && Cursor(slots, k + 1) <= |input| && Fits(slots[k], Own(input, slots, k))
  }

  predicate Answers(input: Bytes, slots: seq<Slot>) {
    forall k :: 0 <= k < |slots| ==> Covered(input, slots, k)
  }

  /** Attribute k of the answer, decoded. */
  function DecodeOwn(input: Bytes, slots: seq<Slot>, k: nat): (r: Outcome)
    requires k < |slots| && Covered(input, slots, k)
  {
    Decode(slots[k], Own(input, slots, k))
  }

  predicate IsDecoded(r: Slot, input: Bytes, slots: seq<Slot>, k: nat)
    requires k < |slots|
  {
    Covered(input, slots, k) && DecodeOwn(input, slots, k).slot == r
  }

  predicate IsOk(input: Bytes, slots: seq<Slot>, k: nat)
    requires k < |slots|
  {
    Covered(input, slots, k) && DecodeOwn(input, slots, k).rv == CkOk
  }

  /** How far deserialize_ck_attributes() moves its cursor for an attribute. */
  method Advance(s: Slot) returns (len: nat)
    ensures len == HEAD_SIZE + Room(s)
  {
    len := HEAD_SIZE;
    if s.mem.Some? {
      if IsUlong(s.id) {
        len := len + 4;
      } else {
        len := len + s.len;
      }
    }
  }

  /** deserialize_ck_attribute() at the cursor. */
  method DecodeNext(input: Bytes, currHead: nat, s: Slot, ghost slots: seq<Slot>, ghost k: nat)
    returns (r: Slot, rv: Rv)
    requires k < |slots| && s == slots[k] && currHead == Cursor(slots, k) && Answers(input, slots)
    ensures IsDecoded(r, input, slots, k) && rv == DecodeOwn(input, slots, k).rv
    ensures (rv == CkOk <==> IsOk(input, slots, k)) && (rv == CkOk || rv == AttributeValueInvalid)
  {
    assert Covered(input, slots, k);
    r, rv := DeserializeAttribute(input, currHead, s);
  }

  /** The first n attributes are decoded, each from its own bytes, and the others are as they were. */
  predicate Halfway(now: seq<Slot>, input: Bytes, slots: seq<Slot>, n: nat) {
    && |now| == |slots| && n <= |slots|
    && (forall k :: 0 <= k < n ==> IsDecoded(now[k], input, slots, k))
    && (forall k :: n <= k < |slots| ==> now[k] == slots[k])
  }

  lemma HalfwayStep(now: seq<Slot>, input: Bytes, slots: seq<Slot>, n: nat, r: Slot)
    requires Halfway(now, input, slots, n) && n < |slots| && IsDecoded(r, input, slots, n)
    ensures Halfway(now[n := r], input, slots, n + 1)
  {
  }

  lemma CursorStep(slots: seq<Slot>, k: nat)
    requires k < |slots|
    ensures Cursor(slots, k + 1) == Cursor(slots, k) + HEAD_SIZE + Room(slots[k])
  {
  }

  /** One round of deserialize_ck_attributes(). */
  method Round(input: Bytes, attributes: array<Slot>, cur: nat, currHead: nat, ghost slots: seq<Slot>)
    returns (rv: Rv, len: nat)
    requires cur < attributes.Length && Halfway(attributes[..], input, slots, cur)
    requires Answers(input, slots) && currHead == Cursor(slots, cur)
    modifies attributes
    ensures Halfway(attributes[..], input, slots, cur + 1) && currHead + len == Cursor(slots, cur + 1)
    ensures (rv == CkOk <==> IsOk(input, slots, cur)) && (rv == CkOk || rv == AttributeValueInvalid)
  {
    ghost var now := attributes[..];
    var s := attributes[cur];
    assert s == now[cur];
    len := Advance(s);
    var r;
    r, rv := DecodeNext(input, currHead, s, slots, cur);
    attributes[cur] := r;
    assert attributes[..] == now[cur := r];
    HalfwayStep(now, input, slots, cur, r);
    CursorStep(slots, cur);
  }

  predicate AllOk(input: Bytes, slots: seq<Slot>, n: nat) {
    n <= |slots| && forall k :: 0 <= k < n ==> IsOk(input, slots, k)
  }

  /** The last of n attributes is the first that is refused. */
  predicate StopsAfter(input: Bytes, slots: seq<Slot>, n: nat) {
    0 < n <= |slots| && AllOk(input, slots, n - 1) && !IsOk(input, slots, n - 1)
  }

  lemma Stops(input: Bytes, slots: seq<Slot>, n: nat)
    requires n < |slots| && AllOk(input, slots, n) && !IsOk(input, slots, n)
    ensures StopsAfter(input, slots, n + 1)
  {
  }

  lemma OkStep(input: Bytes, slots: seq<Slot>, n: nat)
    requires AllOk(input, slots, n) && n < |slots| && IsOk(input, slots, n)
    ensures AllOk(input, slots, n + 1)
  {
  }

  /**
   * deserialize_ck_attributes(): up to and including the first that is refused,
   * every attribute is decoded from its own bytes, although the attributes before it
   * have changed. `done` attributes are decoded.
   */
  method DeserializeAttributes(input: Bytes, attributes: array<Slot>) returns (rv: Rv, ghost done: nat)
    requires Answers(input, attributes[..])
    modifies attributes
    ensures Halfway(attributes[..], input, old(attributes[..]), done)
    ensures rv == CkOk ==> done == attributes.Length && AllOk(input, old(attributes[..]), done)
    ensures rv != CkOk ==> StopsAfter(input, old(attributes[..]), done)
    ensures rv == CkOk || rv == AttributeValueInvalid
  {
    ghost var slots := attributes[..];
    var currHead := HEAD_SIZE;
    var n, cur := attributes.Length, 0;
    rv, done := CkOk, 0;
    while n > 0
      invariant 0 <= n && cur + n == attributes.Length && rv == CkOk && currHead == Cursor(slots, cur)
      invariant Halfway(attributes[..], input, slots, cur) && done == cur && AllOk(input, slots, cur)
    {
      var len;
      rv, len := Round(input, attributes, cur, currHead, slots);
      done := cur + 1;
      if rv != CkOk {
        Stops(input, slots, cur);
        return;
      }
      OkStep(input, slots, cur);
      n, cur, currHead := n - 1, cur + 1, currHead + len;
    }
  }

  // ----- What the serialiser sent -----

  /** The caller's attribute before the call. */
  function SlotOf(a: Attribute): (s: Slot)
    requires !a.value.Template? && (a.value.Data? ==> |a.value.bytes| < WORD)
  {
    if a.value.Null? then Slot(a.id, a.value.len, None) else Slot(a.id, |a.value.bytes|, Some(a.value.bytes))
  }

  /** Attributes other than templates. */
  predicate Flat(attrs: seq<Attribute>) {
    forall k :: 0 <= k < |attrs| ==>
      && WellTyped(attrs[k]) && !attrs[k].value.Template? && !IsTemplate(attrs[k].id)
      && (attrs[k].value.Data? ==> |attrs[k].value.bytes| < WORD)
  }

  function SlotsOf(attrs: seq<Attribute>): (s: seq<Slot>)
    requires Flat(attrs)
    ensures |s| == |attrs| && forall k :: 0 <= k < |attrs| ==> s[k] == SlotOf(attrs[k])
  {
    seq(|attrs|, k requires 0 <= k < |attrs| => SlotOf(attrs[k]))
  }

  predicate HasMechanisms(a: Attribute) {
    a.id == ALLOWED_MECHANISMS && a.value.Data? && |a.value.bytes| > 0
  }

  lemma RoomIff(a: Attribute)
    requires WellTyped(a) && !IsTemplate(a.id) && !a.value.Template? && (a.value.Data? ==> |a.value.bytes| < WORD) &&
             Payload(a).Wire?
    ensures Room(SlotOf(a)) >= |Payload(a).bytes|
    ensures Room(SlotOf(a)) == |Payload(a).bytes| <==> !HasMechanisms(a)
  {
    if a.value.Data? {
      SmallMod(|a.value.bytes|);
    }
  }

  /**
   * Without templates, the cursor is where the serialiser put attribute k exactly
   * when no list of mechanisms with anything in it comes before: such a list is sent
   * with four bytes for each mechanism and skipped with eight.
   */
  lemma {:induction false} FlatLockstepIff(attrs: seq<Attribute>, k: nat)
    requires Flat(attrs) && k <= |attrs| && Items(attrs).Wire?
    ensures Items(attrs[..k]).Wire?
    ensures Cursor(SlotsOf(attrs), k) >= HEAD_SIZE + |Items(attrs[..k]).bytes|
    ensures Cursor(SlotsOf(attrs), k) == HEAD_SIZE + |Items(attrs[..k]).bytes| <==> NoMechanismsBefore(attrs, k)
  {
    ItemsSoFar(attrs, k);
    if k > 0 {
      FlatLockstepIff(attrs, k - 1);
      OneMore(attrs, k - 1);
      NoneMore(attrs, k - 1);
      Equalities(Cursor(SlotsOf(attrs), k - 1), HEAD_SIZE + |Items(attrs[..k - 1]).bytes|, Room(SlotOf(attrs[k - 1])),
          |Payload(attrs[k - 1]).bytes|);
    }
  }

  lemma NoneMore(attrs: seq<Attribute>, k: nat)
    requires k < |attrs|
    ensures NoMechanismsBefore(attrs, k + 1) <==> NoMechanismsBefore(attrs, k) && !HasMechanisms(attrs[k])
  {
  }

  lemma Equalities(a: nat, b: nat, c: nat, d: nat)
    requires a >= b && c >= d
    ensures a + HEAD_SIZE + c >= b + HEAD_SIZE + d
    ensures a + HEAD_SIZE + c == b + HEAD_SIZE + d <==> a == b && c == d
  {
  }

  lemma OneMore(attrs: seq<Attribute>, k: nat)
    requires Flat(attrs) && k < |attrs| && Items(attrs[..k + 1]).Wire?
    ensures var payload := Payload(attrs[k]);
            && Items(attrs[..k]).Wire? && payload.Wire?
            && Items(attrs[..k + 1]).bytes == Items(attrs[..k]).bytes + Framed(attrs[k].id, payload.bytes)
            && Cursor(SlotsOf(attrs), k + 1) == Cursor(SlotsOf(attrs), k) + HEAD_SIZE + Room(SlotOf(attrs[k]))
            && Room(SlotOf(attrs[k])) >= |payload.bytes|
            && (Room(SlotOf(attrs[k])) == |payload.bytes| <==> !HasMechanisms(attrs[k]))
  {
    ItemsStep(attrs, k);
    RoomIff(attrs[k]);
  }

  predicate NoMechanismsBefore(attrs: seq<Attribute>, k: nat)
    requires k <= |attrs|
  {
    forall j :: 0 <= j < k ==> !HasMechanisms(attrs[j])
  }

  lemma ItemsSoFar(attrs: seq<Attribute>, k: nat)
    requires AllTyped(attrs) && k <= |attrs| && Items(attrs).Wire?
    ensures Items(attrs[..k]).Wire?
  {
    if Items(attrs[..k]).Fail? {
      FailureStays(attrs, k);
    }
  }

  // ----- Templates among the attributes -----

  const ATTRIBUTE_SIZE := 24  // CK_ATTRIBUTE on the client

  /** The bytes the cursor skips for an attribute: an array of attributes for a template. */
  function Skip(a: Attribute): (n: nat) {
    match a.value
    case Null(_) => 0
    case Data(bytes) => if IsUlong(a.id) then 4 else |bytes|
    case Template(attrs) => ATTRIBUTE_SIZE * |attrs|
  }

  /** Where the cursor is at attribute k, for all attributes. */
  function SkippedTo(attrs: seq<Attribute>, k: nat): (n: nat)
    requires k <= |attrs|
  {
    if k == 0 then HEAD_SIZE else SkippedTo(attrs, k - 1) + HEAD_SIZE + Skip(attrs[k - 1])
  }

  /** The caller's attribute, as the deserialiser sees it; of the memory of a template only the size matters. */
  function AnySlotOf(a: Attribute): (s: Slot)
    requires Short(a)
  {
    match a.value
    case Null(len) => Slot(a.id, len, None)
    case Data(bytes) => Slot(a.id, |bytes|, Some(bytes))
    case Template(attrs) =>
      var size := ATTRIBUTE_SIZE * |attrs|;
      Slot(a.id, size, if attrs == [] then None else Some(Zeros(size)))
  }

  predicate Short(a: Attribute) {
    match a.value
    case Null(_) => true
    case Data(bytes) => |bytes| < WORD
    case Template(attrs) => |attrs| < WORD && IsTemplate(a.id)
  }

  predicate AllShort(attrs: seq<Attribute>) {
    forall k :: 0 <= k < |attrs| ==> Short(attrs[k])
  }

  function AnySlotsOf(attrs: seq<Attribute>): (s: seq<Slot>)
    requires AllShort(attrs)
    ensures |s| == |attrs| && forall k :: 0 <= k < |attrs| ==> s[k] == AnySlotOf(attrs[k])
  {
    seq(|attrs|, k requires 0 <= k < |attrs| => AnySlotOf(attrs[k]))
  }

  /** This is the cursor of the deserialiser, for all attributes. */
  lemma {:induction false} SkippedIsCursor(attrs: seq<Attribute>, k: nat)
    requires AllShort(attrs) && k <= |attrs|
    ensures SkippedTo(attrs, k) == Cursor(AnySlotsOf(attrs), k)
  {
    if k > 0 {
      SkippedIsCursor(attrs, k - 1);
    }
  }

  /** An attribute that can be sent; lengths fit 32 bits. */
  predicate Sent(a: Attribute) {
    WellTyped(a) && Payload(a).Wire? && Short(a)
  }

  /** By how much an attribute is skipped too far. */
  function Drift(a: Attribute): (d: int)
    requires Sent(a)
  {
    Skip(a) - |Payload(a).bytes|
  }

  /** The data of the attributes of a list together, without their heads. */
  function DataSize(attrs: seq<Attribute>): (n: nat)
    requires AllTyped(attrs) && Items(attrs).Wire?
  {
    if attrs == [] then 0 else DataSize(attrs[..|attrs| - 1]) + |Payload(attrs[|attrs| - 1]).bytes|
  }

  lemma {:induction false} ItemsAreHeadsAndData(attrs: seq<Attribute>)
    requires AllTyped(attrs) && Items(attrs).Wire?
    ensures |Items(attrs).bytes| == HEAD_SIZE * |attrs| + DataSize(attrs)
    decreases |attrs|
  {
    if attrs != [] {
      ItemsAreHeadsAndData(attrs[..|attrs| - 1]);
    }
  }

  /**
   * A byte string, an integer and an empty list of mechanisms are in step; so is a
   * template of n attributes whose data takes 16n - 8 bytes together.
   */
  predicate InStep(a: Attribute)
    requires Sent(a)
  {
    if IsTemplate(a.id) then DataSize(a.value.attrs) == 16 * |a.value.attrs| - 8 else !HasMechanisms(a)
  }

  /** An attribute is skipped by what was sent for it exactly when it is in step. */
  lemma DriftIff(a: Attribute)
    requires Sent(a)
    ensures Drift(a) == 0 <==> InStep(a)
    ensures !IsTemplate(a.id) ==> Drift(a) >= 0
  {
    if IsTemplate(a.id) {
      ItemsAreHeadsAndData(a.value.attrs);
    } else {
      RoomIff(a);
    }
  }

  predicate AllSent(attrs: seq<Attribute>, k: nat) {
    k <= |attrs| && forall j :: 0 <= j < k ==> Sent(attrs[j])
  }

  /** The drifts of the first k attributes together. */
  function Drifts(attrs: seq<Attribute>, k: nat): (d: int)
    requires AllSent(attrs, k)
  {
    if k == 0 then 0 else Drifts(attrs, k - 1) + Drift(attrs[k - 1])
  }

  /** The cursor is off by the drifts of the attributes before it. */
  lemma {:induction false} CursorDrifts(attrs: seq<Attribute>, k: nat)
    requires AllTyped(attrs) && AllSent(attrs, k)
    ensures Items(attrs[..k]).Wire?
    ensures SkippedTo(attrs, k) == HEAD_SIZE + |Items(attrs[..k]).bytes| + Drifts(attrs, k)
  {
    if k > 0 {
      CursorDrifts(attrs, k - 1);
      ItemsStep(attrs, k - 1);
    }
  }

  /** The cursor is where the serialiser put attribute k. */
  predicate CursorIsRight(attrs: seq<Attribute>, k: nat)
    requires AllShort(attrs) && AllTyped(attrs) && k <= |attrs|
  {
    Items(attrs[..k]).Wire? && Cursor(AnySlotsOf(attrs), k) == HEAD_SIZE + |Items(attrs[..k]).bytes|
  }

  predicate RightTo(attrs: seq<Attribute>, n: nat)
    requires AllShort(attrs) && AllTyped(attrs) && n <= |attrs|
  {
    forall k :: 0 <= k <= n ==> CursorIsRight(attrs, k)
  }

  predicate InStepTo(attrs: seq<Attribute>, n: nat)
    requires AllSent(attrs, n)
  {
    forall j :: 0 <= j < n ==> InStep(attrs[j])
  }

  /**
   * For all attributes, templates included: the cursor is right at each of the first
   * n attributes and behind them exactly when each of them is in step.
   */
  lemma {:induction false} LockstepIff(attrs: seq<Attribute>, n: nat)
    requires AllShort(attrs) && AllTyped(attrs) && AllSent(attrs, n)
    ensures RightTo(attrs, n) <==> InStepTo(attrs, n)
    ensures InStepTo(attrs, n) ==> Drifts(attrs, n) == 0
  {
    if n == 0 {
      RightAtStart(attrs);
    } else {
      LockstepIff(attrs, n - 1);
      LockstepStep(attrs, n - 1);
    }
  }

  lemma RightAtStart(attrs: seq<Attribute>)
    requires AllShort(attrs) && AllTyped(attrs)
    ensures RightTo(attrs, 0)
  {
    RightIff(attrs, 0);
  }

  lemma LockstepStep(attrs: seq<Attribute>, n: nat)
    requires AllShort(attrs) && AllTyped(attrs) && n < |attrs| && AllSent(attrs, n) && AllSent(attrs, n + 1)
    requires RightTo(attrs, n) <==> InStepTo(attrs, n)
    requires InStepTo(attrs, n) ==> Drifts(attrs, n) == 0
    ensures RightTo(attrs, n + 1) <==> InStepTo(attrs, n + 1)
    ensures InStepTo(attrs, n + 1) ==> Drifts(attrs, n + 1) == 0
  {
    RightIff(attrs, n + 1);
    StepByStep(attrs, n);
    DriftsStep(attrs, n);
  }

  /** The cursor is right exactly when the drifts before it cancel out. */
  lemma RightIff(attrs: seq<Attribute>, k: nat)
    requires AllShort(attrs) && AllTyped(attrs) && AllSent(attrs, k)
    ensures CursorIsRight(attrs, k) <==> Drifts(attrs, k) == 0
  {
    CursorDrifts(attrs, k);
    SkippedIsCursor(attrs, k);
  }

  lemma DriftsStep(attrs: seq<Attribute>, n: nat)
    requires n < |attrs| && AllSent(attrs, n + 1)
    ensures Drifts(attrs, n + 1) == Drifts(attrs, n) + Drift(attrs[n])
    ensures Drift(attrs[n]) == 0 <==> InStep(attrs[n])
  {
    DriftIff(attrs[n]);
  }

  lemma StepByStep(attrs: seq<Attribute>, n: nat)
    requires AllShort(attrs) && AllTyped(attrs) && n < |attrs| && AllSent(attrs, n + 1)
    ensures RightTo(attrs, n + 1) <==> RightTo(attrs, n) && CursorIsRight(attrs, n + 1)
    ensures InStepTo(attrs, n + 1) <==> InStepTo(attrs, n) && InStep(attrs[n])
  {
  }

  /** A list with one mechanism is skipped four bytes too far. */
  lemma OneMechanismDrifts(bytes: Bytes)
    requires |bytes| == ULONG_SIZE && LowWord(bytes, 0) != UNDEFINED_ID
    ensures var a := Attribute(ALLOWED_MECHANISMS, Data(bytes)); Sent(a) && Drift(a) == 4 && !InStep(a)
  {
    assert MechanismWords(bytes, 0) == Wire([]);
    assert MechanismWords(bytes, 1).Wire?;
    assert |bytes| / ULONG_SIZE == 1;
  }

  /** An empty template is sent with a head and skipped with nothing; one with a single 8-byte attribute is in step. */
  lemma TemplatesDrift(data: Bytes)
    requires |data| == 8
    ensures var a := Attribute(WRAP_TEMPLATE, Template([])); Sent(a) && Drift(a) == -8
    ensures var a := Attribute(WRAP_TEMPLATE, Template([Attribute(0x11, Data(data))])); Sent(a) && Drift(a) == 0
  {
    var inner := Attribute(0x11, Data(data));
    SmallMod(8);
    assert data[..8] == data;
    SingleItem(inner, data);
  }

  // ----- Answers -----

  /** Byte strings and integers only, and the whole of it can be sent. */
  predicate Sendable(attrs: seq<Attribute>) {
    && Flat(attrs) && (forall k :: 0 <= k < |attrs| ==> Simple(attrs[k].id) && GoodSlot(SlotOf(attrs[k])))
    && Object(attrs).Wire? && |Object(attrs).bytes| < WORD
  }

  lemma NoMechanisms(attrs: seq<Attribute>, k: nat)
    requires Sendable(attrs) && k <= |attrs|
    ensures NoMechanismsBefore(attrs, k)
  {
  }

  /** Attribute k starts and ends in what was sent where the cursor stops. */
  lemma CursorSpan(attrs: seq<Attribute>, k: nat)
    requires Sendable(attrs) && k < |attrs|
    ensures var front, payload := Items(attrs[..k]), Payload(attrs[k]);
            && front.Wire? && payload.Wire? && |payload.bytes| == Room(SlotOf(attrs[k]))
            && Cursor(SlotsOf(attrs), k) == HEAD_SIZE + |front.bytes|
            && Cursor(SlotsOf(attrs), k + 1) == HEAD_SIZE + |front.bytes| + |Framed(attrs[k].id, payload.bytes)|
            && front.bytes + Framed(attrs[k].id, payload.bytes) <= Items(attrs).bytes
  {
    NoMechanisms(attrs, k);
    FlatLockstepIff(attrs, k);
    ItemsPrefix(attrs, k + 1);
    OneMore(attrs, k);
  }

  /** What the cursor finds for attribute k in what was sent is that attribute. */
  lemma OwnIsFramed(attrs: seq<Attribute>, k: nat)
    requires Sendable(attrs) && k < |attrs|
    ensures Payload(attrs[k]).Wire? && |Payload(attrs[k]).bytes| == Room(SlotOf(attrs[k]))
    ensures Cursor(SlotsOf(attrs), k + 1) <= |Object(attrs).bytes|
    ensures Own(Object(attrs).bytes, SlotsOf(attrs), k) == Framed(attrs[k].id, Payload(attrs[k]).bytes)
  {
    CursorSpan(attrs, k);
    BehindHead(|attrs|, Items(attrs[..k]).bytes, Framed(attrs[k].id, Payload(attrs[k]).bytes), Items(attrs).bytes,
               Object(attrs).bytes, SlotsOf(attrs), k);
  }

  lemma BehindHead(count: nat, front: Bytes, item: Bytes, items: Bytes, sent: Bytes, slots: seq<Slot>, k: nat)
    requires front + item <= items && sent == WithHead(count, items) && k < |slots|
    requires Cursor(slots, k) == HEAD_SIZE + |front| && Cursor(slots, k + 1) == HEAD_SIZE + |front| + |item|
    ensures Cursor(slots, k + 1) <= |sent| && Own(sent, slots, k) == item
  {
    InTheMiddle(Le32(|items| % WORD) + Le32(count % WORD), front, item, items);
  }

  lemma InTheMiddle(head: Bytes, front: Bytes, item: Bytes, items: Bytes)
    requires front + item <= items
    ensures (head + items)[|head| + |front|..|head| + |front| + |item|] == item
  {
    var s, a := head + items, |head| + |front|;
    assert s[a..a + |item|] == items[|front|..|front| + |item|];
    assert items[|front|..|front| + |item|] == (front + item)[|front|..];
  }

  lemma {:induction false} ItemsPrefix(attrs: seq<Attribute>, k: nat)
    requires AllTyped(attrs) && k <= |attrs| && Items(attrs).Wire?
    ensures Items(attrs[..k]).Wire? && Items(attrs[..k]).bytes <= Items(attrs).bytes
    decreases |attrs|
  {
    if k == |attrs| {
      assert attrs[..k] == attrs;
    } else {
      var front := attrs[..|attrs| - 1];
      ItemsPrefix(front, k);
      assert front[..k] == attrs[..k];
    }
  }

  /** An attribute that comes back as it was sent. */
  function Echo(a: Attribute): (s: Slot)
    requires Simple(a.id) && !a.value.Template? && (a.value.Data? ==> |a.value.bytes| < WORD)
    requires a.value.Data? && IsUlong(a.id) ==> |a.value.bytes| >= ULONG_SIZE
  {
    if !IsUlong(a.id) then SlotOf(a)
    else if a.value.Null? then SlotOf(a).(len := ULONG_SIZE)
    else Slot(a.id, ULONG_SIZE, Some(Splice(a.value.bytes, 0, Le64(Widened(a.id, LowWord(a.value.bytes, 0))))))
  }

  lemma DecodeFramed(a: Attribute, s: Slot, size: u32, data: Bytes)
    requires GoodSlot(s) && s.id == a.id && |data| == Room(s)
    ensures var bytes := Le32(a.id) + Le32(size) + data;
            Fits(s, bytes) && FromLe32(bytes[4..8]) == size && bytes[HEAD_SIZE..] == data
  {
    HeadParts(Le32(a.id), Le32(size), data);
  }

  lemma EchoIsDecoded(a: Attribute)
    requires WellTyped(a) && Simple(a.id) && !a.value.Template? && (a.value.Data? ==> |a.value.bytes| < WORD) &&
             GoodSlot(SlotOf(a))
    requires Payload(a).Wire? && HEAD_SIZE + |Payload(a).bytes| < WORD
    ensures a.value.Data? && IsUlong(a.id) ==> |a.value.bytes| >= ULONG_SIZE
    ensures Fits(SlotOf(a), Framed(a.id, Payload(a).bytes))
    ensures Decode(SlotOf(a), Framed(a.id, Payload(a).bytes)) == Outcome(Echo(a), CkOk)
  {
    var data := Payload(a).bytes;
    RoomIff(a);
    SmallMod(a.id);
    SmallMod(|data|);
    DecodeFramed(a, SlotOf(a), |data|, data);
    if a.value.Data? && !IsUlong(a.id) {
      SmallMod(|a.value.bytes|);
      assert data[..|data|] == data;
      assert Splice(a.value.bytes, 0, data) == a.value.bytes;
    } else if a.value.Data? {
      assert data[..4] == data;
    }
  }

  /** An object that comes back unchanged is an answer, and every attribute of it is decoded to what was sent. */
  lemma UnchangedRoundTrip(attrs: seq<Attribute>, k: nat)
    requires Sendable(attrs) && k < |attrs|
    ensures attrs[k].value.Data? && IsUlong(attrs[k].id) ==> |attrs[k].value.bytes| >= ULONG_SIZE
    ensures Covered(Object(attrs).bytes, SlotsOf(attrs), k)
    ensures DecodeOwn(Object(attrs).bytes, SlotsOf(attrs), k) == Outcome(Echo(attrs[k]), CkOk)
  {
    OwnIsFramed(attrs, k);
    EchoIsDecoded(attrs[k]);
  }

  /** The CK_ULONG at the start of memory. */
  function Ulong(bytes: Bytes): (v: u64)
    requires |bytes| >= ULONG_SIZE
  {
    FromLe32(bytes[..4]) + WORD * FromLe32(bytes[4..8])
  }

  /**
   * A byte string always comes back as it was. An integer does when its memory has
   * the size of a CK_ULONG and its value survives 32 bits: it is below 2^32, or,
   * for the one attribute that has an "unavailable" value, below 2^32 - 1 or that value.
   */
  lemma EchoIsIdentityIff(a: Attribute)
    requires Simple(a.id) && !a.value.Template? && (a.value.Data? ==> |a.value.bytes| < WORD)
    requires a.value.Data? && IsUlong(a.id) ==> |a.value.bytes| >= ULONG_SIZE
    ensures !IsUlong(a.id) ==> Echo(a) == SlotOf(a)
    ensures IsUlong(a.id) && a.value.Null? ==> (Echo(a) == SlotOf(a) <==> a.value.len == ULONG_SIZE)
    ensures IsUlong(a.id) && a.value.Data? ==>
              (Echo(a) == SlotOf(a) <==> |a.value.bytes| == ULONG_SIZE && Survives(a.id, Ulong(a.value.bytes)))
  {
    if IsUlong(a.id) && a.value.Data? && |a.value.bytes| == ULONG_SIZE {
      UlongEcho(a.id, a.value.bytes);
    }
  }

  lemma UlongEcho(id: u64, b: Bytes)
    requires |b| == ULONG_SIZE
    ensures Splice(b, 0, Le64(Widened(id, LowWord(b, 0)))) == b <==> Survives(id, Ulong(b))
  {
    var v := Widened(id, LowWord(b, 0));
    assert Splice(b, 0, Le64(v)) == Le64(v);
    UlongIsItsBytes(b, v);
    WidenedIff(id, LowWord(b, 0), FromLe32(b[4..8]));
  }

  lemma WidenedIff(id: u64, lo: u32, hi: u32)
    ensures lo + WORD * hi == Widened(id, lo) <==> Survives(id, lo + WORD * hi)
  {
  }

  predicate Survives(id: u64, v: u64) {
    if id == KEY_GEN_MECHANISM then v < UNAVAILABLE32 || v == UNAVAILABLE64 else v < WORD
  }

  lemma UlongIsItsBytes(b: Bytes, v: u64)
    requires |b| == ULONG_SIZE
    ensures Le64(v) == b <==> Ulong(b) == v
  {
    var lo, hi := b[..4], b[4..8];
    assert b == lo + hi;
    HalvesAgree(lo, hi, Le32(v % WORD), Le32(v / WORD));
    WordIsItsBytes(lo);
    WordIsItsBytes(hi);
    Halves(FromLe32(lo), FromLe32(hi), v);
  }

  lemma HalvesAgree(a: Bytes, b: Bytes, c: Bytes, d: Bytes)
    requires |a| == |c|
    ensures a + b == c + d <==> a == c && b == d
  {
    if a + b == c + d {
      assert (a + b)[..|a|] == a && (c + d)[..|a|] == c && (a + b)[|a|..] == b && (c + d)[|a|..] == d;
    }
  }

  lemma Halves(lo: u32, hi: u32, v: u64)
    ensures lo + WORD * hi == v <==> lo == v % WORD && hi == v / WORD
  {
  }

  lemma WordIsItsBytes(b: Bytes)
    requires |b| == 4
    ensures Le32(FromLe32(b)) == b
  {
    Digit(b[3], b[2]);
    Digit((b[3] as int) * 0x100 + b[2], b[1]);
    Digit(((b[3] as int) * 0x100 + b[2]) * 0x100 + b[1], b[0]);
  }

  lemma Digit(q: nat, r: u8)
    ensures (q * 0x100 + r) / 0x100 == q && (q * 0x100 + r) % 0x100 == r
  {
  }

  /**
   * What the TA does with an attribute it has the value of: the size of the value
   * goes to the head, and the value to the data when there is room for it.
   */
  function TaAnswer(s: Slot, value: Bytes, before: Bytes): (bytes: Bytes)
    requires Simple(s.id) && |value| < UNAVAILABLE32 && |before| == Room(s)
  {
    Le32(s.id) + Le32(|value|) + if |value| <= Room(s) then Splice(before, 0, value) else before
  }

  /**
   * The caller of a query gets the value when it fits the memory given, and only
   * the size needed when it does not. Without memory, the larger of that size and
   * the ulValueLen of the caller is reported.
   */
  lemma AnswerArrives(s: Slot, value: Bytes, before: Bytes)
    requires GoodSlot(s) && |value| < UNAVAILABLE32 && |before| == Room(s) && !IsUlong(s.id)
    ensures Fits(s, TaAnswer(s, value, before))
    ensures var r := Decode(s, TaAnswer(s, value, before));
            && r.rv == CkOk && r.slot.id == s.id
            && r.slot.mem == (if s.mem.Some? && |value| <= s.len then Some(Splice(s.mem.value, 0, value)) else s.mem)
            && (s.mem.Some? ==> r.slot.len == |value|)
            && (s.mem.None? ==> r.slot.len == if s.len < |value| then |value| else s.len)
  {
    var data := if |value| <= Room(s) then Splice(before, 0, value) else before;
    DecodeFramed(Attribute(s.id, Null(0)), s, |value|, data);
    if |value| <= Room(s) {
      assert data[..|value|] == value;
    }
  }

  /** So the size arrives exactly when there is memory or the caller's ulValueLen is not above it. */
  lemma SizeArrivesIff(s: Slot, value: Bytes, before: Bytes)
    requires GoodSlot(s) && |value| < UNAVAILABLE32 && |before| == Room(s) && !IsUlong(s.id)
    ensures Fits(s, TaAnswer(s, value, before))
    ensures Decode(s, TaAnswer(s, value, before)).slot.len == |value| <==> s.mem.Some? || s.len <= |value|
  {
    AnswerArrives(s, value, before);
  }

  /** A caller that asks for the size of a value of one byte without memory, and with ulValueLen 2, is told 2. */
  lemma StaleLengthStays(b: u8)
    ensures var s := Slot(0x11, 2, None);
            GoodSlot(s) && Fits(s, TaAnswer(s, [b], [])) && Decode(s, TaAnswer(s, [b], [])).slot.len == 2
  {
    AnswerArrives(Slot(0x11, 2, None), [b], []);
  }

  /** An integer of the TA arrives as a CK_ULONG, and its size does when there is no memory. */
  lemma UlongArrives(s: Slot, w: u32, before: Bytes)
    requires GoodSlot(s) && |before| == Room(s) && IsUlong(s.id) && (s.mem.Some? ==> s.len >= ULONG_SIZE)
    ensures Fits(s, TaAnswer(s, Le32(w), before))
    ensures Decode(s, TaAnswer(s, Le32(w), before)) ==
            Outcome(Slot(s.id, ULONG_SIZE,
                         if s.mem.Some? then Some(Splice(s.mem.value, 0, Le64(Widened(s.id, w)))) else None), CkOk)
  {
    var data := if 4 <= Room(s) then Splice(before, 0, Le32(w)) else before;
    DecodeFramed(Attribute(s.id, Null(0)), s, 4, data);
    if s.mem.Some? {
      assert data[..4] == Le32(w);
    }
  }
}
