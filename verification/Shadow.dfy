/**
 * What an operation does to the caller's memory. The TA works on the caller's
 * memory where that could be registered, and on a shadow buffer where not; the
 * library copies in before the call and out after it.
 */
module Shadow {
  import opened Words
  import opened SharedMemory

  /** The three kinds of memory reference, which differ in when they copy. */
  datatype Kind = TempRef | WholeRef | PartialRef

  /**
   * A parameter that was accepted. A memory reference has the buffer of the caller
   * (NULL for a temporary reference without memory), the shadow buffer (NULL where
   * the buffer itself is shared), and the part of the buffer it stands for. Memory
   * that was registered from a descriptor, and allocated memory, is like a buffer
   * without a shadow buffer: the library keeps no address of the former, but it does
   * not copy either.
   */
  datatype Ref =
    | NoRef
    | Number(dir: Dir, a: int, b: int)
    | Mem(kind: Kind, dir: Dir, buffer: int, shadow: int, offset: nat, size: nat)
  {
    predicate HasMemory() {
      Mem? && buffer != NULL
    }

    predicate HasShadow() {
      Mem? && buffer != NULL && shadow != NULL
    }

    /** The library copies to the shadow buffer before the call. */
    predicate CopiesIn() {
      HasShadow() && (kind == TempRef || dir != Output)
    }

    /** The memory the TA gets. */
    function Shared(): (p: int)
      requires HasMemory()
    {
      if shadow != NULL then shadow else buffer
    }

    /** The reference stands for byte i of memory p. */
    predicate Covers(p: int, i: int) {
      HasMemory() && p == buffer && offset <= i < offset + size
    }
  }

  /** What the TA gets of a parameter; memory it is only to write to it does not look at. */
  datatype Seen = SeenNothing | SeenNumber(a: int, b: int) | SeenInput(data: Bytes) | SeenRoom(size: nat)

  /** What the TA answers for a parameter: two numbers, or the bytes of its result, which it writes if they fit. */
  datatype Answer = Answer(a: int, b: int, data: Bytes)

  type Contents = map<int, Bytes>

  // ----- What is wanted -----

  /** The memory of a reference is there and large enough; without memory there is no size. */
  predicate Good(r: Ref, mem: Contents) {
    && (r.Mem? && r.buffer == NULL ==> r.size == 0 && r.kind == TempRef)
    && (r.Mem? && r.kind != PartialRef ==> r.offset == 0)
    && (r.HasMemory() ==> InMemory(mem, r.buffer, r.offset, r.size))
    && (r.HasShadow() ==> r.shadow != r.buffer && InMemory(mem, r.shadow, r.offset, r.size))
  }

  predicate InMemory(mem: Contents, p: int, offset: nat, n: nat) {
    p in mem && offset + n <= |mem[p]|
  }

  predicate AllGood(refs: seq<Ref>, mem: Contents) {
    forall k :: 0 <= k < |refs| ==> Good(refs[k], mem)
  }

  /** What the TA is to see of a parameter, given the part of the caller's memory it stands for. */
  function Wanted(r: Ref, part: Bytes): (s: Seen) {
    match r
    case NoRef => SeenNothing
    case Number(d, a, b) => if d == Output then SeenNothing else SeenNumber(a, b)
    case Mem(_, d, _, _, _, n) => if d == Output then SeenRoom(n) else SeenInput(part)
  }

  /** The part after the call: the result at its start, if it fits. */
  function Outcome(r: Ref, part: Bytes, answer: Answer): (after: Bytes) {
    if r.Mem? && r.dir != Input && |answer.data| <= |part| then answer.data + part[|answer.data|..] else part
  }

  /** The parameter after the call: numbers and sizes of the TA, but not for input. */
  function After(r: Ref, answer: Answer): (s: Ref) {
    match r
    case NoRef => r
    case Number(d, _, _) => if d == Input then r else r.(a := answer.a, b := answer.b)
    case Mem(_, d, _, _, _, _) => if d == Input then r else r.(size := |answer.data|)
  }

  // ----- What is done -----

  /** memcpy() of n bytes between two memories at the same offset. */
  function Copied(mem: Contents, dst: int, src: int, offset: nat, n: nat): (m: Contents)
    requires InMemory(mem, dst, offset, n) && InMemory(mem, src, offset, n)
  {
    mem[dst := Splice(mem[dst], offset, mem[src][offset..offset + n])]
  }

  class Memory {
    var mem: Contents

    method Copy(dst: int, src: int, offset: nat, n: nat)
      requires InMemory(mem, dst, offset, n) && InMemory(mem, src, offset, n)
      modifies this
      ensures mem == Copied(old(mem), dst, src, offset, n)
    {
      mem := mem[dst := Splice(mem[dst], offset, mem[src][offset..offset + n])];
    }

    /** The copying of teec_pre_process_tmpref(), _whole() and _partial(). */
    method CopyIn(r: Ref)
      requires Good(r, mem)
      modifies this
      ensures mem == InFor(r, old(mem))
    {
      if r.Mem? && r.buffer != NULL && r.shadow != NULL {
        if r.kind == TempRef {
          Copy(r.shadow, r.buffer, 0, r.size);
        } else if r.kind == WholeRef {
          if r.dir != Output {
            Copy(r.shadow, r.buffer, 0, r.size);
          }
        } else if r.dir != Output {
          Copy(r.shadow, r.buffer, r.offset, r.size);
        }
      }
    }

    /** The TA, on the memory that is shared. */
    method Write(r: Ref, answer: Answer)
      requires Good(r, mem)
      modifies this
      ensures mem == WriteFor(r, answer, old(mem))
    {
      if r.HasMemory() && r.dir != Input && |answer.data| <= r.size {
        mem := mem[r.Shared() := Splice(mem[r.Shared()], r.offset, answer.data)];
      }
    }

    /** teec_post_process_tmpref(), _whole() and _partial() */
    method CopyOut(r: Ref, size: nat) returns (s: Ref)
      requires Good(r, mem)
      modifies this
      ensures mem == OutFor(r, size, old(mem))
      ensures s == if r.Mem? && r.dir != Input then r.(size := size) else r
    {
      s := r;
      if !r.Mem? || r.dir == Input {
        return;
      }
      if r.kind == TempRef {
        if r.buffer != NULL && r.shadow != NULL {
          Copy(r.buffer, r.shadow, 0, if size < r.size then size else r.size);
        }
      } else if r.kind == WholeRef {
        if r.buffer != NULL && r.shadow != NULL && size <= r.size {
          Copy(r.buffer, r.shadow, 0, size);
        }
      } else {
        if r.buffer != NULL && r.shadow != NULL && size <= r.size {
          Copy(r.buffer, r.shadow, r.offset, size);
        }
      }
      s := r.(size := size);
    }
  }

  /** Memory after copying in. */
  function InFor(r: Ref, mem: Contents): (m: Contents)
    requires Good(r, mem)
  {
    if r.CopiesIn()
    then Copied(mem, r.shadow, r.buffer, r.offset, r.size) else mem
  }

  function WriteFor(r: Ref, answer: Answer, mem: Contents): (m: Contents)
    requires Good(r, mem)
  {
    if r.HasMemory() && r.dir != Input && |answer.data| <= r.size
    then mem[r.Shared() := Splice(mem[r.Shared()], r.offset, answer.data)] else mem
  }

  function OutFor(r: Ref, size: nat, mem: Contents): (m: Contents)
    requires Good(r, mem)
  {
    if !r.HasShadow() || r.dir == Input then mem
    else if size <= r.size then Copied(mem, r.buffer, r.shadow, r.offset, size)
    else if r.kind == TempRef then Copied(mem, r.buffer, r.shadow, r.offset, r.size)
    else mem
  }

  /** The three things that happen to each reference, one after the other. */
  datatype Stage = StageIn | StageWrite | StageOut

  function Do(stage: Stage, r: Ref, answer: Answer, mem: Contents): (m: Contents)
    requires Good(r, mem)
  {
    match stage
    case StageIn => InFor(r, mem)
    case StageWrite => WriteFor(r, answer, mem)
    case StageOut => OutFor(r, |answer.data|, mem)
  }

  // ----- One reference -----

  /** The bytes a reference stands for, in the buffer and in the shadow buffer. */
  datatype Bytes2 = Bytes2(part: Bytes, shadow: Bytes)

  function Slice(mem: Contents, p: int, offset: nat, n: nat): (s: Bytes)
    requires InMemory(mem, p, offset, n)
    ensures |s| == n
  {
    mem[p][offset..offset + n]
  }

  function BytesOf(r: Ref, mem: Contents): (b: Bytes2)
    requires Good(r, mem)
    ensures r.Mem? ==> |b.part| == r.size && (r.HasShadow() ==> |b.shadow| == r.size)
  {
    Bytes2(if r.HasMemory() then Slice(mem, r.buffer, r.offset, r.size) else [],
           if r.HasShadow() then Slice(mem, r.shadow, r.offset, r.size) else [])
  }

  predicate Sized(r: Ref, b: Bytes2) {
    && (if r.HasMemory() then |b.part| == r.size else b.part == [])
    && (if r.HasShadow() then |b.shadow| == r.size else b.shadow == [])
  }

  /** A stage, as far as the bytes of its reference go. */
  function DoBytes(stage: Stage, r: Ref, answer: Answer, b: Bytes2): (c: Bytes2)
    requires Sized(r, b)
    ensures Sized(r, c)
  {
    var n := |answer.data|;
    match stage
    case StageIn => if r.CopiesIn() then Bytes2(b.part, b.part) else b
    case StageWrite =>
      if !r.HasMemory() || r.dir == Input || n > r.size then b
      else if r.HasShadow() then Bytes2(b.part, answer.data + b.shadow[n..])
      else Bytes2(answer.data + b.part[n..], b.shadow)
    case StageOut =>
      if !r.HasShadow() || r.dir == Input then b
      else if n <= r.size then Bytes2(b.shadow[..n] + b.part[n..], b.shadow)
      else if r.kind == TempRef then Bytes2(b.shadow, b.shadow)
      else b
  }

  /** What the TA sees of a reference in the memory that is shared. */
  function View(r: Ref, b: Bytes2): (s: Seen) {
    match r
    case NoRef => SeenNothing
    case Number(d, a, b) => if d == Output then SeenNothing else SeenNumber(a, b)
    case Mem(_, d, _, _, _, n) =>
      if d == Output then SeenRoom(n) else SeenInput(if r.HasShadow() then b.shadow else b.part)
  }

  /** After copying in, the TA sees what it is to see. */
  lemma SeesWhatIsWanted(r: Ref, b: Bytes2)
    requires Sized(r, b)
    ensures View(r, DoBytes(StageIn, r, NO_ANSWER, b)) == Wanted(r, b.part)
  {
  }

  /** The three stages leave the caller what is wanted, with or without a shadow buffer. */
  lemma LeavesWhatIsWanted(r: Ref, b: Bytes2, answer: Answer)
    requires Sized(r, b)
    ensures var b1 := DoBytes(StageIn, r, NO_ANSWER, b);
            var b2 := DoBytes(StageWrite, r, answer, b1);
            DoBytes(StageOut, r, answer, b2).part == Outcome(r, b.part, answer)
  {
    var n := |answer.data|;
    var b1 := DoBytes(StageIn, r, NO_ANSWER, b);
    if r.HasShadow() && r.dir != Input && n <= r.size {
      assert (answer.data + b1.shadow[n..])[..n] == answer.data;
    }
  }

  /** Memory with data written at an offset of p. */
  function Patched(mem: Contents, p: int, offset: nat, data: Bytes): (m: Contents)
    requires InMemory(mem, p, offset, |data|)
  {
    mem[p := Splice(mem[p], offset, data)]
  }

  predicate SameShape(m: Contents, n: Contents) {
    m.Keys == n.Keys && forall p :: p in m ==> |m[p]| == |n[p]|
  }

  lemma SpliceReads(s: Bytes, at: nat, data: Bytes, n: nat)
    requires |data| <= n && at + n <= |s|
    ensures Splice(s, at, data)[at..at + n] == data + s[at..at + n][|data|..]
  {
  }

  /** The part that was written to, and the same part of another memory. */
  lemma PatchedPart(mem: Contents, p: int, q: int, offset: nat, data: Bytes, n: nat)
    requires |data| <= n && InMemory(mem, p, offset, n)
    ensures var m := Patched(mem, p, offset, data);
            && SameShape(mem, m) && InMemory(m, p, offset, n)
            && Slice(m, p, offset, n) == data + Slice(mem, p, offset, n)[|data|..]
            && (q != p && InMemory(mem, q, offset, n) ==>
                 InMemory(m, q, offset, n) && Slice(m, q, offset, n) == Slice(mem, q, offset, n))
  {
    SpliceReads(mem[p], offset, data, n);
  }

  lemma Prefix(s: Bytes, o: nat, n: nat, size: nat)
    requires n <= size && o + size <= |s|
    ensures s[o..o + size][..n] == s[o..o + n]
  {
  }

  lemma NothingBehind(data: Bytes, s: Bytes)
    requires |data| == |s|
    ensures data + s[|data|..] == data
  {
  }

  lemma InEffect(r: Ref, mem: Contents)
    requires Good(r, mem)
    ensures var m := InFor(r, mem);
            SameShape(mem, m) && Good(r, m) && BytesOf(r, m) == DoBytes(StageIn, r, NO_ANSWER, BytesOf(r, mem))
  {
    if r.HasShadow() {
      var part := Slice(mem, r.buffer, r.offset, r.size);
      PatchedPart(mem, r.shadow, r.buffer, r.offset, part, r.size);
      NothingBehind(part, Slice(mem, r.shadow, r.offset, r.size));
    }
  }

  lemma WriteEffect(r: Ref, answer: Answer, mem: Contents)
    requires Good(r, mem)
    ensures var m := WriteFor(r, answer, mem);
            SameShape(mem, m) && Good(r, m) && BytesOf(r, m) == DoBytes(StageWrite, r, answer, BytesOf(r, mem))
  {
    if r.HasMemory() && |answer.data| <= r.size {
      PatchedPart(mem, r.Shared(), r.buffer, r.offset, answer.data, r.size);
    }
  }

  lemma OutEffect(r: Ref, answer: Answer, mem: Contents)
    requires Good(r, mem)
    ensures var m := OutFor(r, |answer.data|, mem);
            SameShape(mem, m) && Good(r, m) && BytesOf(r, m) == DoBytes(StageOut, r, answer, BytesOf(r, mem))
  {
    if r.HasShadow() {
      var n := if |answer.data| <= r.size then |answer.data| else r.size;
      CopiedPart(mem, r.buffer, r.shadow, r.offset, n, r.size);
    }
  }

  lemma CopiedPart(mem: Contents, dst: int, src: int, offset: nat, n: nat, size: nat)
    requires dst != src && n <= size && InMemory(mem, dst, offset, size) && InMemory(mem, src, offset, size)
    ensures var m := Copied(mem, dst, src, offset, n);
            && SameShape(mem, m) && InMemory(m, dst, offset, size) && InMemory(m, src, offset, size)
            && Slice(m, src, offset, size) == Slice(mem, src, offset, size)
            && Slice(m, dst, offset, size) == Slice(mem, src, offset, size)[..n] + Slice(mem, dst, offset, size)[n..]
            && (n == size ==> Slice(m, dst, offset, size) == Slice(mem, src, offset, size))
  {
    var data := Slice(mem, src, offset, n);
    PatchedPart(mem, dst, src, offset, data, size);
    Prefix(mem[src], offset, n, size);
    if n == size {
      NothingBehind(data, Slice(mem, dst, offset, size));
    }
  }

  /** A stage does to the bytes of its reference what it says, and keeps the sizes of all memory. */
  lemma StageEffect(stage: Stage, r: Ref, answer: Answer, mem: Contents)
    requires Good(r, mem)
    ensures var m := Do(stage, r, answer, mem);
            SameShape(mem, m) && Good(r, m) && BytesOf(r, m) == DoBytes(stage, r, answer, BytesOf(r, mem))
  {
    match stage
    case StageIn => InEffect(r, mem);
    case StageWrite => WriteEffect(r, answer, mem);
    case StageOut => OutEffect(r, answer, mem);
  }

  // ----- Other references -----

  /** Two ranges of one memory have no byte in common. */
  predicate Apart(o1: nat, n1: nat, o2: nat, n2: nat) {
    n1 == 0 || n2 == 0 || o1 + n1 <= o2 || o2 + n2 <= o1
  }

  /** The reference uses its part of the memory p. */
  predicate Touches(r: Ref, p: int) {
    (r.HasMemory() && p == r.buffer) || (r.HasShadow() && p == r.shadow)
  }

  /** Two references have to do with one memory. */
  predicate Meet(r: Ref, s: Ref) {
    (r.HasMemory() && Touches(s, r.buffer)) || (r.HasShadow() && Touches(s, r.shadow))
  }

  /** Two references have no byte in common; they may be parts of one buffer. */
  predicate Disjoint(r: Ref, s: Ref) {
    Meet(r, s) ==> Apart(r.offset, r.size, s.offset, s.size)
  }

  /**
   * Two references to memory the TA only reads. Their parts may overlap: only shadow
   * buffers are written, and one shadow buffer belongs to one buffer.
   */
  predicate InputsOnly(r: Ref, s: Ref) {
    && r.HasMemory() && s.HasMemory() && r.dir == Input && s.dir == Input
    && (r.HasShadow() ==> r.shadow != s.buffer) && (s.HasShadow() ==> s.shadow != r.buffer)
    && (r.HasShadow() && s.HasShadow() && r.shadow == s.shadow ==> r.buffer == s.buffer)
  }

  predicate NoAlias(refs: seq<Ref>) {
    forall i, j :: 0 <= i < |refs| && 0 <= j < |refs| && i != j ==>
      Disjoint(refs[i], refs[j]) || InputsOnly(refs[i], refs[j])
  }

  /** Two parts of one buffer and its shadow buffer that follow each other are allowed. */
  lemma PartsOfOneBuffer(buffer: int, shadow: int, offset: nat, n: nat, size: nat, d: Dir, e: Dir)
    ensures NoAlias([Mem(PartialRef, d, buffer, shadow, offset, n),
                     Mem(PartialRef, e, buffer, shadow, offset + n, size)])
  {
  }

  /** So are parts of one buffer that overlap, and two temporary references to it, when they are input. */
  lemma InputsMayOverlap(p: int, shadow: int, other: int, o1: nat, n1: nat, o2: nat, n2: nat)
    requires p != NULL && p != shadow && p != other
    ensures NoAlias([Mem(PartialRef, Input, p, shadow, o1, n1), Mem(PartialRef, Input, p, shadow, o2, n2)])
    ensures NoAlias([Mem(TempRef, Input, p, shadow, 0, n1), Mem(TempRef, Input, p, other, 0, n2)])
  {
  }

  lemma Within(s: Bytes, from: nat, upto: nat, o: nat, n: nat)
    requires from <= o && o + n <= upto <= |s|
    ensures s[o..o + n] == s[from..upto][o - from..o - from + n]
  {
    var t := s[from..upto];
    var u, v := s[o..o + n], t[o - from..o - from + n];
    forall i | 0 <= i < n ensures u[i] == v[i] {
      assert t[o - from + i] == s[o + i];
    }
  }

  lemma SpliceApart(s: Bytes, at: nat, data: Bytes, o: nat, n: nat)
    requires at + |data| <= |s| && o + n <= |s| && Apart(at, |data|, o, n)
    ensures Splice(s, at, data)[o..o + n] == s[o..o + n]
  {
    var t, end := Splice(s, at, data), at + |data|;
    if |data| == 0 {
      assert s[..at] + data == s[..at] && s[..at] + s[at..] == s;
    } else if o + n <= at {
      assert t[..at] == s[..at];
      Within(t, 0, at, o, n);
      Within(s, 0, at, o, n);
    } else if end <= o {
      assert t[end..|t|] == s[end..|s|];
      Within(t, end, |t|, o, n);
      Within(s, end, |s|, o, n);
    }
  }

  lemma PatchedApart(mem: Contents, p: int, offset: nat, data: Bytes, q: int, o: nat, n: nat)
    requires InMemory(mem, p, offset, |data|) && InMemory(mem, q, o, n) && (p == q ==> Apart(offset, |data|, o, n))
    ensures var m := Patched(mem, p, offset, data); InMemory(m, q, o, n) && Slice(m, q, o, n) == Slice(mem, q, o, n)
  {
    if p == q {
      SpliceApart(mem[p], offset, data, o, n);
    }
  }

  /** What a stage changes: at most one memory, inside the part of its reference. */
  lemma StageWrites(stage: Stage, r: Ref, answer: Answer, mem: Contents) returns (p: int, data: Bytes)
    requires Good(r, mem)
    ensures var m := Do(stage, r, answer, mem);
            m == mem ||
            (&& Touches(r, p) && |data| <= r.size && InMemory(mem, p, r.offset, |data|)
             && m == Patched(mem, p, r.offset, data)
             && (p == r.buffer ==> r.dir != Input))
  {
    p, data := 0, [];
    if r.HasMemory() {
      match stage
      case StageIn =>
        p, data := r.shadow, Slice(mem, r.buffer, r.offset, r.size);
      case StageWrite =>
        p, data := r.Shared(), answer.data;
      case StageOut =>
        p := r.buffer;
        if r.HasShadow() {
          data := Slice(mem, r.shadow, r.offset, if |answer.data| <= r.size then |answer.data| else r.size);
        }
    }
  }

  /** A stage leaves the bytes of other references alone. */
  lemma Frame(stage: Stage, r: Ref, answer: Answer, mem: Contents, other: Ref)
    requires Good(r, mem) && Good(other, mem) && Disjoint(r, other)
    ensures var m := Do(stage, r, answer, mem); Good(other, m) && BytesOf(other, m) == BytesOf(other, mem)
  {
    var p, data := StageWrites(stage, r, answer, mem);
    if Do(stage, r, answer, mem) != mem {
      if other.HasMemory() {
        PatchedApart(mem, p, r.offset, data, other.buffer, other.offset, other.size);
      }
      if other.HasShadow() {
        PatchedApart(mem, p, r.offset, data, other.shadow, other.offset, other.size);
      }
    }
  }

  lemma SpliceAgrees(s: Bytes, t: Bytes, at: nat, n: nat, o: nat, k: nat)
    requires at + n <= |s| && at + n <= |t| && o + k <= |s| && o + k <= |t| && s[o..o + k] == t[o..o + k]
    ensures Splice(s, at, t[at..at + n])[o..o + k] == t[o..o + k]
  {
    var u := Splice(s, at, t[at..at + n]);
    var before, after, wanted := s[o..o + k], u[o..o + k], t[o..o + k];
    forall i | 0 <= i < k ensures after[i] == wanted[i] {
      assert before[i] == s[o + i] && wanted[i] == t[o + i] && after[i] == u[o + i];
    }
  }

  /** Another input reference keeps its part, and its shadow bytes if these are already those of the part. */
  lemma InputFrame(stage: Stage, r: Ref, answer: Answer, mem: Contents, other: Ref)
    requires Good(r, mem) && Good(other, mem) && InputsOnly(r, other)
    ensures var m := Do(stage, r, answer, mem);
            && Good(other, m) && BytesOf(other, m).part == BytesOf(other, mem).part
            && (stage == StageIn && other.HasShadow() && BytesOf(other, mem).shadow == BytesOf(other, mem).part ==>
                 BytesOf(other, m).shadow == BytesOf(other, m).part)
            && (stage != StageIn || !other.HasShadow() ==> BytesOf(other, m) == BytesOf(other, mem))
  {
    if stage == StageIn && r.HasShadow() {
      var data := Slice(mem, r.buffer, r.offset, r.size);
      PatchedApart(mem, r.shadow, r.offset, data, other.buffer, other.offset, other.size);
      if other.HasShadow() {
        ShadowFrame(r, mem, other);
      }
    }
  }

  lemma ShadowFrame(r: Ref, mem: Contents, other: Ref)
    requires Good(r, mem) && Good(other, mem) && InputsOnly(r, other) && r.HasShadow() && other.HasShadow()
    ensures var m := Patched(mem, r.shadow, r.offset, Slice(mem, r.buffer, r.offset, r.size));
            && InMemory(m, other.shadow, other.offset, other.size)
            && var part := Slice(mem, other.buffer, other.offset, other.size);
               (Slice(mem, other.shadow, other.offset, other.size) == part ==>
                 Slice(m, other.shadow, other.offset, other.size) == part)
  {
    var data := Slice(mem, r.buffer, r.offset, r.size);
    if r.shadow != other.shadow {
      PatchedApart(mem, r.shadow, r.offset, data, other.shadow, other.offset, other.size);
    } else if Slice(mem, other.shadow, other.offset, other.size) == Slice(mem, other.buffer, other.offset, other.size) {
      SpliceAgrees(mem[r.shadow], mem[r.buffer], r.offset, r.size, other.offset, other.size);
    }
  }

  /** Byte i of memory p is of no interest to the library: no output part and in no shadow buffer. */
  predicate Private(refs: seq<Ref>, p: int, i: int) {
    forall k :: 0 <= k < |refs| ==>
      !(refs[k].HasShadow() && p == refs[k].shadow) && !(refs[k].Mem? && refs[k].dir != Input && refs[k].Covers(p, i))
  }

  /** Such bytes are as they were. */
  predicate Untouched(refs: seq<Ref>, m: Contents, n: Contents) {
    SameShape(m, n) && forall p, i :: p in m && 0 <= i < |m[p]| && Private(refs, p, i) ==> n[p][i] == m[p][i]
  }

  lemma StageIsPrivate(stage: Stage, refs: seq<Ref>, k: nat, answer: Answer, mem0: Contents, mem: Contents)
    requires k < |refs| && Good(refs[k], mem) && Untouched(refs, mem0, mem)
    ensures Untouched(refs, mem0, Do(stage, refs[k], answer, mem))
  {
    var p, data := StageWrites(stage, refs[k], answer, mem);
    StageEffect(stage, refs[k], answer, mem);
    var m := Do(stage, refs[k], answer, mem);
    forall q, i | q in mem0 && 0 <= i < |mem0[q]| && Private(refs, q, i) ensures m[q][i] == mem0[q][i] {
    }
  }

  // ----- Several references -----

  /** The bytes of a reference before its turn; what is in a shadow buffer that is copied to does not matter. */
  predicate Pending(stage: Stage, r: Ref, b: Bytes2, before: Bytes2) {
    b.part == before.part && (b.shadow == before.shadow || (stage == StageIn && r.CopiesIn()))
  }

  /** Reference k has been through the stage, or not yet, after n references. */
  predicate Reached(stage: Stage, refs: seq<Ref>, answers: seq<Answer>, before: seq<Bytes2>, mem: Contents, k: nat,
                    n: nat)
    requires k < |refs| == |answers| == |before|
  {
    && Good(refs[k], mem) && Sized(refs[k], before[k])
    && if k < n then BytesOf(refs[k], mem) == DoBytes(stage, refs[k], answers[k], before[k])
       else Pending(stage, refs[k], BytesOf(refs[k], mem), before[k])
  }

  /** After n references, whose bytes were those of `before` when the stage began. */
  predicate Progress(stage: Stage, refs: seq<Ref>, answers: seq<Answer>, before: seq<Bytes2>, mem: Contents, n: nat) {
    && |refs| == |answers| == |before|
    && forall k :: 0 <= k < |refs| ==> Reached(stage, refs, answers, before, mem, k, n)
  }

  /** One more reference. */
  lemma Advance(stage: Stage, refs: seq<Ref>, answers: seq<Answer>, before: seq<Bytes2>, mem: Contents, n: nat)
    requires Progress(stage, refs, answers, before, mem, n) && n < |refs| && NoAlias(refs)
    ensures Good(refs[n], mem)
    ensures Progress(stage, refs, answers, before, Do(stage, refs[n], answers[n], mem), n + 1)
  {
    assert Reached(stage, refs, answers, before, mem, n, n);
    var after, done := Do(stage, refs[n], answers[n], mem), n + 1;
    StageEffect(stage, refs[n], answers[n], mem);
    forall k | 0 <= k < |refs| ensures Reached(stage, refs, answers, before, after, k, done) {
      assert Reached(stage, refs, answers, before, mem, k, n);
      if k != n {
        Others(stage, refs, answers, before, mem, n, k);
      }
    }
  }

  /** A reference keeps its state when it is the turn of another one. */
  lemma Others(stage: Stage, refs: seq<Ref>, answers: seq<Answer>, before: seq<Bytes2>, mem: Contents, n: nat, k: nat)
    requires |refs| == |answers| == |before| && n < |refs| && k < |refs| && k != n
    requires Good(refs[n], mem) && Reached(stage, refs, answers, before, mem, k, n) && NoAlias(refs)
    ensures Reached(stage, refs, answers, before, Do(stage, refs[n], answers[n], mem), k, n + 1)
  {
    if Disjoint(refs[n], refs[k]) {
      Frame(stage, refs[n], answers[n], mem, refs[k]);
    } else {
      assert InputsOnly(refs[n], refs[k]);
      InputFrame(stage, refs[n], answers[n], mem, refs[k]);
    }
  }

  const NO_ANSWER := Answer(0, 0, [])

  function NoAnswers(n: nat): (s: seq<Answer>)
    ensures |s| == n && forall k :: 0 <= k < n ==> s[k] == NO_ANSWER
  {
    seq(n, _ => NO_ANSWER)
  }

  /** The bytes of every reference. */
  function AllBytes(refs: seq<Ref>, mem: Contents): (s: seq<Bytes2>)
    requires AllGood(refs, mem)
    ensures |s| == |refs| && forall k :: 0 <= k < |refs| ==> s[k] == BytesOf(refs[k], mem)
  {
    seq(|refs|, k requires 0 <= k < |refs| => BytesOf(refs[k], mem))
  }

  lemma Begins(stage: Stage, refs: seq<Ref>, answers: seq<Answer>, mem: Contents)
    requires AllGood(refs, mem) && |answers| == |refs|
    ensures Progress(stage, refs, answers, AllBytes(refs, mem), mem, 0)
  {
    var before := AllBytes(refs, mem);
    forall k | 0 <= k < |refs| ensures Reached(stage, refs, answers, before, mem, k, 0) {
    }
  }

  lemma StillGood(stage: Stage, refs: seq<Ref>, answers: seq<Answer>, before: seq<Bytes2>, mem: Contents, n: nat)
    requires Progress(stage, refs, answers, before, mem, n)
    ensures AllGood(refs, mem)
  {
    forall k | 0 <= k < |refs| ensures Good(refs[k], mem) {
      assert Reached(stage, refs, answers, before, mem, k, n);
    }
  }

  /** A stage is over: the bytes of every reference, and of nobody else. */
  ghost predicate Finished(stage: Stage, refs: seq<Ref>, answers: seq<Answer>, m: Contents, n: Contents) {
    && AllGood(refs, m) && Progress(stage, refs, answers, AllBytes(refs, m), n, |refs|) && Untouched(refs, m, n)
  }

  /** The loop of teec_pre_process_operation(), as far as it copies. */
  method PreCopies(m: Memory, refs: seq<Ref>)
    requires AllGood(refs, m.mem) && NoAlias(refs)
    modifies m
    ensures Finished(StageIn, refs, NoAnswers(|refs|), old(m.mem), m.mem)
  {
    ghost var answers, before, mem0 := NoAnswers(|refs|), AllBytes(refs, m.mem), m.mem;
    Begins(StageIn, refs, answers, mem0);
    var n := 0;
    while n < |refs|
      invariant 0 <= n <= |refs| && Progress(StageIn, refs, answers, before, m.mem, n) && Untouched(refs, mem0, m.mem)
    {
      Advance(StageIn, refs, answers, before, m.mem, n);
      StageIsPrivate(StageIn, refs, n, answers[n], mem0, m.mem);
      m.CopyIn(refs[n]);
      n := n + 1;
    }
  }

  /** The TA writes its answers. */
  method Writes(m: Memory, refs: seq<Ref>, answers: seq<Answer>)
    requires AllGood(refs, m.mem) && NoAlias(refs) && |answers| == |refs|
    modifies m
    ensures Finished(StageWrite, refs, answers, old(m.mem), m.mem)
  {
    ghost var before, mem0 := AllBytes(refs, m.mem), m.mem;
    Begins(StageWrite, refs, answers, mem0);
    var n := 0;
    while n < |refs|
      invariant 0 <= n <= |refs| && Progress(StageWrite, refs, answers, before, m.mem, n) &&
                Untouched(refs, mem0, m.mem)
    {
      Advance(StageWrite, refs, answers, before, m.mem, n);
      StageIsPrivate(StageWrite, refs, n, answers[n], mem0, m.mem);
      m.Write(refs[n], answers[n]);
      n := n + 1;
    }
  }

  /** One parameter of teec_post_process_operation(). */
  method PostOne(m: Memory, r: Ref, answer: Answer) returns (s: Ref)
    requires Good(r, m.mem)
    modifies m
    ensures m.mem == Do(StageOut, r, answer, old(m.mem)) && s == After(r, answer)
  {
    s := m.CopyOut(r, |answer.data|);
    if s.Number? && s.dir != Input {
      s := s.(a := answer.a, b := answer.b);
    }
  }

  /** teec_post_process_operation() */
  method PostCopies(m: Memory, refs: seq<Ref>, answers: seq<Answer>) returns (after: seq<Ref>)
    requires AllGood(refs, m.mem) && NoAlias(refs) && |answers| == |refs|
    modifies m
    ensures Finished(StageOut, refs, answers, old(m.mem), m.mem)
    ensures |after| == |refs| && forall k :: 0 <= k < |refs| ==> after[k] == After(refs[k], answers[k])
  {
    ghost var before, mem0 := AllBytes(refs, m.mem), m.mem;
    Begins(StageOut, refs, answers, mem0);
    var n := 0;
    after := [];
    while n < |refs|
      invariant 0 <= n <= |refs| && Progress(StageOut, refs, answers, before, m.mem, n) && Untouched(refs, mem0, m.mem)
      invariant |after| == n && forall k :: 0 <= k < n ==> after[k] == After(refs[k], answers[k])
    {
      Advance(StageOut, refs, answers, before, m.mem, n);
      StageIsPrivate(StageOut, refs, n, answers[n], mem0, m.mem);
      var r := PostOne(m, refs[n], answers[n]);
      after := after + [r];
      n := n + 1;
    }
  }

  /** What the TA is given. */
  method Views(m: Memory, refs: seq<Ref>) returns (seen: seq<Seen>)
    requires AllGood(refs, m.mem)
    ensures |seen| == |refs| && forall k :: 0 <= k < |refs| ==> seen[k] == View(refs[k], BytesOf(refs[k], m.mem))
  {
    var n := 0;
    seen := [];
    while n < |refs|
      invariant 0 <= n <= |refs| && |seen| == n
      invariant forall k :: 0 <= k < n ==> seen[k] == View(refs[k], BytesOf(refs[k], m.mem))
    {
      seen := seen + [View(refs[n], BytesOf(refs[n], m.mem))];
      n := n + 1;
    }
  }

  function AllWanted(refs: seq<Ref>, mem: Contents): (s: seq<Seen>)
    requires AllGood(refs, mem)
    ensures |s| == |refs| && forall k :: 0 <= k < |refs| ==> s[k] == Wanted(refs[k], BytesOf(refs[k], mem).part)
  {
    seq(|refs|, k requires 0 <= k < |refs| => Wanted(refs[k], BytesOf(refs[k], mem).part))
  }

  lemma StageResult(stage: Stage, refs: seq<Ref>, answers: seq<Answer>, m: Contents, n: Contents, k: nat)
    requires k < |refs| == |answers| && Finished(stage, refs, answers, m, n)
    ensures Good(refs[k], n) && Sized(refs[k], BytesOf(refs[k], m))
    ensures BytesOf(refs[k], n) == DoBytes(stage, refs[k], answers[k], BytesOf(refs[k], m))
  {
    assert Reached(stage, refs, answers, AllBytes(refs, m), n, k, |refs|);
  }

  lemma SeesAll(refs: seq<Ref>, mem0: Contents, mem: Contents, seen: seq<Seen>)
    requires Finished(StageIn, refs, NoAnswers(|refs|), mem0, mem) && AllGood(refs, mem) && |seen| == |refs|
    requires forall k :: 0 <= k < |refs| ==> seen[k] == View(refs[k], BytesOf(refs[k], mem))
    ensures seen == AllWanted(refs, mem0)
  {
    forall k | 0 <= k < |refs| ensures seen[k] == Wanted(refs[k], BytesOf(refs[k], mem0).part) {
      StageResult(StageIn, refs, NoAnswers(|refs|), mem0, mem, k);
      SeesWhatIsWanted(refs[k], BytesOf(refs[k], mem0));
    }
  }

  lemma DeliversOne(refs: seq<Ref>, answers: seq<Answer>, m0: Contents, m1: Contents, m2: Contents, m3: Contents,
                    k: nat)
    requires k < |refs| == |answers| && Finished(StageIn, refs, NoAnswers(|refs|), m0, m1)
    requires Finished(StageWrite, refs, answers, m1, m2) && Finished(StageOut, refs, answers, m2, m3)
    ensures Good(refs[k], m0) && Good(refs[k], m3)
    ensures BytesOf(refs[k], m3).part == Outcome(refs[k], BytesOf(refs[k], m0).part, answers[k])
  {
    StageResult(StageIn, refs, NoAnswers(|refs|), m0, m1, k);
    StageResult(StageWrite, refs, answers, m1, m2, k);
    StageResult(StageOut, refs, answers, m2, m3, k);
    LeavesWhatIsWanted(refs[k], BytesOf(refs[k], m0), answers[k]);
  }

  /** Untouched twice is untouched. */
  lemma StaysUntouched(refs: seq<Ref>, a: Contents, b: Contents, c: Contents)
    requires Untouched(refs, a, b) && Untouched(refs, b, c)
    ensures Untouched(refs, a, c)
  {
  }

  /** Only shadow buffers are written before the call. */
  lemma BuffersUntouched(refs: seq<Ref>, m: Contents, n: Contents, k: nat)
    requires k < |refs| && Finished(StageIn, refs, NoAnswers(|refs|), m, n)
    ensures Good(refs[k], m) && Good(refs[k], n) && BytesOf(refs[k], n).part == BytesOf(refs[k], m).part
  {
    StageResult(StageIn, refs, NoAnswers(|refs|), m, n, k);
  }

  /**
   * An operation: copying in, the TA, copying out. The TA is any function from what
   * it is given to its answers. Whichever references have shadow buffers, and also
   * when references are parts of one buffer, the TA is given the caller's data, and
   * the parts, numbers and sizes of the caller afterwards are those the answers call
   * for; if the call fails, they are as before. All other bytes of the caller are as
   * before in any case.
   */
  method Operation(m: Memory, refs: seq<Ref>, ta: seq<Seen> -> seq<Answer>) returns (ok: bool, after: seq<Ref>)
    requires AllGood(refs, m.mem) && NoAlias(refs)
    requires forall s :: |ta(s)| == |s|
    modifies m
    ensures |after| == |refs| && AllGood(refs, m.mem) && Untouched(refs, old(m.mem), m.mem)
    ensures ok ==> var answers := ta(AllWanted(refs, old(m.mem)));
                   forall k :: 0 <= k < |refs| ==>
                     && after[k] == After(refs[k], answers[k])
                     && BytesOf(refs[k], m.mem).part == Outcome(refs[k], BytesOf(refs[k], old(m.mem)).part, answers[k])
    ensures ok ==> var answers := ta(AllWanted(refs, old(m.mem)));
                   forall k :: 0 <= k < |refs| ==>
                     && (refs[k].Number? && refs[k].dir != Input ==>
                        after[k].a == answers[k].a && after[k].b == answers[k].b)
                     && (refs[k].Mem? && refs[k].dir != Input ==> after[k] == refs[k].(size := |answers[k].data|))
                     && (refs[k].NoRef? || refs[k].dir == Input ==> after[k] == refs[k])
    ensures !ok ==> after == refs && forall k :: 0 <= k < |refs| ==>
                      BytesOf(refs[k], m.mem).part == BytesOf(refs[k], old(m.mem)).part
  {
    ghost var m0 := m.mem;
    PreCopies(m, refs);
    ghost var m1 := m.mem;
    StillGood(StageIn, refs, NoAnswers(|refs|), AllBytes(refs, m0), m1, |refs|);
    if * {
      forall k | 0 <= k < |refs| ensures BytesOf(refs[k], m.mem).part == BytesOf(refs[k], m0).part {
        BuffersUntouched(refs, m0, m1, k);
      }
      return false, refs;
    }
    var seen := Views(m, refs);
    SeesAll(refs, m0, m1, seen);
    var answers := ta(seen);
    Writes(m, refs, answers);
    ghost var m2 := m.mem;
    StillGood(StageWrite, refs, answers, AllBytes(refs, m1), m2, |refs|);
    after := PostCopies(m, refs, answers);
    StillGood(StageOut, refs, answers, AllBytes(refs, m2), m.mem, |refs|);
    StaysUntouched(refs, m0, m1, m2);
    StaysUntouched(refs, m0, m2, m.mem);
    ok := true;
    forall k | 0 <= k < |refs|
      ensures BytesOf(refs[k], m.mem).part == Outcome(refs[k], BytesOf(refs[k], m0).part, answers[k])
    {
      DeliversOne(refs, answers, m0, m1, m2, m.mem, k);
    }
  }
}
