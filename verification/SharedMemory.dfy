/**
 * Shared memory of the TEE Client API: what registering and allocating acquires,
 * what releasing gives back, and that a command keeps the balance whatever fails.
 * Every system call may fail; the contents of memory are not part of this module.
 */
module SharedMemory {
  import opened Common

  const NULL := 0
  const MAP_FAILED := -1

  datatype Res = Success | BadParameters | OutOfMemory | Generic | Other(code: int)

  /** Something that has to be given back: heap memory, a mapping with its size, an open file descriptor. */
  datatype Token = Heap(addr: int) | Mapping(addr: int, size: nat) | Fd(fd: int)

  /** The process as the library sees it. */
  class World {
    /** What the library holds. */
    var held: set<Token>
    var next: int
    /** Addresses of the caller's memory. */
    const client: set<int>

    constructor (client: set<int>, bound: nat)
      requires forall a :: a in client ==> 0 < a < bound
      ensures Valid() && held == {} && this.client == client
    {
      held, next := {}, bound + 1;
      this.client := client;
    }

    predicate Valid()
      reads this
    {
      && next > 0 && (forall a :: a in client ==> 0 < a < next)
      && forall t :: t in held ==> Known(t)
    }

    /** Names that were handed out are below the next one, and heap memory is not the caller's. */
    predicate Known(t: Token)
      reads this`next
    {
      match t
      case Heap(a) => 0 < a < next && a !in client
      case Mapping(a, _) => 0 < a < next && a !in client
      case Fd(fd) => 0 <= fd < next
    }

    /** posix_memalign() */
    method Malloc() returns (p: int)
      requires Valid()
      modifies this
      ensures Valid() && next >= old(next)
      ensures p >= 0 && Heap(p) !in old(held) && held == (if p == NULL then old(held) else old(held) + {Heap(p)})
    {
      if * {
        return NULL;
      }
      p := next;
      next := next + 1;
      held := held + {Heap(p)};
    }

    method Free(p: int)
      requires Valid() && Heap(p) in held
      modifies this`held
      ensures Valid() && held == old(held) - {Heap(p)}
    {
      held := held - {Heap(p)};
    }

    /** TEE_IOC_SHM_REGISTER, TEE_IOC_SHM_ALLOC and TEE_IOC_SHM_REGISTER_FD: a file descriptor and an identifier. */
    method ShmIoctl() returns (fd: int, id: int)
      requires Valid()
      modifies this
      ensures Valid() && next >= old(next)
      ensures fd >= -1 && id >= 0 && Fd(fd) !in old(held) &&
              held == (if fd == -1 then old(held) else old(held) + {Fd(fd)})
    {
      if * {
        return -1, 0;
      }
      fd, id := next, next;
      next := next + 1;
      held := held + {Fd(fd)};
    }

    method Close(fd: int)
      requires Valid() && Fd(fd) in held
      modifies this`held
      ensures Valid() && held == old(held) - {Fd(fd)}
    {
      held := held - {Fd(fd)};
    }

    method Mmap(size: nat, fd: int) returns (p: int)
      requires Valid() && Fd(fd) in held
      modifies this
      ensures Valid() && next >= old(next)
      ensures (p == MAP_FAILED || p > 0) && Mapping(p, size) !in old(held)
      ensures held == if p == MAP_FAILED then old(held) else old(held) + {Mapping(p, size)}
    {
      if * {
        return MAP_FAILED;
      }
      p := next;
      next := next + 1;
      held := held + {Mapping(p, size)};
    }

    method Munmap(p: int, size: nat)
      requires Valid() && Mapping(p, size) in held
      modifies this`held
      ensures Valid() && held == old(held) - {Mapping(p, size)}
    {
      held := held - {Mapping(p, size)};
    }
  }

  /** TEEC_Context: whether memory can be registered, and references can be null. */
  datatype Context = Context(regMem: bool, memrefNull: bool)

  datatype Flags = Flags(input: bool, output: bool, other: bool)
  {
    predicate Good() {
      (input || output) && !other
    }
  }

  /** TEEC_SharedMemory; flags of the library say which of the two buffers it allocated. */
  datatype Shm = Shm(buffer: int, size: nat, flags: Flags, id: int, allocedSize: nat, shadow: int, registeredFd: int,
                     bufferAlloced: bool, shadowAlloced: bool)
  {
    /** What is held through this memory. */
    function Holds(): (r: set<Token>) {
      if id == -1 then {}
      else if shadow != NULL then
        if registeredFd >= 0 then {Fd(registeredFd)} + (if shadowAlloced then {Heap(shadow)} else {})
        else {Mapping(shadow, allocedSize)}
      else if buffer != NULL then
        if registeredFd >= 0 then {Fd(registeredFd)} + (if bufferAlloced then {Heap(buffer)} else {})
        else {Mapping(buffer, allocedSize)}
      else if registeredFd >= 0 then {Fd(registeredFd)} else {}
    }

    /** The memory after release. */
    function Released(): (s: Shm)
      ensures s.id == -1 && s.Holds() == {}
    {
      if id == -1 then this
      else this.(id := -1, shadow := NULL, buffer := NULL, registeredFd := -1, bufferAlloced := false,
          shadowAlloced := false)
    }
  }

  /**
   * Success acquires exactly what the memory then holds, and nothing of that was held
   * before; failure acquires nothing.
   */
  twostate predicate Acquired(w: World, res: Res, s: Shm)
    reads w
  {
    if res == Success then s.id >= 0 && s.Holds() !! old(w.held) && w.held == old(w.held) + s.Holds()
    else w.held == old(w.held)
  }

  /** Memory without a size gets eight bytes. */
  function AllocedSize(s: Shm): (n: nat) {
    if s.size == 0 then 8 else s.size
  }

  /** TEEC_RegisterSharedMemory() */
  method Register(w: World, ctx: Context, shm: Shm) returns (res: Res, s: Shm)
    requires w.Valid()
    modifies w
    ensures w.Valid() && Acquired(w, res, s)
    ensures res != Success ==> s.id == shm.id || s.id == -1
    ensures res == Success ==> s == shm.(id := s.id, shadow := s.shadow, registeredFd := s.registeredFd,
                                         allocedSize := AllocedSize(shm), bufferAlloced := false,
                                         shadowAlloced := s.shadowAlloced)
    ensures res == Success && ctx.regMem ==> s.registeredFd >= 0 && s.shadowAlloced == (s.shadow != NULL)
    ensures res == Success && !ctx.regMem ==> s.registeredFd == -1 && s.shadow > 0
    ensures res == BadParameters <==>
            shm.flags.other || (!shm.flags.input && !shm.flags.output) || shm.buffer == NULL
  {
    s := shm;
    if !s.flags.Good() || s.buffer == NULL {
      return BadParameters, s;
    }
    var size := if s.size == 0 then 8 else s.size;
    var fd, id;
    if ctx.regMem {
      fd, id := w.ShmIoctl();
      if fd >= 0 {
        s := s.(id := id, registeredFd := fd, shadow := NULL, bufferAlloced := false, shadowAlloced := false);
      } else {
        var shadow := w.Malloc();
        s := s.(shadow := shadow);
        if shadow == NULL {
          return OutOfMemory, s;
        }
        fd, id := w.ShmIoctl();
        if fd >= 0 {
          s := s.(id := id, registeredFd := fd, bufferAlloced := false, shadowAlloced := true);
        } else {
          if * {
            res := OutOfMemory;
          } else {
            res := Generic;
          }
          w.Free(shadow);
          s := s.(shadow := NULL);
          return;
        }
      }
    } else {
      fd, id := w.ShmIoctl();
      if fd < 0 {
        return OutOfMemory, s;
      }
      var shadow := w.Mmap(size, fd);
      s := s.(id := id, shadow := shadow);
      w.Close(fd);
      if shadow == MAP_FAILED {
        return OutOfMemory, s.(id := -1);
      }
      s := s.(registeredFd := -1, bufferAlloced := false, shadowAlloced := false);
    }
    s := s.(allocedSize := size);
    res := Success;
  }

  /** TEEC_RegisterSharedMemoryFileDescriptor() */
  method RegisterFd(w: World, shm: Shm, fd: int, dataSize: nat) returns (res: Res, s: Shm)
    requires w.Valid()
    modifies w
    ensures w.Valid() && Acquired(w, res, s)
    ensures res == Success || res == BadParameters
    ensures res == Success ==> fd >= 0 && shm.flags.Good() && s.registeredFd >= 0
    ensures res == Success ==> s == shm.(buffer := NULL, shadow := NULL, registeredFd := s.registeredFd,
                                         id := s.id, size := dataSize)
    ensures res != Success ==> s == shm
  {
    s := shm;
    if fd < 0 || !s.flags.Good() {
      return BadParameters, s;
    }
    var rfd, id := w.ShmIoctl();
    if rfd < 0 {
      return BadParameters, s;
    }
    s := s.(buffer := NULL, shadow := NULL, registeredFd := rfd, id := id, size := dataSize);
    res := Success;
  }

  /** TEEC_AllocateSharedMemory() */
  method Allocate(w: World, ctx: Context, shm: Shm) returns (res: Res, s: Shm)
    requires w.Valid()
    modifies w
    ensures w.Valid() && Acquired(w, res, s)
    ensures res != Success ==> s.id == shm.id || s.id == -1
    ensures res == Success ==> s.buffer > 0 && s.buffer !in w.client
    ensures res == Success ==> s == shm.(id := s.id, buffer := s.buffer, shadow := NULL, registeredFd := s.registeredFd,
                                         allocedSize := AllocedSize(shm), bufferAlloced := true, shadowAlloced := false)
    ensures res == Success ==> (s.registeredFd >= 0 <==> ctx.regMem)
    ensures res == BadParameters <==> !shm.flags.Good()
  {
    s := shm;
    if !s.flags.Good() {
      return BadParameters, s;
    }
    var size := if s.size == 0 then 8 else s.size;
    var fd, id;
    if ctx.regMem {
      var buffer := w.Malloc();
      s := s.(buffer := buffer);
      if buffer == NULL {
        return OutOfMemory, s;
      }
      fd, id := w.ShmIoctl();
      if fd < 0 {
        w.Free(buffer);
        return OutOfMemory, s.(buffer := NULL);
      }
      s := s.(id := id, registeredFd := fd);
      assert w.Known(Heap(buffer));
    } else {
      fd, id := w.ShmIoctl();
      if fd < 0 {
        return OutOfMemory, s;
      }
      var buffer := w.Mmap(size, fd);
      s := s.(id := id, buffer := buffer);
      if buffer != MAP_FAILED {
        assert w.Known(Mapping(buffer, size));
      }
      w.Close(fd);
      if buffer == MAP_FAILED {
        return OutOfMemory, s.(id := -1);
      }
      s := s.(registeredFd := -1);
    }
    s := s.(shadow := NULL, allocedSize := size, bufferAlloced := true, shadowAlloced := false);
    res := Success;
  }

  /** TEEC_ReleaseSharedMemory(): gives back what the memory holds, and a second time nothing. */
  method Release(w: World, shm: Shm) returns (s: Shm)
    requires w.Valid() && shm.Holds() <= w.held
    modifies w`held
    ensures w.Valid() && w.held == old(w.held) - shm.Holds()
    ensures s == shm.Released()
  {
    s := shm;
    if s.id == -1 {
      return;
    }
    if s.shadow != NULL {
      if s.registeredFd >= 0 {
        if s.shadowAlloced {
          w.Free(s.shadow);
        }
        w.Close(s.registeredFd);
      } else {
        w.Munmap(s.shadow, s.allocedSize);
      }
    } else if s.buffer != NULL {
      if s.registeredFd >= 0 {
        if s.bufferAlloced {
          w.Free(s.buffer);
        }
        w.Close(s.registeredFd);
      } else {
        w.Munmap(s.buffer, s.allocedSize);
      }
    } else if s.registeredFd >= 0 {
      w.Close(s.registeredFd);
    }
    s := s.(id := -1, shadow := NULL, buffer := NULL, registeredFd := -1, bufferAlloced := false,
        shadowAlloced := false);
  }

  /** Whatever registering acquired is gone after the first release, and the second changes nothing. */
  method RegisterAndRelease(w: World, ctx: Context, shm: Shm) returns (res: Res, s: Shm)
    requires w.Valid()
    modifies w
    ensures w.Valid() && w.held == old(w.held)
    ensures res == Success ==> s.id == -1
  {
    res, s := Register(w, ctx, shm);
    if res == Success {
      s := Release(w, s);
      s := Release(w, s);
    }
  }

  // ----- Operations -----

  /** Direction of a reference. */
  datatype Dir = Input | Output | Inout

  /** A parameter: what matters of it for resources; Unknown is any other type code. */
  datatype Param =
    | NoParam
    | Value
    | Temp(dir: Dir, buffer: int, size: nat)
    | Whole(parent: Flags)
    | Partial(dir: Dir, parentFlags: Flags, parentSize: nat, offset: nat, len: nat)
    | Unknown

  const FRESH_SHM := Shm(NULL, 0, Flags(false, false, false), -1, 0, NULL, 0, false, false)

  function FlagsOf(d: Dir): (f: Flags) {
    Flags(d != Output, d != Input, false)
  }

  /** A parameter the library does not refuse for what it is. */
  predicate Acceptable(p: Param) {
    match p
    case Temp(_, buffer, size) => buffer == NULL ==> size == 0
    case Whole(_) => PreWhole(p) == Success
    case Partial(_, _, _, _, _) => PrePartial(p) == Success
    case Unknown => false
    case _ => true
  }

  /** teec_pre_process_tmpref() */
  method PreTemp(w: World, ctx: Context, p: Param) returns (res: Res, s: Shm)
    requires w.Valid() && p.Temp?
    modifies w
    ensures w.Valid() && s.Holds() !! old(w.held) && w.held == old(w.held) + s.Holds()
    ensures res == BadParameters <==> !Acceptable(p)
    ensures res == Success && (p.buffer != NULL || !ctx.memrefNull) ==>
            s.id >= 0 && s.size == p.size && s.flags == FlagsOf(p.dir)
  {
    s := FRESH_SHM.(flags := FlagsOf(p.dir), size := p.size);
    if p.buffer == NULL {
      if p.size != 0 {
        return BadParameters, s;
      }
      if ctx.memrefNull {
        res := Success;
      } else {
        res, s := Allocate(w, ctx, s);
      }
    } else {
      s := s.(buffer := p.buffer);
      res, s := Register(w, ctx, s);
    }
  }

  const SIZE_MAX := 0xFFFF_FFFF_FFFF_FFFF

  /** teec_pre_process_whole() */
  function PreWhole(p: Param): (res: Res)
    requires p.Whole?
  {
    if p.parent.input || p.parent.output then Success else BadParameters
  }

  /**
   * teec_pre_process_partial(): the parent allows the direction, and the part lies inside
   * it without wrapping around.
   */
  function PrePartial(p: Param): (res: Res)
    requires p.Partial?
  {
    var end := (p.offset + p.len) % (SIZE_MAX + 1);
    if (p.dir != Output && !p.parentFlags.input) || (p.dir != Input && !p.parentFlags.output) then BadParameters
    else if end < p.offset || end > p.parentSize then BadParameters
    else Success
  }

  /** A part is accepted exactly when its parent allows the direction and it lies inside the parent. */
  lemma PartIsInside(p: Param)
    requires p.Partial? && p.offset <= SIZE_MAX && p.len <= SIZE_MAX && p.parentSize <= SIZE_MAX
    ensures PrePartial(p) == Success <==>
            (p.dir != Output ==> p.parentFlags.input) && (p.dir != Input ==> p.parentFlags.output) &&
                p.offset + p.len <= p.parentSize
  {
  }

  /** Exactly which parameters are accepted, and for which use the memory of a temporary reference is registered. */
  lemma AcceptableIff(p: Param)
    ensures p.NoParam? || p.Value? ==> Acceptable(p)
    ensures p.Temp? ==> (Acceptable(p) <==> p.buffer != NULL || p.size == 0)
    ensures p.Whole? ==> (Acceptable(p) <==> p.parent.input || p.parent.output)
    ensures p.Partial? && p.offset <= SIZE_MAX && p.len <= SIZE_MAX && p.parentSize <= SIZE_MAX ==>
              (Acceptable(p) <==> (p.dir == Input || p.dir == Inout ==> p.parentFlags.input) &&
                                  (p.dir == Output || p.dir == Inout ==> p.parentFlags.output) &&
                                  p.offset + p.len <= p.parentSize)
    ensures p.Unknown? ==> !Acceptable(p)
  {
    if p.Partial? && p.offset <= SIZE_MAX && p.len <= SIZE_MAX && p.parentSize <= SIZE_MAX {
      PartIsInside(p);
    }
  }

  /** The TA may read what is input and write what is output. */
  lemma DirectionFlags()
    ensures FlagsOf(Input) == Flags(true, false, false) && FlagsOf(Output) == Flags(false, true, false)
    ensures FlagsOf(Inout) == Flags(true, true, false)
  {
  }

  /** What release leaves: no memory, no descriptor, nothing of the library; memory without an id it does not touch. */
  lemma ReleasedIs(s: Shm)
    ensures s.id == -1 ==> s.Released() == s
    ensures s.id != -1 ==>
            s.Released() == Shm(0, s.size, s.flags, -1, s.allocedSize, 0, -1, false, false)
  {
  }

  /** What is allocated is never empty, and no more than was asked for unless that was nothing. */
  lemma AllocedIsEnough(s: Shm)
    ensures 0 < AllocedSize(s) && (s.size > 0 ==> AllocedSize(s) == s.size) && (s.size == 0 ==> AllocedSize(s) == 8)
  {
  }

  // ----- Commands -----

  /** What some memories hold together. */
  function AllHeld(shms: seq<Shm>): (r: set<Token>) {
    set i, t | 0 <= i < |shms| && t in shms[i].Holds() :: t
  }

  /** No memory holds what another one holds, or what was held before. */
  predicate Apart(shms: seq<Shm>, base: set<Token>) {
    && (forall i :: 0 <= i < |shms| ==> shms[i].Holds() !! base)
    && forall i, j :: 0 <= i < j < |shms| ==> shms[i].Holds() !! shms[j].Holds()
  }

  lemma HeldIn(shms: seq<Shm>, i: nat)
    requires i < |shms|
    ensures shms[i].Holds() <= AllHeld(shms)
  {
  }

  /** A memory that held nothing acquires something new. */
  lemma Gain(shms: seq<Shm>, n: nat, s: Shm, base: set<Token>)
    requires n < |shms| && Apart(shms, base) && shms[n].Holds() == {} && s.Holds() !! base + AllHeld(shms)
    ensures Apart(shms[n := s], base)
    ensures base + AllHeld(shms[n := s]) == base + AllHeld(shms) + s.Holds()
  {
    var more := shms[n := s];
    forall i | 0 <= i < |shms| ensures shms[i].Holds() <= AllHeld(shms) && more[i].Holds() <= AllHeld(more) {
      HeldIn(shms, i);
      HeldIn(more, i);
    }
    assert more[n] == s;
    forall t | t in AllHeld(more) ensures t in AllHeld(shms) + s.Holds() {
      var i :| 0 <= i < |more| && t in more[i].Holds();
      assert i != n ==> t in shms[i].Holds();
    }
    forall t | t in AllHeld(shms) ensures t in AllHeld(more) {
      var i :| 0 <= i < |shms| && t in shms[i].Holds();
      assert more[i] == shms[i];
    }
  }

  /** A memory gives back what it holds. */
  lemma Drop(shms: seq<Shm>, n: nat, s: Shm, base: set<Token>)
    requires n < |shms| && Apart(shms, base) && s.Holds() == {}
    ensures Apart(shms[n := s], base)
    ensures base + AllHeld(shms[n := s]) == base + AllHeld(shms) - shms[n].Holds()
  {
    var less := shms[n := s];
    forall t | t in AllHeld(less) ensures t in AllHeld(shms) && t !in shms[n].Holds() {
      var i :| 0 <= i < |less| && t in less[i].Holds();
      assert less[i] == shms[i];
    }
    forall t | t in AllHeld(shms) && t !in shms[n].Holds() ensures t in AllHeld(less) {
      var i :| 0 <= i < |shms| && t in shms[i].Holds();
      assert less[i] == shms[i];
    }
  }

  predicate OnlyTempsHold(op: seq<Param>, shms: seq<Shm>) {
    |op| == |shms| && forall k :: 0 <= k < |op| ==> !op[k].Temp? ==> shms[k].Holds() == {}
  }

  /** One parameter of teec_pre_process_operation(). */
  method PreParam(w: World, ctx: Context, p: Param) returns (res: Res, s: Shm)
    requires w.Valid()
    modifies w
    ensures w.Valid() && s.Holds() !! old(w.held) && w.held == old(w.held) + s.Holds()
    ensures !p.Temp? ==> s.Holds() == {}
    ensures res == BadParameters <==> !Acceptable(p)
  {
    s := FRESH_SHM;
    match p {
      case NoParam =>
        res := Success;
      case Value =>
        res := Success;
      case Temp(_, _, _) =>
        res, s := PreTemp(w, ctx, p);
      case Whole(_) =>
        res := PreWhole(p);
      case Partial(_, _, _, _, _) =>
        res := PrePartial(p);
      case Unknown =>
        res := BadParameters;
    }
  }

  /** teec_pre_process_operation(): also when it fails, the memories hold exactly what was acquired. */
  method PreProcess(w: World, ctx: Context, op: Option<seq<Param>>) returns (res: Res, shms: seq<Shm>)
    requires w.Valid() && (op.Some? ==> |op.value| == 4)
    modifies w
    ensures w.Valid() && |shms| == 4 && Apart(shms, old(w.held)) && w.held == old(w.held) + AllHeld(shms)
    ensures op.Some? ==> OnlyTempsHold(op.value, shms)
    ensures op.None? ==> w.held == old(w.held)
    ensures op.Some? && res == Success ==> forall k :: 0 <= k < 4 ==> Acceptable(op.value[k])
    ensures op.Some? && res == BadParameters ==> exists k :: 0 <= k < 4 && !Acceptable(op.value[k])
  {
    shms := [FRESH_SHM, FRESH_SHM, FRESH_SHM, FRESH_SHM];
    assert AllHeld(shms) == {};
    if op.None? {
      return Success, shms;
    }
    ghost var base := w.held;
    var n := 0;
    res := Success;
    while n < 4
      invariant 0 <= n <= 4 && w.Valid() && |shms| == 4 && Apart(shms, base) && w.held == base + AllHeld(shms)
      invariant OnlyTempsHold(op.value, shms) && forall k :: n <= k < 4 ==> shms[k] == FRESH_SHM
      invariant res == Success && forall k :: 0 <= k < n ==> Acceptable(op.value[k])
    {
      var s;
      res, s := PreParam(w, ctx, op.value[n]);
      Gain(shms, n, s, base);
      shms := shms[n := s];
      if res != Success {
        return;
      }
      n := n + 1;
    }
  }

  /** teec_free_temp_refs() */
  method FreeTempRefs(w: World, op: seq<Param>, shmsIn: seq<Shm>, ghost base: set<Token>)
    requires w.Valid() && |op| == |shmsIn| == 4 && Apart(shmsIn, base) && w.held == base + AllHeld(shmsIn) &&
             OnlyTempsHold(op, shmsIn)
    modifies w
    ensures w.Valid() && w.held == base
  {
    var shms := shmsIn;
    var n := 0;
    while n < 4
      invariant 0 <= n <= 4 && w.Valid() && |shms| == 4 && Apart(shms, base) && w.held == base + AllHeld(shms)
      invariant OnlyTempsHold(op, shms) && forall k :: 0 <= k < n ==> shms[k].Holds() == {}
    {
      if op[n].Temp? {
        HeldIn(shms, n);
        var s := Release(w, shms[n]);
        Drop(shms, n, s, base);
        shms := shms[n := s];
      }
      n := n + 1;
    }
    assert AllHeld(shms) == {};
  }

  /**
   * TEEC_InvokeCommand(): whatever fails, heap memory, mappings and file descriptors
   * held after the call are those held before. Nothing is freed, unmapped or closed
   * that is not held, so neither the caller's memory nor anything twice.
   */
  method InvokeCommand(w: World, session: Option<Context>, op: Option<seq<Param>>) returns (res: Res)
    requires w.Valid() && (op.Some? ==> |op.value| == 4)
    modifies w
    ensures w.Valid() && w.held == old(w.held)
    ensures session.None? ==> res == BadParameters
    ensures op.Some? && (exists k :: 0 <= k < 4 && !Acceptable(op.value[k])) ==> res != Success
  {
    if session.None? {
      return BadParameters;
    }
    var shms;
    res, shms := PreProcess(w, session.value, op);
    if res == Success {
      res := Ioctl();
    }
    if op.Some? {
      FreeTempRefs(w, op.value, shms, old(w.held));
    }
  }

  /** TEE_IOC_INVOKE: an error of the call, or the result of the TA; copying back acquires nothing. */
  method Ioctl() returns (res: Res) {
    res := *;
  }
}
