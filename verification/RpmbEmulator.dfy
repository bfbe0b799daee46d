/** The RPMB emulator as it runs: fields and frame arrays updated in place, MACs computed by streaming. */
module RpmbEmulator {
  import opened Common
  import opened Words
  import opened Sha256
  import Hmac
  import opened Rpmb

  /** The authenticated fields of a frame, in the order in which hmac_update_frm() feeds them. */
  function Fields(frm: Frame): (chunks: seq<Bytes>)
    ensures Concat(chunks) == FrameBytes(frm)
  {
    var chunks := [frm.data, frm.nonce, frm.writeCounter, frm.address, frm.blockCount, frm.opResult, frm.msgType];
    ConcatSeven(frm.data, frm.nonce, frm.writeCounter, frm.address, frm.blockCount, frm.opResult, frm.msgType);
    chunks
  }

  lemma ConcatSeven(a: Bytes, b: Bytes, c: Bytes, d: Bytes, e: Bytes, g: Bytes, h: Bytes)
    ensures Concat([a, b, c, d, e, g, h]) == a + b + c + d + e + g + h
  {
    assert Concat([]) == [];
    assert [] + [a] == [a] && [a] + [b] == [a, b] && [a, b] + [c] == [a, b, c] && [a, b, c] + [d] == [a, b, c, d];
    assert [a, b, c, d] + [e] == [a, b, c, d, e] && [a, b, c, d, e] + [g] == [a, b, c, d, e, g];
    assert [a, b, c, d, e, g] + [h] == [a, b, c, d, e, g, h];
    ConcatOne([], a);
    ConcatOne([a], b);
    ConcatOne([a, b], c);
    ConcatOne([a, b, c], d);
    ConcatOne([a, b, c, d], e);
    ConcatOne([a, b, c, d, e], g);
    ConcatOne([a, b, c, d, e, g], h);
  }

  lemma ConcatOne(chunks: seq<Bytes>, last: Bytes)
    ensures Concat(chunks + [last]) == Concat(chunks) + last
  {
    assert (chunks + [last])[..|chunks|] == chunks;
  }

  /** hmac_update_frm() */
  method UpdateFrame(ctx: Hmac.Context, frm: Frame)
    requires ctx.Valid()
    modifies ctx`msg, ctx.inside, ctx.inside.block
    ensures ctx.Valid() && ctx.key == old(ctx.key) && ctx.msg == old(ctx.msg) + FrameBytes(frm)
  {
    Hmac.UpdateAll(ctx, Fields(frm));
  }

  method AbsorbFrames(ctx: Hmac.Context, frames: seq<Frame>)
    requires ctx.Valid() && ctx.msg == []
    modifies ctx`msg, ctx.inside, ctx.inside.block
    ensures ctx.Valid() && ctx.key == old(ctx.key) && ctx.msg == AllBytes(frames)
  {
    for i := 0 to |frames|
      invariant ctx.Valid() && ctx.key == old(ctx.key) && ctx.msg == AllBytes(frames[..i])
    {
      assert frames[..i + 1][..i] == frames[..i];
      UpdateFrame(ctx, frames[i]);
    }
    assert frames[..|frames|] == frames;
  }

  method FinishMac(ctx: Hmac.Context, frames: seq<Frame>, ghost key: Bytes) returns (mac: Bytes)
    requires ctx.Valid() && ctx.msg == [] && ctx.key == key
    modifies ctx`msg, ctx.Active()
    ensures mac == Hmac.Mac(ctx.f, key, AllBytes(frames))
  {
    AbsorbFrames(ctx, frames);
    mac := ctx.Final(DIGEST);
  }

  /** The MAC of the emulator. */
  function MacOf(f: Compress): (mac: MacFn) {
    (key: Bytes, msg: Bytes) => Hmac.Mac(f, key, msg)
  }

  /** The MAC loop shared by is_hmac_valid() and compute_hmac(). */
  method FrameMac(f: Compress, key: Bytes, frames: seq<Frame>) returns (mac: Mac32)
    requires |key| == 32
    ensures mac == MacOf(f)(key, AllBytes(frames))
  {
    var ctx := new Hmac.Context(f);
    ctx.Init(key);
    mac := FinishMac(ctx, frames, key);
  }

  /** One loop round of a write on the buffer: the next block goes behind the blocks before it. */
  lemma SpliceNext(s: Bytes, at: nat, done: Bytes, block: Bytes)
    requires at + |done| + |block| <= |s|
    ensures Splice(Splice(s, at, done), at + |done|, block) == Splice(s, at, done + block)
  {
  }

  class Emulator {
    const f: Compress
    const buf: array<u8>
    var key: Bytes
    var keySet: bool
    var nonce: Bytes
    var writeCounter: u32
    var lastOp: LastOp
    var boundFd: int  // the static of mem_for_fd(), -1 until the first call

    ghost function View(): (d: Dev)
      reads this, buf
    {
      Dev(buf[..], key, keySet, nonce, writeCounter, lastOp)
    }

    constructor (f: Compress, size: nat)
      ensures View() == Dev(Zeros(size), Zeros(32), false, Zeros(16), 0, LastOp(0, Zeros(2), 0)) && fresh(buf)
      ensures this.f == f && boundFd == -1
    {
      this.f := f;
      buf := new u8[size](_ => 0);
      key, keySet, nonce, writeCounter, boundFd := Zeros(32), false, Zeros(16), 0, -1;
      lastOp := LastOp(0, Zeros(2), 0);
    }

    /** is_hmac_valid() */
    method IsHmacValid(frames: array<Frame>, nfrm: nat) returns (ok: bool)
      requires View().Sized() && 1 <= nfrm <= frames.Length
      ensures ok == HmacValid(MacOf(f), View(), frames[..nfrm])
    {
      if !keySet {
        return false;
      }
      var mac := FrameMac(f, key, frames[..nfrm]);
      ok := mac == frames[nfrm - 1].keyMac;
    }

    /** compute_hmac() */
    method ComputeHmac(frames: array<Frame>, nfrm: nat) returns (code: u8)
      requires View().Sized() && 1 <= nfrm <= frames.Length && frames as object != buf
      modifies frames
      ensures View() == old(View())
      ensures frames[..nfrm] == Signed(MacOf(f), View(), old(frames[..nfrm])) && frames[nfrm..] == old(frames[nfrm..])
      ensures code == if keySet then RESULT_OK else RESULT_AUTH_KEY_NOT_PROGRAMMED
    {
      if !keySet {
        return RESULT_AUTH_KEY_NOT_PROGRAMMED;
      }
      var mac := FrameMac(f, key, frames[..nfrm]);
      frames[nfrm - 1] := frames[nfrm - 1].(keyMac := mac);
      code := RESULT_OK;
    }

    /** memcpy() into the storage. */
    method StoreBlock(at: nat, block: Bytes)
      requires at + |block| <= buf.Length
      modifies buf
      ensures buf[..] == Splice(old(buf[..]), at, block)
    {
      forall i | 0 <= i < |block| { buf[at + i] := block[i]; }
    }

    method StoreFrame(frm: Frame, at: nat) returns (r: Frame)
      requires at + DATA <= buf.Length
      modifies buf, this`writeCounter
      ensures buf[..] == Splice(old(buf[..]), at, frm.data)
      ensures writeCounter == (old(writeCounter) + 1) % WORD && r == WrittenFrame(frm, writeCounter)
    {
      StoreBlock(at, frm.data);
      writeCounter := (writeCounter + 1) % WORD;
      r := frm.(writeCounter := Be32(writeCounter), msgType := Be16(RESP_AUTH_DATA_WRITE),
          opResult := ResultBytes(RESULT_OK));
    }

    method LoadFrame(frm: Frame, nfrm: nat, at: nat) returns (r: Frame)
      requires View().Sized() && at + DATA <= buf.Length
      ensures r == ReadFrame(View(), frm, nfrm, View().storage[at..at + DATA])
    {
      r := frm.(data := buf[at..at + DATA], msgType := Be16(RESP_AUTH_DATA_READ), address := Be16(lastOp.address),
                blockCount := Le16(nfrm % 0x1_0000), nonce := nonce, opResult := ResultBytes(RESULT_OK));
    }

    /** The first i frames are stored and updated, the others are as in `orig`. */
    ghost predicate Stored(frames: array<Frame>, orig: seq<Frame>, before: Dev, start: nat, i: nat)
      requires start + i * DATA <= |before.storage|
      reads this, buf, frames
    {
      && i <= frames.Length == |orig|
      && buf[..] == Splice(before.storage, start, Payload(orig[..i]))
      && writeCounter == (before.counter + i) % WORD
      && (forall j :: 0 <= j < i ==> frames[j] == WrittenFrame(orig[j], (before.counter + j + 1) % WORD))
      && (forall j :: i <= j < frames.Length ==> frames[j] == orig[j])
    }

    method StoreNext(frames: array<Frame>, start: nat, i: nat, ghost orig: seq<Frame>, ghost before: Dev)
      requires frames as object != buf && start + (i + 1) * DATA <= |before.storage| && i < frames.Length
      requires Stored(frames, orig, before, start, i)
      modifies frames, buf, this`writeCounter
      ensures Stored(frames, orig, before, start, i + 1)
    {
      assert orig[..i + 1][..i] == orig[..i];
      SpliceNext(before.storage, start, Payload(orig[..i]), orig[i].data);
      NextCount(before.counter, i);
      var r := StoreFrame(frames[i], start + i * DATA);
      frames[i] := r;
    }

    /** The loop of ioctl_emu_mem_transfer() towards the device. */
    method StoreFrames(frames: array<Frame>, nfrm: nat, start: nat)
      requires nfrm <= frames.Length && start + nfrm * DATA <= buf.Length && frames as object != buf
      modifies frames, buf, this`writeCounter
      ensures Stored(frames, old(frames[..]), old(View()), start, nfrm)
    {
      ghost var orig, before := frames[..], View();
      assert orig[..0] == [] && Splice(before.storage, start, []) == before.storage;
      for i := 0 to nfrm
        invariant buf.Length == |before.storage| && Stored(frames, orig, before, start, i)
      {
        StoreNext(frames, start, i, orig, before);
      }
    }

    /** Frame i is to become target[i]. */
    ghost predicate Due(frm: Frame, nfrm: nat, start: nat, i: nat, target: seq<Frame>)
      reads this, buf
    {
      && View().Sized() && i < |target| && start + i * DATA + DATA <= buf.Length
      && target[i] == ReadFrame(View(), frm, nfrm, View().storage[start + i * DATA..start + i * DATA + DATA])
    }

    /** The loop of ioctl_emu_mem_transfer() towards the host; `target` is what it fills in. */
    method LoadFrames(frames: array<Frame>, nfrm: nat, start: nat, ghost target: seq<Frame>)
      requires nfrm <= frames.Length && frames as object != buf && |target| == nfrm
      requires forall i :: 0 <= i < nfrm ==> Due(frames[i], nfrm, start, i, target)
      modifies frames
      ensures frames[..nfrm] == target && frames[nfrm..] == old(frames[nfrm..])
      ensures View() == old(View())
    {
      ghost var orig := frames[..];
      for i := 0 to nfrm
        invariant buf[..] == old(buf[..])
        invariant forall j :: 0 <= j < i ==> frames[j] == target[j]
        invariant forall j :: i <= j < frames.Length ==> frames[j] == orig[j]
      {
        assert Due(orig[i], nfrm, start, i, target);
        LoadNext(frames, nfrm, start, i, target);
      }
    }

    method LoadNext(frames: array<Frame>, nfrm: nat, start: nat, i: nat, ghost target: seq<Frame>)
      requires frames as object != buf && i < frames.Length && Due(frames[i], nfrm, start, i, target)
      modifies frames
      ensures frames[i] == target[i] && View() == old(View())
      ensures forall j :: 0 <= j < frames.Length && j != i ==> frames[j] == old(frames[j])
    {
      frames[i] := LoadFrame(frames[i], nfrm, start + i * DATA);
    }

    lemma StoredIsWritten(frames: array<Frame>, orig: seq<Frame>, before: Dev, start: nat, nfrm: nat)
      requires before.Sized() && 1 <= nfrm <= |orig| && start == before.lastOp.address * DATA && InBounds(before, nfrm)
      requires HmacValid(MacOf(f), before, orig[..nfrm]) && Stored(frames, orig, before, start, nfrm)
      ensures var t := WriteBlocks(MacOf(f), before, orig[..nfrm]);
              && buf[..] == t.dev.storage && writeCounter == t.dev.counter && frames[..nfrm] == t.frames
              && t.result == ResultBytes(RESULT_OK) && t.dev ==
                 before.(storage := t.dev.storage, counter := t.dev.counter)
      ensures frames[nfrm..] == orig[nfrm..]
    {
    }

    /** ioctl_emu_mem_transfer() with to_mmc set. */
    method TransferToMmc(frames: array<Frame>, nfrm: nat) returns (result: Bytes)
      requires View().Sized() && 1 <= nfrm <= frames.Length && frames as object != buf
      modifies frames, buf, this`writeCounter
      ensures var t := WriteBlocks(MacOf(f), old(View()), old(frames[..nfrm]));
              View() == t.dev && frames[..nfrm] == t.frames && result == t.result
      ensures frames[nfrm..] == old(frames[nfrm..])
    {
      var start := lastOp.address * DATA;
      var size := nfrm * DATA;
      assert frames[..][..nfrm] == frames[..nfrm];
      if start > buf.Length || start + size > buf.Length {
        return ResultBytes(RESULT_ADDRESS_FAILURE);
      }
      var ok := IsHmacValid(frames, nfrm);
      if !ok {
        return ResultBytes(RESULT_AUTH_FAILURE);
      }
      StoreFrames(frames, nfrm, start);
      StoredIsWritten(frames, old(frames[..]), old(View()), start, nfrm);
      result := ResultBytes(RESULT_OK);
    }

    /** ioctl_emu_mem_transfer() with to_mmc clear. */
    method TransferFromMmc(frames: array<Frame>, nfrm: nat)
      requires View().Sized() && 1 <= nfrm <= frames.Length && frames as object != buf
      modifies frames
      ensures View() == old(View())
      ensures frames[..nfrm] == ReadBlocks(MacOf(f), View(), old(frames[..nfrm]))
      ensures frames[nfrm..] == old(frames[nfrm..])
    {
      var start := lastOp.address * DATA;
      var size := nfrm * DATA;
      if start > buf.Length || start + size > buf.Length {
        return;
      }
      ghost var d, orig := View(), frames[..nfrm];
      forall i | 0 <= i < nfrm ensures Due(frames[i], nfrm, start, i, Filled(d, orig)) {
        FilledAt(d, orig, i);
      }
      LoadFrames(frames, nfrm, start, Filled(d, orig));
      var _ := ComputeHmac(frames, nfrm);
    }

    /** ioctl_emu_setkey() */
    method SetKey(frm: Frame) returns (result: Bytes)
      modifies this`key, this`keySet
      ensures keySet && |result| == 2
      ensures if old(keySet) then key == old(key) && result == ResultBytes(RESULT_GENERAL_FAILURE)
              else key == frm.keyMac && result == ResultBytes(RESULT_OK)
    {
      if keySet {
        return ResultBytes(RESULT_GENERAL_FAILURE);
      }
      key, keySet := frm.keyMac, true;
      result := ResultBytes(RESULT_OK);
    }

    /** ioctl_emu_get_write_result() */
    method GetWriteResult(frames: array<Frame>)
      requires View().Sized() && 1 <= frames.Length && frames as object != buf
      modifies frames
      ensures View() == old(View())
      ensures frames[..] == old(frames[..])[0 := WriteResult(MacOf(f), View(), old(frames[0]))]
    {
      frames[0] := frames[0].(msgType := Be16(RESP_AUTH_DATA_WRITE), opResult := lastOp.opResult,
                              address := Be16(lastOp.address), writeCounter := Be32(writeCounter));
      assert frames[..1] == [frames[0]];
      var _ := ComputeHmac(frames, 1);
    }

    /** ioctl_emu_read_ctr() */
    method ReadCtr(frames: array<Frame>)
      requires View().Sized() && 1 <= frames.Length && frames as object != buf
      modifies frames
      ensures View() == old(View())
      ensures frames[..] == old(frames[..])[0 := CounterResult(MacOf(f), View(), old(frames[0]))]
    {
      frames[0] := frames[0].(msgType := Be16(RESP_WRITE_COUNTER_VAL_READ), writeCounter := Be32(writeCounter),
          nonce := nonce);
      assert frames[..1] == [frames[0]];
      var code := ComputeHmac(frames, 1);
      frames[0] := frames[0].(opResult := ResultBytes(code));
    }

    /** The write commands of ioctl_emu_cmd(). */
    method WriteCommand(frames: array<Frame>, blocks: nat)
      requires View().Sized() && frames as object != buf
      requires Legal(View(), Cmd(WRITE_MULTIPLE_BLOCK, blocks, frames[..]))
      modifies this, buf, frames
      ensures var r := OnWrite(MacOf(f), old(View()), old(Cmd(WRITE_MULTIPLE_BLOCK, blocks, frames[..])));
              View() == r.dev && frames[..] == r.frames
      ensures boundFd == old(boundFd)
    {
      var frm := frames[0];
      var msgType := FromBe16(frm.msgType);
      if msgType == REQ_AUTH_KEY_PROGRAM {
        lastOp := lastOp.(msgType := msgType);
        var result := SetKey(frm);
        lastOp := lastOp.(opResult := result);
      } else if msgType == REQ_AUTH_DATA_WRITE {
        lastOp := lastOp.(msgType := msgType, address := FromBe16(frm.address));
        assert frames[..][..blocks] == frames[..blocks] && frames[..][blocks..] == frames[blocks..];
        var result := TransferToMmc(frames, blocks);
        assert frames[..] == frames[..blocks] + frames[blocks..];
        lastOp := lastOp.(opResult := result);
      } else if msgType == REQ_WRITE_COUNTER_VAL_READ || msgType == REQ_AUTH_DATA_READ {
        nonce := frm.nonce;
        lastOp := lastOp.(msgType := msgType, address := FromBe16(frm.address));
      }
    }

    /** The read commands of ioctl_emu_cmd(). */
    method ReadCommand(frames: array<Frame>, blocks: nat)
      requires View().Sized() && frames as object != buf
      requires Legal(View(), Cmd(READ_MULTIPLE_BLOCK, blocks, frames[..]))
      modifies frames
      ensures View() == old(View())
      ensures frames[..] == OnRead(MacOf(f), View(), old(Cmd(READ_MULTIPLE_BLOCK, blocks, frames[..]))).frames
    {
      var t := lastOp.msgType;
      if t == REQ_AUTH_KEY_PROGRAM {
        frames[0] := frames[0].(msgType := Be16(RESP_AUTH_KEY_PROGRAM), opResult := lastOp.opResult);
      } else if t == REQ_AUTH_DATA_WRITE {
        GetWriteResult(frames);
      } else if t == REQ_WRITE_COUNTER_VAL_READ {
        ReadCtr(frames);
      } else if t == REQ_AUTH_DATA_READ {
        assert frames[..][..blocks] == frames[..blocks] && frames[..][blocks..] == frames[blocks..];
        TransferFromMmc(frames, blocks);
        assert frames[..] == frames[..blocks] + frames[blocks..];
      }
    }

    /** ioctl_emu_cmd(): on the descriptor it is bound to, the emulator does what Step says; on others nothing. */
    method IoctlCmd(fd: int, opcode: nat, blocks: nat, frames: array<Frame>) returns (rc: int)
      requires View().Sized() && frames as object != buf
      requires Legal(View(), Cmd(opcode, blocks, frames[..]))
      modifies this, buf, frames
      ensures boundFd == if old(boundFd) == -1 then fd else old(boundFd)
      ensures if boundFd == fd
              then Reply(View(), frames[..], rc) == Step(MacOf(f), old(View()), old(Cmd(opcode, blocks, frames[..])))
              else rc == -1 && View() == old(View()) && frames[..] == old(frames[..])
    {
      if boundFd == -1 {
        boundFd := fd;
      }
      if boundFd != fd {
        return -1;
      }
      if opcode == WRITE_MULTIPLE_BLOCK {
        WriteCommand(frames, blocks);
        rc := 0;
      } else if opcode == READ_MULTIPLE_BLOCK {
        ReadCommand(frames, blocks);
        rc := 0;
      } else {
        rc := -1;
      }
    }

    /**
     * The three commands of a write request, as ioctl_emu() runs them one after the
     * other: the caller learns from the response whether the write was accepted.
     */
    method WriteRequest(fd: int, req: array<Frame>, rsp: array<Frame>, ghost programmed: Option<Bytes>)
      returns (rc: int)
      requires View().Sized() && req as object != buf && rsp as object != buf && req != rsp && boundFd in {-1, fd}
      requires req.Length >= 1 && rsp.Length == 1 && FromBe16(req[0].msgType) == REQ_AUTH_DATA_WRITE
      requires (keySet <==> programmed.Some?) && (programmed.Some? ==> key == programmed.value)
      modifies this, buf, req, rsp
      ensures rc == 0
      ensures rsp[0].opResult == ResultBytes(RESULT_OK) <==>
              Accepted(MacOf(f), programmed, buf.Length, old(Cmd(WRITE_MULTIPLE_BLOCK, req.Length, req[..])))
      ensures View() == Step(MacOf(f), old(View()), old(Cmd(WRITE_MULTIPLE_BLOCK, req.Length, req[..]))).dev
      ensures FromBe32(rsp[0].writeCounter) == writeCounter && rsp[0].address == Be16(FromBe16(old(req[0]).address))
      ensures old(keySet) ==> HmacValid(MacOf(f), View(), rsp[..])
    {
      ghost var d, frames := View(), req[..];
      WriteExchange(MacOf(f), d, programmed, frames, rsp[0]);
      rc := IoctlCmd(fd, WRITE_MULTIPLE_BLOCK, req.Length, req);
      if rc != 0 {
        return;
      }
      rsp[0] := rsp[0].(msgType := Be16(REQ_RESULT_READ));
      assert rsp[..] == [rsp[0]];
      rc := IoctlCmd(fd, WRITE_MULTIPLE_BLOCK, req.Length, rsp);
      if rc != 0 {
        return;
      }
      rc := IoctlCmd(fd, READ_MULTIPLE_BLOCK, 1, rsp);
    }
  }

  lemma FilledAt(d: Dev, frames: seq<Frame>, i: nat)
    requires d.Sized() && InBounds(d, |frames|) && i < |frames|
    ensures var at := d.lastOp.address * DATA + i * DATA;
            at + DATA <= |d.storage| && Filled(d, frames)[i] ==
                ReadFrame(d, frames[i], |frames|, d.storage[at..at + DATA])
  {
  }

  lemma NextCount(start: u32, i: nat)
    ensures ((start + i) % WORD + 1) % WORD == (start + i + 1) % WORD
  {
    ModAdd(start + i, 1);
  }
}
