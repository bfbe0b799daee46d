/**
 * The emulated RPMB device of tee-supplicant (RPMB_EMU): frames, the effect of
 * one command, whole runs, and the exchanges that the driver makes of commands.
 * Multi-byte frame fields are kept as the bytes that are in memory, on a little
 * endian host.
 */
module Rpmb {
  import opened Common
  import opened Words

  const WRITE_MULTIPLE_BLOCK := 25
  const READ_MULTIPLE_BLOCK := 18

  const REQ_AUTH_KEY_PROGRAM := 0x0001
  const REQ_WRITE_COUNTER_VAL_READ := 0x0002
  const REQ_AUTH_DATA_WRITE := 0x0003
  const REQ_AUTH_DATA_READ := 0x0004
  const REQ_RESULT_READ := 0x0005
  const RESP_AUTH_KEY_PROGRAM := 0x0100
  const RESP_WRITE_COUNTER_VAL_READ := 0x0200
  const RESP_AUTH_DATA_WRITE := 0x0300
  const RESP_AUTH_DATA_READ := 0x0400

  const RESULT_OK := 0x00
  const RESULT_GENERAL_FAILURE := 0x01
  const RESULT_AUTH_FAILURE := 0x02
  const RESULT_ADDRESS_FAILURE := 0x04
  const RESULT_AUTH_KEY_NOT_PROGRAMMED := 0x07

  const DATA := 256

  type Mac32 = s: Bytes | |s| == 32 witness Zeros(32)

  /** The MAC of a message under a key; HMAC-SHA-256 in the emulator. */
  type MacFn = (Bytes, Bytes) -> Mac32

  datatype RawFrame = Frame(keyMac: Bytes, data: Bytes, nonce: Bytes, writeCounter: Bytes, address: Bytes,
                            blockCount: Bytes, opResult: Bytes, msgType: Bytes) {
    predicate Sized() {
      && |keyMac| == 32 && |data| == DATA && |nonce| == 16 && |writeCounter| == 4
      && |address| == 2 && |blockCount| == 2 && |opResult| == 2 && |msgType| == 2
    }
  }

  type Frame = r: RawFrame | r.Sized()
    witness Frame(Zeros(32), Zeros(DATA), Zeros(16), Zeros(4), Zeros(2), Zeros(2), Zeros(2), Zeros(2))

  datatype LastOp = LastOp(msgType: u16, opResult: Bytes, address: u16)

  /** The state of the device. */
  datatype Dev = Dev(storage: Bytes, key: Bytes, keySet: bool, nonce: Bytes, counter: u32, lastOp: LastOp) {
    predicate Sized() { |key| == 32 && |nonce| == 16 && |lastOp.opResult| == 2 }
  }

  /** gen_msb1st_result() as it lies in memory. */
  function ResultBytes(code: u8): (s: Bytes)
    ensures |s| == 2
  {
    Be16(code)
  }

  // ----- Authentication -----

  /** The authenticated part of a frame. */
  function FrameBytes(frm: Frame): (s: Bytes)
    ensures |s| == 284
  {
    frm.data + frm.nonce + frm.writeCounter + frm.address + frm.blockCount + frm.opResult + frm.msgType
  }

  function AllBytes(frames: seq<Frame>): (s: Bytes)
  {
    if frames == [] then [] else AllBytes(frames[..|frames| - 1]) + FrameBytes(frames[|frames| - 1])
  }

  /** Where the fields of frame i are in what is authenticated. */
  lemma {:induction false} FieldsInOrder(frames: seq<Frame>, i: nat)
    requires i < |frames|
    ensures |AllBytes(frames)| == 284 * |frames|
    ensures var s, frm := AllBytes(frames)[284 * i..284 * i + 284], frames[i];
            && s[..256] == frm.data && s[256..272] == frm.nonce && s[272..276] == frm.writeCounter
            && s[276..278] == frm.address && s[278..280] == frm.blockCount && s[280..282] == frm.opResult
            && s[282..] == frm.msgType
    decreases |frames|
  {
    AllBytesAt(frames, i);
    FrameFields(frames[i]);
  }

  lemma FrameFields(frm: Frame)
    ensures var s := FrameBytes(frm);
            && s[..256] == frm.data && s[256..272] == frm.nonce && s[272..276] == frm.writeCounter
            && s[276..278] == frm.address && s[278..280] == frm.blockCount && s[280..282] == frm.opResult
            && s[282..] == frm.msgType
  {
  }

  lemma {:induction false} AllBytesAt(frames: seq<Frame>, i: nat)
    requires i < |frames|
    ensures |AllBytes(frames)| == 284 * |frames| && AllBytes(frames)[284 * i..284 * i + 284] == FrameBytes(frames[i])
    decreases |frames|
  {
    var last := |frames| - 1;
    var front, s := frames[..last], AllBytes(frames);
    if last > 0 {
      AllBytesAt(front, if i < last then i else 0);
    }
    assert s == AllBytes(front) + FrameBytes(frames[last]);
    if i < last {
      assert s[284 * i..284 * i + 284] == AllBytes(front)[284 * i..284 * i + 284];
    }
  }

  /** The MAC of the last frame authenticates all frames. */
  predicate HmacValid(mac: MacFn, d: Dev, frames: seq<Frame>)
    requires frames != []
  {
    d.keySet && frames[|frames| - 1].keyMac == mac(d.key, AllBytes(frames))
  }

  function Signed(mac: MacFn, d: Dev, frames: seq<Frame>): (r: seq<Frame>)
    requires frames != []
    ensures |r| == |frames| && forall i :: 0 <= i < |r| ==> r[i].(keyMac := frames[i].keyMac) == frames[i]
  {
    if !d.keySet then frames
    else frames[|frames| - 1 := frames[|frames| - 1].(keyMac := mac(d.key, AllBytes(frames)))]
  }

  /** Signing does not change what is signed, so signed frames pass the check. */
  lemma SignedIsValid(mac: MacFn, d: Dev, frames: seq<Frame>)
    requires frames != [] && d.keySet
    ensures HmacValid(mac, d, Signed(mac, d, frames))
  {
    var r := Signed(mac, d, frames);
    assert r[..|r| - 1] == frames[..|frames| - 1];
    assert FrameBytes(r[|r| - 1]) == FrameBytes(frames[|frames| - 1]);
  }

  /** Without a key nothing is valid, and the frames go out as they are. */
  lemma WithoutAKey(mac: MacFn, d: Dev, frames: seq<Frame>)
    requires frames != [] && !d.keySet
    ensures !HmacValid(mac, d, frames) && forall i :: 0 <= i < |frames| ==> Signed(mac, d, frames)[i] == frames[i]
  {
  }

  // ----- Transfers -----

  predicate InBounds(d: Dev, n: nat) {
    d.lastOp.address * DATA + n * DATA <= |d.storage|
  }

  /** The payloads of the frames in a row. */
  function Payload(frames: seq<Frame>): (s: Bytes)
    ensures |s| == DATA * |frames|
  {
    if frames == [] then [] else Payload(frames[..|frames| - 1]) + frames[|frames| - 1].data
  }

  function WrittenFrame(frm: Frame, counter: u32): (r: Frame) {
    frm.(writeCounter := Be32(counter), msgType := Be16(RESP_AUTH_DATA_WRITE), opResult := ResultBytes(RESULT_OK))
  }

  function ReadFrame(d: Dev, frm: Frame, n: nat, block: Bytes): (r: Frame)
    requires d.Sized() && |block| == DATA
  {
    frm.(data := block, msgType := Be16(RESP_AUTH_DATA_READ), address := Be16(d.lastOp.address),
         blockCount := Le16(n % 0x1_0000), nonce := d.nonce, opResult := ResultBytes(RESULT_OK))
  }

  datatype Transfer = Transfer(dev: Dev, frames: seq<Frame>, result: Bytes)

  /** ioctl_emu_mem_transfer() with to_mmc set. */
  function WriteBlocks(mac: MacFn, d: Dev, frames: seq<Frame>): (r: Transfer)
    requires d.Sized() && frames != []
    ensures |r.result| == 2 && r.dev.Sized()
  {
    if !InBounds(d, |frames|) then Transfer(d, frames, ResultBytes(RESULT_ADDRESS_FAILURE))
    else if !HmacValid(mac, d, frames) then Transfer(d, frames, ResultBytes(RESULT_AUTH_FAILURE))
    else
      Transfer(d.(storage := Splice(d.storage, d.lastOp.address * DATA, Payload(frames)),
                  counter := (d.counter + |frames|) % WORD),
               seq(|frames|, i requires 0 <= i < |frames| => WrittenFrame(frames[i], (d.counter + i + 1) % WORD)),
               ResultBytes(RESULT_OK))
  }

  /** ioctl_emu_mem_transfer() with to_mmc clear. */
  function ReadBlocks(mac: MacFn, d: Dev, frames: seq<Frame>): (r: seq<Frame>)
    requires d.Sized() && frames != []
    ensures |r| == |frames|
  {
    if !InBounds(d, |frames|) then frames
    else Signed(mac, d, Filled(d, frames))
  }

  function Filled(d: Dev, frames: seq<Frame>): (r: seq<Frame>)
    requires d.Sized() && InBounds(d, |frames|)
    ensures |r| == |frames|
  {
    var start := d.lastOp.address * DATA;
    seq(|frames|, i requires 0 <= i < |frames| =>
      ReadFrame(d, frames[i], |frames|, d.storage[start + i * DATA..start + i * DATA + DATA]))
  }

  // ----- One command -----

  /** `blocks` is the frame count of the command, `frames` what its data pointer holds. */
  datatype Cmd = Cmd(opcode: nat, blocks: nat, frames: seq<Frame>) {
    function MsgType(): (t: u16)
      requires frames != []
    {
      FromBe16(frames[0].msgType)
    }

    /** The command moves data blocks, or will when the device is in that state. */
    predicate Fits() {
      frames != [] && 1 <= blocks <= |frames|
    }
  }

  /** Commands that the device looks at beyond the first frame. */
  predicate Bulk(d: Dev, c: Cmd)
    requires c.frames != []
  {
    (c.opcode == WRITE_MULTIPLE_BLOCK && c.MsgType() == REQ_AUTH_DATA_WRITE) ||
    (c.opcode == READ_MULTIPLE_BLOCK && d.lastOp.msgType == REQ_AUTH_DATA_READ)
  }

  /** Every command has a frame; one that transfers blocks has as many as it says, and at least one. */
  predicate Legal(d: Dev, c: Cmd) {
    c.frames != [] && (Bulk(d, c) ==> c.Fits())
  }

  datatype Reply = Reply(dev: Dev, frames: seq<Frame>, rc: int)

  function OnWrite(mac: MacFn, d: Dev, c: Cmd): (r: Reply)
    requires d.Sized() && Legal(d, c) && c.opcode == WRITE_MULTIPLE_BLOCK
    ensures r.dev.Sized()
  {
    var frm := c.frames[0];
    if c.MsgType() == REQ_AUTH_KEY_PROGRAM then
      var op := d.lastOp.(msgType := c.MsgType());
      if d.keySet then Reply(d.(lastOp := op.(opResult := ResultBytes(RESULT_GENERAL_FAILURE))), c.frames, 0)
      else Reply(d.(key := frm.keyMac, keySet := true, lastOp := op.(opResult := ResultBytes(RESULT_OK))), c.frames, 0)
    else if c.MsgType() == REQ_AUTH_DATA_WRITE then
      var op := d.lastOp.(msgType := c.MsgType(), address := FromBe16(frm.address));
      var t := WriteBlocks(mac, d.(lastOp := op), c.frames[..c.blocks]);
      Reply(t.dev.(lastOp := op.(opResult := t.result)), t.frames + c.frames[c.blocks..], 0)
    else if c.MsgType() == REQ_WRITE_COUNTER_VAL_READ || c.MsgType() == REQ_AUTH_DATA_READ then
      Reply(d.(nonce := frm.nonce, lastOp := d.lastOp.(msgType := c.MsgType(), address := FromBe16(frm.address))),
          c.frames, 0)
    else Reply(d, c.frames, 0)
  }

  function WriteResult(mac: MacFn, d: Dev, frm: Frame): (r: Frame)
    requires d.Sized()
  {
    Signed(mac, d, [frm.(msgType := Be16(RESP_AUTH_DATA_WRITE), opResult := d.lastOp.opResult,
                       address := Be16(d.lastOp.address), writeCounter := Be32(d.counter))])[0]
  }

  function CounterFrame(d: Dev, frm: Frame): (r: Frame)
    requires d.Sized()
  {
    frm.(msgType := Be16(RESP_WRITE_COUNTER_VAL_READ), writeCounter := Be32(d.counter), nonce := d.nonce)
  }

  function CounterResult(mac: MacFn, d: Dev, frm: Frame): (r: Frame)
    requires d.Sized()
  {
    Signed(mac, d, [CounterFrame(d, frm)])[0]
    .(opResult := ResultBytes(if d.keySet then RESULT_OK else RESULT_AUTH_KEY_NOT_PROGRAMMED))
  }

  function OnRead(mac: MacFn, d: Dev, c: Cmd): (r: Reply)
    requires d.Sized() && Legal(d, c) && c.opcode == READ_MULTIPLE_BLOCK
  {
    var frm := c.frames[0];
    var t := d.lastOp.msgType;
    if t == REQ_AUTH_KEY_PROGRAM then
      Reply(d, c.frames[0 := frm.(msgType := Be16(RESP_AUTH_KEY_PROGRAM), opResult := d.lastOp.opResult)], 0)
    else if t == REQ_AUTH_DATA_WRITE then Reply(d, c.frames[0 := WriteResult(mac, d, frm)], 0)
    else if t == REQ_WRITE_COUNTER_VAL_READ then Reply(d, c.frames[0 := CounterResult(mac, d, frm)], 0)
    else if t == REQ_AUTH_DATA_READ then Reply(d, ReadBlocks(mac, d, c.frames[..c.blocks]) + c.frames[c.blocks..], 0)
    else Reply(d, c.frames, 0)
  }

  /** ioctl_emu_cmd() */
  function Step(mac: MacFn, d: Dev, c: Cmd): (r: Reply)
    requires d.Sized() && Legal(d, c)
    ensures r.dev.Sized()
  {
    if c.opcode == WRITE_MULTIPLE_BLOCK then OnWrite(mac, d, c)
    else if c.opcode == READ_MULTIPLE_BLOCK then OnRead(mac, d, c)
    else Reply(d, c.frames, -1)
  }

  // ----- What the host gets -----

  /** The same fields in f and g apart from the MAC, and from those that a response sets. */
  predicate SameRest(f: Frame, g: Frame) {
    f.data == g.data && f.blockCount == g.blockCount
  }

  /** A read command changes nothing; what it answers depends on the request before it. */
  lemma ReadReply(mac: MacFn, d: Dev, c: Cmd)
    requires d.Sized() && Legal(d, c) && c.opcode == 18
    ensures var r, t, frm := Step(mac, d, c), d.lastOp.msgType, c.frames[0];
            && r.rc == 0 && r.dev == d && |r.frames| == |c.frames|
            && (t == 1 ==> r.frames[0] == frm.(msgType := [1, 0], opResult := d.lastOp.opResult))
            && (t == 3 ==>
                  && r.frames[0].msgType == [3, 0] && r.frames[0].opResult == d.lastOp.opResult
                  && r.frames[0].address == Be16(d.lastOp.address) && r.frames[0].writeCounter == Be32(d.counter)
                  && r.frames[0].nonce == frm.nonce && SameRest(r.frames[0], frm))
            && (t == 2 ==>
                  && r.frames[0].msgType == [2, 0] && r.frames[0].opResult == (if d.keySet then [0, 0] else [0, 7])
                  && r.frames[0].writeCounter == Be32(d.counter) && r.frames[0].nonce == d.nonce
                  && r.frames[0].address == frm.address && SameRest(r.frames[0], frm))
            && (t in {1, 2, 3} ==> r.frames[1..] == c.frames[1..])
            && (t !in {1, 2, 3, 4} ==> r.frames == c.frames)
  {
    ByteOrder(1);
    ByteOrder(2);
    ByteOrder(3);
    ByteOrder(7);
    ByteOrder(0);
  }

  /** What a request leaves behind, and the frames it was sent in. */
  lemma RequestReply(mac: MacFn, d: Dev, c: Cmd)
    requires d.Sized() && Legal(d, c) && c.opcode == 25
    ensures var r, t, frm := Step(mac, d, c), c.MsgType(), c.frames[0];
            && r.rc == 0
            && (t == 1 ==> r.dev.lastOp == LastOp(1, if d.keySet then [0, 1] else [0, 0], d.lastOp.address))
            && (t == 3 ==> r.dev.lastOp.msgType == 3 && r.dev.lastOp.address == FromBe16(frm.address))
            && (t in {2, 4} ==> r.dev == d.(nonce := frm.nonce,
               lastOp := LastOp(t, d.lastOp.opResult, FromBe16(frm.address))))
            && (t !in {2, 4} ==> r.dev.nonce == d.nonce)
            && (t !in {1, 2, 3, 4} ==> r.dev == d)
            && (t != 3 ==> r.frames == c.frames)
  {
    ByteOrder(1);
    ByteOrder(0);
  }

  /** The frames of a write come back with the counter behind their block, if the write is accepted. */
  lemma WriteFrames(mac: MacFn, d: Dev, c: Cmd, i: nat)
    requires d.Sized() && Legal(d, c) && c.opcode == 25 && c.MsgType() == 3 && i < |c.frames|
    ensures var r := Step(mac, d, c);
            && |r.frames| == |c.frames|
            && r.frames[i] ==
               (if r.dev.lastOp.opResult == [0, 0] && i < c.blocks
                then c.frames[i].(writeCounter := Be32((d.counter + i + 1) % WORD), msgType := [3, 0],
                    opResult := [0, 0])
                else c.frames[i])
  {
    ByteOrder(3);
    ByteOrder(0);
    ByteOrder(2);
    ByteOrder(4);
  }

  /** Any other command is refused. */
  lemma OtherCommands(mac: MacFn, d: Dev, c: Cmd)
    requires d.Sized() && Legal(d, c) && c.opcode !in {18, 25}
    ensures Step(mac, d, c) == Reply(d, c.frames, -1)
  {
  }

  // ----- Whole runs -----

  ghost predicate LegalRun(mac: MacFn, d: Dev, cmds: seq<Cmd>)
    decreases |cmds|, 0
  {
    cmds == [] || (LegalRun(mac, d, cmds[..|cmds| - 1]) && d.Sized() &&
        Legal(Run(mac, d, cmds[..|cmds| - 1]), cmds[|cmds| - 1]))
  }

  ghost function Run(mac: MacFn, d: Dev, cmds: seq<Cmd>): (r: Dev)
    requires LegalRun(mac, d, cmds)
    ensures d.Sized() ==> r.Sized()
    decreases |cmds|, 1
  {
    if cmds == [] then d else Step(mac, Run(mac, d, cmds[..|cmds| - 1]), cmds[|cmds| - 1]).dev
  }

  predicate IsRequest(c: Cmd, msgType: u16) {
    c.frames != [] && c.opcode == WRITE_MULTIPLE_BLOCK && c.MsgType() == msgType
  }

  /** The key of the first key programming request. */
  function FirstKey(cmds: seq<Cmd>): (k: Option<Bytes>)
  {
    if cmds == [] then None
    else
      var before := FirstKey(cmds[..|cmds| - 1]);
      var c := cmds[|cmds| - 1];
      if before.Some? then before
      else if IsRequest(c, REQ_AUTH_KEY_PROGRAM) then Some(c.frames[0].keyMac) else None
  }

  function WriteAddress(c: Cmd): (a: nat)
    requires c.frames != []
  {
    FromBe16(c.frames[0].address) * DATA
  }

  /** A write request that lies in the storage and carries the right MAC under the programmed key. */
  predicate Accepted(mac: MacFn, key: Option<Bytes>, size: nat, c: Cmd) {
    && IsRequest(c, REQ_AUTH_DATA_WRITE) && c.Fits()
    && WriteAddress(c) + c.blocks * DATA <= size
    && key.Some? && c.frames[c.blocks - 1].keyMac == mac(key.value, AllBytes(c.frames[..c.blocks]))
  }

  /** The initial storage with the accepted writes applied in order. */
  function StorageAfter(mac: MacFn, initial: Bytes, cmds: seq<Cmd>): (s: Bytes)
    ensures |s| == |initial|
  {
    if cmds == [] then initial
    else
      var before := StorageAfter(mac, initial, cmds[..|cmds| - 1]);
      var c := cmds[|cmds| - 1];
      if Accepted(mac, FirstKey(cmds[..|cmds| - 1]), |initial|, c)
      then Splice(before, WriteAddress(c), Payload(c.frames[..c.blocks])) else before
  }

  function AcceptedBlocks(mac: MacFn, size: nat, cmds: seq<Cmd>): (n: nat)
  {
    if cmds == [] then 0
    else
      var c := cmds[|cmds| - 1];
      AcceptedBlocks(mac, size, cmds[..|cmds| - 1]) +
      (if Accepted(mac, FirstKey(cmds[..|cmds| - 1]), size, c) then c.blocks else 0)
  }

  /** One command on a device whose key is known. */
  lemma StepEffect(mac: MacFn, d: Dev, c: Cmd, key: Option<Bytes>)
    requires d.Sized() && Legal(d, c) && (d.keySet <==> key.Some?) && (key.Some? ==> d.key == key.value)
    ensures var d' := Step(mac, d, c).dev;
            && (Accepted(mac, key, |d.storage|, c) ==>
                 d'.storage == Splice(d.storage, WriteAddress(c), Payload(c.frames[..c.blocks])) &&
                     d'.counter == (d.counter + c.blocks) % WORD)
            && (!Accepted(mac, key, |d.storage|, c) ==> d'.storage == d.storage && d'.counter == d.counter)
            && (d'.keySet <==> d.keySet || IsRequest(c, REQ_AUTH_KEY_PROGRAM))
            && (d.keySet ==> d'.key == d.key)
            && (!d.keySet && d'.keySet ==> d'.key == c.frames[0].keyMac)
  {
  }

  /** The state of a device after a run, told from the commands alone. */
  predicate Summary(mac: MacFn, d: Dev, cmds: seq<Cmd>, r: Dev) {
    && r.storage == StorageAfter(mac, d.storage, cmds)
    && r.keySet == FirstKey(cmds).Some? && (r.keySet ==> r.key == FirstKey(cmds).value)
    && r.counter == CounterAfter(d.counter, AcceptedBlocks(mac, |d.storage|, cmds))
  }

  function CounterAfter(start: u32, blocks: nat): (c: u32) {
    (start + blocks) % WORD
  }

  lemma CountStep(start: u32, sum: nat, blocks: nat)
    ensures (CounterAfter(start, sum) + blocks) % WORD == CounterAfter(start, sum + blocks)
  {
    var q := (start + sum) / WORD;
    assert start + sum + blocks == WORD * q + (CounterAfter(start, sum) + blocks);
  }

  lemma SummaryStep(mac: MacFn, d: Dev, before: seq<Cmd>, c: Cmd, m: Dev)
    requires m.Sized() && Legal(m, c) && Summary(mac, d, before, m)
    ensures Summary(mac, d, before + [c], Step(mac, m, c).dev)
  {
    var cmds := before + [c];
    assert cmds[..|cmds| - 1] == before && cmds[|cmds| - 1] == c;
    StepEffect(mac, m, c, FirstKey(before));
    CountStep(d.counter, AcceptedBlocks(mac, |d.storage|, before), c.blocks);
  }

  /**
   * After any run from a device without a key: the storage is what the accepted
   * writes made of it, the key is the first one programmed, and the counter has
   * counted the accepted blocks modulo 2^32.
   */
  lemma {:induction false} RunIsFoldOfAcceptedWrites(mac: MacFn, d: Dev, cmds: seq<Cmd>)
    requires d.Sized() && !d.keySet && LegalRun(mac, d, cmds)
    ensures Summary(mac, d, cmds, Run(mac, d, cmds))
    decreases |cmds|
  {
    if cmds != [] {
      var before := cmds[..|cmds| - 1];
      RunIsFoldOfAcceptedWrites(mac, d, before);
      SummaryStep(mac, d, before, cmds[|cmds| - 1], Run(mac, d, before));
      assert before + [cmds[|cmds| - 1]] == cmds;
    }
  }

  /** A programmed key never changes. */
  lemma {:induction false} KeyIsWriteOnce(mac: MacFn, d: Dev, cmds: seq<Cmd>)
    requires d.Sized() && d.keySet && LegalRun(mac, d, cmds)
    ensures Run(mac, d, cmds).keySet && Run(mac, d, cmds).key == d.key
    decreases |cmds|
  {
    if cmds != [] {
      var before := cmds[..|cmds| - 1];
      KeyIsWriteOnce(mac, d, before);
      StepEffect(mac, Run(mac, d, before), cmds[|cmds| - 1], Some(d.key));
    }
  }

  // ----- Exchanges -----

  /**
   * The write exchange of rpmb_data_req(): the write request, a result request
   * in the response frame, and the read of the response. The result request does
   * not disturb the device. The response says OK exactly when the write was
   * accepted, carries the address and the counter after the write, and has a
   * valid MAC once a key is programmed.
   */
  lemma WriteExchange(mac: MacFn, d: Dev, key: Option<Bytes>, req: seq<Frame>, rsp: Frame)
    requires d.Sized() && req != [] && FromBe16(req[0].msgType) == REQ_AUTH_DATA_WRITE
    requires (d.keySet <==> key.Some?) && (key.Some? ==> d.key == key.value)
    ensures var write := Cmd(WRITE_MULTIPLE_BLOCK, |req|, req);
            var d1 := Step(mac, d, write).dev;
            var ask := rsp.(msgType := Be16(REQ_RESULT_READ));
            var second := Cmd(WRITE_MULTIPLE_BLOCK, |req|, [ask]);
            var third := Cmd(READ_MULTIPLE_BLOCK, 1, [ask]);
            && Legal(d1, second) && Step(mac, d1, second) == Reply(d1, [ask], 0)
            && Legal(d1, third) && Step(mac, d1, third).dev == d1
            && var answer := Step(mac, d1, third).frames;
            && |answer| == 1
            && FromBe16(answer[0].msgType) == RESP_AUTH_DATA_WRITE
            && (answer[0].opResult == ResultBytes(RESULT_OK) <==> Accepted(mac, key, |d.storage|, write))
            && FromBe32(answer[0].writeCounter) == d1.counter
            && answer[0].address == Be16(FromBe16(req[0].address))
            && (d.keySet ==> HmacValid(mac, d1, answer))
  {
    var write := Cmd(WRITE_MULTIPLE_BLOCK, |req|, req);
    assert req[..|req|] == req;
    var d1 := Step(mac, d, write).dev;
    var ask := rsp.(msgType := Be16(REQ_RESULT_READ));
    assert FromBe16(ask.msgType) == REQ_RESULT_READ;
    WriteOutcome(mac, d, key, write);
    if d.keySet {
      var unsigned := [ask.(msgType := Be16(RESP_AUTH_DATA_WRITE), opResult := d1.lastOp.opResult,
                            address := Be16(d1.lastOp.address), writeCounter := Be32(d1.counter))];
      SignedIsValid(mac, d1, unsigned);
      assert [ask][0 := WriteResult(mac, d1, ask)] == Signed(mac, d1, unsigned);
    }
  }

  lemma WriteOutcome(mac: MacFn, d: Dev, key: Option<Bytes>, c: Cmd)
    requires d.Sized() && Legal(d, c) && IsRequest(c, REQ_AUTH_DATA_WRITE)
    requires (d.keySet <==> key.Some?) && (key.Some? ==> d.key == key.value)
    ensures var d1 := Step(mac, d, c).dev;
            && d1.lastOp.msgType == REQ_AUTH_DATA_WRITE && d1.lastOp.address == FromBe16(c.frames[0].address)
            && d1.keySet == d.keySet && d1.key == d.key
            && (d1.lastOp.opResult == ResultBytes(RESULT_OK) <==> Accepted(mac, key, |d.storage|, c))
  {
    assert ResultBytes(RESULT_AUTH_FAILURE)[1] != ResultBytes(RESULT_OK)[1];
    assert ResultBytes(RESULT_ADDRESS_FAILURE)[1] != ResultBytes(RESULT_OK)[1];
  }

  lemma ReadAnswer(mac: MacFn, d: Dev, frames: seq<Frame>)
    requires d.Sized() && d.lastOp.msgType == REQ_AUTH_DATA_READ && frames != [] && InBounds(d, |frames|)
    ensures Step(mac, d, Cmd(READ_MULTIPLE_BLOCK, |frames|, frames)).frames == Signed(mac, d, Filled(d, frames))
  {
    assert frames[..|frames|] == frames && frames[|frames|..] == [];
  }

  /**
   * A data read inside the storage returns the stored blocks, and its MAC passes the
   * check once a key is programmed.
   */
  lemma DataReadResponse(mac: MacFn, d: Dev, frames: seq<Frame>)
    requires d.Sized() && d.lastOp.msgType == REQ_AUTH_DATA_READ && frames != [] && InBounds(d, |frames|)
    ensures var answer := Step(mac, d, Cmd(READ_MULTIPLE_BLOCK, |frames|, frames)).frames;
            && |answer| == |frames|
            && Payload(answer) == d.storage[d.lastOp.address * DATA..d.lastOp.address * DATA + |frames| * DATA]
            && (forall i :: 0 <= i < |answer| ==>
                  answer[i].nonce == d.nonce && answer[i].opResult == ResultBytes(RESULT_OK))
            && (d.keySet ==> HmacValid(mac, d, answer))
  {
    ReadAnswer(mac, d, frames);
    SignedBlocks(mac, d, frames);
    if d.keySet {
      SignedIsValid(mac, d, Filled(d, frames));
    }
  }

  predicate IsReadResponse(frm: Frame) {
    frm.msgType == Be16(RESP_AUTH_DATA_READ)
  }

  /**
   * A data read is answered exactly when it is inside the storage: outside, the
   * result of the transfer is dropped and the host gets its own frames back, with
   * whatever result they held.
   */
  lemma DataReadAnswersIff(mac: MacFn, d: Dev, frames: seq<Frame>)
    requires d.Sized() && d.lastOp.msgType == REQ_AUTH_DATA_READ && frames != []
    ensures var answer := Step(mac, d, Cmd(READ_MULTIPLE_BLOCK, |frames|, frames)).frames;
            && (!InBounds(d, |frames|) ==> answer == frames)
            && (InBounds(d, |frames|) ==>
                 |answer| == |frames| && forall i :: 0 <= i < |frames| ==> IsReadResponse(answer[i]))
            && ((forall i :: 0 <= i < |frames| ==> !IsReadResponse(frames[i])) ==>
                 ((exists i :: 0 <= i < |answer| && IsReadResponse(answer[i])) <==> InBounds(d, |frames|)))
  {
    if InBounds(d, |frames|) {
      ReadAnswer(mac, d, frames);
      var filled := Filled(d, frames);
      var answer := Signed(mac, d, filled);
      forall i | 0 <= i < |frames| ensures IsReadResponse(answer[i]) {
        assert answer[i].(keyMac := filled[i].keyMac) == filled[i];
      }
      assert IsReadResponse(answer[0]);
    } else {
      assert frames[..|frames|] == frames && frames[|frames|..] == [];
    }
  }

  lemma SignedBlocks(mac: MacFn, d: Dev, frames: seq<Frame>)
    requires d.Sized() && frames != [] && InBounds(d, |frames|)
    ensures var answer := Signed(mac, d, Filled(d, frames));
            && Payload(answer) == d.storage[d.lastOp.address * DATA..d.lastOp.address * DATA + |frames| * DATA]
            && (forall i :: 0 <= i < |answer| ==>
                  answer[i].nonce == d.nonce && answer[i].opResult == ResultBytes(RESULT_OK))
  {
    var filled := Filled(d, frames);
    var answer := Signed(mac, d, filled);
    FilledPayload(d, frames, |frames|);
    assert filled[..|frames|] == filled;
    forall i | 0 <= i < |answer|
      ensures answer[i].data == filled[i].data && answer[i].nonce == d.nonce &&
              answer[i].opResult == ResultBytes(RESULT_OK)
    {
      assert answer[i].(keyMac := filled[i].keyMac) == filled[i];
    }
    SamePayload(answer, filled);
  }

  lemma {:induction false} FilledPayload(d: Dev, frames: seq<Frame>, n: nat)
    requires d.Sized() && InBounds(d, |frames|) && n <= |frames|
    ensures var start := d.lastOp.address * DATA;
            Payload(Filled(d, frames)[..n]) == d.storage[start..start + n * DATA]
  {
    if n > 0 {
      var filled := Filled(d, frames);
      assert filled[..n][..n - 1] == filled[..n - 1];
      FilledPayload(d, frames, n - 1);
    }
  }

  lemma {:induction false} SamePayload(a: seq<Frame>, b: seq<Frame>)
    requires |a| == |b| && forall i :: 0 <= i < |a| ==> a[i].data == b[i].data
    ensures Payload(a) == Payload(b)
  {
    if a != [] {
      SamePayload(a[..|a| - 1], b[..|b| - 1]);
    }
  }

  /** Reading back an accepted write at the same address returns the written payload. */
  lemma ReadAfterWrite(mac: MacFn, d: Dev, write: Cmd, request: Cmd, frames: seq<Frame>)
    requires d.Sized() && Legal(d, write) && Accepted(mac, if d.keySet then Some(d.key) else None, |d.storage|, write)
    requires IsRequest(request, REQ_AUTH_DATA_READ) && request.frames[0].address == write.frames[0].address
    requires |frames| == write.blocks
    ensures var d1 := Step(mac, d, write).dev;
            && Legal(d1, request)
            && var d2 := Step(mac, d1, request).dev;
            && Legal(d2, Cmd(READ_MULTIPLE_BLOCK, |frames|, frames))
            && Payload(Step(mac, d2, Cmd(READ_MULTIPLE_BLOCK, |frames|, frames)).frames) ==
               Payload(write.frames[..write.blocks])
  {
    var d1 := Step(mac, d, write).dev;
    StepEffect(mac, d, write, if d.keySet then Some(d.key) else None);
    var d2 := Step(mac, d1, request).dev;
    DataReadResponse(mac, d2, frames);
    var at := WriteAddress(write);
    var payload := Payload(write.frames[..write.blocks]);
    assert d2.storage[at..at + |payload|] == payload;
  }

  /**
   * A counter read signs the frame before it stores the result code in it. With a
   * key programmed its MAC passes the check exactly when the result field already
   * was zero, or the two frames that differ in that field collide under the MAC.
   */
  lemma CounterReadMacIff(mac: MacFn, d: Dev, frm: Frame)
    requires d.Sized() && d.keySet
    ensures var before := CounterFrame(d, frm);
            var after := before.(opResult := ResultBytes(RESULT_OK));
            && FromBe32(CounterResult(mac, d, frm).writeCounter) == d.counter &&
               CounterResult(mac, d, frm).nonce == d.nonce
            && (HmacValid(mac, d, [CounterResult(mac, d, frm)]) <==>
                 frm.opResult == ResultBytes(RESULT_OK) ||
                 (FrameBytes(before) != FrameBytes(after) &&
                  mac(d.key, FrameBytes(before)) == mac(d.key, FrameBytes(after))))
  {
    var before := CounterFrame(d, frm);
    var after := before.(opResult := ResultBytes(RESULT_OK));
    OneFrame(before);
    OneFrame(CounterResult(mac, d, frm));
    assert FrameBytes(CounterResult(mac, d, frm)) == FrameBytes(after);
    if frm.opResult == ResultBytes(RESULT_OK) {
      assert before == after;
    } else {
      assert FrameBytes(before)[280..282] == frm.opResult && FrameBytes(after)[280..282] == ResultBytes(RESULT_OK);
    }
  }

  lemma OneFrame(frm: Frame)
    ensures AllBytes([frm]) == FrameBytes(frm)
  {
    assert [frm][..0] == [];
    assert AllBytes([frm]) == AllBytes([]) + FrameBytes(frm);
  }

  // ----- Inputs at which the host is not served -----

  const EMPTY_FRAME: Frame := Frame(Zeros(32), Zeros(DATA), Zeros(16), Zeros(4), Zeros(2), Zeros(2), Zeros(2), Zeros(2))

  /** A device of one block, asked for block 1. */
  const ONE_BLOCK := Dev(Zeros(DATA), Zeros(32), true, Zeros(16), 0, LastOp(REQ_AUTH_DATA_READ, Zeros(2), 1))

  /** The host gets its own frame back, with a result field that says OK. */
  lemma ReadOutOfBounds(mac: MacFn)
    ensures var c := Cmd(READ_MULTIPLE_BLOCK, 1, [EMPTY_FRAME]);
            && ONE_BLOCK.Sized() && Legal(ONE_BLOCK, c) && Step(mac, ONE_BLOCK, c).frames == [EMPTY_FRAME]
            && !IsReadResponse(EMPTY_FRAME) && EMPTY_FRAME.opResult == ResultBytes(RESULT_OK)
  {
    DataReadAnswersIff(mac, ONE_BLOCK, [EMPTY_FRAME]);
    assert EMPTY_FRAME.msgType[0] != Be16(RESP_AUTH_DATA_READ)[0];
    assert ResultBytes(RESULT_OK) == Zeros(2);
  }

  /** A function that tells frames apart by the low byte of their result field. */
  function ResultMac(key: Bytes, msg: Bytes): (m: Mac32) {
    if |msg| > 281 then Zeros(31) + [msg[281]] else Zeros(32)
  }

  /** A counter read into a frame that held another result does not pass the check. */
  lemma CounterReadFails()
    ensures var frm: Frame := EMPTY_FRAME.(opResult := ResultBytes(RESULT_AUTH_KEY_NOT_PROGRAMMED));
            ONE_BLOCK.Sized() && !HmacValid(ResultMac, ONE_BLOCK, [CounterResult(ResultMac, ONE_BLOCK, frm)])
  {
    var frm: Frame := EMPTY_FRAME.(opResult := ResultBytes(RESULT_AUTH_KEY_NOT_PROGRAMMED));
    CounterReadMacIff(ResultMac, ONE_BLOCK, frm);
    var before := CounterFrame(ONE_BLOCK, frm);
    var after := before.(opResult := ResultBytes(RESULT_OK));
    assert frm.opResult[1] == 7 && ResultBytes(RESULT_OK)[1] == 0;
    assert FrameBytes(before)[281] == 7 && FrameBytes(after)[281] == 0;
    assert ResultMac(ONE_BLOCK.key, FrameBytes(before))[31] == 7;
    assert ResultMac(ONE_BLOCK.key, FrameBytes(after))[31] == 0;
  }
}
