/** The handlers of the peripherals.c revision, as far as what they report
    back: each handler ends with a two-argument `END_CMD` whose second
    argument is the number of bytes to send back, `-1` meaning no reply. Most
    handlers pass the length of the request on; four honour `header.respond`;
    the data-bearing ones size the reply from the record and the length of
    the data returned; `SPIMaster_TransferSequential` decodes a batch of
    transfer descriptors from its data block and lays the transfers out in it. */
module Peripherals {
  import opened Bytes
  import opened Optional
  import opened Layout
  import opened Contract
  import opened BlockSize

  /** The reply length that means "send nothing back". */
  const NO_REPLY: int := -1

  /** `respond ? n : -1`. */
  function IfAsked(respond: bool, n: int): int
  {
    if respond then n else NO_REPLY
  }

  /** The handlers whose `END_CMD` length depends on `header.respond`. */
  predicate Suppressible(c: SocketCmd)
  {
    c in {GpioSetValue, I2cMasterWrite, PwmApply, SpiMasterTransferSequential}
  }

  /** The handlers whose reply is sized by the data they return. */
  predicate ReturnsData(c: SocketCmd)
  {
    c in {I2cMasterWriteThenRead, I2cMasterRead, SpiMasterWriteThenRead}
  }

  /** One `SPI_TransferConfig` descriptor of a sequential batch. */
  datatype TransferConfig = TransferConfig(flags: uint8, length: uint32)

  /** `SPI_TransferFlags_Read` and `SPI_TransferFlags_Write` of the platform. */
  const READ_FLAG: uint8 := 1
  const WRITE_FLAG: uint8 := 2

  /** The packed size of a descriptor: a one-byte `flags`, a 32-bit `length`. */
  const CONFIG_SIZE: nat := 5

  /** The request fields a reply length depends on: `header.respond`, the
      received length `nread`, `lenReadData`, the request's
      `data_block.length`, and the descriptors of a sequential batch. */
  datatype Request = Request(respond: bool, nread: int, lenReadData: uint32,
                             blockLength: uint16, transfers: seq<TransferConfig>)

  /** Whether some descriptor of the batch carries `flag`. */
  predicate AnyFlag(cs: seq<TransferConfig>, flag: uint8)
  {
    exists i :: 0 <= i < |cs| && cs[i].flags == flag
  }

  /** The sum of the transfer lengths, unbounded. */
  function Total(cs: seq<TransferConfig>): nat
  {
    if cs == [] then 0 else Total(cs[..|cs| - 1]) + cs[|cs| - 1].length
  }

  /** The 16-bit `data_block.length` a read batch reports: the sum of its
      lengths modulo 2^16. */
  function ReadLength(cs: seq<TransferConfig>): uint16
  {
    Total(cs) % TWO_TO_16
  }

  /** The `nread` of `SPIMaster_TransferSequential` once its body has run:
      a batch with a write transfer reports the core block, a read batch the
      core block plus its read bytes, a batch with neither the request. */
  function SequentialLength(cs: seq<TransferConfig>, r: BlockRecord, nread: int): (n: int)
    ensures Addressable(r) && (AnyFlag(cs, WRITE_FLAG) || AnyFlag(cs, READ_FLAG)) ==> n >= CoreBlockSize(r) >= 0
    ensures Addressable(r) && nread >= 0 ==> n >= 0
  {
    assert Addressable(r) ==> VariableBlockSize(r, ReadLength(cs)) == SizeOf(r) - r.capacity + ReadLength(cs);
    if AnyFlag(cs, WRITE_FLAG) then CoreBlockSize(r)
    else if AnyFlag(cs, READ_FLAG) then VariableBlockSize(r, ReadLength(cs))
    else nread
  }

  /** The length the handler of c passes to `END_CMD`, for a request `q`
      whose record has the shape r. `SPIMaster_InitTransfers` has no handler
      in this revision. */
  function ReplyLength(c: SocketCmd, q: Request, r: BlockRecord): (n: int)
    requires c != SpiMasterInitTransfers
    ensures Suppressible(c) && !q.respond ==> n == NO_REPLY
    ensures !Suppressible(c) && !ReturnsData(c) ==> n == q.nread
  {
    if c == I2cMasterWrite then IfAsked(q.respond, CoreBlockSize(r))
    else if c == I2cMasterWriteThenRead || c == SpiMasterWriteThenRead then VariableBlockSize(r, q.lenReadData)
    else if c == I2cMasterRead then VariableBlockSize(r, q.blockLength)
    else if c == SpiMasterTransferSequential then IfAsked(q.respond, SequentialLength(q.transfers, r, q.nread))
    else if c == GpioSetValue || c == PwmApply then IfAsked(q.respond, q.nread)
    else q.nread
  }

  /** The four handlers that look at `header.respond` report no reply when it
      is false, and a real length (never `-1`) when it is true. */
  lemma RespondHonoured(c: SocketCmd, q: Request, r: BlockRecord)
    requires Suppressible(c) && Addressable(r) && q.nread >= 0
    ensures ReplyLength(c, q.(respond := false), r) == NO_REPLY
    ensures ReplyLength(c, q.(respond := true), r) >= 0
  {
    if c == SpiMasterTransferSequential && !AnyFlag(q.transfers, WRITE_FLAG) && AnyFlag(q.transfers, READ_FLAG) {
      var n := ReadLength(q.transfers);
      assert VariableBlockSize(r, n) == SizeOf(r) - r.capacity + n;
    }
  }

  /** Every other handler replies the same whatever `header.respond` says. */
  lemma RespondIgnored(c: SocketCmd, q: Request, r: BlockRecord)
    requires c != SpiMasterInitTransfers && !Suppressible(c)
    ensures ReplyLength(c, q.(respond := true), r) == ReplyLength(c, q.(respond := false), r)
    ensures !ReturnsData(c) ==> ReplyLength(c, q, r) == q.nread
  {
  }

  /** `I2CMaster_Write` replies with the fixed fields only, however many bytes
      it was asked to write and however long the request was. */
  lemma WriteReplyIsCore(q: Request, r: BlockRecord)
    requires q.respond && SizeOf(r) < 0x8000_0000
    ensures ReplyLength(I2cMasterWrite, q, r) == Offset(BlockLayout(r), |r.core|)
    ensures forall q': Request :: q'.respond ==> ReplyLength(I2cMasterWrite, q', r) == ReplyLength(I2cMasterWrite, q, r)
  {
  }

  /** A data-bearing reply whose data length is within the capacity carries
      the fixed fields, the length field and exactly that many data bytes,
      and stays inside the record. */
  lemma DataReplyBounds(c: SocketCmd, q: Request, r: BlockRecord)
    requires ReturnsData(c) && Addressable(r)
    requires c == I2cMasterRead ==> q.blockLength <= r.capacity
    requires c != I2cMasterRead ==> q.lenReadData <= r.capacity
    ensures var n := if c == I2cMasterRead then q.blockLength else q.lenReadData;
            ReplyLength(c, q, r) == Offset(BlockLayout(r), |r.core| + 1) + n
    ensures ReplyLength(c, q, r) <= SizeOf(r)
  {
  }

  /** `data_block.length` after `SPIMaster_WriteThenRead`: `lenReadData`
      narrowed to 16 bits. */
  function SpiReadLength(lenReadData: uint32): (length: uint16)
    ensures lenReadData < TWO_TO_16 ==> length == lenReadData
    ensures length == lenReadData - TWO_TO_16 * (lenReadData / TWO_TO_16)
  {
    lenReadData % TWO_TO_16
  }

  /** Within the capacity, the reply of `SPIMaster_WriteThenRead` and the
      length it stores agree: the reply is the core block, the length field
      and `data_block.length` bytes. */
  lemma SpiWriteThenReadAgrees(q: Request, r: BlockRecord)
    requires Addressable(r) && q.lenReadData <= r.capacity
    ensures ReplyLength(SpiMasterWriteThenRead, q, r)
            == CoreBlockSize(r) + LENGTH_FIELD + SpiReadLength(q.lenReadData)
  {
  }

  /** Past 2^16 they part: the stored length wraps to 0 while the reply
      still counts all 2^16 bytes. */
  lemma SpiWriteThenReadWraps(q: Request, r: BlockRecord)
    requires Addressable(r) && q.lenReadData == TWO_TO_16
    ensures SpiReadLength(q.lenReadData) == 0
    ensures ReplyLength(SpiMasterWriteThenRead, q, r)
            == CoreBlockSize(r) + LENGTH_FIELD + TWO_TO_16
  {
  }

  /** The header fields that `END_CMD` of peripherals.h touches. */
  datatype CmdHeader = CmdHeader(respond: bool, errNo: int32)

  /** `END_CMD` as peripherals.h defines it: `errno` goes into
      `header.err_no`, the rest of the header is kept, and the handler
      returns 0 whatever length its body computed. */
  function EndCmd(h: CmdHeader, errno: int32): (r: (CmdHeader, int))
    ensures r.0.errNo == errno && r.0.respond == h.respond
    ensures r.1 == 0
  {
    (h.(errNo := errno), 0)
  }

  // ---------------------------------------------------------------------
  // SPIMaster_TransferSequential

  /** A transfer handed to the SPI driver. `readData` and `writeData` are
      offsets into the data block, `None` for a null pointer. */
  datatype Transfer = Transfer(flags: uint8, length: uint32, readData: Option<nat>, writeData: Option<nat>)

  /** What the driver call returns: `returns` and `errno`. */
  datatype SpiOutcome = SpiOutcome(result: int32, errNo: int32)

  /** The descriptor whose bytes start at `at` in the data block. */
  function ConfigFrom(block: seq<uint8>, at: nat): (c: TransferConfig)
    requires at + CONFIG_SIZE <= |block|
    ensures c.flags == block[at]
  {
    assert Pow256(4) == TWO_TO_32;
    TransferConfig(block[at], DecodeLE(block[at + 1..at + CONFIG_SIZE]))
  }

  /** The first n descriptors, packed one after the other from the start of
      the data block. */
  function Configs(block: seq<uint8>, n: nat): (cs: seq<TransferConfig>)
    requires CONFIG_SIZE * n <= |block|
    ensures |cs| == n
  {
    if n == 0 then [] else Configs(block, n - 1) + [ConfigFrom(block, CONFIG_SIZE * (n - 1))]
  }

  lemma {:induction false} ConfigsAt(block: seq<uint8>, n: nat, i: nat)
    requires CONFIG_SIZE * n <= |block| && i < n
    ensures Configs(block, n)[i] == ConfigFrom(block, CONFIG_SIZE * i)
  {
    if i < n - 1 {
      ConfigsAt(block, n - 1, i);
    }
  }

  /** The bytes of one descriptor. */
  function EncodeConfig(c: TransferConfig): (bs: seq<uint8>)
    ensures |bs| == CONFIG_SIZE
  {
    [c.flags] + EncodeLE(c.length, 4)
  }

  /** The bytes of a batch of descriptors, packed one after the other. */
  function EncodeConfigs(cs: seq<TransferConfig>): (bs: seq<uint8>)
    ensures |bs| == CONFIG_SIZE * |cs|
  {
    if cs == [] then [] else EncodeConfigs(cs[..|cs| - 1]) + EncodeConfig(cs[|cs| - 1])
  }

  /** A descriptor decodes from its own bytes, wherever they sit. */
  lemma ConfigFromEncoded(c: TransferConfig, front: seq<uint8>, rest: seq<uint8>)
    ensures |front| + CONFIG_SIZE <= |front + EncodeConfig(c) + rest|
    ensures ConfigFrom(front + EncodeConfig(c) + rest, |front|) == c
  {
    var block, at := front + EncodeConfig(c) + rest, |front|;
    assert block[at] == c.flags;
    assert block[at + 1..at + CONFIG_SIZE] == EncodeLE(c.length, 4);
    assert Pow256(4) == TWO_TO_32;
    DecodeEncodeLE(c.length, 4);
  }

  /** Decoding the descriptors of a data block that starts with their
      encoding gives them back, whatever follows them. */
  lemma {:induction false} ConfigsRoundTrip(cs: seq<TransferConfig>, rest: seq<uint8>)
    ensures Configs(EncodeConfigs(cs) + rest, |cs|) == cs
  {
    if cs != [] {
      var n := |cs| - 1;
      var front, last := cs[..n], cs[n];
      var head := EncodeConfigs(front);
      assert EncodeConfigs(cs) == head + EncodeConfig(last);
      var block := head + EncodeConfig(last) + rest;
      assert EncodeConfigs(cs) + rest == block;
      assert block == head + (EncodeConfig(last) + rest);
      ConfigsRoundTrip(front, EncodeConfig(last) + rest);
      ConfigFromEncoded(last, head, rest);
      assert Configs(block, |cs|) == Configs(block, n) + [ConfigFrom(block, |head|)];
      assert cs == front + [last];
    }
  }

  /** Where the write sources begin: just past the read regions when the
      batch also reads, just past the descriptors otherwise. */
  function WriteBase(cs: seq<TransferConfig>): nat
  {
    if AnyFlag(cs, READ_FLAG) then Total(cs) else CONFIG_SIZE * |cs|
  }

  /** Transfer i as the driver gets it, once the read regions (when `read`)
      and the write sources (when `write`, from `base`) are laid out: each
      region starts where the one before it ends. */
  function Planned(cs: seq<TransferConfig>, i: nat, read: bool, write: bool, base: nat): Transfer
    requires i < |cs|
  {
    Transfer(cs[i].flags, cs[i].length,
             if read then Some(Total(cs[..i])) else None,
             if write then Some(base + Total(cs[..i])) else None)
  }

  lemma TotalStep(cs: seq<TransferConfig>, i: nat)
    requires i < |cs|
    ensures Total(cs[..i + 1]) == Total(cs[..i]) + cs[i].length
  {
    assert cs[..i + 1][..i] == cs[..i];
  }

  lemma AnyFlagStep(cs: seq<TransferConfig>, i: nat, flag: uint8)
    requires i < |cs|
    ensures AnyFlag(cs[..i + 1], flag) == (AnyFlag(cs[..i], flag) || cs[i].flags == flag)
  {
    var a, b := cs[..i + 1], cs[..i];
    if AnyFlag(b, flag) {
      var k :| 0 <= k < |b| && b[k].flags == flag;
      assert a[k] == b[k];
    }
    if AnyFlag(a, flag) && cs[i].flags != flag {
      var k :| 0 <= k < |a| && a[k].flags == flag;
      assert k < i && b[k] == a[k];
    }
    if cs[i].flags == flag {
      assert a[i] == cs[i];
    }
  }

  lemma ModAdd(a: nat, b: nat)
    ensures (a % TWO_TO_16 + b) % TWO_TO_16 == (a + b) % TWO_TO_16
  {
  }

  /** The descriptor loop: one transfer per descriptor, with null pointers,
      and whether any descriptor reads or writes. `dataPtr` ends just past
      the descriptors. */
  method DecodeTransfers(block: seq<uint8>, count: nat) returns (ts: array<Transfer>, readTransfer: bool, writeTransfer: bool, dataPtr: nat)
    requires CONFIG_SIZE * count <= |block|
    ensures fresh(ts) && ts.Length == count && dataPtr == CONFIG_SIZE * count
    ensures readTransfer == AnyFlag(Configs(block, count), READ_FLAG)
    ensures writeTransfer == AnyFlag(Configs(block, count), WRITE_FLAG)
    ensures forall j :: 0 <= j < count ==> ts[j] == Planned(Configs(block, count), j, false, false, 0)
  {
    ghost var cs := Configs(block, count);
    ts := new Transfer[count](_ => Transfer(0, 0, None, None));
    readTransfer, writeTransfer := false, false;
    dataPtr := 0;
    var i := 0;
    while i < count
      invariant i <= count && dataPtr == CONFIG_SIZE * i
      invariant readTransfer == AnyFlag(cs[..i], READ_FLAG)
      invariant writeTransfer == AnyFlag(cs[..i], WRITE_FLAG)
      invariant forall j :: 0 <= j < i ==> ts[j] == Planned(cs, j, false, false, 0)
    {
      var config := ConfigFrom(block, dataPtr);
      ConfigsAt(block, count, i);
      ts[i] := Transfer(config.flags, config.length, None, None);
      dataPtr := dataPtr + CONFIG_SIZE;
      AnyFlagStep(cs, i, READ_FLAG);
      AnyFlagStep(cs, i, WRITE_FLAG);
      readTransfer := if config.flags == READ_FLAG then true else readTransfer;
      writeTransfer := if config.flags == WRITE_FLAG then true else writeTransfer;
      i := i + 1;
    }
    assert cs[..count] == cs;
  }

  /** The read loop: read regions one after the other from the start of the
      data block, and their lengths summed into a 16-bit length. */
  method LayOutReads(ts: array<Transfer>, ghost cs: seq<TransferConfig>) returns (dataPtr: nat, length: uint16)
    requires ts.Length == |cs|
    requires forall j :: 0 <= j < |cs| ==> ts[j] == Planned(cs, j, false, false, 0)
    modifies ts
    ensures forall j :: 0 <= j < |cs| ==> ts[j] == Planned(cs, j, true, false, 0)
    ensures dataPtr == Total(cs) && length == ReadLength(cs)
  {
    dataPtr, length := 0, 0;
    var i := 0;
    while i < ts.Length
      invariant i <= ts.Length && dataPtr == Total(cs[..i]) && length == Total(cs[..i]) % TWO_TO_16
      invariant forall j :: 0 <= j < i ==> ts[j] == Planned(cs, j, true, false, 0)
      invariant forall j :: i <= j < |cs| ==> ts[j] == Planned(cs, j, false, false, 0)
    {
      ts[i] := ts[i].(readData := Some(dataPtr));
      TotalStep(cs, i);
      ModAdd(Total(cs[..i]), ts[i].length);
      dataPtr := dataPtr + ts[i].length;
      length := (length + ts[i].length) % TWO_TO_16;
      i := i + 1;
    }
    assert cs[..i] == cs;
  }

  /** The write loop: write sources one after the other from `dataPtr`. */
  method LayOutWrites(ts: array<Transfer>, ghost cs: seq<TransferConfig>, ghost read: bool, dataPtr: nat)
    requires ts.Length == |cs|
    requires forall j :: 0 <= j < |cs| ==> ts[j] == Planned(cs, j, read, false, 0)
    modifies ts
    ensures forall j :: 0 <= j < |cs| ==> ts[j] == Planned(cs, j, read, true, dataPtr)
  {
    var ptr := dataPtr;
    var i := 0;
    while i < ts.Length
      invariant i <= ts.Length && ptr == dataPtr + Total(cs[..i])
      invariant forall j :: 0 <= j < i ==> ts[j] == Planned(cs, j, read, true, dataPtr)
      invariant forall j :: i <= j < |cs| ==> ts[j] == Planned(cs, j, read, false, 0)
    {
      ts[i] := ts[i].(writeData := Some(ptr));
      TotalStep(cs, i);
      ptr := ptr + ts[i].length;
      i := i + 1;
    }
  }

  /** `SPIMaster_TransferSequential`: decode `count` descriptors from the
      data block, lay out read regions from the start of the block and write
      sources after, call the driver, and report a length. Returns the
      transfers as handed to the driver, the new `data_block.length`, the
      length passed to `END_CMD` and the driver's outcome. */
  method TransferSequential(block: seq<uint8>, count: nat, respond: bool, nread: int,
                            blockLength: uint16, r: BlockRecord, spi: seq<Transfer> -> SpiOutcome)
    returns (transfers: seq<Transfer>, length: uint16, reported: int, outcome: SpiOutcome)
    requires CONFIG_SIZE * count <= |block|
    ensures |transfers| == count
    ensures var cs := Configs(block, count);
            forall i :: 0 <= i < count ==>
              transfers[i] == Planned(cs, i, AnyFlag(cs, READ_FLAG), AnyFlag(cs, WRITE_FLAG), WriteBase(cs))
    ensures var cs := Configs(block, count);
            length == if AnyFlag(cs, READ_FLAG) then ReadLength(cs) else blockLength
    ensures reported == ReplyLength(SpiMasterTransferSequential,
                                    Request(respond, nread, 0, blockLength, Configs(block, count)), r)
    ensures outcome == spi(transfers)
  {
    ghost var cs := Configs(block, count);
    var ts, readTransfer, writeTransfer, dataPtr := DecodeTransfers(block, count);
    length := blockLength;
    var n := nread;
    if readTransfer {
      dataPtr, length := LayOutReads(ts, cs);
      n := VariableBlockSize(r, length);
    }
    if writeTransfer {
      LayOutWrites(ts, cs, readTransfer, dataPtr);
      n := CoreBlockSize(r);
    }
    transfers := ts[..];
    outcome := spi(transfers);
    reported := IfAsked(respond, n);
  }

  /** In a read batch the regions tile the data block from offset 0: each
      starts where the one before it ends, and together they span the sum of
      the lengths. */
  lemma ReadRegionsTile(cs: seq<TransferConfig>, i: nat)
    requires i < |cs|
    ensures Planned(cs, 0, true, false, 0).readData == Some(0)
    ensures Planned(cs, i, true, false, 0).readData.value + cs[i].length
            == if i + 1 < |cs| then Planned(cs, i + 1, true, false, 0).readData.value else Total(cs)
  {
    assert cs[..0] == [];
    TotalStep(cs, i);
    assert cs[..|cs|] == cs;
  }

  /** In a batch that only writes, the write sources start just past the
      descriptors and follow one another. */
  lemma WriteSourcesFollowDescriptors(cs: seq<TransferConfig>)
    requires cs != [] && !AnyFlag(cs, READ_FLAG)
    ensures Planned(cs, 0, false, true, WriteBase(cs)).writeData == Some(CONFIG_SIZE * |cs|)
  {
    assert cs[..0] == [];
  }

  /** A read batch whose lengths fit in the data block reports the core
      block, the length field and every byte read, and stores that count
      as `data_block.length`. */
  lemma ReadBatchReply(q: Request, r: BlockRecord)
    requires q.respond && Addressable(r)
    requires AnyFlag(q.transfers, READ_FLAG) && !AnyFlag(q.transfers, WRITE_FLAG)
    requires Total(q.transfers) <= r.capacity
    ensures ReadLength(q.transfers) == Total(q.transfers)
    ensures ReplyLength(SpiMasterTransferSequential, q, r)
            == CoreBlockSize(r) + LENGTH_FIELD + Total(q.transfers)
    ensures ReplyLength(SpiMasterTransferSequential, q, r) <= SizeOf(r)
  {
  }

  /** A mixed batch runs both layouts; the write branch runs last, so the
      reply is the core block, as for a write batch. */
  lemma MixedBatchReply(q: Request, r: BlockRecord)
    requires q.respond
    requires AnyFlag(q.transfers, READ_FLAG) && AnyFlag(q.transfers, WRITE_FLAG)
    ensures ReplyLength(SpiMasterTransferSequential, q, r) == CoreBlockSize(r)
    ensures WriteBase(q.transfers) == Total(q.transfers)
  {
  }

  /** Two reads of 65535 and 1 bytes: the regions span 65536 bytes, but
      `data_block.length` wraps to 0 and the reply carries no data. */
  lemma ReadLengthWraps(r: BlockRecord)
    requires Addressable(r)
    ensures var cs := [TransferConfig(READ_FLAG, 0xFFFF), TransferConfig(READ_FLAG, 1)];
            Total(cs) == TWO_TO_16 && ReadLength(cs) == 0
            && SequentialLength(cs, r, 0) == CoreBlockSize(r) + LENGTH_FIELD
  {
    var cs := [TransferConfig(READ_FLAG, 0xFFFF), TransferConfig(READ_FLAG, 1)];
    assert cs[..1] == [cs[0]] && cs[..1][..0] == [];
    assert Total(cs[..1]) == 0xFFFF;
    assert cs[0].flags == READ_FLAG;
    assert !AnyFlag(cs, WRITE_FLAG);
  }
}
