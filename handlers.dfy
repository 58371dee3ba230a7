/** The `*_cmd` handlers of the echo server and the table that routes a
    received buffer to them. A handler looks at the first byte of the buffer,
    and if it is the tag it serves, reads the request through the packed record
    of its command, makes one hardware call and writes the call's result and
    `errno` back into the same buffer, which is then echoed to the client. */
module Handlers {
  import opened Bytes
  import opened Layout
  import opened Optional
  import opened Contract
  import opened Ledger

  /** Size of the static receive buffer of the read handler. */
  const BUFFER_SIZE: nat := 1024

  /** The commands that have a `*_cmd` handler. */
  predicate HasHandler(c: SocketCmd)
  {
    c in {GpioOpenAsOutput, GpioOpenAsInput, GpioSetValue, GpioGetValue,
          I2cMasterOpen, I2cMasterSetBusSpeed, I2cMasterSetTimeout, I2cMasterWrite,
          I2cMasterWriteThenRead, I2cMasterRead, I2cMasterSetDefaultTargetAddress,
          SpiMasterOpen, PwmOpen, PwmApply}
  }

  /** The handlers whose result is a new descriptor, registered in the ledger. */
  predicate OpensDescriptor(c: SocketCmd)
  {
    c in {GpioOpenAsOutput, GpioOpenAsInput, I2cMasterOpen, PwmOpen}
  }

  /** `cmd_functions`: the handlers tried, in this order. `I2CMaster_Read_cmd`
      is not in it. */
  const CmdFunctions: seq<SocketCmd> :=
    [GpioOpenAsOutput, GpioOpenAsInput, GpioSetValue, GpioGetValue,
     I2cMasterOpen, I2cMasterSetBusSpeed, I2cMasterSetTimeout, I2cMasterWrite,
     I2cMasterWriteThenRead, I2cMasterSetDefaultTargetAddress, SpiMasterOpen,
     PwmOpen, PwmApply]

  /** The value of `buf[0]` a handler accepts. The handler of
      `I2CMaster_SetDefaultTargetAddress` compares against `I2CMaster_Read_c`. */
  function AcceptedTag(c: SocketCmd): (t: uint8)
    ensures c != I2cMasterSetDefaultTargetAddress ==> t == Tag(c)
    ensures c == I2cMasterSetDefaultTargetAddress ==> t == Tag(I2cMasterRead)
  {
    if c == I2cMasterSetDefaultTargetAddress then Tag(I2cMasterRead) else Tag(c)
  }

  /** The records this server reads for `I2CMaster_Write` and
      `I2CMaster_WriteThenRead` carry a 32-byte `data` block after `err_no`,
      as `I2CMaster_Read_t` does. */
  function EchoTrailer(c: SocketCmd): seq<Field>
  {
    if c == I2cMasterWrite || c == I2cMasterWriteThenRead
    then [Field(Data, Bytes(DATA_CAPACITY))] else []
  }

  /** The record a handler casts the buffer to. */
  function EchoLayout(c: SocketCmd): seq<Field>
  {
    RecordLayout(c) + EchoTrailer(c)
  }

  /** Index of `returns` in the record; `err_no` follows it. */
  function ResultsIndex(c: SocketCmd): nat
  {
    2 + |Params(c)|
  }

  /** Byte offset of `returns`; `err_no` is 4 bytes further on. */
  function ResultsOffset(c: SocketCmd): nat
  {
    3 + Size(Params(c))
  }

  /** Byte offset of the `data` block of the three I2C records that have one. */
  function DataOffset(c: SocketCmd): nat
  {
    ResultsOffset(c) + 8
  }

  /** Byte offset of `outValue` in `GPIO_GetValue_t`. */
  const OUT_VALUE_OFFSET: nat := 7

  /** The records with a 32-byte `data` block after `err_no`. */
  predicate CarriesData(c: SocketCmd)
  {
    c == I2cMasterWrite || c == I2cMasterWriteThenRead || c == I2cMasterRead
  }

  /** The record lies inside the receive buffer, with `returns` and `err_no`
      where `ResultsOffset` says. */
  lemma {:induction false} EchoLayoutShape(c: SocketCmd)
    ensures var l, k := EchoLayout(c), ResultsIndex(c);
      && Size(l) <= BUFFER_SIZE
      && k + 2 <= |l|
      && l[k].kind == I32 && l[k + 1].kind == I32
      && Offset(l, k) == ResultsOffset(c)
      && Offset(l, k + 1) == ResultsOffset(c) + 4
      && ResultsOffset(c) + 8 <= Size(l)
  {
    ResultsAfterParams(c);
    RecordFitsBuffer(c);
    EchoTrailerSize(c);
    ExtendedPair(RecordLayout(c), EchoTrailer(c), ResultsIndex(c));
  }

  /** Two adjacent fields of a record keep their kinds and offsets when more
      fields are appended, and the second still ends inside the whole. */
  lemma {:induction false} ExtendedPair(r: seq<Field>, t: seq<Field>, k: nat)
    requires k + 2 <= |r|
    ensures Size(r + t) == Size(r) + Size(t)
    ensures (r + t)[k] == r[k] && (r + t)[k + 1] == r[k + 1]
    ensures Offset(r + t, k) == Offset(r, k) && Offset(r + t, k + 1) == Offset(r, k + 1)
    ensures Offset(r, k + 1) + Width(r[k + 1].kind) <= Size(r)
  {
    SizeAppend(r, t);
    OffsetPrefix(r, t, k);
    OffsetPrefix(r, t, k + 1);
    OffsetBound(r, k + 1);
  }

  lemma {:induction false} EchoTrailerSize(c: SocketCmd)
    ensures Size(EchoTrailer(c)) <= DATA_CAPACITY
  {
  }

  /** In the records that carry one, the data block is the last field and
      starts right after `err_no`. */
  lemma {:induction false} DataBlockShape(c: SocketCmd)
    requires CarriesData(c)
    ensures var l, k := EchoLayout(c), ResultsIndex(c);
      && |l| == k + 3
      && l[k + 2].kind == Bytes(DATA_CAPACITY)
      && Offset(l, k + 2) == DataOffset(c)
      && Size(l) == DataOffset(c) + DATA_CAPACITY
      && DataOffset(c) + DATA_CAPACITY <= BUFFER_SIZE
  {
    var l, k := EchoLayout(c), ResultsIndex(c);
    EchoLayoutShape(c);
    DataBlockLast(c);
    OffsetStep(l, k + 1);
    OffsetBound(l, k + 2);
    SizeAfterLast(l);
  }

  lemma {:induction false} DataBlockLast(c: SocketCmd)
    requires CarriesData(c)
    ensures var l, k := EchoLayout(c), ResultsIndex(c);
      |l| == k + 3 && l[k + 2] == Field(Data, Bytes(DATA_CAPACITY))
  {
    ResultsLast(c);
  }

  /** `outValue` is the fourth field of `GPIO_GetValue_t`, a single byte at offset 7. */
  lemma {:induction false} OutValueAt()
    ensures |EchoLayout(GpioGetValue)| > 3
    ensures EchoLayout(GpioGetValue)[3] == Field(OutValue, U8)
    ensures Offset(EchoLayout(GpioGetValue), 3) == OUT_VALUE_OFFSET
  {
    var p := Params(GpioGetValue);
    var l := EchoLayout(GpioGetValue);
    assert l == Header + (p + Results);
    OffsetAppend(Header, p + Results, 1);
    OffsetPrefix(p, Results, 1);
    OffsetStep(p, 0);
  }

  /** A call to the hardware: the operation and the arguments the handler passes. */
  datatype HwCall = HwCall(op: SocketCmd, args: seq<Value>)

  /** What a call produces: its return value, `errno` after it, and any value
      or bytes it writes through its output pointer. */
  datatype HwResult = HwResult(result: int32, errNo: int32, outValue: uint8, readData: seq<uint8>)

  /** The device, seen only through the results of its calls. */
  type Hardware = HwCall -> HwResult

  /** The request as the handler sees it through its record. */
  function Request(c: SocketCmd, bs: seq<uint8>): (fs: seq<Value>)
    requires |bs| == BUFFER_SIZE
    ensures Conforms(EchoLayout(c), fs)
  {
    EchoLayoutShape(c);
    DecodeConforms(EchoLayout(c), bs);
    DecodeFields(EchoLayout(c), bs)
  }

  /** The arguments passed to the hardware: the record's parameters, except
      that `GPIO_GetValue` passes only the descriptor, and the two I2C writes
      also pass the data block. */
  function Args(c: SocketCmd, fs: seq<Value>): (a: seq<Value>)
    requires |fs| == |EchoLayout(c)|
    ensures forall i :: 0 <= i < |a| && i < |Params(c)| ==> a[i] == fs[2 + i]
    ensures c == GpioGetValue ==> |a| == 1
    ensures c == I2cMasterWrite || c == I2cMasterWriteThenRead ==>
      |a| == |Params(c)| + 1 && a[|a| - 1] == fs[|fs| - 1] && EchoLayout(c)[|fs| - 1].name == Data
    ensures c != GpioGetValue && c != I2cMasterWrite && c != I2cMasterWriteThenRead ==> |a| == |Params(c)|
  {
    EchoLayoutShape(c);
    var params := fs[2..ResultsIndex(c)];
    assert |params| == |Params(c)|;
    assert forall i :: 0 <= i < |params| ==> params[i] == fs[2 + i];
    if c == GpioGetValue then params[..1]
    else if c == I2cMasterWrite || c == I2cMasterWriteThenRead then params + [fs[|fs| - 1]]
    else params
  }

  function Call(c: SocketCmd, bs: seq<uint8>): HwCall
    requires |bs| == BUFFER_SIZE
  {
    HwCall(c, Args(c, Request(c, bs)))
  }

  /** `lenReadData` of an `I2CMaster_WriteThenRead` request. */
  function LenReadData(fs: seq<Value>): nat
    requires |fs| == |EchoLayout(I2cMasterWriteThenRead)|
  {
    DataBlockShape(I2cMasterWriteThenRead);
    var v := fs[5];
    if v.U32V? then v.word else 0
  }

  /** `maxLength` of an `I2CMaster_Read` request. */
  function MaxLength(fs: seq<Value>): nat
    requires |fs| == |EchoLayout(I2cMasterRead)|
  {
    DataBlockShape(I2cMasterRead);
    var v := fs[4];
    if v.U32V? then v.word else 0
  }

  /** n zero bytes. */
  function Zeros(n: nat): (z: seq<uint8>)
    ensures |z| == n && forall i :: 0 <= i < n ==> z[i] == 0
  {
    seq(n, _ => 0)
  }

  /** The first n bytes of the device's output buffer; bytes it did not write
      are taken as zero. */
  function ReadBytes(r: HwResult, n: nat): (bs: seq<uint8>)
    ensures |bs| == n
    ensures forall i :: 0 <= i < n && i < |r.readData| ==> bs[i] == r.readData[i]
  {
    if n <= |r.readData| then r.readData[..n] else r.readData + Zeros(n - |r.readData|)
  }

  function Min(a: nat, b: nat): nat
  {
    if a <= b then a else b
  }

  /** The 32-byte data block after `I2CMaster_WriteThenRead`: the bytes read,
      up to the capacity, then zeros. */
  function ReadBlock(r: HwResult, n: nat): (block: seq<uint8>)
    ensures |block| == DATA_CAPACITY
    ensures forall i :: 0 <= i < DATA_CAPACITY ==>
      block[i] == if i < n then ReadBytes(r, Min(n, DATA_CAPACITY))[i] else 0
  {
    Splice(Zeros(DATA_CAPACITY), 0, ReadBytes(r, Min(n, DATA_CAPACITY)))
  }

  /** Where a handler writes the value its call read: only `GPIO_GetValue_cmd`
      has one, `outValue`. */
  function OutValueSlot(c: SocketCmd): Option<nat>
  {
    if c == GpioGetValue then Some(OUT_VALUE_OFFSET) else None
  }

  lemma {:induction false} OutValueSlotInside(c: SocketCmd)
    ensures OutValueSlot(c).Some? ==>
      && 3 < |EchoLayout(c)|
      && EchoLayout(c)[3].kind == U8
      && Offset(EchoLayout(c), 3) == OutValueSlot(c).value
      && OutValueSlot(c).value < Size(EchoLayout(c))
  {
    if c == GpioGetValue {
      OutValueAt();
      OffsetBound(EchoLayout(c), 3);
    }
  }

  /** `returns` written at off, then the value read at outAt if there is one,
      then `err_no` at off + 4. */
  function PutResults(bs: seq<uint8>, off: nat, outAt: Option<nat>, r: HwResult): (out: seq<uint8>)
    requires off + 8 <= |bs| && (outAt.Some? ==> outAt.value < |bs|)
    ensures |out| == |bs|
  {
    var s1 := Splice(bs, off, EncodeInt32(r.result));
    var s2 := if outAt.Some? then Splice(s1, outAt.value, [r.outValue]) else s1;
    Splice(s2, off + 4, EncodeInt32(r.errNo))
  }

  /** The buffer after the handler has written the call's result and `errno`
      (and, for `GPIO_GetValue`, the value read) into the record. */
  function ResultsWritten(c: SocketCmd, bs: seq<uint8>, r: HwResult): (out: seq<uint8>)
    requires |bs| == BUFFER_SIZE
    ensures |out| == BUFFER_SIZE
  {
    EchoLayoutShape(c);
    OutValueSlotInside(c);
    PutResults(bs, ResultsOffset(c), OutValueSlot(c), r)
  }

  /** The bytes a reading handler leaves in the data block: for
      `I2CMaster_WriteThenRead` the cleared block with the bytes read copied
      over its front, for `I2CMaster_Read` the bytes the device wrote. */
  function DataWritten(c: SocketCmd, request: seq<Value>, r: HwResult): (block: seq<uint8>)
    requires c == I2cMasterWriteThenRead || c == I2cMasterRead
    requires |request| == |EchoLayout(c)|
    ensures |block| <= DATA_CAPACITY
  {
    if c == I2cMasterWriteThenRead then ReadBlock(r, LenReadData(request))
    else ReadBytes(r, Min(MaxLength(request), DATA_CAPACITY))
  }

  /** The buffer after an accepting handler that got result r from the device. */
  function Answered(c: SocketCmd, bs: seq<uint8>, r: HwResult): (out: seq<uint8>)
    requires |bs| == BUFFER_SIZE
    ensures |out| == BUFFER_SIZE
  {
    var s := ResultsWritten(c, bs, r);
    if c == I2cMasterWriteThenRead || c == I2cMasterRead then
      DataBlockShape(c);
      Splice(s, DataOffset(c), DataWritten(c, Request(c, bs), r))
    else s
  }

  /** The buffer after an accepting handler. `SPIMaster_Open_cmd` does nothing
      but accept. */
  function Handled(c: SocketCmd, bs: seq<uint8>, hw: Hardware): (out: seq<uint8>)
    requires |bs| == BUFFER_SIZE
    ensures |out| == BUFFER_SIZE
  {
    if c == SpiMasterOpen then bs else Answered(c, bs, hw(Call(c, bs)))
  }

  /** `memcpy(buf + off, w, |w|)`. */
  method Store(buf: array<uint8>, off: nat, w: seq<uint8>)
    requires off + |w| <= buf.Length
    modifies buf
    ensures buf[..] == Splice(old(buf[..]), off, w)
  {
    var i := 0;
    while i < |w|
      invariant 0 <= i <= |w|
      invariant buf[..] == old(buf[..])[..off] + w[..i] + old(buf[..])[off + i..]
    {
      buf[off + i] := w[i];
      i := i + 1;
    }
  }

  method WriteResults(c: SocketCmd, buf: array<uint8>, r: HwResult)
    requires buf.Length == BUFFER_SIZE
    modifies buf
    ensures buf[..] == ResultsWritten(c, old(buf[..]), r)
  {
    EchoLayoutShape(c);
    var off := ResultsOffset(c);
    OutValueSlotInside(c);
    var outAt := OutValueSlot(c);
    Store(buf, off, EncodeInt32(r.result));
    if outAt.Some? {
      Store(buf, outAt.value, [r.outValue]);
    }
    Store(buf, off + 4, EncodeInt32(r.errNo));
  }

  method WriteData(c: SocketCmd, buf: array<uint8>, request: seq<Value>, r: HwResult)
    requires c == I2cMasterWriteThenRead || c == I2cMasterRead
    requires |request| == |EchoLayout(c)| && buf.Length == BUFFER_SIZE
    modifies buf
    ensures DataOffset(c) + DATA_CAPACITY <= BUFFER_SIZE
    ensures buf[..] == Splice(old(buf[..]), DataOffset(c), DataWritten(c, request, r))
  {
    DataBlockShape(c);
    EchoLayoutShape(c);
    var off := DataOffset(c);
    if c == I2cMasterWriteThenRead {
      var read := ReadBytes(r, Min(LenReadData(request), DATA_CAPACITY));
      ghost var before := buf[..];
      Store(buf, off, Zeros(DATA_CAPACITY));
      Store(buf, off, read);
      SpliceOver(before, off, Zeros(DATA_CAPACITY), read);
    } else {
      Store(buf, off, ReadBytes(r, Min(MaxLength(request), DATA_CAPACITY)));
    }
  }

  /** One `*_cmd` handler: false, touching nothing, unless `buf[0]` is its tag;
      otherwise the call is made, its results are written into the buffer, and
      an opened descriptor is recorded in the ledger. */
  method Handle(c: SocketCmd, buf: array<uint8>, hw: Hardware, ledger: FdLedger) returns (accepted: bool)
    requires HasHandler(c) && buf.Length == BUFFER_SIZE && ledger.Valid()
    modifies buf, ledger.slots
    ensures accepted == (old(buf[0]) == AcceptedTag(c))
    ensures buf[..] == if accepted then Handled(c, old(buf[..]), hw) else old(buf[..])
    ensures ledger.slots[..] ==
      if accepted && OpensDescriptor(c)
      then Added(old(ledger.slots[..]), hw(Call(c, old(buf[..]))).result)
      else old(ledger.slots[..])
  {
    if buf[0] != AcceptedTag(c) {
      return false;
    }
    accepted := true;
    if c == SpiMasterOpen {
      return;
    }
    var request := Request(c, buf[..]);
    var r := hw(Call(c, buf[..]));
    WriteResults(c, buf, r);
    if c == I2cMasterWriteThenRead || c == I2cMasterRead {
      WriteData(c, buf, request, r);
    }
    if OpensDescriptor(c) {
      ledger.Add(r.result);
    }
  }

  /** Writing a 32-bit integer over an `int` field replaces that field only. */
  lemma {:induction false} WriteInt32Field(l: seq<Field>, bs: seq<uint8>, i: nat, x: int32)
    requires Size(l) <= |bs| && i < |l| && l[i].kind == I32
    ensures Offset(l, i) + 4 <= |bs|
    ensures DecodeFields(l, Splice(bs, Offset(l, i), EncodeInt32(x))) == DecodeFields(l, bs)[i := I32V(x)]
  {
    WriteField(l, bs, i, I32V(x));
  }

  /** Read back through the record, the buffer after a handler has written its
      results holds the request with `returns` and `err_no` replaced by the
      call's result and `errno`; every other field is as the client sent it. */
  lemma {:induction false} ResultsReadBack(c: SocketCmd, bs: seq<uint8>, r: HwResult)
    requires |bs| == BUFFER_SIZE && c != GpioGetValue
    ensures ResultsIndex(c) + 1 < |Request(c, bs)|
    ensures var fs, k := Request(c, bs), ResultsIndex(c);
      Request(c, ResultsWritten(c, bs, r)) == fs[k := I32V(r.result)][k + 1 := I32V(r.errNo)]
  {
    var l, k := EchoLayout(c), ResultsIndex(c);
    EchoLayoutShape(c);
    WriteBothResults(l, bs, k, r.result, r.errNo);
  }

  /** `returns` and `err_no` written one after the other, as every handler does. */
  lemma {:induction false} WriteBothResults(l: seq<Field>, bs: seq<uint8>, k: nat, result: int32, errNo: int32)
    requires Size(l) <= |bs| && k + 1 < |l| && l[k].kind == I32 && l[k + 1].kind == I32
    requires Offset(l, k + 1) == Offset(l, k) + 4
    ensures Offset(l, k) + 8 <= |bs|
    ensures var s1 := Splice(bs, Offset(l, k), EncodeInt32(result));
      DecodeFields(l, Splice(s1, Offset(l, k) + 4, EncodeInt32(errNo)))
        == DecodeFields(l, bs)[k := I32V(result)][k + 1 := I32V(errNo)]
  {
    WriteInt32Field(l, bs, k, result);
    var s1 := Splice(bs, Offset(l, k), EncodeInt32(result));
    WriteInt32Field(l, s1, k + 1, errNo);
  }

  /** The same for `GPIO_GetValue`, which also writes the value read into `outValue`. */
  lemma {:induction false} GetValueReadBack(bs: seq<uint8>, r: HwResult)
    requires |bs| == BUFFER_SIZE
    ensures ResultsIndex(GpioGetValue) + 1 < |Request(GpioGetValue, bs)|
    ensures var fs, k := Request(GpioGetValue, bs), ResultsIndex(GpioGetValue);
      Request(GpioGetValue, ResultsWritten(GpioGetValue, bs, r))
        == fs[k := I32V(r.result)][3 := U8V(r.outValue)][k + 1 := I32V(r.errNo)]
  {
    var c := GpioGetValue;
    EchoLayoutShape(c);
    OutValueAt();
    WriteResultsAndByte(EchoLayout(c), bs, ResultsIndex(c), 3, r.result, r.outValue, r.errNo);
  }

  /** `returns`, then a one-byte field, then `err_no`, in the order
      `GPIO_GetValue_cmd` writes them. */
  lemma {:induction false} WriteResultsAndByte(l: seq<Field>, bs: seq<uint8>, k: nat, j: nat,
                                               result: int32, b: uint8, errNo: int32)
    requires Size(l) <= |bs| && k + 1 < |l| && l[k].kind == I32 && l[k + 1].kind == I32
    requires Offset(l, k + 1) == Offset(l, k) + 4
    requires j < |l| && l[j].kind == U8
    ensures Offset(l, k) + 8 <= |bs| && Offset(l, j) < |bs|
    ensures var s1 := Splice(bs, Offset(l, k), EncodeInt32(result));
      var s2 := Splice(s1, Offset(l, j), [b]);
      DecodeFields(l, Splice(s2, Offset(l, k) + 4, EncodeInt32(errNo)))
        == DecodeFields(l, bs)[k := I32V(result)][j := U8V(b)][k + 1 := I32V(errNo)]
  {
    WriteInt32Field(l, bs, k, result);
    var s1 := Splice(bs, Offset(l, k), EncodeInt32(result));
    WriteField(l, s1, j, U8V(b));
    var s2 := Splice(s1, Offset(l, j), [b]);
    WriteInt32Field(l, s2, k + 1, errNo);
  }

  /** After `I2CMaster_WriteThenRead_cmd`, the first `lenReadData` bytes of the
      data block (at most its 32) are the bytes read and the rest of the block is zero. */
  lemma {:induction false} WriteThenReadBlock(bs: seq<uint8>, hw: Hardware)
    requires |bs| == BUFFER_SIZE
    ensures var c := I2cMasterWriteThenRead;
      var r, n := hw(Call(c, bs)), LenReadData(Request(c, bs));
      forall i :: 0 <= i < DATA_CAPACITY ==>
        Handled(c, bs, hw)[WRITE_THEN_READ_DATA + i] == if i < n then ReadBytes(r, Min(n, DATA_CAPACITY))[i] else 0
  {
    var c := I2cMasterWriteThenRead;
    WriteThenReadSize();
    var r := hw(Call(c, bs));
    var s := ResultsWritten(c, bs, r);
    var block := DataWritten(c, Request(c, bs), r);
    assert Handled(c, bs, hw) == Splice(s, WRITE_THEN_READ_DATA, block);
    forall i | 0 <= i < DATA_CAPACITY
      ensures Handled(c, bs, hw)[WRITE_THEN_READ_DATA + i] == block[i]
    {
      SpliceAt(s, WRITE_THEN_READ_DATA, block, WRITE_THEN_READ_DATA + i);
    }
  }

  /** Read back through its record, the buffer an accepting handler leaves
      holds the request with `returns` and `err_no` replaced by the call's
      result and `errno`, `outValue` set for `GPIO_GetValue`, the data read
      copied over the front of `data` for the two reading I2C handlers, and
      every other field as the client sent it. */
  lemma {:induction false} HandledReadBack(c: SocketCmd, bs: seq<uint8>, hw: Hardware)
    requires |bs| == BUFFER_SIZE && c != SpiMasterOpen
    ensures ResultsIndex(c) + 1 < |Request(c, bs)|
    ensures c == I2cMasterWriteThenRead || c == I2cMasterRead ==>
      && ResultsIndex(c) + 2 < |Request(c, bs)|
      && Request(c, bs)[ResultsIndex(c) + 2].BytesV?
      && |Request(c, bs)[ResultsIndex(c) + 2].bytes| == DATA_CAPACITY
    ensures var fs, k, r := Request(c, bs), ResultsIndex(c), hw(Call(c, bs));
      Request(c, Handled(c, bs, hw)) ==
        if c == GpioGetValue then
          fs[k := I32V(r.result)][3 := U8V(r.outValue)][k + 1 := I32V(r.errNo)]
        else if c == I2cMasterWriteThenRead || c == I2cMasterRead then
          fs[k := I32V(r.result)][k + 1 := I32V(r.errNo)]
            [k + 2 := BytesV(Splice(fs[k + 2].bytes, 0, DataWritten(c, fs, r)))]
        else
          fs[k := I32V(r.result)][k + 1 := I32V(r.errNo)]
  {
    var r := hw(Call(c, bs));
    EchoLayoutShape(c);
    if c == GpioGetValue {
      GetValueReadBack(bs, r);
    } else if c == I2cMasterWriteThenRead || c == I2cMasterRead {
      DataReadBack(c, bs, r);
    } else {
      ResultsReadBack(c, bs, r);
    }
  }

  /** The data-carrying case of `HandledReadBack`. */
  lemma {:induction false} DataReadBack(c: SocketCmd, bs: seq<uint8>, r: HwResult)
    requires |bs| == BUFFER_SIZE && (c == I2cMasterWriteThenRead || c == I2cMasterRead)
    ensures ResultsIndex(c) + 2 < |Request(c, bs)|
    ensures Request(c, bs)[ResultsIndex(c) + 2].BytesV?
    ensures |Request(c, bs)[ResultsIndex(c) + 2].bytes| == DATA_CAPACITY
    ensures var fs, k := Request(c, bs), ResultsIndex(c);
      Request(c, Answered(c, bs, r)) ==
        fs[k := I32V(r.result)][k + 1 := I32V(r.errNo)]
          [k + 2 := BytesV(Splice(fs[k + 2].bytes, 0, DataWritten(c, fs, r)))]
  {
    var l, k := EchoLayout(c), ResultsIndex(c);
    var fs := Request(c, bs);
    EchoLayoutShape(c);
    ResultsReadBack(c, bs, r);
    DataBlockShape(c);
    var s := ResultsWritten(c, bs, r);
    var block := DataWritten(c, fs, r);
    assert Answered(c, bs, r) == Splice(s, Offset(l, k + 2), block);
    WriteBytesFront(l, s, k + 2, block);
    assert Request(c, s)[k + 2] == fs[k + 2];
  }

  /** A handler changes nothing beyond the end of its record. */
  lemma {:induction false} HandledOutside(c: SocketCmd, bs: seq<uint8>, hw: Hardware)
    requires |bs| == BUFFER_SIZE
    ensures Size(EchoLayout(c)) <= BUFFER_SIZE
    ensures Handled(c, bs, hw)[Size(EchoLayout(c))..] == bs[Size(EchoLayout(c))..]
  {
    EchoLayoutShape(c);
    if c != SpiMasterOpen {
      var r := hw(Call(c, bs));
      ResultsWrittenOutside(c, bs, r);
      var s := ResultsWritten(c, bs, r);
      if c == I2cMasterWriteThenRead || c == I2cMasterRead {
        DataBlockShape(c);
        SpliceOutside(s, DataOffset(c), DataWritten(c, Request(c, bs), r), Size(EchoLayout(c)), BUFFER_SIZE);
      }
    }
  }

  lemma {:induction false} ResultsWrittenOutside(c: SocketCmd, bs: seq<uint8>, r: HwResult)
    requires |bs| == BUFFER_SIZE
    ensures Size(EchoLayout(c)) <= BUFFER_SIZE
    ensures ResultsWritten(c, bs, r)[Size(EchoLayout(c))..] == bs[Size(EchoLayout(c))..]
  {
    EchoLayoutShape(c);
    OutValueSlotInside(c);
    PutResultsOutside(bs, ResultsOffset(c), OutValueSlot(c), r, Size(EchoLayout(c)));
  }

  lemma {:induction false} PutResultsOutside(bs: seq<uint8>, off: nat, outAt: Option<nat>, r: HwResult, end: nat)
    requires off + 8 <= end <= |bs| && (outAt.Some? ==> outAt.value < end)
    ensures PutResults(bs, off, outAt, r)[end..] == bs[end..]
  {
    var s1 := Splice(bs, off, EncodeInt32(r.result));
    SpliceOutside(bs, off, EncodeInt32(r.result), end, |bs|);
    var s2 := if outAt.Some? then Splice(s1, outAt.value, [r.outValue]) else s1;
    if outAt.Some? {
      SpliceOutside(s1, outAt.value, [r.outValue], end, |bs|);
    }
    SpliceOutside(s2, off + 4, EncodeInt32(r.errNo), end, |bs|);
  }

  /** The position of the first handler in table that accepts tag t. */
  function FirstAccepting(table: seq<SocketCmd>, t: uint8): (r: Option<nat>)
    ensures r.Some? ==> r.value < |table| && AcceptedTag(table[r.value]) == t
    ensures r.Some? ==> forall m :: 0 <= m < r.value ==> AcceptedTag(table[m]) != t
    ensures r.None? ==> forall m :: 0 <= m < |table| ==> AcceptedTag(table[m]) != t
  {
    if table == [] then None
    else if AcceptedTag(table[0]) == t then Some(0)
    else match FirstAccepting(table[1..], t)
      case None => None
      case Some(j) => Some(j + 1)
  }

  /** The handler `process_command` ends up running for a buffer whose first
      byte is t, if any. */
  function Route(t: uint8): (r: Option<SocketCmd>)
    ensures r.Some? ==> r.value in CmdFunctions && AcceptedTag(r.value) == t
    ensures r.None? ==> forall c :: c in CmdFunctions ==> AcceptedTag(c) != t
  {
    match FirstAccepting(CmdFunctions, t)
    case None => None
    case Some(j) => Some(CmdFunctions[j])
  }

  /** The buffer after `process_command` has run the handlers on it. */
  function Processed(bs: seq<uint8>, hw: Hardware): (out: seq<uint8>)
    requires |bs| == BUFFER_SIZE
    ensures |out| == BUFFER_SIZE
  {
    match Route(bs[0])
    case None => bs
    case Some(c) => Handled(c, bs, hw)
  }

  /** The ledger after `process_command`: an opening handler that ran
      registers its call's result. */
  function LedgerAfter(slots: seq<int>, bs: seq<uint8>, hw: Hardware): (r: seq<int>)
    requires |bs| == BUFFER_SIZE
    ensures |r| == |slots|
  {
    match Route(bs[0])
    case Some(c) =>
      if OpensDescriptor(c) then Added(slots, hw(Call(c, bs)).result) else slots
    case None => slots
  }

  lemma {:induction false} FirstAcceptingIs(table: seq<SocketCmd>, t: uint8, j: nat)
    requires j < |table| && AcceptedTag(table[j]) == t
    requires forall m :: 0 <= m < j ==> AcceptedTag(table[m]) != t
    ensures FirstAccepting(table, t) == Some(j)
  {
  }

  /** The first handler in table order that accepts t is the one that runs. */
  lemma {:induction false} RouteAt(t: uint8, j: nat)
    requires j < |CmdFunctions| && AcceptedTag(CmdFunctions[j]) == t
    requires forall m :: 0 <= m < j ==> AcceptedTag(CmdFunctions[m]) != t
    ensures Route(t) == Some(CmdFunctions[j])
  {
    FirstAcceptingIs(CmdFunctions, t, j);
  }

  /** When no handler accepts t, none runs. */
  lemma {:induction false} RouteNone(t: uint8)
    requires forall m :: 0 <= m < |CmdFunctions| ==> AcceptedTag(CmdFunctions[m]) != t
    ensures Route(t) == None
  {
  }

  /** What `process_command` does once the handler it runs is known. */
  lemma {:induction false} ProcessedBy(bs: seq<uint8>, hw: Hardware, slots: seq<int>, c: SocketCmd)
    requires |bs| == BUFFER_SIZE && Route(bs[0]) == Some(c)
    ensures Processed(bs, hw) == Handled(c, bs, hw)
    ensures LedgerAfter(slots, bs, hw) ==
      if OpensDescriptor(c) then Added(slots, hw(Call(c, bs)).result) else slots
  {
  }

  /** When no handler accepts the first byte, `process_command` leaves the
      buffer and the ledger as they were. */
  lemma {:induction false} ProcessedNone(bs: seq<uint8>, hw: Hardware, slots: seq<int>)
    requires |bs| == BUFFER_SIZE && Route(bs[0]) == None
    ensures Processed(bs, hw) == bs
    ensures LedgerAfter(slots, bs, hw) == slots
  {
  }

  /** The handler loop of `process_command`: handlers are tried in table order
      until one accepts; only that one's effects happen, and if none accepts the
      buffer and the ledger are left as they were. */
  method Dispatch(buf: array<uint8>, hw: Hardware, ledger: FdLedger) returns (found: bool)
    requires buf.Length == BUFFER_SIZE && ledger.Valid()
    modifies buf, ledger.slots
    ensures found == Route(old(buf[0])).Some?
    ensures buf[..] == Processed(old(buf[..]), hw)
    ensures ledger.slots[..] == LedgerAfter(old(ledger.slots[..]), old(buf[..]), hw)
  {
    ghost var bs, slots := buf[..], ledger.slots[..];
    var t := buf[0];
    found := false;
    var i := 0;
    while i < |CmdFunctions| && !found
      invariant 0 <= i <= |CmdFunctions|
      invariant !found ==> buf[..] == bs && ledger.slots[..] == slots
      invariant !found ==> forall m :: 0 <= m < i ==> AcceptedTag(CmdFunctions[m]) != t
      invariant found ==> Route(t).Some?
      invariant found ==> buf[..] == Processed(bs, hw)
      invariant found ==> ledger.slots[..] == LedgerAfter(slots, bs, hw)
      decreases |CmdFunctions| - i
    {
      var c := CmdFunctions[i];
      found := Handle(c, buf, hw, ledger);
      if found {
        RouteAt(t, i);
        ProcessedBy(bs, hw, slots, c);
      }
      i := i + 1;
    }
    if !found {
      RouteNone(t);
    }
  }

  /** Every handler in the table is reached by the tag it accepts. */
  lemma {:induction false} RouteReachesHandler(j: nat)
    requires j < |CmdFunctions|
    ensures Route(AcceptedTag(CmdFunctions[j])) == Some(CmdFunctions[j])
  {
    var t := AcceptedTag(CmdFunctions[j]);
    forall m | 0 <= m < j ensures AcceptedTag(CmdFunctions[m]) != t {
      if AcceptedTag(CmdFunctions[m]) == t {
        AcceptedTagsDistinct(m, j);
      }
    }
    FirstAcceptingIs(CmdFunctions, t, j);
  }

  /** A buffer tagged `I2CMaster_Read_c` reaches the handler of
      `I2CMaster_SetDefaultTargetAddress`, and one tagged
      `I2CMaster_SetDefaultTargetAddress_c` reaches no handler. */
  lemma {:induction false} RouteReadQuirk(t: uint8)
    ensures t == Tag(I2cMasterRead) ==> Route(t) == Some(I2cMasterSetDefaultTargetAddress)
    ensures t == Tag(I2cMasterSetDefaultTargetAddress) ==> Route(t) == None
  {
    if t == Tag(I2cMasterRead) {
      RouteReachesHandler(9);
      assert CmdFunctions[9] == I2cMasterSetDefaultTargetAddress;
    } else if t == Tag(I2cMasterSetDefaultTargetAddress) {
      RouteMisses(t);
    }
  }

  /** Tags 10, 12 to 18 and 21 on (the SPI, ADC and unknown commands) reach no
      handler. */
  lemma {:induction false} RouteMisses(t: uint8)
    requires t == 10 || 12 <= t <= 18 || t >= 21
    ensures Route(t) == None
  {
    if Route(t).Some? {
      var j :| 0 <= j < |CmdFunctions| && CmdFunctions[j] == Route(t).value;
      TableTags(j);
    }
  }

  /** The tag each table entry accepts: its own position for the first ten,
      then 11, 19 and 20. */
  lemma {:induction false} TableTags(j: nat)
    requires j < |CmdFunctions|
    ensures AcceptedTag(CmdFunctions[j]) == if j <= 9 then j else if j == 10 then 11 else if j == 11 then 19 else 20
  {
  }

  /** No two handlers in the table accept the same tag, so at most one of them
      can accept a given buffer. */
  lemma {:induction false} AcceptedTagsDistinct(i: nat, j: nat)
    requires i < |CmdFunctions| && j < |CmdFunctions|
    requires AcceptedTag(CmdFunctions[i]) == AcceptedTag(CmdFunctions[j])
    ensures i == j
  {
    TableTags(i);
    TableTags(j);
  }

  /** `I2CMaster_WriteThenRead_cmd` as written: the block is cleared and then
      `lenReadData` bytes are copied into it, however many that is. Defined
      while the copy stays inside the receive buffer. */
  function WriteThenReadAsWritten(bs: seq<uint8>, hw: Hardware): (out: seq<uint8>)
    requires |bs| == BUFFER_SIZE
    requires DataOffset(I2cMasterWriteThenRead) + LenReadData(Request(I2cMasterWriteThenRead, bs)) <= BUFFER_SIZE
    ensures |out| == BUFFER_SIZE
  {
    var c := I2cMasterWriteThenRead;
    DataBlockShape(c);
    EchoLayoutShape(c);
    var r := hw(Call(c, bs));
    var cleared := Splice(ResultsWritten(c, bs, r), DataOffset(c), Zeros(DATA_CAPACITY));
    Splice(cleared, DataOffset(c), ReadBytes(r, LenReadData(Request(c, bs))))
  }

  /** The `I2CMaster_WriteThenRead` record this server reads is 56 bytes long:
      13 parameter bytes after the header, then the results and the data block. */
  const WRITE_THEN_READ_SIZE: nat := 56
  /** Its data block starts at byte 24. */
  const WRITE_THEN_READ_DATA: nat := 24

  lemma {:induction false} WriteThenReadSize()
    ensures DataOffset(I2cMasterWriteThenRead) == WRITE_THEN_READ_DATA
    ensures Size(EchoLayout(I2cMasterWriteThenRead)) == WRITE_THEN_READ_SIZE
  {
    var p := Params(I2cMasterWriteThenRead);
    assert p == I2cMasterWriteThenReadParams;
    assert Size(p) == 13 by { SizeOfShort(p); }
    DataBlockShape(I2cMasterWriteThenRead);
  }

  /** With `lenReadData` = 33 the copy as written overwrites the byte just past
      the record, which the handler with the copy held to the block's 32 bytes
      leaves alone. */
  lemma {:induction false} WriteThenReadOverrun(bs: seq<uint8>, hw: Hardware)
    requires |bs| == BUFFER_SIZE
    requires LenReadData(Request(I2cMasterWriteThenRead, bs)) == DATA_CAPACITY + 1
    requires var r := hw(Call(I2cMasterWriteThenRead, bs));
      |r.readData| > DATA_CAPACITY && r.readData[DATA_CAPACITY] != bs[WRITE_THEN_READ_SIZE]
    ensures DataOffset(I2cMasterWriteThenRead) + LenReadData(Request(I2cMasterWriteThenRead, bs)) <= BUFFER_SIZE
    ensures WriteThenReadAsWritten(bs, hw)[WRITE_THEN_READ_SIZE] != bs[WRITE_THEN_READ_SIZE]
    ensures Handled(I2cMasterWriteThenRead, bs, hw)[WRITE_THEN_READ_SIZE] == bs[WRITE_THEN_READ_SIZE]
  {
    var c := I2cMasterWriteThenRead;
    WriteThenReadSize();
    var end := WRITE_THEN_READ_SIZE;
    var r := hw(Call(c, bs));
    var cleared := Splice(ResultsWritten(c, bs, r), WRITE_THEN_READ_DATA, Zeros(DATA_CAPACITY));
    SpliceAt(cleared, WRITE_THEN_READ_DATA, ReadBytes(r, DATA_CAPACITY + 1), end);
    HandledOutside(c, bs, hw);
    assert Handled(c, bs, hw)[end..][0] == bs[end..][0];
  }
}
