/** The wire contract shared with the client: the one-byte command tag and the
    packed request/response records. A record is sent to the device with its
    inputs filled in and comes back in the same layout with `returns` and
    `err_no` (and any out-fields) written by the device. */
module Contract {
  import opened Bytes
  import opened Layout
  import opened Optional

  /** The command tags, in declaration order. The enumeration is declared
      packed, so a tag takes one byte on the wire. */
  datatype SocketCmd =
    | GpioOpenAsOutput
    | GpioOpenAsInput
    | GpioSetValue
    | GpioGetValue
    | I2cMasterOpen
    | I2cMasterSetBusSpeed
    | I2cMasterSetTimeout
    | I2cMasterWrite
    | I2cMasterWriteThenRead
    | I2cMasterRead
    | I2cMasterSetDefaultTargetAddress
    | SpiMasterOpen
    | SpiMasterInitConfig
    | SpiMasterSetBusSpeed
    | SpiMasterSetMode
    | SpiMasterSetBitOrder
    | SpiMasterWriteThenRead
    | SpiMasterInitTransfers
    | SpiMasterTransferSequential
    | PwmOpen
    | PwmApply
    | AdcOpen
    | AdcGetSampleBitCount
    | AdcSetReferenceVoltage
    | AdcPoll

  const COMMAND_COUNT: nat := 25

  /** The numeric value of a tag: its position in the declaration. */
  function Tag(c: SocketCmd): (t: uint8)
    ensures t < COMMAND_COUNT
  {
    match c
    case GpioOpenAsOutput => 0
    case GpioOpenAsInput => 1
    case GpioSetValue => 2
    case GpioGetValue => 3
    case I2cMasterOpen => 4
    case I2cMasterSetBusSpeed => 5
    case I2cMasterSetTimeout => 6
    case I2cMasterWrite => 7
    case I2cMasterWriteThenRead => 8
    case I2cMasterRead => 9
    case I2cMasterSetDefaultTargetAddress => 10
    case SpiMasterOpen => 11
    case SpiMasterInitConfig => 12
    case SpiMasterSetBusSpeed => 13
    case SpiMasterSetMode => 14
    case SpiMasterSetBitOrder => 15
    case SpiMasterWriteThenRead => 16
    case SpiMasterInitTransfers => 17
    case SpiMasterTransferSequential => 18
    case PwmOpen => 19
    case PwmApply => 20
    case AdcOpen => 21
    case AdcGetSampleBitCount => 22
    case AdcSetReferenceVoltage => 23
    case AdcPoll => 24
  }

  /** The command a tag byte names; bytes from 25 on name none. */
  function CommandOfTag(t: uint8): (r: Option<SocketCmd>)
    ensures r.Some? <==> t < COMMAND_COUNT
    ensures r.Some? ==> Tag(r.value) == t
  {
    match t
    case 0 => Some(GpioOpenAsOutput)
    case 1 => Some(GpioOpenAsInput)
    case 2 => Some(GpioSetValue)
    case 3 => Some(GpioGetValue)
    case 4 => Some(I2cMasterOpen)
    case 5 => Some(I2cMasterSetBusSpeed)
    case 6 => Some(I2cMasterSetTimeout)
    case 7 => Some(I2cMasterWrite)
    case 8 => Some(I2cMasterWriteThenRead)
    case 9 => Some(I2cMasterRead)
    case 10 => Some(I2cMasterSetDefaultTargetAddress)
    case 11 => Some(SpiMasterOpen)
    case 12 => Some(SpiMasterInitConfig)
    case 13 => Some(SpiMasterSetBusSpeed)
    case 14 => Some(SpiMasterSetMode)
    case 15 => Some(SpiMasterSetBitOrder)
    case 16 => Some(SpiMasterWriteThenRead)
    case 17 => Some(SpiMasterInitTransfers)
    case 18 => Some(SpiMasterTransferSequential)
    case 19 => Some(PwmOpen)
    case 20 => Some(PwmApply)
    case 21 => Some(AdcOpen)
    case 22 => Some(AdcGetSampleBitCount)
    case 23 => Some(AdcSetReferenceVoltage)
    case 24 => Some(AdcPoll)
    case _ => None
  }

  /** Every command has its own tag, and reading the tag back gives the command. */
  lemma TagRoundTrip(c: SocketCmd)
    ensures CommandOfTag(Tag(c)) == Some(c)
  {
  }

  /** Every record opens with its total length and its tag, */
  const Header: seq<Field> := [Field(BlockLength, U16), Field(Cmd, U8)]
  /** and carries the call's result and `errno` after its parameters. */
  const Results: seq<Field> := [Field(Returns, I32), Field(ErrNo, I32)]

  /** The fields between the header and the results: the call's parameters
      and out-values, in declaration order. */
  /** The parameter layouts, indexed by tag. */
  const PARAMS: seq<seq<Field>> := [
    GpioOpenAsOutputParams,
    GpioOpenAsInputParams,
    GpioSetValueParams,
    GpioGetValueParams,
    I2cMasterOpenParams,
    I2cMasterSetBusSpeedParams,
    I2cMasterSetTimeoutParams,
    I2cMasterWriteParams,
    I2cMasterWriteThenReadParams,
    I2cMasterReadParams,
    I2cMasterSetDefaultTargetAddressParams,
    SpiMasterOpenParams,
    SpiMasterInitConfigParams,
    SpiMasterSetBusSpeedParams,
    SpiMasterSetModeParams,
    SpiMasterSetBitOrderParams,
    SpiMasterWriteThenReadParams,
    SpiMasterInitTransfersParams,
    SpiMasterTransferSequentialParams,
    PwmOpenParams,
    PwmApplyParams,
    AdcOpenParams,
    AdcGetSampleBitCountParams,
    AdcSetReferenceVoltageParams,
    AdcPollParams]

  function Params(c: SocketCmd): seq<Field>
  {
    PARAMS[Tag(c)]
  }

  /** `GPIO_OpenAsOutput_t` */
  const GpioOpenAsOutputParams: seq<Field> := [Field(GpioId, I32), Field(OutputMode, U8), Field(InitialValue, U8)]
  /** `GPIO_OpenAsInput_t` */
  const GpioOpenAsInputParams: seq<Field> := [Field(GpioId, I32)]
  /** `GPIO_SetValue_t` */
  const GpioSetValueParams: seq<Field> := [Field(GpioFd, I32), Field(GpioValue, U8)]
  /** `GPIO_GetValue_t` */
  const GpioGetValueParams: seq<Field> := [Field(GpioFd, I32), Field(OutValue, U8)]
  /** `I2CMaster_Open_t` */
  const I2cMasterOpenParams: seq<Field> := [Field(I2cInterfaceId, I32)]
  /** `I2CMaster_SetBusSpeed_t` */
  const I2cMasterSetBusSpeedParams: seq<Field> := [Field(Fd, I32), Field(SpeedInHz, U32)]
  /** `I2CMaster_SetTimeout_t` */
  const I2cMasterSetTimeoutParams: seq<Field> := [Field(Fd, I32), Field(TimeoutInMs, U32)]
  /** `I2CMaster_Write_t` */
  const I2cMasterWriteParams: seq<Field> := [Field(Fd, I32), Field(Address, U8), Field(Length, U32)]
  /** `I2CMaster_WriteThenRead_t` */
  const I2cMasterWriteThenReadParams: seq<Field> := [Field(Fd, I32), Field(Address, U8), Field(LenWriteData, U32), Field(LenReadData, U32)]
  /** `I2CMaster_Read_t` */
  const I2cMasterReadParams: seq<Field> := [Field(Fd, I32), Field(Address, U8), Field(MaxLength, U32)]
  /** `I2CMaster_SetDefaultTargetAddress_t` */
  const I2cMasterSetDefaultTargetAddressParams: seq<Field> := [Field(Fd, I32), Field(Address, U8)]
  /** `SPIMaster_Open_t` */
  const SpiMasterOpenParams: seq<Field> := [Field(InterfaceId, I32), Field(ChipSelectId, I32), Field(CsPolarity, U8), Field(MagicAndVersion, U32)]
  /** `SPIMaster_InitConfig_t` */
  const SpiMasterInitConfigParams: seq<Field> := [Field(CsPolarity, U8), Field(MagicAndVersion, U32)]
  /** `SPIMaster_SetBusSpeed_t` */
  const SpiMasterSetBusSpeedParams: seq<Field> := [Field(Fd, I32), Field(SpeedInHz, U32)]
  /** `SPIMaster_SetMode_t` */
  const SpiMasterSetModeParams: seq<Field> := [Field(Fd, I32), Field(Mode, U32)]
  /** `SPIMaster_SetBitOrder_t` */
  const SpiMasterSetBitOrderParams: seq<Field> := [Field(Fd, I32), Field(Order, U32)]
  /** `SPIMaster_WriteThenRead_t` */
  const SpiMasterWriteThenReadParams: seq<Field> := [Field(Fd, I32), Field(Data, Bytes(32)), Field(LenWriteData, U32), Field(LenReadData, U32), Field(Order, U32)]
  /** `SPIMaster_InitTransfers_t` */
  const SpiMasterInitTransfersParams: seq<Field> := [Field(TransferCount, U32), Field(MagicAndVersion, U32)]
  /** `SPIMaster_TransferSequential_t` */
  const SpiMasterTransferSequentialParams: seq<Field> := [Field(Fd, I32), Field(TransferCount, U32), Field(MagicAndVersion, U32), Field(Flags, U8), Field(Length, U32)]
  /** `PWM_Open_t` */
  const PwmOpenParams: seq<Field> := [Field(Pwm, U32)]
  /** `PWM_Apply_t` */
  const PwmApplyParams: seq<Field> := [Field(PwmFd, I32), Field(PwmChannel, U32), Field(PeriodNsec, U32), Field(DutyCycleNsec, U32), Field(Polarity, U32), Field(Enabled, Bool)]
  /** `ADC_Open_t` */
  const AdcOpenParams: seq<Field> := [Field(Id, U32)]
  /** `ADC_GetSampleBitCount_t` */
  const AdcGetSampleBitCountParams: seq<Field> := [Field(Fd, I32), Field(Channel, U32)]
  /** `ADC_SetReferenceVoltage_t` */
  const AdcSetReferenceVoltageParams: seq<Field> := [Field(Fd, I32), Field(Channel, U32), Field(ReferenceVoltage, Bytes(4))]
  /** `ADC_Poll_t` */
  const AdcPollParams: seq<Field> := [Field(Fd, I32), Field(Channel, U32), Field(OutSampleValue, U32)]

  /** Fields after the results: only `I2CMaster_Read_t` has one, its data block. */
  function Trailer(c: SocketCmd): seq<Field>
  {
    if c == I2cMasterRead then [Field(Data, Bytes(DATA_CAPACITY))] else []
  }

  const DATA_CAPACITY: nat := 32

  /** The packed record of each command. */
  function RecordLayout(c: SocketCmd): seq<Field>
  {
    (Header + Params(c)) + (Results + Trailer(c))
  }

  /** `sizeof` of a packed record: the sum of its field widths. */
  function RecordSize(c: SocketCmd): nat
  {
    Size(RecordLayout(c))
  }

  /** No record has more than six parameters, and none is wider than a data block. */
  lemma ParamsShape(c: SocketCmd)
    ensures |Params(c)| <= 6
    ensures forall i :: 0 <= i < |Params(c)| ==> Width(Params(c)[i].kind) <= DATA_CAPACITY
  {
  }

  /** The header takes the first three bytes and the results the next eight
      after the parameters. */
  lemma {:induction false} RecordSizeSplit(c: SocketCmd)
    ensures RecordSize(c) == 3 + Size(Params(c)) + 8 + Size(Trailer(c))
  {
    SizeAppend(Header + Params(c), Results + Trailer(c));
    SizeAppend(Results, Trailer(c));
    SizeAppend(Header, Params(c));
  }

  /** Every record fits in the 1024-byte receive buffer. */
  lemma {:induction false} RecordFitsBuffer(c: SocketCmd)
    ensures RecordSize(c) <= 3 + 6 * DATA_CAPACITY + 8 + DATA_CAPACITY < 1024
  {
    RecordSizeSplit(c);
    ParamsShape(c);
    SizeAtMost(Params(c), DATA_CAPACITY);
  }

  /** `sizeof(GPIO_OpenAsOutput_t)` */
  lemma SizeOfGpioOpenAsOutput()
    ensures RecordSize(GpioOpenAsOutput) == 17
  {
    var p, t := Params(GpioOpenAsOutput), Trailer(GpioOpenAsOutput);
    assert p == GpioOpenAsOutputParams;
    assert Size(p) == 6 by { SizeOfShort(p); }
    assert Size(t) == 0;
    RecordSizeSplit(GpioOpenAsOutput);
  }

  /** `sizeof(I2CMaster_Read_t)` */
  lemma SizeOfI2cMasterRead()
    ensures RecordSize(I2cMasterRead) == 52
  {
    var p, t := Params(I2cMasterRead), Trailer(I2cMasterRead);
    assert p == I2cMasterReadParams;
    assert Size(p) == 9 by { SizeOfShort(p); }
    assert Size(t) == 32 by { SizeOfShort(t); }
    RecordSizeSplit(I2cMasterRead);
  }

  /** Offset of the tag byte within every record. */
  const TAG_OFFSET: nat := 2

  /** Every record opens with `block_length` and then the tag, so the tag is
      the byte at offset 2. */
  lemma {:induction false} HeaderAtFront(c: SocketCmd)
    ensures |RecordLayout(c)| >= 4
    ensures RecordLayout(c)[0] == Field(BlockLength, U16)
    ensures RecordLayout(c)[1] == Field(Cmd, U8)
    ensures Offset(RecordLayout(c), 1) == TAG_OFFSET
  {
    var l := RecordLayout(c);
    assert l[1..][0] == l[1];
  }

  /** `returns` and `err_no` follow the parameters, 3 + (parameter bytes) into
      the record. */
  lemma {:induction false} ResultsAfterParams(c: SocketCmd)
    ensures var l, k := RecordLayout(c), 2 + |Params(c)|;
      && k + 2 <= |l|
      && l[k] == Field(Returns, I32)
      && l[k + 1] == Field(ErrNo, I32)
      && Offset(l, k) == 3 + Size(Params(c))
      && Offset(l, k + 1) == 3 + Size(Params(c)) + 4
  {
    SizeAppend(Header, Params(c));
    PairAfter(Header + Params(c), Results + Trailer(c));
  }

  /** They are the record's last fields, except in `I2CMaster_Read_t`, whose
      32-byte data block comes after them. */
  lemma {:induction false} ResultsLast(c: SocketCmd)
    ensures var l, k := RecordLayout(c), 2 + |Params(c)|;
      && (c != I2cMasterRead ==> |l| == k + 2)
      && (c == I2cMasterRead ==> |l| == k + 3 && l[k + 2] == Field(Data, Bytes(DATA_CAPACITY)))
  {
  }

  /** The two records that carry a data array give it 32 bytes and carry its
      logical length in a separate field. */
  lemma DataBlocks()
    ensures Trailer(I2cMasterRead) == [Field(Data, Bytes(DATA_CAPACITY))]
    ensures Params(I2cMasterRead)[2] == Field(MaxLength, U32)
    ensures Params(SpiMasterWriteThenRead)[1] == Field(Data, Bytes(DATA_CAPACITY))
    ensures Params(SpiMasterWriteThenRead)[2] == Field(LenWriteData, U32)
    ensures Params(SpiMasterWriteThenRead)[3] == Field(LenReadData, U32)
  {
  }

  /** A record of a given command: one value per field of its layout. */
  datatype Record = Record(cmd: SocketCmd, fields: seq<Value>)

  /** The values fit the command's layout and the `cmd` field holds its tag. */
  predicate WellFormed(r: Record)
  {
    && Conforms(RecordLayout(r.cmd), r.fields)
    && |r.fields| >= 2
    && r.fields[1] == U8V(Tag(r.cmd))
  }

  /** The bytes sent for a record. */
  function Encode(r: Record): (bs: seq<uint8>)
    requires WellFormed(r)
    ensures |bs| == RecordSize(r.cmd)
    ensures bs[TAG_OFFSET] == Tag(r.cmd)
  {
    var l := RecordLayout(r.cmd);
    EncodedSize(l, r.fields);
    HeaderAtFront(r.cmd);
    EncodedByteAt(l, r.fields, 1, Tag(r.cmd));
    EncodeFields(r.fields)
  }

  /** Reads a record: the tag at offset 2 picks the layout, which is then read
      from the front of the bytes. Too few bytes, or a tag byte of 25 or more,
      give no record. */
  function Decode(bs: seq<uint8>): (r: Option<Record>)
    ensures r.None? <==>
      || |bs| <= TAG_OFFSET
      || CommandOfTag(bs[TAG_OFFSET]).None?
      || |bs| < RecordSize(CommandOfTag(bs[TAG_OFFSET]).value)
    ensures r.Some? ==> WellFormed(r.value) && Tag(r.value.cmd) == bs[TAG_OFFSET]
  {
    if |bs| <= TAG_OFFSET then None
    else match CommandOfTag(bs[TAG_OFFSET])
      case None => None
      case Some(c) =>
        if |bs| < RecordSize(c) then None
        else
          var fields := DecodeFields(RecordLayout(c), bs);
          HeaderAtFront(c);
          DecodeConforms(RecordLayout(c), bs);
          DecodedFieldAt(RecordLayout(c), bs, 1);
          assert bs[TAG_OFFSET..TAG_OFFSET + 1] == [bs[TAG_OFFSET]];
          Some(Record(c, fields))
  }

  /** Decoding the bytes of a record gives the record back, whatever follows it. */
  lemma {:induction false} DecodeEncode(r: Record, rest: seq<uint8>)
    requires WellFormed(r)
    ensures Decode(Encode(r) + rest) == Some(r)
  {
    var bs := Encode(r) + rest;
    assert bs[TAG_OFFSET] == Tag(r.cmd);
    TagRoundTrip(r.cmd);
    DecodeEncodeFields(RecordLayout(r.cmd), r.fields, rest);
  }

  /** Decoding looks only at the record's own bytes. */
  lemma {:induction false} DecodeIgnoresTrailing(bs: seq<uint8>, rest: seq<uint8>)
    requires Decode(bs).Some?
    ensures Decode(bs + rest) == Decode(bs)
  {
    var c := Decode(bs).value.cmd;
    var l := RecordLayout(c);
    assert (bs + rest)[TAG_OFFSET] == bs[TAG_OFFSET];
    assert (bs + rest)[..Size(l)] == bs[..Size(l)];
    DecodeLocal(l, bs, bs + rest);
  }

  /** Every record but `PWM_Apply_t` is read back byte for byte; its `enabled`
      byte is the only field that decoding normalises. */
  lemma {:induction false} EncodeDecode(bs: seq<uint8>)
    requires Decode(bs).Some? && Decode(bs).value.cmd != PwmApply
    ensures Encode(Decode(bs).value) == bs[..RecordSize(Decode(bs).value.cmd)]
  {
    var c := Decode(bs).value.cmd;
    NoBoolOutsidePwmApply(c);
    EncodeDecodeFields(RecordLayout(c), bs);
  }

  /** `PWM_Apply_t`'s `enabled` is the only `bool` on the wire. */
  lemma {:induction false} NoBoolOutsidePwmApply(c: SocketCmd)
    requires c != PwmApply
    ensures NoBool(RecordLayout(c))
  {
    ParamsNoBool(c);
    assert NoBool(Header) && NoBool(Results + Trailer(c));
    NoBoolAppend(Header, Params(c));
    NoBoolAppend(Header + Params(c), Results + Trailer(c));
  }

  lemma ParamsNoBool(c: SocketCmd)
    requires c != PwmApply
    ensures NoBool(Params(c))
  {
  }
}
