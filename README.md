# AzureSphereRemoteX.Server — command engine model

This project models the command-processing engine of the AzureSphereRemoteX
server. The server is a TCP service on an Azure Sphere device. It lets a remote
client drive the device's GPIO, I2C, SPI, PWM and ADC peripherals through packed
binary command records. The model covers five parts:

- **Wire contract** (`contract.h`, modules `Contract`, `Layout`, `Bytes`):
  - the one-byte `SOCKET_CMD` tag enumeration;
  - the packed request/response record of every command, as field layouts;
  - byte offsets and record sizes;
  - encoding and decoding at those offsets, with round trips both ways.
- **Descriptor ledger** (module `Ledger`). `echo_tcp_server.c:33-58` and
  `peripherals.c:3-33` hold the same three functions, cited once below:
  - the 128-slot `int` array, with `-1` marking a free slot;
  - initialise, add and close as methods over an `array<int>`, each proved
    against a specification on sequences.
- **Echo-server handlers and dispatcher** (`echo_tcp_server.c`, module `Handlers`):
  - each `*_cmd` handler checks `buf[0]`, calls the hardware and writes
    `returns`/`err_no` (and any data read) back into the receive buffer;
  - the `cmd_functions` table and the `process_command` loop, routing quirks
    included.
- **Connection bookkeeping** (`echo_tcp_server.c`, module `Server`):
  - single-client admission;
  - teardown on a failed read, which drains the ledger;
  - the resumable partial-send loop.

  The server is a class whose fields follow `EchoServer_ServerState`.
- **Reply sizing of the `peripherals.c` revision** (modules `BlockSize`, `Peripherals`):
  - the `CORE_BLOCK_SIZE`/`VARIABLE_BLOCK_SIZE` formulas of `peripherals.h`;
  - the reply length each handler passes to `END_CMD`, including the
    `header.respond` suppression;
  - the descriptor decoding and region layout of `SPIMaster_TransferSequential`.

Hardware and socket calls are not executed. Each appears as a parameter: a total
function from the call to its outcome (`Handlers.Hardware`,
`Peripherals.TransferSequential`'s `spi`), or the outcome itself (`accept4`'s
descriptor, the `read` result, a `Server.Sender` for `send`). The target is a
32-bit little-endian ARM core: `int` and `unsigned int` are 4 bytes, and `bool`
and `unsigned char` are 1 byte.

The source mixes revisions of the same design. The model keeps each file as it
is written, with one exception: the unbounded `I2CMaster_WriteThenRead` copy is
corrected (see "## Findings"). The revision mismatches are:

- `echo_tcp_server.c` reads the tag at `buf[0]`, while every record of
  `contract.h` puts `block_length` first and the tag at byte 2. Handlers test
  `buf[0]`; `Contract.Decode` reads the tag at byte 2.
- `echo_tcp_server.c` uses a `data` field in `I2CMaster_Write_t` and
  `I2CMaster_WriteThenRead_t`, which `contract.h` does not declare. The model
  places a 32-byte `data` block after `err_no`, as in `I2CMaster_Read_t`
  (`Handlers.EchoLayout`).
- `peripherals.c` uses `header` and `data_block` fields that `contract.h` lacks.
  It also calls a two-argument `END_CMD`, whose second argument is the reported
  length, while `peripherals.h` defines a no-argument one. The record shapes of
  that revision therefore enter as a parameter (`BlockSize.BlockRecord`: fixed
  fields, then a 16-bit length and the data bytes). The two-argument form is in
  `Peripherals.ReplyLength`, the one-argument form in `Peripherals.EndCmd`.

The protocol as designed also has a contract-version gate, a length-prefixed
frame reader and `respond`-based suppression in the dispatcher. The code shown
has none of these: `HandleClientReadEvent` does one `read` of up to 1024 bytes,
and `process_command` always echoes `nread` bytes. The model follows the code.

## Model

| member | source | states |
|---|---|---|
| Bytes.DecodeEncodeLE | contract.h:40-49 | reading back the n little-endian bytes of any u below 256^n gives u |
| Bytes.EncodeDecodeLE | contract.h:40-49 | re-encoding the value of any byte string gives the same bytes |
| Bytes.AsSigned32 | peripherals.c:108-110 | the C `(int)` cast of a 32-bit unsigned value keeps its bit pattern |
| Bytes.Int32RoundTrip | contract.h:47-48 | every `int` field (`returns`, `err_no`, descriptors) survives encoding and decoding |
| Layout.Width | contract.h:40-49 | every scalar field takes at least one byte (int/unsigned 4, uint16 2, bool/char 1) |
| Layout.OffsetBound | contract.h:40-306 | each field of a packed record lies inside the record |
| Layout.OffsetStep | contract.h:40-306 | each field starts where the previous one ends: no padding |
| Layout.SizeAppend | contract.h:40-306 | the size of two field runs laid end to end is the sum of their sizes |
| Layout.OffsetsDisjoint | contract.h:40-306 | distinct fields occupy disjoint byte ranges |
| Layout.ValueRoundTrip | contract.h:40-306 | a value that fits its field kind decodes back from its bytes |
| Layout.EncodedFieldAt | contract.h:40-306 | the bytes of field i of an encoded record are the encoding of value i, at Offset(i) |
| Layout.DecodeEncodeFields | contract.h:40-306 | decoding an encoded record gives back every field value, whatever bytes follow |
| Layout.EncodeDecodeFields | contract.h:40-306 | without `bool` fields, re-encoding a decoded record gives back its bytes exactly |
| Layout.SizeAfterLast | contract.h:40-306 | the last field ends exactly where the record ends |
| Layout.WriteFieldAt | echo_tcp_server.c:225-226 | after writing value v into field i in place, field i decodes to v and every other field decodes as before |
| Layout.WriteField | echo_tcp_server.c:225-226 | writing one field's bytes in place changes that field's decoded value and no other |
| Contract.Tag | contract.h:7-38 | tags are numbered from 0 in declaration order and are below 25 |
| Contract.CommandOfTag | contract.h:7-38 | a byte names a command exactly when it is below 25, and then that command's tag is the byte |
| Contract.TagRoundTrip | contract.h:7-38 | every command has its own tag, which names it back: 25 distinct values |
| Contract.ParamsShape | contract.h:40-306 | no record has more than six parameters, none wider than 32 bytes |
| Contract.RecordSizeSplit | contract.h:40-306 | record size = 3 header bytes + parameters + 8 result bytes + trailing data |
| Contract.RecordFitsBuffer | contract.h:40-306 | every record fits in the 1024-byte receive buffer |
| Contract.SizeOfGpioOpenAsOutput | contract.h:40-49 | `sizeof(GPIO_OpenAsOutput_t)` is 17 |
| Contract.SizeOfI2cMasterRead | contract.h:132-142 | `sizeof(I2CMaster_Read_t)` is 52 |
| Contract.HeaderAtFront | contract.h:42-43 | every record opens with `uint16_t block_length` then the one-byte tag at offset 2 |
| Contract.ResultsAfterParams | contract.h:47-48 | `returns` and `err_no` are adjacent 4-byte ints right after the parameters |
| Contract.ResultsLast | contract.h:138-141 | the results end every record except `I2CMaster_Read_t`, where `data[32]` follows them |
| Contract.DataBlocks | contract.h:275-277 | data arrays hold 32 bytes and their length lives in a separate field (`maxLength`, `lenWriteData`, `lenReadData`) |
| Contract.Encode | contract.h:40-306 | a record encodes to exactly `sizeof` bytes, with its tag at offset 2 |
| Contract.Decode | contract.h:40-306 | decoding fails exactly when the buffer is too short for the tag or names no command or is shorter than the named record; otherwise it yields a well-formed record of that tag |
| Contract.DecodeEncode | contract.h:40-306 | decoding the bytes of any well-formed record, followed by anything, gives the record back |
| Contract.DecodeIgnoresTrailing | contract.h:40-306 | decoding looks only at the record's own bytes |
| Contract.EncodeDecode | contract.h:40-306 | for every command but `PWM_Apply`, encoding a decoded record reproduces its bytes |
| Contract.NoBoolOutsidePwmApply | contract.h:163-175 | `enabled` of `PWM_Apply_t` is the only `bool` on the wire |
| Ledger.FirstFreeFrom | echo_tcp_server.c:40-48 | the slot found is free and every slot before it is taken; none found means none is free |
| Ledger.Added | echo_tcp_server.c:40-48 | `ledger_add_file_descriptor` on values: the table keeps its size; with its partner lemmas `AddFillsLowestFree`, `AddUnchanged` and `AddKeepsPacked`, the descriptor goes into the lowest free slot and nothing else changes |
| Ledger.Occupied | echo_tcp_server.c:50-58 | the descriptors to close: no `-1`, and each other value as often as in the table |
| Ledger.AddFillsLowestFree | echo_tcp_server.c:40-48 | a descriptor lands in the lowest free slot and no other slot changes |
| Ledger.AddUnchanged | echo_tcp_server.c:40-48 | with no free slot, or for a failed open (`fd == -1`), the table is unchanged |
| Ledger.AddKeepsPacked | echo_tcp_server.c:40-48 | adding keeps the occupied slots a prefix of the table |
| Ledger.AddedAllFromFree | echo_tcp_server.c:33-48 | after initialise, up to 128 valid descriptors fill slots 0, 1, … in order |
| Ledger.CloseAfterAdds | echo_tcp_server.c:33-58 | closing a table filled from a fresh one closes exactly the registered descriptors, in order |
| Ledger.FdLedger.constructor | echo_tcp_server.c:20 | the global array starts zero-filled, with nothing closed |
| Ledger.FdLedger.Initialize | echo_tcp_server.c:33-38 | every one of the 128 slots becomes `-1` |
| Ledger.FdLedger.Add | echo_tcp_server.c:40-48 | the table becomes `Added(old, fd)`: fd in the lowest free slot, if any |
| Ledger.FdLedger.Close | echo_tcp_server.c:50-58 | every slot becomes `-1`, and `close` is called once per occupied slot, in slot order, and for nothing else |
| Handlers.AcceptedTag | echo_tcp_server.c:388-392 | each handler accepts its own tag, except `I2CMaster_SetDefaultTargetAddress_cmd`, which tests `I2CMaster_Read_c` |
| Handlers.EchoLayoutShape | echo_tcp_server.c:224-227 | the record a handler casts to fits the buffer, with `returns` and `err_no` adjacent ints at the results offset |
| Handlers.DataBlockShape | echo_tcp_server.c:358-366 | in the I2C records with data, the 32-byte block starts right after `err_no` and fits the buffer |
| Handlers.OutValueAt | echo_tcp_server.c:267-283 | `outValue` of `GPIO_GetValue_t` is the one-byte field at offset 7 |
| Handlers.Request | echo_tcp_server.c:224 | reading the buffer through the record yields one value per field, each fitting its kind |
| Handlers.ReadBytes | echo_tcp_server.c:360-362 | the first n bytes of what the device read, as many as requested |
| Handlers.ReadBlock | echo_tcp_server.c:365-366 | the data block after `I2CMaster_WriteThenRead`: the bytes read up to 32, then zeros |
| Handlers.DataWritten | echo_tcp_server.c:372-386 | the bytes a reading handler leaves in the data block never exceed its 32 bytes |
| Handlers.Args | echo_tcp_server.c:225-467 | the device gets the record's parameters in order; `GPIO_GetValue` passes only the descriptor, since `outValue` is an output; the two I2C writes also pass the `data` block, the record's last field |
| Handlers.ResultsWritten | echo_tcp_server.c:225-226 | the buffer after `data->returns = …; data->err_no = errno;` keeps its size; `ResultsReadBack` and `GetValueReadBack` give its contents |
| Handlers.Answered | echo_tcp_server.c:216-472 | the buffer after a handler that got result r keeps its size; `HandledReadBack` gives its contents |
| Handlers.Handled | echo_tcp_server.c:216-472 | an accepting handler leaves a buffer of the same size; `HandledReadBack` gives what it holds |
| Handlers.HandledReadBack | echo_tcp_server.c:216-472 | read back through its record, the buffer an accepting handler leaves holds `returns` = the call's result, `err_no` = its `errno`, `outValue` for `GPIO_GetValue`, the data read over the front of `data` for the reading I2C handlers, and every other field as sent |
| Handlers.DataReadBack | echo_tcp_server.c:351-386 | for `I2CMaster_WriteThenRead` and `I2CMaster_Read`: the results and the front of `data` are replaced and every other field is as sent |
| Handlers.Store | echo_tcp_server.c:365-366 | `memcpy` into the buffer replaces exactly the target byte range |
| Handlers.WriteResults | echo_tcp_server.c:225-226 | the buffer becomes the one with the call's result and `errno` written into the record |
| Handlers.WriteData | echo_tcp_server.c:365-366 | the data block of the record is replaced by what the reading handler leaves there |
| Handlers.Handle | echo_tcp_server.c:216-472 | a handler accepts iff `buf[0]` is its tag; if not, buffer and ledger are untouched; if so, the buffer is `Handled` and an opening handler registers `returns` in the ledger |
| Handlers.ResultsReadBack | echo_tcp_server.c:225-226 | read back through the record, the handled buffer holds the call's `returns` and `err_no` and every other field unchanged |
| Handlers.GetValueReadBack | echo_tcp_server.c:267-283 | the same for `GPIO_GetValue`, whose `outValue` also holds the value read |
| Handlers.WriteThenReadBlock | echo_tcp_server.c:360-366 | after `I2CMaster_WriteThenRead_cmd`, the first `lenReadData` bytes of `data` are the bytes read and the rest of the block is zero |
| Handlers.HandledOutside | echo_tcp_server.c:216-472 | a handler changes nothing beyond the end of its record |
| Handlers.FirstAccepting | echo_tcp_server.c:493-496 | the position found accepts t and no earlier entry does; none found means no entry accepts t |
| Handlers.Route | echo_tcp_server.c:474-496 | the handler that runs is in the table and accepts the tag; none runs only if no table entry accepts it |
| Handlers.RouteAt | echo_tcp_server.c:493-496 | the first table entry, in order, that accepts the tag is the one that runs |
| Handlers.RouteNone | echo_tcp_server.c:493-496 | when no table entry accepts the tag, no handler runs |
| Handlers.Processed | echo_tcp_server.c:489-496 | the buffer after the handler loop has the same size |
| Handlers.LedgerAfter | echo_tcp_server.c:489-496 | the ledger after the handler loop has the same size |
| Handlers.ProcessedNone | echo_tcp_server.c:493-498 | when no handler accepts the first byte, buffer and ledger are left as they were |
| Handlers.ProcessedBy | echo_tcp_server.c:493-496 | once the routed handler is known, the loop's effect on buffer and ledger is that handler's alone |
| Handlers.Dispatch | echo_tcp_server.c:491-496 | the loop stops at the first accepting handler in table order; at most one handler's effects occur, and with no match the buffer is unchanged |
| Handlers.RouteReachesHandler | echo_tcp_server.c:474-487 | every table entry is reached by the tag it accepts |
| Handlers.RouteReadQuirk | echo_tcp_server.c:388-392 | tag `I2CMaster_Read_c` reaches `I2CMaster_SetDefaultTargetAddress_cmd`, and that command's own tag reaches no handler |
| Handlers.RouteMisses | echo_tcp_server.c:474-487 | the tags of commands without a table entry (`I2CMaster_Read_cmd` among them), and unknown tags, reach no handler |
| Handlers.TableTags | echo_tcp_server.c:474-487 | the tag each of the 13 table entries accepts |
| Handlers.AcceptedTagsDistinct | echo_tcp_server.c:474-487 | no two table entries accept the same tag |
| Handlers.WriteThenReadAsWritten | echo_tcp_server.c:365-366 | the handler as written: the block is cleared, then `lenReadData` bytes are copied over it whatever their number |
| Handlers.WriteThenReadSize | contract.h:120-130 | the `I2CMaster_WriteThenRead` record the server reads is 56 bytes, with its data at byte 24 |
| Handlers.WriteThenReadOverrun | echo_tcp_server.c:365-366 | with `lenReadData` = 33 the copy as written overwrites the byte after the record; the corrected handler does not |
| Server.SendRun | echo_tcp_server.c:556-591 | the send loop only moves the offset forward; it finishes exactly when the offset reaches the payload size |
| Server.SendRunStep | echo_tcp_server.c:558-583 | a positive result advances by that count; a negative result with EAGAIN stops at the current offset; 0 or another error stops with Error |
| Server.SendRunBounded | echo_tcp_server.c:556-566 | when `send` reports at most the remaining count, `txBytesSent` never exceeds `txPayloadSize` and equals it on completion |
| Server.SendRunResumes | echo_tcp_server.c:556-584 | a run blocked on EAGAIN at offset p and resumed at the next write event from p ends exactly where one uninterrupted run ends, whose `send` answered as the first event below p and as the second from p on |
| Server.Received | echo_tcp_server.c:511-516 | the receive buffer after `memset` and `read`: 1024 bytes starting with the bytes read |
| Server.EchoServer.CloseFdAndPrintError | echo_tcp_server.c:117-127 | only a non-negative descriptor is closed |
| Server.EchoServer.LaunchRead | echo_tcp_server.c:194-199 | `inLineSize` becomes 0 and the client waits for input |
| Server.EchoServer.StopServer | echo_tcp_server.c:651-666 | each socket still registered stops listening (the other keeps its events) and the reason is recorded |
| Server.EchoServer.HandleListenEvent | echo_tcp_server.c:147-192 | a failed accept changes nothing; with a client already connected the new socket is closed and `clientFd` is kept; otherwise the socket becomes the client and reading starts, or is closed if registration fails |
| Server.EchoServer.SendLoop | echo_tcp_server.c:556-584 | the loop's new offset and ending are `SendRun` from the old offset; bytes delivered are the payload prefix up to the offset |
| Server.EchoServer.HandleClientWriteEvent | echo_tcp_server.c:551-592 | completion relaunches reading (`inLineSize` = 0); EAGAIN waits for output at the same offset; any other result stops the server with Error |
| Server.EchoServer.LaunchWrite | echo_tcp_server.c:533-540 | the payload is the `inLineSize` bytes of `input`, sent from offset 0 |
| Server.EchoServer.ProcessCommand | echo_tcp_server.c:489-507 | the buffer and ledger become `Processed`/`LedgerAfter`, exactly `nread` bytes are copied to `input` and queued, and the send runs from 0 |
| Server.EchoServer.DropClient | echo_tcp_server.c:518-526 | a failed read closes `clientFd`, sets it to -1 and drains the ledger |
| Server.EchoServer.ServeCommand | echo_tcp_server.c:527-530 | a successful read dispatches the bytes read and echoes exactly that many bytes of the processed buffer |
| Server.EchoServer.HandleClientReadEvent | echo_tcp_server.c:509-531 | a read of 0 or -1 tears the client down and dispatches nothing; a positive read dispatches and echoes exactly those bytes |
| BlockSize.SizeOf | peripherals.h:32-33 | `sizeof` of a record of that revision: fixed fields + 2-byte length + data capacity |
| BlockSize.CoreBlockSize | peripherals.h:32 | `sizeof - sizeof(data_block)`: the offset where the data block starts, which is the size of the fixed fields |
| BlockSize.VariableBlockSize | peripherals.h:33 | for n within the capacity: the offset of the data bytes plus n, never above `sizeof`, and `LENGTH_FIELD + n` above the core size |
| BlockSize.VariableBlockSizeStep | peripherals.h:33 | one more byte of data makes the reply exactly one byte longer |
| BlockSize.EmptyVariableBlock | peripherals.h:32-33 | `VARIABLE_BLOCK_SIZE(name, 0) - CORE_BLOCK_SIZE(name)` is `sizeof(data_block) - sizeof(data)`, the 2-byte length field |
| BlockSize.VariableBlockSizeWraps | peripherals.h:33 | past 2^31 the `(int)` cast turns the size negative, and at 2^32 it wraps to 0 |
| Peripherals.ReplyLength | peripherals.c:35-312 | the length each handler passes to `END_CMD`: -1 for a suppressible handler when `respond` is false; `nread` for every handler that neither honours `respond` nor returns data; the partner lemmas below give the rest |
| Peripherals.SequentialLength | peripherals.c:280-307 | the length `SPIMaster_TransferSequential` reports: at least the core block when some transfer is flagged, and never negative for a well-sized record |
| Peripherals.RespondHonoured | peripherals.c:53-312 | `GPIO_SetValue`, `I2CMaster_Write`, `PWM_Apply` and `SPIMaster_TransferSequential` report -1 when `respond` is false and a non-negative length when it is true |
| Peripherals.RespondIgnored | peripherals.c:35-249 | every other handler reports the same length whatever `respond` says, and the request length unless it returns data |
| Peripherals.WriteReplyIsCore | peripherals.c:93-101 | `I2CMaster_Write` replies with the fixed fields only, whatever the data length and request length |
| Peripherals.DataReplyBounds | peripherals.c:103-123 | `I2CMaster_WriteThenRead`, `I2CMaster_Read` and `SPIMaster_WriteThenRead` reply with the fixed fields, the length field and exactly `lenReadData` (or `data_block.length`) bytes, within `sizeof` |
| Peripherals.SpiReadLength | peripherals.c:240 | `(uint16_t)lenReadData`: unchanged below 2^16, else reduced modulo 2^16 |
| Peripherals.SpiWriteThenReadAgrees | peripherals.c:232-249 | within the capacity, the reply is the core block, the length field and `data_block.length` bytes |
| Peripherals.SpiWriteThenReadWraps | peripherals.c:240-247 | at `lenReadData` = 2^16 the stored length wraps to 0 while the reply still counts 2^16 bytes |
| Peripherals.EndCmd | peripherals.h:23-26 | `END_CMD` stores `errno` into `header.err_no`, keeps the rest of the header, and returns 0 |
| Peripherals.ConfigFrom | peripherals.c:262-265 | a descriptor's flags are the byte at its position |
| Peripherals.Configs | peripherals.c:258-273 | one descriptor per transfer, read from consecutive 5-byte records at the start of the data block |
| Peripherals.ConfigsRoundTrip | peripherals.c:258-273 | decoding the descriptors of a block that starts with their encoding gives them back |
| Peripherals.DecodeTransfers | peripherals.c:253-273 | transfer i takes flags and length from descriptor i with both pointers null; `read_transfer`/`write_transfer` hold iff some descriptor's flags equal Read/Write |
| Peripherals.LayOutReads | peripherals.c:280-290 | read destinations start at data offset 0 and each follows the previous one; `data_block.length` is the sum modulo 2^16 |
| Peripherals.LayOutWrites | peripherals.c:297-303 | write sources follow one another from the current `data_ptr` |
| Peripherals.TransferSequential | peripherals.c:251-312 | the transfers handed to the driver, the new `data_block.length` and the reported length are those of the decoded batch: reads laid out from 0, writes after the reads or after the descriptors, the write branch last |
| Peripherals.ReadRegionsTile | peripherals.c:284-290 | read regions tile the block from 0: each starts where the previous ends, and the last ends at the total |
| Peripherals.WriteSourcesFollowDescriptors | peripherals.c:297-303 | in a write-only batch the first write source is just past the descriptor records |
| Peripherals.ReadBatchReply | peripherals.c:280-295 | a read batch within the capacity stores its total as `data_block.length` and replies with the core block, length field and every byte read, within `sizeof` |
| Peripherals.MixedBatchReply | peripherals.c:275-307 | a mixed batch runs both branches; the write branch runs last, so the reply is the core block and writes start past the read regions |
| Peripherals.ReadLengthWraps | peripherals.c:289 | reads of 65535 and 1 bytes span 2^16 bytes, yet `data_block.length` wraps to 0 and the reply carries no data |

## Findings

| source | as written | input that shows it | evidently intended | confidence | as-written member | corrected member |
|---|---|---|---|---|---|---|
| echo_tcp_server.c:365-366 | `memcpy(data->data, read_data, data->lenReadData)` copies `lenReadData` bytes into the 32-byte `data` block with no bound | an `I2CMaster_WriteThenRead` request with `lenReadData` = 33: the byte after the record (buffer offset 56) is overwritten by the 33rd byte read | copy at most the block's 32 bytes | not executed | Handlers.WriteThenReadOverrun | Handlers.WriteThenReadBlock |

`Handlers.WriteThenReadAsWritten` is the handler as written. `Handlers.Handled`
copies at most 32 bytes (`Handlers.ReadBlock`), and the rest of the model uses it.
`Handlers.HandledOutside` proves that the corrected handler changes nothing past
the end of its record.

## Left out

- Socket creation, bind, listen, `setsockopt`, `EchoServer_Start` and
  `EchoServer_ShutDown` (echo_tcp_server.c:60-145, 594-644) are OS plumbing. Only
  their outcomes enter the model: the accepted descriptor, the `read` result, the
  `send` results.
- Event-loop registration and `EventLoop_ModifyIoEvents` become the fields
  `listenEvents`/`clientEvents` and the registration flags.
- `HandleClientEvent` (echo_tcp_server.c:201-214) only routes a readiness event
  to the read or write handler. Those two are modelled as separate methods.
- Hardware and platform calls (`GPIO_*`, `I2CMaster_*`, `SPIMaster_*`, `PWM_*`,
  `ADC_*`, `close`, `errno`) are foreign. Each is a function parameter returning
  the result and `errno`. `close` is recorded as a list of closed descriptors.
  Logging calls are omitted.
- `main.c` and `main.h` (startup, network set-up, status LED, restart on close)
  are process lifecycle, not protocol logic. `echo_tcp_server.h`, which declares
  `EchoServer_ServerState`, is not part of this model. The 1024-byte size of
  `input` is assumed.
- `referenceVoltage` of `ADC_SetReferenceVoltage_t` is a `float`. It is carried
  as 4 opaque bytes.
- The handler bodies of `peripherals.c` write `returns`, `err_no`, `outValue`,
  `csPolarity` and the magic into records whose layout (`header`, `data_block`)
  is not part of the source. Only their reply lengths and the
  `SPIMaster_TransferSequential` decoding are modelled. The same buffer writes
  and ledger registrations are modelled for the `echo_tcp_server.c` revision.
- `SPI_TransferConfig` is not part of the source. The model takes it as the
  packed pair (`unsigned char flags`, `uint32_t length`), 5 bytes, the two fields
  `SPIMaster_TransferSequential_t` carries at contract.h:303-304. The flag values
  Read = 1 and Write = 2 are the platform's.
- `SPIMaster_InitTransfers` (peripherals.c:256) is a platform call. Each transfer
  starts from a null-pointer placeholder.
- Peripherals.TransferSequential: requires the `transferCount` descriptor
  records to lie inside the given bytes. The C code reads past the buffer
  otherwise, which is undefined behaviour. Pointers are offsets into the data
  block, unbounded, so pointer wrap-around is not modelled.
- Peripherals.ReplyLength: the `sizeof` of each record of that revision is a
  parameter (`BlockSize.BlockRecord`). `SPIMaster_InitTransfers` has no handler
  in `peripherals.c`. The sign and range facts assume records far smaller than
  2 GiB (`BlockSize.Addressable`).
- Handlers.DataWritten: for `I2CMaster_Read` the device writes at most 32 bytes
  into `data` in the model. The C handler passes `maxLength` unchecked. That
  handler is unreachable: it is not in `cmd_functions`, and its tag routes to
  `I2CMaster_SetDefaultTargetAddress_cmd`.
- Server.EchoServer.HandleClientWriteEvent: the bound `txBytesSent <=
  txPayloadSize` is proved only for a `send` that never reports more than the
  remaining count (`Server.SendBounded`), which the C code also relies on.
