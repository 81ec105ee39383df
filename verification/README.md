# toolbox: the protocol core in Dafny

`toolbox` is an AmigaOS command-line client for a SCSI emulator's vendor
"toolbox" command set. It can list the emulated devices, list the files or
CD images on the emulator, select a CD image, or fetch one named file block
by block. This project models the protocol logic inside its `main`:

- **command encoder** (`command.dfy`, `Toolbox.InitialCommand`,
  `Transfer.ReadBlockCommand`): builds the ten-byte command block, whose
  unused bytes are zero;
- **response decoder** (`response.dfy`): reads the 4096-byte reply buffer
  either as 40-byte `toolbox_file` records or as one device-type byte per
  slot;
- **locate** (`Transfer.Locate`): finds the first record whose name is the
  requested one;
- **transfer driver** (`Transfer.Transfer`, `Transfer.Retrieve`,
  `Toolbox.Run`): makes one read-block exchange per 4096-byte block, in
  ascending order, and writes each reply to the output file.

The device and the host filesystem are oracles:

- a `Reply` per exchange: the filled bytes, whose count is `scsi_Actual`, or
  an I/O error code;
- the value each `Write` returns;
- whether `Open` succeeds.

What the program does is a trace of `Event`s: exchanges sent, output
opened, progress shown, writes, close, delete. A `Sent` event records the
operation; its bytes on the wire are `Command.Encode` of it.

`bytes.dfy` holds the shared vocabulary: bytes, `ULONG` values, and the
4-byte layout of a `ULONG` in either byte order.

Four behaviours of the code that a reader might not expect are modelled as
the code has them:

- **Byte order.** The block number in command bytes 2..5 is copied from a
  `ULONG` with `memcpy` (toolbox.c:202), and a record's size is read
  through the structure (toolbox.c:194). Both are therefore in host byte
  order, which is big-endian on the 68k target. Byte order is a parameter
  (`ByteOrder`) of every encode and decode.
- **Record layout.** `sizeof(struct toolbox_file)` includes one alignment
  byte before the `ULONG` `size` (toolbox.c:36-41). The stride is therefore
  40, not 39, and `size` sits at offset 36.
- **Aborted transfers.** Only a short write deletes the output
  (toolbox.c:214-220). After a transport error the partial file stays
  (toolbox.c:203-207). It is only closed, by the exit cleanup at
  toolbox.c:231-232.
- **Empty files.** A file of size 0 still creates the output file
  (toolbox.c:187) and closes it, with no exchange and no write.

## Model

| member | source | states |
|---|---|---|
| Bytes.Encode32 | toolbox.c:202 | The four in-memory bytes of a `ULONG` decode back to the same value, in either byte order |
| Bytes.Encode32Decode32 | toolbox.c:40 | Every 4-byte pattern is the layout of exactly one `ULONG`: decoding then re-encoding gives the same bytes |
| Bytes.Truncate8 | toolbox.c:129 | The conversion to `UBYTE` keeps the value modulo 256, for negative values too |
| Command.Encode | toolbox.c:121-134 | A command block is 10 bytes. Byte 0 is the opcode. Byte 1 is the set-CD number or the record position. Bytes 2..5 decode to the block number. Every byte the operation does not set is zero |
| Command.ParseEncode | toolbox.c:197-202 | The operation and its parameters are recovered from the command block |
| Command.EncodeParse | toolbox.c:45 | A block that parses is exactly the encoding of what it parses to: each operation has one wire form, with zero unused bytes |
| Toolbox.InitialCommand | toolbox.c:121-134 | The first block is 10 bytes. Byte 0 is 0xD9, 0xD0, 0xD7, 0xD8 or 0xD0 for list-devices, list-files, list-CDs, set-CD and get. For set-CD, byte 1 is the number modulo 256, with no range check. All other bytes are zero |
| Response.CName | toolbox.c:39 | The name of a fixed 33-byte field is a NUL-free prefix of it, followed in the field by a NUL unless it fills the whole field |
| Response.DecodeFiles | toolbox.c:148-152 | A listing has `actual / 40` records. None extends past `actual` bytes, and a trailing partial record is dropped |
| Response.DecodeFilesReadsOnlyActual | toolbox.c:173 | Bytes at or past `scsi_Actual` do not affect the listing |
| Response.RecordRoundTrip | toolbox.c:35-41 | A record whose name is NUL-terminated within its field decodes to the same index, directory flag, name and size, whatever bytes follow the NUL and whatever the alignment byte holds |
| Response.FilesRoundTrip | toolbox.c:35-43 | A listing of such records, each with any slack after its name and in its alignment byte, followed by fewer than 40 stray bytes, decodes to the same records in the same order |
| Response.Classify | toolbox.c:158-167 | A type byte below 8 indexes the type table and 255 is "not enabled". Every other byte is unknown. The original byte can be recovered from every kind |
| Response.DeviceLabels | toolbox.c:52-61 | The label shown for each byte: the table entry below 8 (7 is "ZIP100"), "Not enabled" for 255, "Unknown" otherwise |
| Response.DecodeDevices | toolbox.c:154-169 | One entry per reply byte. The slot number is the byte's offset. The kind is the byte's classification (table entry below 8, not enabled for 255, unknown otherwise), and the byte can be recovered from each entry |
| Response.DecodeDevicesReadsOnlyActual | toolbox.c:158 | Bytes at or past `scsi_Actual` do not affect the device table |
| Transfer.Locate | toolbox.c:174-185 | The first record, in list order, whose name equals the target exactly. "Not found" exactly when no record has that name |
| Transfer.BlockCount | toolbox.c:194-195 | The fewest 4096-byte blocks that hold the file: ceil(size / 4096) |
| Transfer.BlockCountExamples | toolbox.c:194-195 | Size 0 needs no block, 4096 needs one, 8193 needs three |
| Transfer.ReadBlockCommand | toolbox.c:197-202 | A read-block command has byte 0 0xD1 and byte 1 the record's position in the list (not its `index` field) modulo 256. Bytes 2..5 decode to the block number and bytes 6..9 are zero |
| Transfer.ReadBlockCommandParses | toolbox.c:197-202 | A read-block command parses back to the record position and block number |
| Transfer.Transfer | toolbox.c:194-222 | The block loop stops at the first failed exchange or short write, or completes. Every block before the stop was fetched and written in full, and the trace is theirs followed by the ending |
| Transfer.TransferExchanges | toolbox.c:200-207 | The exchanges are for blocks 0, 1, 2, ... in ascending order, one per block. There are as many as there are blocks when the transfer completes, and none after the block it stopped at |
| Transfer.ExchangesNameBlocks | toolbox.c:197-203 | On the wire, exchange j is the read-block command for the record's position whose bytes 2..5 decode to j |
| Transfer.TransferWrites | toolbox.c:213-214 | One write per delivered block, plus one for a short write. Each write hands over exactly the `scsi_Actual` bytes its block's exchange returned, block by block |
| Transfer.TransferDeletes | toolbox.c:203-221 | The output file is deleted exactly when a write came up short. A transport error leaves it in place |
| Transfer.TransferCompletes | toolbox.c:200-222 | A transfer completes exactly when every block was fetched and written in full |
| Transfer.TransferResultUnique | toolbox.c:194-222 | For given device and filesystem behaviour, the outcome and the trace are determined |
| Transfer.EmptyFileTransfer | toolbox.c:194-200 | A 0-byte file takes no exchange and no write. The output file is only closed |
| Transfer.SecondOfThreeBlocksFails | toolbox.c:200-207 | For an 8193-byte file whose second exchange fails, exactly two exchanges are made and the output is not deleted |
| Transfer.Retrieve | toolbox.c:170-192 | Locate, open and transfer. Not found exactly when no record has the name, and then nothing is opened or sent. A failed open sends nothing |
| Toolbox.Run | toolbox.c:121-224 | One exchange with the action's command, then the reply read as the action requires. A failed first exchange ends the run. For get, the retrieval runs over the listing decoded from exactly the returned bytes |

## Left out

- Argument parsing, the one-action check and the dos.library version check
  (toolbox.c:69-100): the model starts from one `Action`.
- Message port, I/O request and device opening, and the exit cleanup
  (toolbox.c:102-120, 229-245). The only part kept is the cleanup's `Close`
  of an output file that is still open, which ends the trace after a
  transport error.
- `Printf` formatting of the tables and progress lines
  (toolbox.c:146-168, 209-211). Progress is recorded as one `Progress`
  event per block.
- The host filesystem and `DoIO`: they are the oracles described above,
  and any `Reply`/`Write` results can be supplied.
- Transfer.Transfer: requires at least as many exchange and write results
  as there are blocks. This requirement belongs to the oracle encoding and
  does not restrict which files can be retrieved.
- Response.CName: a name that fills all 33 bytes without a NUL makes
  `strcmp` read past the field. The model takes the whole field as the
  name instead. The round trips are stated for names of at most 32 bytes.
- Transfer.Locate: compares the name as a byte sequence. The requested
  name comes from the command line, which cannot contain a NUL, so this
  is the same as `strcmp`.
- The `files[100]` declaration bound: the buffer is a sequence, and
  `actual / 40` records are decoded (up to 102 in 4096 bytes), as the
  loop reads them.
- Buffer contents at or past `scsi_Actual` are not modelled. The
  `ReadsOnlyActual` lemmas show the decoders never read them.
