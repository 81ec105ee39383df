/**
  The 10-byte vendor command block of the toolbox command set
  (toolbox.c:45, 121-134, 197-202). The program keeps one static,
  zero-initialised `command[10]` and sets only the bytes an operation needs,
  so every byte an operation does not set is zero.
 */
module Command {
  import opened Bytes

  const CommandLength := 10

  const OpListDevices: byte := 0xD9
  const OpListFiles: byte := 0xD0
  const OpListCds: byte := 0xD7
  const OpSetCd: byte := 0xD8
  const OpReadBlock: byte := 0xD1

  /** The five operations as they appear on the wire. */
  datatype Command =
    | ListDevices
    | ListFiles
    | ListCds
    | SetCd(cd: byte)
    | ReadBlock(record: byte, block: uint32)

  function Opcode(c: Command): byte
  {
    match c
    case ListDevices => OpListDevices
    case ListFiles => OpListFiles
    case ListCds => OpListCds
    case SetCd(_) => OpSetCd
    case ReadBlock(_, _) => OpReadBlock
  }

  /** How many leading bytes of the block the operation sets: the opcode,
      then a one-byte parameter for set-CD, and for read-block a one-byte
      record position followed by a 4-byte block number. */
  function UsedLength(c: Command): nat
  {
    match c
    case SetCd(_) => 2
    case ReadBlock(_, _) => 6
    case _ => 1
  }

  /** The command block sent for `c`. */
  function Encode(c: Command, order: ByteOrder): (r: seq<byte>)
    ensures |r| == CommandLength
    ensures r[0] == Opcode(c)
    ensures c.SetCd? ==> r[1] == c.cd
    ensures c.ReadBlock? ==> r[1] == c.record && Decode32(r[2..6], order) == c.block
    ensures forall i :: UsedLength(c) <= i < CommandLength ==> r[i] == 0
  {
    match c
    case SetCd(cd) => [OpSetCd, cd] + Zeros(8)
    case ReadBlock(record, block) => [OpReadBlock, record] + Encode32(block, order) + Zeros(4)
    case _ => [Opcode(c)] + Zeros(9)
  }

  /** Reads a command block back: the inverse of `Encode`. Anything that is
      not ten bytes, has an unknown opcode or a non-zero unused byte is not a
      command block. */
  function Parse(b: seq<byte>, order: ByteOrder): (r: Option<Command>)
  {
    if |b| != CommandLength then None
    else
      var c :=
        if b[0] == OpListDevices then Some(ListDevices)
        else if b[0] == OpListFiles then Some(ListFiles)
        else if b[0] == OpListCds then Some(ListCds)
        else if b[0] == OpSetCd then Some(SetCd(b[1]))
        else if b[0] == OpReadBlock then Some(ReadBlock(b[1], Decode32(b[2..6], order)))
        else None;
      if c.Some? && forall i :: UsedLength(c.value) <= i < CommandLength ==> b[i] == 0
      then c
      else None
  }

  /** Every operation is recovered from its command block, so the record
      position and the block number of a read-block command are recoverable
      from bytes 1 and 2..5. */
  lemma ParseEncode(c: Command, order: ByteOrder)
    ensures Parse(Encode(c, order), order) == Some(c)
  {
  }

  /** Conversely, a block that parses is exactly the encoding of what it
      parses to: the encoding is the only representation of an operation. */
  lemma EncodeParse(b: seq<byte>, order: ByteOrder)
    requires Parse(b, order).Some?
    ensures Encode(Parse(b, order).value, order) == b
  {
    var c := Parse(b, order).value;
    var e := Encode(c, order);
    if c.ReadBlock? {
      Encode32Decode32(b[2..6], order);
      assert e[2..6] == b[2..6];
    }
    forall i | 0 <= i < CommandLength
      ensures e[i] == b[i]
    {
      if c.ReadBlock? && 2 <= i < 6 {
        assert e[i] == e[2..6][i - 2];
      }
    }
  }
}
