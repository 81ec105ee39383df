/**
  Decoding the 4096-byte reply buffer (toolbox.c:35-61, 144-173). The buffer
  carries no tag: a list-files or list-CDs reply is read as an array of
  fixed-stride `toolbox_file` records, a list-devices reply as one device
  type byte per slot. Both decoders read only the first `actual` bytes, the
  count the device reports in `scsi_Actual`.
 */
module Response {
  import opened Bytes

  /** Capacity of the reply buffer, `sizeof(union toolbox)`. */
  const BufferSize := 4096

  /** Layout of `struct toolbox_file`: index at 0, isdir at 1, a 33-byte
      name at 2..34, one byte of alignment padding at 35, the `ULONG` size at
      36..39; `sizeof` is therefore 40. */
  const NameOffset := 2
  const NameLength := 33
  const SizeOffset := 36
  const RecordStride := 40

  datatype FileRecord = FileRecord(index: byte, isDir: byte, name: seq<byte>, size: uint32)

  /** The text of a fixed-width name field: the bytes before its first NUL,
      or the whole field when it holds none. */
  function CName(field: seq<byte>): (r: seq<byte>)
    ensures r <= field
    ensures forall i :: 0 <= i < |r| ==> r[i] != 0
    ensures |r| < |field| ==> field[|r|] == 0
  {
    if |field| == 0 || field[0] == 0 then []
    else [field[0]] + CName(field[1..])
  }

  /** One 40-byte record. */
  function DecodeRecord(rec: seq<byte>, order: ByteOrder): FileRecord
    requires |rec| == RecordStride
  {
    FileRecord(rec[0], rec[1], CName(rec[NameOffset..NameOffset + NameLength]),
               Decode32(rec[SizeOffset..RecordStride], order))
  }

  /** The records of a file listing: `actual / 40` of them, record `i` read
      from bytes `40 * i` to `40 * i + 39`. */
  function DecodeFiles(buf: seq<byte>, actual: nat, order: ByteOrder): (r: seq<FileRecord>)
    requires actual <= |buf|
    ensures |r| == actual / RecordStride
    ensures |r| * RecordStride <= actual < (|r| + 1) * RecordStride
  {
    seq(actual / RecordStride, i requires 0 <= i < actual / RecordStride =>
      DecodeRecord(buf[i * RecordStride .. i * RecordStride + RecordStride], order))
  }

  /** A trailing partial record is dropped and nothing at or past `actual`
      is read: two buffers that agree on their first `actual` bytes decode to
      the same listing. */
  lemma DecodeFilesReadsOnlyActual(buf: seq<byte>, buf': seq<byte>, actual: nat, order: ByteOrder)
    requires actual <= |buf| && actual <= |buf'|
    requires buf[..actual] == buf'[..actual]
    ensures DecodeFiles(buf, actual, order) == DecodeFiles(buf', actual, order)
  {
    var r, r' := DecodeFiles(buf, actual, order), DecodeFiles(buf', actual, order);
    forall i | 0 <= i < |r|
      ensures r[i] == r'[i]
    {
      SameRecord(buf, buf', actual, i);
    }
  }

  lemma SameRecord(buf: seq<byte>, buf': seq<byte>, actual: nat, i: nat)
    requires actual <= |buf| && actual <= |buf'|
    requires buf[..actual] == buf'[..actual]
    requires i < actual / RecordStride
    ensures i * RecordStride + RecordStride <= actual
    ensures buf[i * RecordStride .. i * RecordStride + RecordStride]
         == buf'[i * RecordStride .. i * RecordStride + RecordStride]
  {
    var lo := i * RecordStride;
    var a, a' := buf[..actual], buf'[..actual];
    assert lo + RecordStride <= actual;
    assert buf[lo .. lo + RecordStride] == a[lo .. lo + RecordStride];
    assert buf'[lo .. lo + RecordStride] == a'[lo .. lo + RecordStride];
  }

  /** A record whose name fits its field with a terminating NUL, as the
      controller writes it. */
  predicate WellFormed(f: FileRecord)
  {
    |f.name| < NameLength && forall i :: 0 <= i < |f.name| ==> f.name[i] != 0
  }

  /** What the controller may leave in a record besides its fields: the
      rest of the name field after the name, which starts with the
      terminating NUL but may hold anything after it, and the alignment byte
      at offset 35. Neither is read by the program. */
  datatype Slack = Slack(fill: seq<byte>, pad: byte)

  predicate Fits(f: FileRecord, s: Slack)
  {
    WellFormed(f) && |s.fill| == NameLength - |f.name| && s.fill[0] == 0
  }

  /** The 40 bytes the controller sends for `f`, with slack `s`. */
  function EncodeRecord(f: FileRecord, s: Slack, order: ByteOrder): (r: seq<byte>)
    requires Fits(f, s)
    ensures |r| == RecordStride
  {
    [f.index, f.isDir] + f.name + s.fill + [s.pad] + Encode32(f.size, order)
  }

  lemma {:induction false} CNameTerminated(name: seq<byte>, rest: seq<byte>)
    requires forall i :: 0 <= i < |name| ==> name[i] != 0
    requires |rest| > 0 && rest[0] == 0
    ensures CName(name + rest) == name
  {
    if |name| > 0 {
      assert (name + rest)[1..] == name[1..] + rest;
      CNameTerminated(name[1..], rest);
    } else {
      assert name + rest == rest;
    }
  }

  /** Decoding a record the controller encoded gives the record back,
      whatever follows the name's NUL and whatever the alignment byte holds. */
  lemma RecordRoundTrip(f: FileRecord, s: Slack, order: ByteOrder)
    requires Fits(f, s)
    ensures DecodeRecord(EncodeRecord(f, s, order), order) == f
  {
    var e := EncodeRecord(f, s, order);
    var field := e[NameOffset..NameOffset + NameLength];
    assert field == f.name + s.fill;
    CNameTerminated(f.name, s.fill);
    assert e[SizeOffset..RecordStride] == Encode32(f.size, order);
  }

  /** Records `fs` can be sent with slack `slack`, one per record. */
  predicate Encodable(fs: seq<FileRecord>, slack: seq<Slack>)
  {
    |slack| == |fs| && forall i :: 0 <= i < |fs| ==> Fits(fs[i], slack[i])
  }

  /** A listing as the controller sends it: the records back to back. */
  function EncodeFiles(fs: seq<FileRecord>, slack: seq<Slack>, order: ByteOrder): (r: seq<byte>)
    requires Encodable(fs, slack)
    ensures |r| == |fs| * RecordStride
  {
    if |fs| == 0 then []
    else EncodeRecord(fs[0], slack[0], order) + EncodeFiles(fs[1..], slack[1..], order)
  }

  lemma {:induction false} EncodeFilesAt(fs: seq<FileRecord>, slack: seq<Slack>, order: ByteOrder, i: nat)
    requires Encodable(fs, slack)
    requires i < |fs|
    ensures EncodeFiles(fs, slack, order)[i * RecordStride .. i * RecordStride + RecordStride]
         == EncodeRecord(fs[i], slack[i], order)
  {
    EncodeFilesUnfold(fs, slack, order);
    var head := EncodeRecord(fs[0], slack[0], order);
    var tail := EncodeFiles(fs[1..], slack[1..], order);
    if i == 0 {
      assert (head + tail)[..RecordStride] == head;
    } else {
      var lo := (i - 1) * RecordStride;
      StrideBound(i - 1, |fs| - 1);
      EncodeFilesAt(fs[1..], slack[1..], order, i - 1);
      assert fs[1..][i - 1] == fs[i] && slack[1..][i - 1] == slack[i];
      SliceAfter(head, tail, lo + RecordStride, RecordStride);
    }
  }

  lemma EncodeFilesUnfold(fs: seq<FileRecord>, slack: seq<Slack>, order: ByteOrder)
    requires Encodable(fs, slack) && |fs| > 0
    ensures Encodable(fs[1..], slack[1..])
    ensures EncodeFiles(fs, slack, order)
         == EncodeRecord(fs[0], slack[0], order) + EncodeFiles(fs[1..], slack[1..], order)
  {
    assert forall i :: 0 <= i < |fs| - 1 ==> fs[1..][i] == fs[i + 1] && slack[1..][i] == slack[i + 1];
  }

  lemma StrideBound(k: nat, n: nat)
    requires k < n
    ensures k * RecordStride + RecordStride <= n * RecordStride
  {
  }

  lemma SliceAfter(h: seq<byte>, t: seq<byte>, lo: nat, len: nat)
    requires |h| <= lo && lo + len <= |h| + |t|
    ensures (h + t)[lo .. lo + len] == t[lo - |h| .. lo - |h| + len]
  {
  }

  lemma RecordAt(fs: seq<FileRecord>, slack: seq<Slack>, tail: seq<byte>, order: ByteOrder, i: nat)
    requires Encodable(fs, slack)
    requires i < |fs|
    ensures var buf := EncodeFiles(fs, slack, order) + tail;
            DecodeRecord(buf[i * RecordStride .. i * RecordStride + RecordStride], order) == fs[i]
  {
    var e := EncodeFiles(fs, slack, order);
    StrideBound(i, |fs|);
    SliceBefore(e, tail, i * RecordStride, RecordStride);
    EncodeFilesAt(fs, slack, order, i);
    RecordRoundTrip(fs[i], slack[i], order);
  }

  lemma SliceBefore(h: seq<byte>, t: seq<byte>, lo: nat, len: nat)
    requires lo + len <= |h|
    ensures (h + t)[lo .. lo + len] == h[lo .. lo + len]
  {
  }

  /** Decoding a listing the controller encoded gives the records back, in
      order, whatever slack each record carries and whatever partial record
      trails it. */
  lemma FilesRoundTrip(fs: seq<FileRecord>, slack: seq<Slack>, tail: seq<byte>, order: ByteOrder)
    requires Encodable(fs, slack)
    requires |tail| < RecordStride
    ensures var buf := EncodeFiles(fs, slack, order) + tail;
            DecodeFiles(buf, |buf|, order) == fs
  {
    var buf := EncodeFiles(fs, slack, order) + tail;
    WholeRecords(|fs|, |tail|);
    forall i | 0 <= i < |fs|
      ensures i * RecordStride + RecordStride <= |buf|
      ensures DecodeRecord(buf[i * RecordStride .. i * RecordStride + RecordStride], order) == fs[i]
    {
      StrideBound(i, |fs|);
      RecordAt(fs, slack, tail, order, i);
    }
    DecodedRecords(buf, fs, order);
  }

  /** A listing is determined by its records: when every whole record of
      `buf` decodes to the corresponding element of `fs`, the listing is
      `fs`. */
  lemma DecodedRecords(buf: seq<byte>, fs: seq<FileRecord>, order: ByteOrder)
    requires |buf| / RecordStride == |fs|
    requires forall i :: 0 <= i < |fs| ==>
               i * RecordStride + RecordStride <= |buf|
               && DecodeRecord(buf[i * RecordStride .. i * RecordStride + RecordStride], order) == fs[i]
    ensures DecodeFiles(buf, |buf|, order) == fs
  {
  }

  /** `n` records followed by fewer than a record's worth of bytes make `n`
      whole records. */
  lemma WholeRecords(n: nat, extra: nat)
    requires extra < RecordStride
    ensures (n * RecordStride + extra) / RecordStride == n
  {
  }

  // Device types

  /** `devicetypes[]`: the ordinal IS the meaning. */
  const DeviceTypes: seq<string> :=
    ["Fixed", "Removable", "Optical", "Floppy", "Magneto-Optical", "Sequential", "Network", "ZIP100"]

  const NotEnabledCode: byte := 255

  /** The bytes that index `DeviceTypes`, and the bytes that neither index
      it nor mark a slot as not enabled. */
  type TypeOrdinal = x: int | 0 <= x < 8
  type UnknownCode = x: int | 8 <= x < 255 witness 8

  datatype DeviceKind = Typed(ordinal: TypeOrdinal) | NotEnabled | Unknown(raw: UnknownCode)

  /** The byte a kind stands for. */
  function Code(k: DeviceKind): byte
  {
    match k
    case Typed(o) => o
    case NotEnabled => NotEnabledCode
    case Unknown(raw) => raw
  }

  /** A device type byte: an index into `DeviceTypes`, 255 for a slot that is
      not enabled, anything else unknown. No byte is lost: `Code` gives it
      back. */
  function Classify(t: byte): (k: DeviceKind)
    ensures k.Typed? <==> t < |DeviceTypes|
    ensures k.NotEnabled? <==> t == 255
    ensures k.Unknown? <==> |DeviceTypes| <= t < 255
    ensures Code(k) == t
  {
    if t < |DeviceTypes| then Typed(t)
    else if t == NotEnabledCode then NotEnabled
    else Unknown(t)
  }

  /** The text shown for a kind. */
  function Label(k: DeviceKind): string
  {
    match k
    case Typed(o) => DeviceTypes[o]
    case NotEnabled => "Not enabled"
    case Unknown(_) => "Unknown"
  }

  /** The label of every type byte: the table entry for the first eight,
      "Not enabled" for 255, "Unknown" for the rest; e.g. 7 is "ZIP100". */
  lemma DeviceLabels(t: byte)
    ensures t < |DeviceTypes| ==> Label(Classify(t)) == DeviceTypes[t]
    ensures t == 255 ==> Label(Classify(t)) == "Not enabled"
    ensures |DeviceTypes| <= t < 255 ==> Label(Classify(t)) == "Unknown"
    ensures Label(Classify(7)) == "ZIP100" && Label(Classify(0)) == "Fixed"
  {
  }

  datatype DeviceEntry = DeviceEntry(slot: nat, kind: DeviceKind)

  /** A list-devices reply: one entry per reply byte, the slot being the
      byte's offset and the kind the byte's classification; the byte can be
      recovered from each entry. */
  function DecodeDevices(buf: seq<byte>, actual: nat): (r: seq<DeviceEntry>)
    requires actual <= |buf|
    ensures |r| == actual
    ensures forall i :: 0 <= i < actual ==> r[i].slot == i && Code(r[i].kind) == buf[i]
    ensures forall i :: 0 <= i < actual ==> r[i].kind == Classify(buf[i])
  {
    seq(actual, i requires 0 <= i < actual => DeviceEntry(i, Classify(buf[i])))
  }

  /** Nothing at or past `actual` is read. */
  lemma DecodeDevicesReadsOnlyActual(buf: seq<byte>, buf': seq<byte>, actual: nat)
    requires actual <= |buf| && actual <= |buf'|
    requires buf[..actual] == buf'[..actual]
    ensures DecodeDevices(buf, actual) == DecodeDevices(buf', actual)
  {
  }
}
