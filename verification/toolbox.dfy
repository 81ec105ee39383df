/**
  The protocol logic of `main` (toolbox.c:121-223): send the command for
  the one requested action, then interpret the reply for that action, and
  for a retrieval drive the block transfer.
 */
module Toolbox {
  import opened Bytes
  import opened Command
  import opened Response
  import opened Transfer

  /** The action named on the command line: LISTDEVICES, LISTFILES,
      LISTCDS, SETCD with its number, GET with its file name. */
  datatype Action =
    | ListDevicesAction
    | ListFilesAction
    | ListCdsAction
    | SetCdAction(index: int)
    | GetAction(name: seq<byte>)

  /** The operation the first exchange carries. A retrieval starts with a
      file listing; the set-CD number is converted to `UBYTE`. */
  function ActionCommand(a: Action): Command
  {
    match a
    case ListDevicesAction => ListDevices
    case ListFilesAction => ListFiles
    case ListCdsAction => ListCds
    case SetCdAction(index) => SetCd(Truncate8(index))
    case GetAction(_) => ListFiles
  }

  /** The first command block: ten bytes, the action's opcode first, for
      set-CD the requested number modulo 256 (no range check) second, and
      every other byte zero. */
  function InitialCommand(a: Action, order: ByteOrder): (r: seq<byte>)
    ensures |r| == 10
    ensures r[0] == (match a
                     case ListDevicesAction => 0xD9
                     case ListFilesAction => 0xD0
                     case ListCdsAction => 0xD7
                     case SetCdAction(_) => 0xD8
                     case GetAction(_) => 0xD0)
    ensures a.SetCdAction? ==> r[1] == a.index % 256
    ensures forall i :: (if a.SetCdAction? then 2 else 1) <= i < 10 ==> r[i] == 0
  {
    Encode(ActionCommand(a), order)
  }

  /** The reply buffer after the first exchange: the static buffer starts out
      zero, and the device fills its first `scsi_Actual` bytes. */
  function FirstBuffer(bytes: seq<byte>): (buf: seq<byte>)
    requires |bytes| <= BufferSize
    ensures |buf| == BufferSize && buf[..|bytes|] == bytes
  {
    bytes + Zeros(BufferSize - |bytes|)
  }

  /** The listing a retrieval searches. */
  function Listing(bytes: seq<byte>, order: ByteOrder): seq<FileRecord>
  {
    DecodeFiles(bytes, |bytes|, order)
  }

  datatype Outcome =
    | Files(records: seq<FileRecord>)     // LISTFILES, LISTCDS: the table
    | Devices(entries: seq<DeviceEntry>)  // LISTDEVICES: the table
    | CdSelected                          // SETCD accepted
    | SendFailed(code: int)               // first exchange failed
    | Fetched(fetch: Fetch)               // GET

  /** One run of the program past argument parsing and device opening.
      `first` is the reply to the first exchange; `replies`, `writes` and
      `openOk` are the block exchanges, the `Write` results and the `Open`
      result of a retrieval. */
  method Run(action: Action, order: ByteOrder, first: Reply, openOk: bool,
             replies: seq<Reply>, writes: seq<int>)
    returns (outcome: Outcome, trace: seq<Event>)
    requires first.Filled? ==> |first.bytes| <= BufferSize
    requires first.Filled? && action.GetAction? ==>
               Needed(Listing(first.bytes, order), action.name) <= |replies|
               && Needed(Listing(first.bytes, order), action.name) <= |writes|
    ensures |trace| > 0 && trace[0] == Sent(ActionCommand(action))
    ensures first.IoError? ==> outcome == SendFailed(first.code) && |trace| == 1
    ensures first.Filled? && (action.ListFilesAction? || action.ListCdsAction?) ==>
              outcome == Files(Listing(first.bytes, order)) && |trace| == 1
    ensures first.Filled? && action.ListDevicesAction? ==>
              outcome == Devices(DecodeDevices(first.bytes, |first.bytes|)) && |trace| == 1
    ensures first.Filled? && action.SetCdAction? ==> outcome == CdSelected && |trace| == 1
    ensures first.Filled? && action.GetAction? ==>
              outcome.Fetched?
              && RetrieveResult(Listing(first.bytes, order), action.name, openOk,
                                replies, writes, outcome.fetch, trace[1..])
    ensures first.Filled? && action.GetAction? ==>
              (outcome == Fetched(NotFound) <==>
                 forall j :: 0 <= j < |Listing(first.bytes, order)| ==>
                   Listing(first.bytes, order)[j].name != action.name)
    ensures outcome == Fetched(NotFound) ==> trace == [Sent(ActionCommand(action))]
  {
    trace := [Sent(ActionCommand(action))];
    match first {
      case IoError(code) =>
        return SendFailed(code), trace;
      case Filled(bytes) =>
        var buf := FirstBuffer(bytes);
        var actual := |bytes|;
        assert bytes[..actual] == bytes;
        match action {
          case ListFilesAction =>
            DecodeFilesReadsOnlyActual(buf, bytes, actual, order);
            outcome := Files(DecodeFiles(buf, actual, order));
          case ListCdsAction =>
            DecodeFilesReadsOnlyActual(buf, bytes, actual, order);
            outcome := Files(DecodeFiles(buf, actual, order));
          case ListDevicesAction =>
            DecodeDevicesReadsOnlyActual(buf, bytes, actual);
            outcome := Devices(DecodeDevices(buf, actual));
          case SetCdAction(_) =>
            outcome := CdSelected;
          case GetAction(name) =>
            DecodeFilesReadsOnlyActual(buf, bytes, actual, order);
            var records := DecodeFiles(buf, actual, order);
            var fetch, events := Retrieve(records, name, openOk, replies, writes);
            outcome := Fetched(fetch);
            trace := trace + events;
            assert trace[1..] == events;
        }
    }
  }
}
