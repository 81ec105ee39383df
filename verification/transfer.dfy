/**
  Retrieving a named file from the controller (toolbox.c:170-222): find the
  record by name in the listing, open the output file, then fetch the file
  in 4096-byte blocks, one read-block exchange per block in ascending order,
  writing each reply to the output.

  The device and the host filesystem are oracles: `replies[j]` is what the
  exchange for block `j` returns, `writes[j]` is what `Write` returns for
  block `j`, and `openOk` is whether `Open` succeeds. What the program does
  is recorded as a trace of events.
 */
module Transfer {
  import opened Bytes
  import opened Command
  import opened Response

  const BlockSize := 4096

  /** No `ULONG` size needs more blocks than this. */
  const MaxBlocks := 0x10_0000

  /** Result of one `DoIO`: the bytes the device filled in (their count is
      `scsi_Actual`), or the transport error code. */
  datatype Reply = Filled(bytes: seq<byte>) | IoError(code: int)

  datatype Event =
    | Sent(command: Command)               // one DoIO; the block sent is Encode(command)
    | Opened(name: seq<byte>)              // output file created
    | Progress(block: nat, total: nat)     // "Block n/total" shown
    | Wrote(bytes: seq<byte>, returned: int) // Write called; what it returned
    | Closed                               // output file closed
    | Deleted(name: seq<byte>)             // output file deleted

  /** How a transfer ends: all blocks written, the exchange for `block`
      failed, or the write of `block` came up short. */
  datatype Status = Complete | TransportFailed(block: nat, code: int) | ShortWrite(block: nat)

  datatype Fetch = NotFound | OpenFailed | Transferred(status: Status)

  /** The position in the listing of the first record named `target`. */
  function Locate(records: seq<FileRecord>, target: seq<byte>): (r: Option<nat>)
    ensures r.Some? ==> r.value < |records| && records[r.value].name == target
    ensures r.Some? ==> forall j :: 0 <= j < r.value ==> records[j].name != target
    ensures r.None? <==> forall j :: 0 <= j < |records| ==> records[j].name != target
  {
    if |records| == 0 then None
    else if records[0].name == target then Some(0)
    else match Locate(records[1..], target)
      case None => None
      case Some(p) => Some(p + 1)
  }

  /** The number of blocks for a file of `size` bytes: the fewest that hold
      it. */
  function BlockCount(size: uint32): (n: nat)
    ensures n * BlockSize >= size
    ensures n == 0 || (n - 1) * BlockSize < size
    ensures n <= MaxBlocks
  {
    size / BlockSize + (if size % BlockSize != 0 then 1 else 0)
  }

  lemma BlockCountExamples()
    ensures BlockCount(0) == 0
    ensures BlockCount(4096) == 1
    ensures BlockCount(8193) == 3
  {
  }

  /** The operation of the exchange for block `block` of the record at
      `position` in the listing: the position goes into a `UBYTE`. */
  function BlockRequest(position: nat, block: uint32): Command
  {
    ReadBlock(position % 0x100, block)
  }

  /** The command block for block `block` of the record at `position`. It is
      the listing command with byte 0 replaced by the read-block opcode,
      byte 1 by the position (as a `UBYTE`) and bytes 2..5 by the block
      number in host byte order; bytes 6..9 stay zero. */
  function ReadBlockCommand(position: nat, block: uint32, order: ByteOrder): (r: seq<byte>)
    ensures |r| == CommandLength && r[0] == 0xD1 && r[1] == position % 0x100
    ensures Decode32(r[2..6], order) == block
    ensures forall i :: 6 <= i < CommandLength ==> r[i] == 0
  {
    Encode(BlockRequest(position, block), order)
  }

  /** A read-block command names the record position and the block number,
      and nothing else. */
  lemma ReadBlockCommandParses(position: nat, block: uint32, order: ByteOrder)
    ensures Parse(ReadBlockCommand(position, block, order), order) == Some(ReadBlock(position % 0x100, block))
  {
  }

  /** Blocks `0 .. k-1` were each fetched and written in full. */
  predicate Delivered(replies: seq<Reply>, writes: seq<int>, k: nat)
  {
    && k <= |replies| && k <= |writes|
    && forall j :: 0 <= j < k ==> replies[j].Filled? && writes[j] == |replies[j].bytes|
  }

  /** The events of one block whose exchange succeeded: the exchange, the
      progress line, the write. */
  function Step(command: Command, k: nat, total: nat, bytes: seq<byte>, returned: int): seq<Event>
  {
    [Sent(command), Progress(k, total), Wrote(bytes, returned)]
  }

  /** The events of blocks `0 .. k-1` when each of them was delivered. */
  function BlockEvents(position: nat, total: nat,
                       replies: seq<Reply>, writes: seq<int>, k: nat): seq<Event>
    requires k <= total <= MaxBlocks && k <= |replies| && k <= |writes|
    requires forall j :: 0 <= j < k ==> replies[j].Filled?
  {
    if k == 0 then []
    else BlockEvents(position, total, replies, writes, k - 1)
         + Step(BlockRequest(position, k - 1), k, total, replies[k - 1].bytes, writes[k - 1])
  }

  /** Why a transfer of `n` blocks stopped where `status` says. */
  predicate Stopped(replies: seq<Reply>, writes: seq<int>, n: nat, status: Status)
    requires n <= |replies| && n <= |writes|
  {
    match status
    case Complete => true
    case TransportFailed(b, code) => b < n && replies[b] == IoError(code)
    case ShortWrite(b) => b < n && replies[b].Filled? && writes[b] != |replies[b].bytes|
  }

  /** The number of blocks delivered before the transfer stopped. */
  function StopBlock(status: Status, n: nat): nat
  {
    if status.Complete? then n else status.block
  }

  /** The events after the last delivered block. The output file is closed
      by the program's exit cleanup (toolbox.c:231-232) unless a short write
      already closed and deleted it (toolbox.c:217-219). */
  function Ending(position: nat, n: nat, name: seq<byte>,
                  replies: seq<Reply>, writes: seq<int>, status: Status): seq<Event>
    requires n <= MaxBlocks && n <= |replies| && n <= |writes|
    requires Stopped(replies, writes, n, status)
  {
    match status
    case Complete => [Closed]
    case TransportFailed(b, _) => [Sent(BlockRequest(position, b)), Closed]
    case ShortWrite(b) =>
      Step(BlockRequest(position, b), b + 1, n, replies[b].bytes, writes[b])
      + [Closed, Deleted(name)]
  }

  /** What a transfer of the record at `position` with `size` bytes does:
      the blocks before the stop were each delivered, and the trace is their
      events followed by the ending. */
  predicate TransferResult(position: nat, size: uint32, name: seq<byte>,
                           replies: seq<Reply>, writes: seq<int>, status: Status, trace: seq<Event>)
    requires BlockCount(size) <= |replies| && BlockCount(size) <= |writes|
  {
    var n := BlockCount(size);
    && Stopped(replies, writes, n, status)
    && Delivered(replies, writes, StopBlock(status, n))
    && trace == BlockEvents(position, n, replies, writes, StopBlock(status, n))
                + Ending(position, n, name, replies, writes, status)
  }

  /** Delivering block `i` extends the delivered prefix by one step. */
  lemma NextBlock(position: nat, n: nat, replies: seq<Reply>, writes: seq<int>, i: nat)
    requires i < n <= MaxBlocks && n <= |replies| && n <= |writes| && Delivered(replies, writes, i)
    requires replies[i].Filled? && writes[i] == |replies[i].bytes|
    ensures Delivered(replies, writes, i + 1)
    ensures BlockEvents(position, n, replies, writes, i + 1)
         == BlockEvents(position, n, replies, writes, i)
            + Step(BlockRequest(position, i), i + 1, n, replies[i].bytes, writes[i])
  {
  }

  lemma ShortWriteEnding(position: nat, n: nat, name: seq<byte>,
                         replies: seq<Reply>, writes: seq<int>, i: nat)
    requires i < n <= MaxBlocks && n <= |replies| && n <= |writes|
    requires replies[i].Filled? && writes[i] != |replies[i].bytes|
    ensures Stopped(replies, writes, n, ShortWrite(i))
    ensures Ending(position, n, name, replies, writes, ShortWrite(i))
         == [Sent(BlockRequest(position, i)), Progress(i + 1, n),
             Wrote(replies[i].bytes, writes[i]), Closed, Deleted(name)]
  {
  }

  /** The block loop (toolbox.c:194-222). */
  method Transfer(position: nat, size: uint32, name: seq<byte>,
                  replies: seq<Reply>, writes: seq<int>)
    returns (status: Status, trace: seq<Event>)
    requires BlockCount(size) <= |replies| && BlockCount(size) <= |writes|
    ensures TransferResult(position, size, name, replies, writes, status, trace)
  {
    var n := BlockCount(size);
    var i := 0;
    trace := [];
    while i < n
      invariant i <= n
      invariant Delivered(replies, writes, i)
      invariant trace == BlockEvents(position, n, replies, writes, i)
    {
      var command := BlockRequest(position, i);
      match replies[i] {
        case IoError(code) =>
          status := TransportFailed(i, code);
          assert Ending(position, n, name, replies, writes, status) == [Sent(command), Closed];
          trace := trace + [Sent(command), Closed];
          return;
        case Filled(bytes) =>
          var returned := writes[i];
          var step := [Sent(command), Progress(i + 1, n), Wrote(bytes, returned)];
          assert step == Step(command, i + 1, n, bytes, returned);
          if returned != |bytes| {
            status := ShortWrite(i);
            ShortWriteEnding(position, n, name, replies, writes, i);
            trace := trace + (step + [Closed, Deleted(name)]);
            return;
          }
          NextBlock(position, n, replies, writes, i);
          trace := trace + step;
      }
      i := i + 1;
    }
    status := Complete;
    assert Ending(position, n, name, replies, writes, status) == [Closed];
    trace := trace + [Closed];
  }

  // Reading a trace

  /** The command blocks sent, in order. */
  function Commands(t: seq<Event>): seq<Command>
  {
    if |t| == 0 then []
    else (if t[0].Sent? then [t[0].command] else []) + Commands(t[1..])
  }

  /** The byte chunks handed to `Write`, in order. */
  function Chunks(t: seq<Event>): seq<seq<byte>>
  {
    if |t| == 0 then []
    else (if t[0].Wrote? then [t[0].bytes] else []) + Chunks(t[1..])
  }

  /** The output file was deleted. */
  predicate Deletes(t: seq<Event>)
  {
    exists i :: 0 <= i < |t| && t[i].Deleted?
  }

  lemma {:induction false} CommandsAppend(a: seq<Event>, b: seq<Event>)
    ensures Commands(a + b) == Commands(a) + Commands(b)
    ensures Chunks(a + b) == Chunks(a) + Chunks(b)
  {
    CommandsOfAppend(a, b);
    ChunksOfAppend(a, b);
  }

  lemma {:induction false} CommandsOfAppend(a: seq<Event>, b: seq<Event>)
    ensures Commands(a + b) == Commands(a) + Commands(b)
  {
    if |a| == 0 {
      assert a + b == b;
    } else {
      var ab := a + b;
      assert ab[0] == a[0] && ab[1..] == a[1..] + b;
      CommandsOfAppend(a[1..], b);
      var head := if a[0].Sent? then [a[0].command] else [];
      assert Commands(ab) == head + Commands(a[1..] + b);
      assert Commands(a) == head + Commands(a[1..]);
    }
  }

  lemma {:induction false} ChunksOfAppend(a: seq<Event>, b: seq<Event>)
    ensures Chunks(a + b) == Chunks(a) + Chunks(b)
  {
    if |a| == 0 {
      assert a + b == b;
    } else {
      var ab := a + b;
      assert ab[0] == a[0] && ab[1..] == a[1..] + b;
      ChunksOfAppend(a[1..], b);
      var head := if a[0].Wrote? then [a[0].bytes] else [];
      assert Chunks(ab) == head + Chunks(a[1..] + b);
      assert Chunks(a) == head + Chunks(a[1..]);
    }
  }

  lemma DeletesAppend(a: seq<Event>, b: seq<Event>)
    ensures Deletes(a + b) <==> Deletes(a) || Deletes(b)
  {
    if Deletes(a) {
      var i :| 0 <= i < |a| && a[i].Deleted?;
      assert (a + b)[i] == a[i];
    }
    if Deletes(b) {
      var i :| 0 <= i < |b| && b[i].Deleted?;
      assert (a + b)[|a| + i] == b[i];
    }
    if Deletes(a + b) {
      var i :| 0 <= i < |a + b| && (a + b)[i].Deleted?;
      if i < |a| {
        assert (a + b)[i] == a[i];
      } else {
        assert (a + b)[i] == b[i - |a|];
      }
    }
  }

  lemma StepContents(command: Command, k: nat, total: nat, bytes: seq<byte>, returned: int)
    ensures var step := Step(command, k, total, bytes, returned);
            Commands(step) == [command] && Chunks(step) == [bytes] && !Deletes(step)
  {
    var step := Step(command, k, total, bytes, returned);
    var last: seq<Event> := [Wrote(bytes, returned)];
    assert last[1..] == [];
    assert Commands(last) == [] && Chunks(last) == [bytes];
    assert step[1..][1..] == last;
    assert Commands(step[1..]) == [] && Chunks(step[1..]) == [bytes];
  }

  lemma CloseContents(name: seq<byte>)
    ensures Commands([Closed, Deleted(name)]) == [] && Chunks([Closed, Deleted(name)]) == []
    ensures Deletes([Closed, Deleted(name)])
  {
    var t := [Closed, Deleted(name)];
    var d: seq<Event> := [Deleted(name)];
    assert d[1..] == [];
    assert Commands(d) == [] && Chunks(d) == [];
    assert t[1..] == d;
    assert t[1].Deleted?;
  }

  /** What the ending contributes: the command of the block the transfer
      stopped at (if it stopped early), the chunk of a short write, and the
      deletion exactly on a short write. */
  lemma EndingContents(position: nat, n: nat, name: seq<byte>,
                       replies: seq<Reply>, writes: seq<int>, status: Status)
    requires n <= MaxBlocks && n <= |replies| && n <= |writes|
    requires Stopped(replies, writes, n, status)
    ensures var e := Ending(position, n, name, replies, writes, status);
            && Commands(e) == (if status.Complete? then [] else [BlockRequest(position, status.block)])
            && Chunks(e) == (if status.ShortWrite? then [replies[status.block].bytes] else [])
            && (Deletes(e) <==> status.ShortWrite?)
  {
    var e := Ending(position, n, name, replies, writes, status);
    match status {
      case Complete =>
        assert e[1..] == [];
      case TransportFailed(b, _) =>
        var closed: seq<Event> := [Closed];
        assert closed[1..] == [];
        assert Commands(closed) == [] && Chunks(closed) == [];
        assert e[1..] == closed;
      case ShortWrite(b) =>
        var command := BlockRequest(position, b);
        var step := Step(command, b + 1, n, replies[b].bytes, writes[b]);
        StepContents(command, b + 1, n, replies[b].bytes, writes[b]);
        CloseContents(name);
        CommandsAppend(step, [Closed, Deleted(name)]);
        DeletesAppend(step, [Closed, Deleted(name)]);
    }
  }

  /** The first `k` blocks send the read-block commands for blocks
      `0 .. k-1`, in that order. */
  lemma {:induction false} BlockEventsCommands(position: nat, total: nat,
                                               replies: seq<Reply>, writes: seq<int>, k: nat)
    requires k <= total <= MaxBlocks && k <= |replies| && k <= |writes|
    requires forall j :: 0 <= j < k ==> replies[j].Filled?
    ensures var t := BlockEvents(position, total, replies, writes, k);
            |Commands(t)| == k
            && forall j :: 0 <= j < k ==> Commands(t)[j] == BlockRequest(position, j)
  {
    if k > 0 {
      var prev := BlockEvents(position, total, replies, writes, k - 1);
      var command := BlockRequest(position, k - 1);
      var step := Step(command, k, total, replies[k - 1].bytes, writes[k - 1]);
      BlockEventsCommands(position, total, replies, writes, k - 1);
      CommandsAppend(prev, step);
      StepContents(command, k, total, replies[k - 1].bytes, writes[k - 1]);
    }
  }

  /** The first `k` blocks write, in order, exactly the bytes each block's
      exchange returned. */
  lemma {:induction false} BlockEventsChunks(position: nat, total: nat,
                                             replies: seq<Reply>, writes: seq<int>, k: nat)
    requires k <= total <= MaxBlocks && k <= |replies| && k <= |writes|
    requires forall j :: 0 <= j < k ==> replies[j].Filled?
    ensures var t := BlockEvents(position, total, replies, writes, k);
            |Chunks(t)| == k && forall j :: 0 <= j < k ==> Chunks(t)[j] == replies[j].bytes
  {
    if k > 0 {
      var prev := BlockEvents(position, total, replies, writes, k - 1);
      var command := BlockRequest(position, k - 1);
      var step := Step(command, k, total, replies[k - 1].bytes, writes[k - 1]);
      BlockEventsChunks(position, total, replies, writes, k - 1);
      CommandsAppend(prev, step);
      StepContents(command, k, total, replies[k - 1].bytes, writes[k - 1]);
    }
  }

  /** Delivered blocks never delete the output. */
  lemma {:induction false} BlockEventsKeepFile(position: nat, total: nat,
                                               replies: seq<Reply>, writes: seq<int>, k: nat)
    requires k <= total <= MaxBlocks && k <= |replies| && k <= |writes|
    requires forall j :: 0 <= j < k ==> replies[j].Filled?
    ensures !Deletes(BlockEvents(position, total, replies, writes, k))
  {
    if k > 0 {
      var prev := BlockEvents(position, total, replies, writes, k - 1);
      var command := BlockRequest(position, k - 1);
      var step := Step(command, k, total, replies[k - 1].bytes, writes[k - 1]);
      BlockEventsKeepFile(position, total, replies, writes, k - 1);
      StepContents(command, k, total, replies[k - 1].bytes, writes[k - 1]);
      DeletesAppend(prev, step);
    }
  }

  /** The exchanges of any transfer are the read-block commands for blocks
      0, 1, ... in ascending order, one per block and never more than the
      block count. A transfer that stopped at block `b` sent nothing after
      the exchange for `b`. */
  lemma TransferExchanges(position: nat, size: uint32, name: seq<byte>,
                          replies: seq<Reply>, writes: seq<int>, status: Status, trace: seq<Event>)
    requires BlockCount(size) <= |replies| && BlockCount(size) <= |writes|
    requires TransferResult(position, size, name, replies, writes, status, trace)
    ensures var sent := Commands(trace);
            && |sent| <= BlockCount(size)
            && (status.Complete? ==> |sent| == BlockCount(size))
            && (!status.Complete? ==> |sent| == status.block + 1)
            && forall j :: 0 <= j < |sent| ==> sent[j] == BlockRequest(position, j)
  {
    var n := BlockCount(size);
    var k := StopBlock(status, n);
    var prev := BlockEvents(position, n, replies, writes, k);
    var ending := Ending(position, n, name, replies, writes, status);
    CommandsAppend(prev, ending);
    EndingContents(position, n, name, replies, writes, status);
    BlockEventsCommands(position, n, replies, writes, k);
    var sent := Commands(trace);
    assert sent == Commands(prev) + Commands(ending);
    forall j | 0 <= j < |sent|
      ensures sent[j] == BlockRequest(position, j)
    {
      if j < k {
        assert sent[j] == Commands(prev)[j];
      } else {
        assert sent[j] == Commands(ending)[0];
      }
    }
  }

  /** On the wire, exchange `j` of a transfer is the command block whose
      byte 1 is the record's position (as a `UBYTE`) and whose bytes 2..5
      decode to `j`: the block numbers are 0, 1, 2, ... in that order, and
      the block parses back to the read-block operation for `j`. */
  lemma ExchangesNameBlocks(position: nat, order: ByteOrder, sent: seq<Command>)
    requires |sent| <= MaxBlocks
    requires forall j :: 0 <= j < |sent| ==> sent[j] == BlockRequest(position, j)
    ensures forall j :: 0 <= j < |sent| ==>
              var wire := Encode(sent[j], order);
              && wire == ReadBlockCommand(position, j, order)
              && wire[0] == OpReadBlock && wire[1] == position % 0x100
              && Decode32(wire[2..6], order) == j
              && Parse(wire, order) == Some(ReadBlock(position % 0x100, j))
  {
  }

  /** A transfer writes once for every delivered block, plus once for the
      block whose write came up short, and every write hands over exactly
      the bytes its block's exchange returned (`scsi_Actual` of them), block
      by block in order. */
  lemma TransferWrites(position: nat, size: uint32, name: seq<byte>,
                       replies: seq<Reply>, writes: seq<int>, status: Status, trace: seq<Event>)
    requires BlockCount(size) <= |replies| && BlockCount(size) <= |writes|
    requires TransferResult(position, size, name, replies, writes, status, trace)
    ensures |Chunks(trace)| == StopBlock(status, BlockCount(size)) + (if status.ShortWrite? then 1 else 0)
    ensures forall j :: 0 <= j < |Chunks(trace)| ==>
              j < |replies| && replies[j].Filled? && Chunks(trace)[j] == replies[j].bytes
  {
    var n := BlockCount(size);
    var k := StopBlock(status, n);
    var prev := BlockEvents(position, n, replies, writes, k);
    var ending := Ending(position, n, name, replies, writes, status);
    CommandsAppend(prev, ending);
    EndingContents(position, n, name, replies, writes, status);
    BlockEventsChunks(position, n, replies, writes, k);
    var chunks := Chunks(trace);
    assert chunks == Chunks(prev) + Chunks(ending);
    forall j | 0 <= j < |chunks|
      ensures j < |replies| && replies[j].Filled? && chunks[j] == replies[j].bytes
    {
      if j < k {
        assert chunks[j] == Chunks(prev)[j];
      } else {
        assert status.ShortWrite? && j == k;
        assert chunks[j] == Chunks(ending)[0];
      }
    }
  }

  /** The output file is deleted exactly when a write came up short; a
      transport error leaves it in place. */
  lemma TransferDeletes(position: nat, size: uint32, name: seq<byte>,
                        replies: seq<Reply>, writes: seq<int>, status: Status, trace: seq<Event>)
    requires BlockCount(size) <= |replies| && BlockCount(size) <= |writes|
    requires TransferResult(position, size, name, replies, writes, status, trace)
    ensures Deletes(trace) <==> status.ShortWrite?
  {
    var n := BlockCount(size);
    var k := StopBlock(status, n);
    var prev := BlockEvents(position, n, replies, writes, k);
    var ending := Ending(position, n, name, replies, writes, status);
    DeletesAppend(prev, ending);
    EndingContents(position, n, name, replies, writes, status);
    BlockEventsKeepFile(position, n, replies, writes, k);
  }

  /** A transfer completes exactly when every block was fetched and written
      in full. */
  lemma TransferCompletes(position: nat, size: uint32, name: seq<byte>,
                          replies: seq<Reply>, writes: seq<int>, status: Status, trace: seq<Event>)
    requires BlockCount(size) <= |replies| && BlockCount(size) <= |writes|
    requires TransferResult(position, size, name, replies, writes, status, trace)
    ensures status.Complete? <==> Delivered(replies, writes, BlockCount(size))
  {
  }

  /** Only one outcome and one trace satisfy `TransferResult` for given
      oracles: it is a complete description of the transfer. */
  lemma TransferResultUnique(position: nat, size: uint32, name: seq<byte>,
                             replies: seq<Reply>, writes: seq<int>,
                             status: Status, trace: seq<Event>, status': Status, trace': seq<Event>)
    requires BlockCount(size) <= |replies| && BlockCount(size) <= |writes|
    requires TransferResult(position, size, name, replies, writes, status, trace)
    requires TransferResult(position, size, name, replies, writes, status', trace')
    ensures status == status' && trace == trace'
  {
  }

  /** An empty file takes no exchange and no write; the output file is still
      created and closed. */
  lemma EmptyFileTransfer(position: nat, name: seq<byte>,
                          replies: seq<Reply>, writes: seq<int>, status: Status, trace: seq<Event>)
    requires TransferResult(position, 0, name, replies, writes, status, trace)
    ensures status == Complete && trace == [Closed]
  {
  }

  /** A 8193-byte file whose second exchange fails: two exchanges, for
      blocks 0 and 1, no third one, and the output is not deleted. */
  lemma SecondOfThreeBlocksFails(position: nat, name: seq<byte>,
                                 replies: seq<Reply>, writes: seq<int>, status: Status, trace: seq<Event>)
    requires 3 <= |replies| && 3 <= |writes|
    requires replies[0].Filled? && writes[0] == |replies[0].bytes| && replies[1].IoError?
    requires TransferResult(position, 8193, name, replies, writes, status, trace)
    ensures status == TransportFailed(1, replies[1].code)
    ensures |Commands(trace)| == 2 && !Deletes(trace)
  {
    assert BlockCount(8193) == 3;
    TransferExchanges(position, 8193, name, replies, writes, status, trace);
    TransferDeletes(position, 8193, name, replies, writes, status, trace);
  }

  /** Blocks a retrieval of `target` needs from the oracles. */
  function Needed(records: seq<FileRecord>, target: seq<byte>): nat
  {
    match Locate(records, target)
    case None => 0
    case Some(p) => BlockCount(records[p].size)
  }

  /** What retrieving `target` does: nothing at all when no record has that
      name; nothing but the failed open when the output cannot be created;
      otherwise the output is opened and the matched record transferred. */
  predicate RetrieveResult(records: seq<FileRecord>, target: seq<byte>, openOk: bool,
                           replies: seq<Reply>, writes: seq<int>, outcome: Fetch, trace: seq<Event>)
    requires Needed(records, target) <= |replies| && Needed(records, target) <= |writes|
  {
    match Locate(records, target)
    case None => outcome == NotFound && trace == []
    case Some(p) =>
      if !openOk then outcome == OpenFailed && trace == []
      else
        && outcome.Transferred?
        && |trace| > 0 && trace[0] == Opened(target)
        && TransferResult(p, records[p].size, target, replies, writes, outcome.status, trace[1..])
  }

  /** Locate, open, transfer (toolbox.c:170-222). */
  method Retrieve(records: seq<FileRecord>, target: seq<byte>, openOk: bool,
                  replies: seq<Reply>, writes: seq<int>)
    returns (outcome: Fetch, trace: seq<Event>)
    requires Needed(records, target) <= |replies| && Needed(records, target) <= |writes|
    ensures RetrieveResult(records, target, openOk, replies, writes, outcome, trace)
    ensures outcome.NotFound? <==> forall j :: 0 <= j < |records| ==> records[j].name != target
    ensures outcome.NotFound? || outcome.OpenFailed? ==> Commands(trace) == [] && trace == []
  {
    match Locate(records, target) {
      case None =>
        return NotFound, [];
      case Some(p) =>
        if !openOk {
          return OpenFailed, [];
        }
        var status, events := Transfer(p, records[p].size, target, replies, writes);
        outcome := Transferred(status);
        trace := [Opened(target)] + events;
        assert trace[1..] == events;
    }
  }
}
