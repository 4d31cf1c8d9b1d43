/**
 The file transfer protocol (crates/wavry-client/src/client.rs) over a network that loses,
 repeats and reorders: sending with rate-limiter rollback, receiving with progress reports,
 and status messages that rewind, restart, pause or cancel. Status messages are arbitrary:
 nothing is assumed about who sent them or when.
 */
module FileProtocol {
  import opened Common
  import opened FileTransfer

  const PROGRESS_CHUNK_INTERVAL: nat := 64

  datatype StatusKind = Pending | InProgress | Complete | Error

  datatype Command = Pause | Resume | Cancel | Retry

  /** What the parsers find in a status text: each looks at the whole text on its own. */
  datatype Message = Message(
    resumeAt: Option<nat>, command: Option<Command>, noMatchingOffer: bool, empty: bool)

  function ResumeAt(chunk: nat): Message { Message(Some(chunk), None, false, false) }

  function Order(command: Command): Message { Message(None, Some(command), false, false) }

  const NO_MATCHING_OFFER := Message(None, None, true, false)
  const OTHER_TEXT := Message(None, None, false, false)

  datatype Status = Status(kind: Option<StatusKind>, message: Message)

  predicate Disowned(st: Status) { st.kind == Some(Error) && st.message.noMatchingOffer }

  predicate Restarts(st: Status) { st.message.command == Some(Retry) || Disowned(st) }

  predicate Removes(st: Status) {
    || st.message.command == Some(Cancel)
    || st.kind == Some(Complete)
    || (st.kind == Some(Error) && !st.message.noMatchingOffer && !st.message.empty)
  }

  function CursorAfter(st: Status, cursor: nat): nat {
    if Restarts(st) then 0 else if st.message.resumeAt.Some? then Min(cursor, st.message.resumeAt.value) else cursor
  }

  /** The kind has the last word, then the command, then a resume point. */
  predicate PausedAfter(st: Status, paused: bool) {
    if st.kind == Some(Pending) || st.kind == Some(InProgress) || Disowned(st) then false
    else if st.message.command == Some(Pause) then true
    else if st.message.command == Some(Resume) || st.message.command == Some(Retry) then false
    else paused && st.message.resumeAt.None?
  }

  /** What a status does to an outgoing file. Rewinding only ever moves the cursor back. */
  method ApplyToOutgoing(f: OutgoingFile, st: Status) returns (remove: bool)
    requires f.Valid()
    modifies f`nextChunk, f`headerSent, f`paused
    ensures f.Valid()
    ensures f.nextChunk == CursorAfter(st, old(f.nextChunk)) <= old(f.nextChunk)
    ensures f.headerSent == (old(f.headerSent) && !Restarts(st))
    ensures f.paused == PausedAfter(st, old(f.paused))
    ensures remove == Removes(st)
  {
    remove := false;
    if st.message.resumeAt.Some? {
      if st.message.resumeAt.value < f.nextChunk {
        var r := f.SetNextChunk(st.message.resumeAt.value);
      }
      f.paused := false;
    }
    if st.message.command.Some? {
      match st.message.command.value {
        case Pause => f.paused := true;
        case Resume => f.paused := false;
        case Retry =>
          f.RestartFromBeginning();
          f.paused := false;
        case Cancel => remove := true;
      }
    }
    if st.kind.Some? {
      match st.kind.value {
        case Pending => f.paused := false;
        case InProgress => f.paused := false;
        case Complete => remove := true;
        case Error =>
          if st.message.noMatchingOffer {
            f.RestartFromBeginning();
            f.paused := false;
          } else if !st.message.empty {
            remove := true;
          }
      }
    }
  }

  /** What each status means for the file it reaches, at both ends. */
  lemma StatusMeanings(kind: Option<StatusKind>, message: Message, cursor: nat, paused: bool)
    ensures var st := Status(kind, message);
            // A retry, or an error that says the offer is unknown, starts the sender over.
            && (message.command == Some(Retry) ==> Restarts(st) && CursorAfter(st, cursor) == 0 && DropsIncoming(st))
            && (kind == Some(Error) && message.noMatchingOffer ==>
                  Restarts(st) && CursorAfter(st, cursor) == 0 && !PausedAfter(st, paused))
            && (kind == Some(Error) && message.noMatchingOffer && message.command != Some(Cancel) ==> !Removes(st))
            // A cancellation, a completion, or any other error with a text ends it.
            && (message.command == Some(Cancel) ==> Removes(st) && DropsIncoming(st))
            && (kind == Some(Complete) ==> Removes(st) && DropsIncoming(st))
            && (kind == Some(Error) && !message.noMatchingOffer && !message.empty ==> Removes(st))
            && (kind == Some(Error) ==> DropsIncoming(st))
            // Nothing else does.
            && (message.command in {None, Some(Pause), Some(Resume)} && kind in {None, Some(Pending), Some(InProgress)} ==>
                  !Restarts(st) && !Removes(st) && !DropsIncoming(st))
            && (message.command == Some(Retry) && kind in {None, Some(Pending), Some(InProgress)} ==> !Removes(st))
            && (kind == Some(Error) && message.empty && !message.noMatchingOffer && message.command.None? ==>
                  !Restarts(st) && !Removes(st))
            // A resume point rewinds and never skips.
            && (!Restarts(st) && message.resumeAt.Some? ==>
                  CursorAfter(st, cursor) <= cursor && CursorAfter(st, cursor) <= message.resumeAt.value
                  && CursorAfter(st, cursor) in {cursor, message.resumeAt.value})
            && (!Restarts(st) && message.resumeAt.None? ==> CursorAfter(st, cursor) == cursor)
            // Resuming and retrying end a pause, and nothing but a pause begins one.
            && (message.command in {Some(Resume), Some(Retry)} ==> !PausedAfter(st, paused))
            && (message.command != Some(Pause) && !paused ==> !PausedAfter(st, paused))
            && (kind in {Some(Pending), Some(InProgress)} ==> !PausedAfter(st, paused))
            && (message.resumeAt.Some? && message.command != Some(Pause) ==> !PausedAfter(st, paused))
            && (message.resumeAt.None? && message.command in {None, Some(Cancel)} && kind in {None, Some(Complete)} ==>
                  PausedAfter(st, paused) == paused)
  {
  }

  /** An order to pause pauses the file exactly when no Pending or InProgress kind comes with it. */
  lemma PauseTakesHold(kind: Option<StatusKind>, paused: bool)
    ensures PausedAfter(Status(kind, Order(Pause)), paused) <==> kind != Some(Pending) && kind != Some(InProgress)
    ensures !PausedAfter(Status(Some(InProgress), Order(Pause)), true)
  {
  }

  predicate DropsIncoming(st: Status) {
    || st.message.command == Some(Cancel) || st.message.command == Some(Retry)
    || st.kind == Some(Complete) || st.kind == Some(Error)
  }

  /** Chunk `i` of the file, as it should be on the wire. */
  function GenuineChunk(o: FileOffer, source: Bytes, i: nat): FileChunk
    requires Consistent(o) && |source| == o.fileSize && i < o.totalChunks
  {
    FileChunk(o.fileId, i, Slice(o, source, i))
  }

  /** The receiver answers a chunk with a progress report on a gap, at intervals and near the end. */
  predicate ReportDue(missing: nat, i: nat, received: nat, total: nat) {
    missing < i || received % PROGRESS_CHUNK_INTERVAL == 0 || SatSub(total, received) <= 2
  }

  /** An open file takes a genuine chunk and stays right. */
  method StoreChunk(f: IncomingFile, ghost source: Bytes, c: FileChunk)
    requires f.Valid() && |source| == f.offer.fileSize && f.AgreesWith(source)
    requires c.chunkIndex < f.offer.totalChunks && c == GenuineChunk(f.offer, source, c.chunkIndex)
    modifies f`receivedCount, f.file, f.received
    ensures f.Valid() && f.AgreesWith(source)
    ensures f.received[..] == old(f.received[..])[c.chunkIndex := true]
  {
    ChunkBounds(f.offer, c.chunkIndex);
    WriteKeepsAgreement(f.offer, f.file[..], f.received[..], source, c.chunkIndex);
    assert f.received[c.chunkIndex] ==> f.received[..][c.chunkIndex := true] == f.received[..];
    var r := f.WriteChunk(c.chunkIndex, c.payload);
  }

  ghost predicate GapBelow(marks: seq<bool>, i: nat) { exists k | 0 <= k < Min(i, |marks|) :: !marks[k] }

  /** How many chunks are marked. */
  ghost function Marked(marks: seq<bool>): set<nat> { set i | 0 <= i < |marks| && marks[i] }

  lemma {:induction false} CountIsMarked(marks: seq<bool>)
    ensures CountTrue(marks) == |Marked(marks)| <= |marks|
  {
    if marks == [] {
      assert Marked(marks) == {};
    } else {
      var n := |marks| - 1;
      CountIsMarked(marks[..n]);
      assert Marked(marks) == Marked(marks[..n]) + if marks[n] then {n} else {};
    }
  }

  /**
   A report says where the first gap is. It is given exactly when there is a gap below the
   chunk that just came, at every 64 chunks, and when at most two are left.
   */
  ghost predicate Reports(reply: Option<Status>, marks: seq<bool>, i: nat) {
    && (reply.Some? <==> GapBelow(marks, i) || |Marked(marks)| % 64 == 0 || |marks| - |Marked(marks)| <= 2)
    && (reply.Some? ==>
          exists m: nat ::
            && m < |marks| && !marks[m] && (forall k | 0 <= k < m :: marks[k])
            && reply == Some(Status(Some(InProgress), ResumeAt(m))))
  }

  method Progress(f: IncomingFile, i: nat) returns (reply: Option<Status>)
    requires f.Valid() && !f.IsComplete() && i < f.offer.totalChunks
    ensures Reports(reply, f.received[..], i)
  {
    CountIsMarked(f.received[..]);
    var missing := f.NextMissingChunk();
    assert missing < i <==> GapBelow(f.received[..], i);
    if ReportDue(missing, i, f.receivedCount, f.offer.totalChunks) {
      return Some(Status(Some(InProgress), ResumeAt(missing)));
    }
    return None;
  }

  /** One chunk taken from the file to be sent, and whether the socket took it. */
  datatype Attempt = Attempt(chunk: nat, left: bool)

  /** One file between one sender and one receiver. */
  class FileLink {
    const sender: OutgoingFile
    const hash: Hash
    /** Still in the sender's queue. */
    var queued: bool
    var receiver: IncomingFile?
    /** Every chunk ever put on the wire; any of them may arrive at any time, any number of times. */
    ghost var sent: set<FileChunk>
    /** Every send of a chunk that was tried, in order. */
    ghost var attempts: seq<Attempt>
    /** Every file the receiver ever completed. */
    ghost var finalized: seq<Bytes>

    ghost function Repr(): set<object>
      reads this
    {
      {this, sender} + if receiver == null then {} else {receiver, receiver.file, receiver.received}
    }

    ghost predicate Valid()
      reads this, Repr()
    {
      && sender.Valid()
      && (forall c <- sent :: c.chunkIndex < sender.offer.totalChunks
                              && c == GenuineChunk(sender.offer, sender.source, c.chunkIndex))
      && (forall i: nat | i < sender.offer.totalChunks :: OnWire(i) <==> Attempt(i, true) in attempts)
      && (forall i: nat | i < sender.nextChunk :: Attempt(i, true) in attempts || Attempt(i, false) in attempts)
      && (forall k | 0 <= k < |finalized| :: finalized[k] == sender.source)
      && (receiver != null ==>
            && receiver.Valid() && receiver.offer == sender.offer
            && receiver.AgreesWith(sender.source)
            && !receiver.IsComplete())
    }

    /** Chunk `i` has been on the wire. */
    ghost predicate OnWire(i: nat)
      reads this
      requires Consistent(sender.offer) && |sender.source| == sender.offer.fileSize && i < sender.offer.totalChunks
    {
      GenuineChunk(sender.offer, sender.source, i) in sent
    }

    constructor (sender: OutgoingFile, hash: Hash)
      requires sender.Valid() && sender.nextChunk == 0
      ensures Valid() && this.sender == sender && this.hash == hash && queued && receiver == null
      ensures sent == {} && attempts == [] && finalized == []
    {
      this.sender, this.hash := sender, hash;
      queued, receiver, sent, attempts, finalized := true, null, {}, [], [];
    }

    /**
     Every chunk below the cursor was tried. All of them have been on the wire exactly when
     no send failed that was not made good by another.
     */
    lemma BelowCursor()
      requires Valid()
      ensures forall i: nat | i < sender.nextChunk :: Attempt(i, true) in attempts || Attempt(i, false) in attempts
      ensures (forall i: nat | i < sender.nextChunk :: OnWire(i))
              <==> (forall i: nat | i < sender.nextChunk && Attempt(i, false) in attempts ::
                      Attempt(i, true) in attempts)
    {
    }

    /** The offer carries the checksum of the source. */
    predicate ChecksumTrue() { hash(sender.source) == sender.offer.checksum }

    predicate Ready()
      reads this, sender
    {
      queued && (!sender.headerSent || (!sender.paused && !sender.Finished()))
    }

    /**
     One send tick. A chunk the limiter refuses is put back under the cursor; one whose send
     fails is not, and an offer whose send fails is still to be sent. `sends` says whether the
     socket takes what this tick sends, if it sends anything.
     */
    method SendTick(granted: bool, sends: bool) returns (out: Option<FileChunk>)
      requires Valid()
      modifies sender`nextChunk, sender`headerSent, this`sent, this`attempts
      ensures Valid()
      ensures var i := old(sender.nextChunk);
              var taken := && old(queued) && old(sender.headerSent) && !old(sender.paused)
                           && i < sender.offer.totalChunks && granted;
              && out == (if taken && sends then Some(GenuineChunk(sender.offer, sender.source, i)) else None)
              && sender.nextChunk == i + (if taken then 1 else 0)
              && sent == old(sent) + (if out.Some? then {out.value} else {})
              && attempts == old(attempts) + (if taken then [Attempt(i, sends)] else [])
      ensures sender.headerSent == (old(sender.headerSent) || (old(queued) && sends))
    {
      hide Consistent;
      hide Slice;
      if !Ready() {
        return None;
      }
      if !sender.headerSent {
        if !sends {
          return None;
        }
        sender.headerSent := true;
        return None;
      }
      var current := sender.nextChunk;
      var chunk := sender.NextChunk();
      if !granted {
        var r := sender.SetNextChunk(current);
        return None;
      }
      attempts := attempts + [Attempt(current, sends)];
      if !sends {
        return None;
      }
      sent := sent + {chunk.value};
      return chunk;
    }

    /** A one-chunk file whose only chunk fails to leave: the cursor is past it all the same. */
    static method FailedSendLeavesGap(hash: Hash) returns (link: FileLink)
      ensures fresh(link) && link.Valid() && link.sender.Finished()
      ensures link.sent == {} && link.attempts == [Attempt(0, false)]
    {
      var f := OutgoingFile.FromSource(1, true, [0], 900, 1, hash);
      link := new FileLink(f.value, hash);
      var header := link.SendTick(true, true);
      var chunk := link.SendTick(true, false);
    }

    /** A status reaches the sender. */
    method StatusToSender(st: Status)
      requires Valid()
      modifies sender`nextChunk, sender`headerSent, sender`paused, this`queued
      ensures Valid()
      ensures sender.nextChunk == if old(queued) then CursorAfter(st, old(sender.nextChunk)) else old(sender.nextChunk)
      ensures sender.headerSent == (old(sender.headerSent) && !(old(queued) && Restarts(st)))
      ensures sender.paused == if old(queued) then PausedAfter(st, old(sender.paused)) else old(sender.paused)
      ensures queued == (old(queued) && !Removes(st))
    {
      if queued {
        var remove := ApplyToOutgoing(sender, st);
        queued := !remove;
      }
    }

    /** A status reaches the receiver. */
    method StatusToReceiver(st: Status)
      requires Valid()
      modifies this`receiver
      ensures Valid()
      ensures receiver == if DropsIncoming(st) then null else old(receiver)
    {
      if DropsIncoming(st) {
        receiver := null;
      }
    }

    /**
     An offer arrives under this file's id. If it is acceptable, a new file is opened, a known
     one answers where it stands, and a different one is turned down.
     */
    method DeliverHeader(offer: FileOffer, maxFileBytes: nat) returns (reply: Option<Status>)
      requires Valid() && offer.fileId == sender.offer.fileId
      requires receiver == null ==> offer == sender.offer
      modifies this`receiver
      ensures Valid()
      ensures if ValidateOffer(offer, maxFileBytes).Err? then receiver == old(receiver) && reply.None?
              else if old(receiver) == null then
                && receiver != null && fresh(receiver) && fresh(receiver.file) && fresh(receiver.received)
                && receiver.receivedCount == 0
                && reply == Some(Status(Some(Pending), OTHER_TEXT))
              else
                && receiver == old(receiver)
                && reply == Some(if offer != sender.offer then Status(Some(Error), OTHER_TEXT)
                                 else Status(Some(InProgress), ResumeAt(FirstMissing(receiver.received[..]))))
    {
      if ValidateOffer(offer, maxFileBytes).Err? {
        return None;
      }
      if receiver != null {
        if receiver.offer != offer {
          return Some(Status(Some(Error), OTHER_TEXT));
        }
        var m := receiver.NextMissingChunk();
        return Some(Status(Some(InProgress), ResumeAt(m)));
      }
      receiver := new IncomingFile(offer);
      return Some(Status(Some(Pending), OTHER_TEXT));
    }

    /**
     A chunk arrives, fresh or stale. It is always accepted by an open file, the file stays
     right, and when its last chunk is in it is the source: it is handed over exactly when the
     offer carried the source's checksum and it could be moved into place, as `moves` says.
     */
    method DeliverChunk(c: FileChunk, moves: bool) returns (reply: Option<Status>)
      requires Valid() && c in sent
      modifies this`receiver, this`finalized,
               if receiver == null then {} else {receiver, receiver.file, receiver.received}
      ensures Valid()
      ensures old(receiver) == null ==>
                receiver == null && finalized == old(finalized) && reply == Some(Status(Some(Error), NO_MATCHING_OFFER))
      ensures old(receiver) != null ==>
                var marks := old(receiver.received[..])[c.chunkIndex := true];
                if forall i | 0 <= i < |marks| :: marks[i] then
                  && receiver == null
                  && finalized == old(finalized) + (if ChecksumTrue() && moves then [sender.source] else [])
                  && reply == Some(Status(Some(if ChecksumTrue() && moves then Complete else Error), OTHER_TEXT))
                else
                  && receiver == old(receiver) && receiver.received[..] == marks
                  && finalized == old(finalized)
                  && Reports(reply, marks, c.chunkIndex)
    {
      if receiver == null {
        return Some(Status(Some(Error), NO_MATCHING_OFFER));
      }
      hide Consistent;
      hide Slice;
      hide CountTrue;
      hide Reports;
      hide Agrees;
      StoreChunk(receiver, sender.source, c);
      receiver.CompleteMeansSource(sender.source);
      if !receiver.IsComplete() {
        reply := Progress(receiver, c.chunkIndex);
        return;
      }
      var file, expected := receiver.file[..], receiver.offer.checksum;
      receiver := null;
      if hash(file) != expected {
        return Some(Status(Some(Error), OTHER_TEXT));
      }
      if !moves {
        return Some(Status(Some(Error), OTHER_TEXT));
      }
      finalized := finalized + [file];
      return Some(Status(Some(Complete), OTHER_TEXT));
    }

    /**
     Recovery by rewind: once the sender has applied the receiver's first missing chunk, one
     pass without loss completes the file.
     */
    method RewindAndFinish(maxFileBytes: nat, moves: bool)
      requires Valid() && queued && receiver != null
      modifies Repr()
      ensures Valid() && receiver == null && !queued
      ensures finalized == old(finalized) + if ChecksumTrue() && moves then [sender.source] else []
    {
      var m := receiver.NextMissingChunk();
      StatusToSender(Status(Some(InProgress), ResumeAt(m)));
      FinishPass(maxFileBytes, moves);
    }

    /**
     Recovery from a loss by the protocol alone: whatever was lost, as soon as one later chunk
     arrives the receiver's own report brings the sender back, and one pass without loss from
     there completes the file.
     */
    method ReportAndFinish(c: FileChunk, maxFileBytes: nat, moves: bool)
      requires Valid() && queued && receiver != null && c in sent
      requires exists i | 0 <= i < c.chunkIndex :: !receiver.received[i]
      modifies Repr()
      ensures Valid() && receiver == null && !queued
      ensures finalized == old(finalized) + if ChecksumTrue() && moves then [sender.source] else []
    {
      ghost var i :| 0 <= i < c.chunkIndex && !receiver.received[i];
      ghost var marks := receiver.received[..][c.chunkIndex := true];
      assert !marks[i];
      var reply := DeliverChunk(c, moves);
      assert GapBelow(marks, c.chunkIndex);
      StatusToSender(reply.value);
      FinishPass(maxFileBytes, moves);
    }

    /**
     One pass without loss. The offer is sent again first if it has to be, and every reply goes
     back to the sender: none moves the cursor, the last takes the file off the queue, handed
     over or not.
     */
    method FinishPass(maxFileBytes: nat, moves: bool)
      requires Valid() && queued && receiver != null && !sender.paused
      requires forall i | 0 <= i < sender.nextChunk :: receiver.received[i]
      modifies Repr()
      ensures Valid() && receiver == null && !queued
      ensures finalized == old(finalized) + if ChecksumTrue() && moves then [sender.source] else []
    {
      if !sender.headerSent {
        ResendHeader(maxFileBytes);
      }
      while receiver != null
        invariant Valid() && sender.headerSent && !sender.paused
        invariant receiver == null || receiver == old(receiver)
        invariant queued <==> receiver != null
        invariant receiver != null ==> forall i | 0 <= i < sender.nextChunk :: receiver.received[i]
        invariant finalized == old(finalized) + if receiver == null && ChecksumTrue() && moves then [sender.source] else []
        decreases receiver != null, sender.offer.totalChunks - sender.nextChunk
      {
        SendAndDeliver(moves);
      }
    }

    /** The offer goes out again and is answered. */
    method ResendHeader(maxFileBytes: nat)
      requires Valid() && queued && receiver != null && !sender.headerSent && !sender.paused
      requires forall i | 0 <= i < sender.nextChunk :: receiver.received[i]
      modifies Repr()
      ensures Valid() && queued && receiver == old(receiver) && sender.headerSent && !sender.paused
      ensures sender.nextChunk == old(sender.nextChunk) && finalized == old(finalized)
      ensures receiver.received[..] == old(receiver.received[..])
    {
      hide Consistent;
      hide Slice;
      hide CountTrue;
      hide Agrees;
      var out := SendTick(true, true);
      var reply := DeliverHeader(sender.offer, maxFileBytes);
      if reply.Some? {
        StatusToSender(reply.value);
      }
    }

    /** The chunk under the cursor goes out, arrives and is answered. */
    method SendAndDeliver(moves: bool)
      requires Valid() && queued && receiver != null && sender.headerSent && !sender.paused
      requires forall i | 0 <= i < sender.nextChunk :: receiver.received[i]
      modifies Repr()
      ensures Valid() && sender.headerSent && !sender.paused
      ensures sender.nextChunk == old(sender.nextChunk) + 1
      ensures queued <==> receiver != null
      ensures receiver == null || receiver == old(receiver)
      ensures receiver != null ==> forall i | 0 <= i < sender.nextChunk :: receiver.received[i]
      ensures finalized == old(finalized) + if receiver == null && ChecksumTrue() && moves then [sender.source] else []
    {
      hide Consistent;
      hide Slice;
      hide CountTrue;
      hide Agrees;
      receiver.CompleteMeansSource(sender.source);
      var c := SendTick(true, true);
      var reply := DeliverChunk(c.value, moves);
      if reply.Some? {
        StatusToSender(reply.value);
      }
    }

    /** A file offered, accepted and sent without loss arrives whole. */
    static method TransferWhole(fileId: nat, source: Bytes, chunkSize: nat, maxFileBytes: nat, hash: Hash)
      returns (link: FileLink)
      requires fileId != 0 && 0 < |source| <= maxFileBytes && 0 < chunkSize < U32 && DivCeil(|source|, chunkSize) < U32
      ensures fresh(link) && link.finalized == [source] && !link.queued
    {
      var f := OutgoingFile.FromSource(fileId, true, source, chunkSize, maxFileBytes, hash);
      link := new FileLink(f.value, hash);
      var none := link.SendTick(true, true);
      var ready := link.DeliverHeader(link.sender.offer, maxFileBytes);
      link.RewindAndFinish(maxFileBytes, true);
    }
  }
}
