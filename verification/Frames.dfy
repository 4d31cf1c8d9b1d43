/**
 Video frames over packets: chunk_video_payload (crates/rift-core/src/lib.rs) and the
 client's FrameAssembler (crates/wavry-client/src/media.rs) undo each other under any
 order, any duplication and any interleaving with other frames.
 */
module Frames {
  import opened Common

  datatype VideoChunk = VideoChunk(
    frameId: nat, chunkIndex: nat, chunkCount: nat, timestampUs: nat, keyframe: bool,
    payload: Bytes, captureUs: nat, encodeUs: nat)

  datatype Frame = Frame(frameId: nat, timestampUs: nat, keyframe: bool, data: Bytes, captureUs: nat, encodeUs: nat)

  datatype ChunkError = InvalidMaxPayload | TooManyChunks

  // ---------------------------------------------------------------------------
  // Chunking
  // ---------------------------------------------------------------------------

  /** `payload.chunks(max)`: full pieces, then what is left. */
  function Pieces(payload: Bytes, max: nat): seq<Bytes>
    requires max > 0
  {
    if payload == [] then []
    else if |payload| <= max then [payload]
    else [payload[..max]] + Pieces(payload[max..], max)
  }

  function Join(pieces: seq<Bytes>): Bytes {
    if pieces == [] then [] else pieces[0] + Join(pieces[1..])
  }

  lemma {:induction false} JoinPieces(payload: Bytes, max: nat)
    requires max > 0
    ensures Join(Pieces(payload, max)) == payload
  {
    if |payload| > max {
      JoinPieces(payload[max..], max);
      assert Pieces(payload, max)[1..] == Pieces(payload[max..], max);
    } else if payload != [] {
      assert Join([payload]) == payload + Join([]);
    }
  }

  lemma DivCeilStep(n: nat, d: nat)
    requires d > 0 && n >= d
    ensures DivCeil(n, d) == 1 + DivCeil(n - d, d)
  {
    var c := DivCeil(n - d, d);
    DivCeilCovers(n - d, d, c);
    assert (c + 1) * d == c * d + d;
    DivCeilCovers(n, d, c + 1);
    DivCeilCovers(n, d, c);
    if c > 0 {
      assert (c - 1) * d == c * d - d;
      DivCeilCovers(n - d, d, c - 1);
    }
  }

  lemma {:induction false} PieceCount(payload: Bytes, max: nat)
    requires max > 0
    ensures |Pieces(payload, max)| == DivCeil(|payload|, max)
  {
    if |payload| > max {
      PieceCount(payload[max..], max);
      DivCeilStep(|payload|, max);
    } else {
      DivCeilCovers(|payload|, max, 0);
      DivCeilCovers(|payload|, max, 1);
    }
  }

  /** Every piece is full but the last, which is not empty. */
  lemma {:induction false} PieceLengths(payload: Bytes, max: nat, i: nat)
    requires max > 0 && i < |Pieces(payload, max)|
    ensures if i + 1 < |Pieces(payload, max)| then |Pieces(payload, max)[i]| == max
            else 0 < |Pieces(payload, max)[i]| <= max
  {
    if |payload| > max && i > 0 {
      PieceLengths(payload[max..], max, i - 1);
    }
  }

  function ChunkOf(f: Frame, pieces: seq<Bytes>, i: nat): VideoChunk
    requires i < |pieces|
  {
    VideoChunk(f.frameId, i, |pieces|, f.timestampUs, f.keyframe, pieces[i], f.captureUs, f.encodeUs)
  }

  /** The chunks of a frame, numbered in order, each carrying the frame's own description. */
  function ChunksOf(f: Frame, max: nat): seq<VideoChunk>
    requires max > 0
  {
    var pieces := Pieces(f.data, max);
    seq(|pieces|, i requires 0 <= i < |pieces| => ChunkOf(f, pieces, i))
  }

  method ChunkVideoPayload(f: Frame, maxPayload: nat) returns (r: Result<seq<VideoChunk>, ChunkError>)
    ensures r == if maxPayload == 0 then Err(InvalidMaxPayload)
                 else if |ChunksOf(f, maxPayload)| >= U32 then Err(TooManyChunks)
                 else Ok(ChunksOf(f, maxPayload))
  {
    if maxPayload == 0 {
      return Err(InvalidMaxPayload);
    }
    PieceCount(f.data, maxPayload);
    var chunkCount := DivCeil(|f.data|, maxPayload);
    if chunkCount > U32 - 1 {
      return Err(TooManyChunks);
    }
    var chunks := [];
    var rest := f.data;
    ghost var pieces := Pieces(f.data, maxPayload);
    while rest != []
      invariant |chunks| <= |pieces| && Pieces(rest, maxPayload) == pieces[|chunks|..]
      invariant chunks == ChunksOf(f, maxPayload)[..|chunks|]
      decreases |rest|
    {
      var n := Min(|rest|, maxPayload);
      chunks := chunks + [VideoChunk(f.frameId, |chunks|, chunkCount, f.timestampUs, f.keyframe, rest[..n],
                                     f.captureUs, f.encodeUs)];
      assert |rest| <= maxPayload ==> rest[..n] == rest && rest[n..] == [];
      assert Pieces(rest, maxPayload) == [rest[..n]] + Pieces(rest[n..], maxPayload);
      rest := rest[n..];
    }
    assert |chunks| == |pieces|;
    assert chunks == ChunksOf(f, maxPayload);
    return Ok(chunks);
  }

  // ---------------------------------------------------------------------------
  // Assembling
  // ---------------------------------------------------------------------------

  /** `chunks` has `chunk_count` slots. */
  datatype FrameBuffer = FrameBuffer(
    firstSeenUs: nat, timestampUs: nat, keyframe: bool, chunks: seq<Option<Bytes>>, captureUs: nat, encodeUs: nat)

  predicate Full(chunks: seq<Option<Bytes>>) {
    forall i | 0 <= i < |chunks| :: chunks[i].Some?
  }

  function Values(chunks: seq<Option<Bytes>>): seq<Bytes>
    requires Full(chunks)
  {
    seq(|chunks|, i requires 0 <= i < |chunks| => chunks[i].value)
  }

  function Unexpired(frames: map<nat, FrameBuffer>, timeout: nat, now: nat): map<nat, FrameBuffer> {
    map f | f in frames && SatSub(now, frames[f].firstSeenUs) < timeout :: frames[f]
  }

  function NewBuffer(c: VideoChunk, now: nat): FrameBuffer {
    FrameBuffer(now, c.timestampUs, c.keyframe, seq(c.chunkCount, _ => None), c.captureUs, c.encodeUs)
  }

  function Store(b: FrameBuffer, c: VideoChunk): FrameBuffer {
    if c.chunkIndex < |b.chunks| then b.(chunks := b.chunks[c.chunkIndex := Some(c.payload)]) else b
  }

  /** The buffer of the chunk's frame once the chunk is stored. */
  function Updated(frames: map<nat, FrameBuffer>, timeout: nat, c: VideoChunk, now: nat): FrameBuffer {
    var live := Unexpired(frames, timeout, now);
    Store(if c.frameId in live then live[c.frameId] else NewBuffer(c, now), c)
  }

  function FramesAfter(frames: map<nat, FrameBuffer>, timeout: nat, c: VideoChunk, now: nat): map<nat, FrameBuffer> {
    var b := Updated(frames, timeout, c, now);
    if Full(b.chunks) then Unexpired(frames, timeout, now) - {c.frameId}
    else Unexpired(frames, timeout, now)[c.frameId := b]
  }

  function Emitted(frames: map<nat, FrameBuffer>, timeout: nat, c: VideoChunk, now: nat): Option<Frame> {
    var b := Updated(frames, timeout, c, now);
    if Full(b.chunks) then Some(Frame(c.frameId, b.timestampUs, b.keyframe, Join(Values(b.chunks)), b.captureUs, b.encodeUs))
    else None
  }

  lemma {:induction false} JoinAppend(pieces: seq<Bytes>, last: Bytes)
    ensures Join(pieces + [last]) == Join(pieces) + last
  {
    if pieces == [] {
      assert [last][1..] == [];
    } else {
      JoinAppend(pieces[1..], last);
      assert (pieces + [last])[1..] == pieces[1..] + [last];
    }
  }

  method JoinChunks(chunks: seq<Option<Bytes>>) returns (assembled: Bytes)
    requires Full(chunks)
    ensures assembled == Join(Values(chunks))
  {
    assembled := [];
    ghost var parts := Values(chunks);
    for i := 0 to |chunks|
      invariant assembled == Join(parts[..i])
    {
      JoinAppend(parts[..i], parts[i]);
      assert parts[..i + 1] == parts[..i] + [parts[i]];
      assembled := assembled + chunks[i].value;
    }
    assert parts[..|parts|] == parts;
  }

  /** A chunk that finds no buffer younger than the timeout completes nothing unless it is alone. */
  lemma StaleStartsAfresh(frames: map<nat, FrameBuffer>, timeout: nat, c: VideoChunk, now: nat)
    requires c.frameId in frames && frames[c.frameId].firstSeenUs + timeout <= now && c.chunkCount >= 2
    ensures Emitted(frames, timeout, c, now).None?
  {
    var b := Updated(frames, timeout, c, now);
    var other := if c.chunkIndex == 0 then 1 else 0;
    assert b.chunks[other].None?;
  }

  /** No buffer is a timeout old, and of the other frames exactly the younger buffers are still there. */
  ghost predicate KeepsTime(frames: map<nat, FrameBuffer>, frames': map<nat, FrameBuffer>, timeout: nat, c: VideoChunk,
                            now: nat)
  {
    && (timeout > 0 ==> forall id <- frames' :: now < frames'[id].firstSeenUs + timeout)
    && (timeout > 0 ==>
          forall id <- frames | id != c.frameId :: id in frames' <==> now < frames[id].firstSeenUs + timeout)
    && (forall id <- frames' | id != c.frameId :: id in frames && frames'[id] == frames[id])
  }

  lemma PushKeepsTime(frames: map<nat, FrameBuffer>, timeout: nat, c: VideoChunk, now: nat)
    ensures KeepsTime(frames, FramesAfter(frames, timeout, c, now), timeout, c, now)
    ensures Emitted(frames, timeout, c, now).Some? <==> c.frameId !in FramesAfter(frames, timeout, c, now)
    ensures var frames' := FramesAfter(frames, timeout, c, now);
            c.frameId in frames' && c.chunkIndex < |frames'[c.frameId].chunks| ==>
              frames'[c.frameId].chunks[c.chunkIndex] == Some(c.payload)
    ensures c.frameId in frames && frames[c.frameId].firstSeenUs + timeout <= now && c.chunkCount >= 2 ==>
              Emitted(frames, timeout, c, now).None?
  {
    if c.frameId in frames && frames[c.frameId].firstSeenUs + timeout <= now && c.chunkCount >= 2 {
      StaleStartsAfresh(frames, timeout, c, now);
    }
    hide Full;
  }

  class FrameAssembler {
    const timeoutUs: nat
    var frames: map<nat, FrameBuffer>

    constructor (timeoutUs: nat)
      ensures this.timeoutUs == timeoutUs && frames == map[]
    {
      this.timeoutUs := timeoutUs;
      frames := map[];
    }

    /**
     No buffer outlives its timeout and no younger one is lost. What a frame gathered a timeout
     ago or earlier does not count: its next chunk starts afresh.
     */
    method Push(c: VideoChunk, now: nat) returns (r: Option<Frame>)
      modifies this`frames
      ensures frames == FramesAfter(old(frames), timeoutUs, c, now)
      ensures r == Emitted(old(frames), timeoutUs, c, now)
      ensures KeepsTime(old(frames), frames, timeoutUs, c, now)
      ensures r.Some? <==> c.frameId !in frames
      ensures r.None? && c.chunkIndex < |frames[c.frameId].chunks| ==>
                frames[c.frameId].chunks[c.chunkIndex] == Some(c.payload)
      ensures c.frameId in old(frames) && old(frames)[c.frameId].firstSeenUs + timeoutUs <= now && c.chunkCount >= 2 ==>
                r.None?
    {
      PushKeepsTime(frames, timeoutUs, c, now);
      hide KeepsTime;
      hide Full;
      hide Join;
      frames := Unexpired(frames, timeoutUs, now);
      if c.frameId !in frames {
        frames := frames[c.frameId := NewBuffer(c, now)];
      }
      var entry := frames[c.frameId];
      if c.chunkIndex < |entry.chunks| {
        entry := entry.(chunks := entry.chunks[c.chunkIndex := Some(c.payload)]);
      }
      frames := frames[c.frameId := entry];
      if !Full(entry.chunks) {
        return None;
      }
      var assembled := JoinChunks(entry.chunks);
      frames := frames - {c.frameId};
      return Some(Frame(c.frameId, entry.timestampUs, entry.keyframe, assembled, entry.captureUs, entry.encodeUs));
    }
  }

  // ---------------------------------------------------------------------------
  // The round trip
  // ---------------------------------------------------------------------------

  datatype Event = Event(chunk: VideoChunk, now: nat)

  function Run(frames: map<nat, FrameBuffer>, timeout: nat, events: seq<Event>): map<nat, FrameBuffer> {
    if events == [] then frames
    else
      var last := events[|events| - 1];
      FramesAfter(Run(frames, timeout, events[..|events| - 1]), timeout, last.chunk, last.now)
  }

  /** What the assembler returns for the m-th event of a run. */
  function OutputAt(frames: map<nat, FrameBuffer>, timeout: nat, events: seq<Event>, m: nat): Option<Frame>
    requires m < |events|
  {
    Emitted(Run(frames, timeout, events[..m]), timeout, events[m].chunk, events[m].now)
  }

  /** The chunk numbers of frame `id` among the events. */
  ghost function Arrived(events: seq<Event>, id: nat): set<nat> {
    if events == [] then {}
    else
      var c := events[|events| - 1].chunk;
      Arrived(events[..|events| - 1], id) + if c.frameId == id then {c.chunkIndex} else {}
  }

  /** All of the n chunk numbers are there. */
  ghost predicate Complete(have: set<nat>, n: nat) {
    forall i | 0 <= i < n :: i in have
  }

  /** Every event of the frame carries one of its chunks, and nothing happens after the frame's timeout. */
  ghost predicate GenuineRun(f: Frame, max: nat, timeout: nat, events: seq<Event>)
    requires max > 0
  {
    && (forall i | 0 <= i < |events| && events[i].chunk.frameId == f.frameId :: events[i].chunk in ChunksOf(f, max))
    && (forall i, j | 0 <= i < j < |events| && events[i].chunk.frameId == f.frameId ::
          events[i].now <= events[j].now < events[i].now + timeout)
  }

  /** The buffer holds exactly the chunks `have` of the frame, first seen when the run began it. */
  ghost predicate Holds(b: FrameBuffer, f: Frame, max: nat, have: set<nat>)
    requires max > 0
  {
    var pieces := Pieces(f.data, max);
    && |b.chunks| == |pieces|
    && b.timestampUs == f.timestampUs && b.keyframe == f.keyframe
    && b.captureUs == f.captureUs && b.encodeUs == f.encodeUs
    && (forall i | 0 <= i < |pieces| :: b.chunks[i] == if i in have then Some(pieces[i]) else None)
  }

  lemma StoreHolds(b: FrameBuffer, f: Frame, max: nat, have: set<nat>, c: VideoChunk)
    requires max > 0 && Holds(b, f, max, have) && c in ChunksOf(f, max)
    ensures Holds(Store(b, c), f, max, have + {c.chunkIndex})
  {
  }

  lemma FullIffAll(b: FrameBuffer, f: Frame, max: nat, have: set<nat>)
    requires max > 0 && Holds(b, f, max, have)
    ensures Full(b.chunks) <==> Complete(have, |Pieces(f.data, max)|)
    ensures Full(b.chunks) ==> Join(Values(b.chunks)) == f.data
  {
    if Full(b.chunks) {
      forall i | 0 <= i < |b.chunks|
        ensures i in have
      {
        assert b.chunks[i].Some?;
      }
      assert Values(b.chunks) == Pieces(f.data, max);
      JoinPieces(f.data, max);
    }
  }

  /** Where the frame stands after a prefix that has not completed it. */
  ghost predicate Progress(frames: map<nat, FrameBuffer>, f: Frame, max: nat, events: seq<Event>)
    requires max > 0
  {
    var have := Arrived(events, f.frameId);
    && (have == {} ==> f.frameId !in frames)
    && (have != {} ==>
          && f.frameId in frames
          && Holds(frames[f.frameId], f, max, have)
          && exists i :: 0 <= i < |events| && events[i].chunk.frameId == f.frameId
                         && frames[f.frameId].firstSeenUs == events[i].now)
  }

  /** One chunk of the frame: the buffer it lands in holds exactly what has arrived. */
  lemma ChunkStored(frames: map<nat, FrameBuffer>, f: Frame, max: nat, timeout: nat, before: seq<Event>, e: Event)
    requires max > 0 && Progress(frames, f, max, before) && GenuineRun(f, max, timeout, before + [e])
    requires e.chunk.frameId == f.frameId
    ensures Holds(Updated(frames, timeout, e.chunk, e.now), f, max, Arrived(before, f.frameId) + {e.chunk.chunkIndex})
  {
    var events := before + [e];
    var have := Arrived(before, f.frameId);
    assert events[|before|] == e;
    if have != {} {
      var i :| 0 <= i < |before| && before[i].chunk.frameId == f.frameId && frames[f.frameId].firstSeenUs == before[i].now;
      assert events[i] == before[i];
      assert f.frameId in Unexpired(frames, timeout, e.now);
      StoreHolds(frames[f.frameId], f, max, have, e.chunk);
    } else {
      assert Holds(NewBuffer(e.chunk, e.now), f, max, {});
      StoreHolds(NewBuffer(e.chunk, e.now), f, max, {}, e.chunk);
    }
  }

  /** An event of another frame leaves this frame's buffer alone. */
  lemma OtherFrame(frames: map<nat, FrameBuffer>, f: Frame, max: nat, timeout: nat, before: seq<Event>, e: Event)
    requires max > 0 && Progress(frames, f, max, before) && GenuineRun(f, max, timeout, before + [e])
    requires e.chunk.frameId != f.frameId
    ensures Progress(FramesAfter(frames, timeout, e.chunk, e.now), f, max, before + [e])
  {
  }

  lemma ThisFrame(frames: map<nat, FrameBuffer>, f: Frame, max: nat, timeout: nat, before: seq<Event>, e: Event)
    requires max > 0 && Progress(frames, f, max, before) && GenuineRun(f, max, timeout, before + [e])
    requires e.chunk.frameId == f.frameId
    requires !Complete(Arrived(before + [e], f.frameId), |Pieces(f.data, max)|)
    ensures Progress(FramesAfter(frames, timeout, e.chunk, e.now), f, max, before + [e])
  {
    var events := before + [e];
    var have := Arrived(before, f.frameId);
    assert events[..|before|] == before && events[|before|] == e;
    ChunkStored(frames, f, max, timeout, before, e);
    FullIffAll(Updated(frames, timeout, e.chunk, e.now), f, max, have + {e.chunk.chunkIndex});
    if have != {} {
      var i :| 0 <= i < |before| && before[i].chunk.frameId == f.frameId && frames[f.frameId].firstSeenUs == before[i].now;
      assert events[i] == before[i];
    } else {
      assert events[|before|].now == e.now;
    }
  }

  lemma GenuinePrefix(f: Frame, max: nat, timeout: nat, events: seq<Event>, m: nat)
    requires max > 0 && GenuineRun(f, max, timeout, events) && m <= |events|
    ensures GenuineRun(f, max, timeout, events[..m])
  {
  }

  lemma {:induction false} ArrivedGrows(events: seq<Event>, id: nat, m: nat)
    requires m <= |events|
    ensures Arrived(events[..m], id) <= Arrived(events, id)
  {
    if m < |events| {
      var n := |events| - 1;
      ArrivedGrows(events[..n], id, m);
      assert events[..n][..m] == events[..m];
    } else {
      assert events[..m] == events;
    }
  }

  /** As long as the frame is not complete, the assembler holds exactly what has arrived of it. */
  lemma {:induction false} RunProgress(frames: map<nat, FrameBuffer>, f: Frame, max: nat, timeout: nat, events: seq<Event>)
    requires max > 0 && f.frameId !in frames && GenuineRun(f, max, timeout, events)
    requires !Complete(Arrived(events, f.frameId), |Pieces(f.data, max)|)
    ensures Progress(Run(frames, timeout, events), f, max, events)
  {
    if events != [] {
      var n := |events| - 1;
      var before, e := events[..n], events[n];
      ArrivedGrows(events, f.frameId, n);
      GenuinePrefix(f, max, timeout, events, n);
      RunProgress(frames, f, max, timeout, before);
      assert events == before + [e];
      if e.chunk.frameId == f.frameId {
        ThisFrame(Run(frames, timeout, before), f, max, timeout, before, e);
      } else {
        OtherFrame(Run(frames, timeout, before), f, max, timeout, before, e);
      }
    }
  }

  /**
   The round trip. Chunks of a frame arrive in any order, repeated or not, among chunks of
   any other frames and inside the timeout. The assembler stays silent about the frame until
   its last missing chunk arrives, and then returns exactly the frame that was chunked.
   */
  lemma EmittedOnLastChunk(frames: map<nat, FrameBuffer>, f: Frame, max: nat, timeout: nat, events: seq<Event>, m: nat)
    requires max > 0 && f.frameId !in frames && GenuineRun(f, max, timeout, events)
    requires m < |events| && events[m].chunk.frameId == f.frameId
    requires !Complete(Arrived(events[..m], f.frameId), |Pieces(f.data, max)|)
    ensures OutputAt(frames, timeout, events, m)
         == if Complete(Arrived(events[..m + 1], f.frameId), |Pieces(f.data, max)|) then Some(f) else None
  {
    var before, e := events[..m], events[m];
    GenuinePrefix(f, max, timeout, events, m);
    GenuinePrefix(f, max, timeout, events, m + 1);
    RunProgress(frames, f, max, timeout, before);
    assert events[..m + 1] == before + [e];
    assert events[..m + 1][..m] == before;
    var now := Run(frames, timeout, before);
    ChunkStored(now, f, max, timeout, before, e);
    FullIffAll(Updated(now, timeout, e.chunk, e.now), f, max, Arrived(before, f.frameId) + {e.chunk.chunkIndex});
  }

  // ---------------------------------------------------------------------------
  // What any emitted frame is made of
  // ---------------------------------------------------------------------------

  ghost predicate Ordered(events: seq<Event>) {
    forall i, j | 0 <= i < j < |events| :: events[i].now <= events[j].now
  }

  /** Event `j` brought piece `i` of frame `id`, less than a timeout after event `s` opened its buffer. */
  ghost predicate Brought(events: seq<Event>, timeout: nat, id: nat, s: nat, i: nat, piece: Bytes, j: nat) {
    && s <= j < |events|
    && events[j].chunk.frameId == id && events[j].chunk.chunkIndex == i && events[j].chunk.payload == piece
    && (j == s || events[j].now < events[s].now + timeout)
  }

  ghost predicate Came(events: seq<Event>, timeout: nat, id: nat, s: nat, i: nat, piece: Bytes) {
    exists j: nat :: Brought(events, timeout, id, s, i, piece, j)
  }

  /** Everything in the buffer came with event `s` or less than a timeout after it. */
  ghost predicate GatheredSince(b: FrameBuffer, events: seq<Event>, timeout: nat, id: nat, s: nat) {
    && s < |events| && events[s].chunk.frameId == id
    && (var c := events[s].chunk;
        && |b.chunks| == c.chunkCount && b.firstSeenUs == events[s].now
        && b.timestampUs == c.timestampUs && b.keyframe == c.keyframe
        && b.captureUs == c.captureUs && b.encodeUs == c.encodeUs)
    && (forall i: nat | i < |b.chunks| && b.chunks[i].Some? :: Came(events, timeout, id, s, i, b.chunks[i].value))
  }

  ghost predicate Gathered(b: FrameBuffer, events: seq<Event>, timeout: nat, id: nat) {
    exists s: nat :: GatheredSince(b, events, timeout, id, s)
  }

  lemma GatheredLater(b: FrameBuffer, before: seq<Event>, e: Event, timeout: nat, id: nat)
    requires Gathered(b, before, timeout, id)
    ensures Gathered(b, before + [e], timeout, id)
  {
    var events := before + [e];
    var s: nat :| GatheredSince(b, before, timeout, id, s);
    forall i: nat | i < |b.chunks| && b.chunks[i].Some?
      ensures Came(events, timeout, id, s, i, b.chunks[i].value)
    {
      var j: nat :| Brought(before, timeout, id, s, i, b.chunks[i].value, j);
      assert Brought(events, timeout, id, s, i, b.chunks[i].value, j);
    }
    assert GatheredSince(b, events, timeout, id, s);
  }

  lemma StoreGathers(b: FrameBuffer, before: seq<Event>, e: Event, timeout: nat)
    requires Gathered(b, before, timeout, e.chunk.frameId) && e.now < b.firstSeenUs + timeout
    ensures Gathered(Store(b, e.chunk), before + [e], timeout, e.chunk.frameId)
  {
    var events, id := before + [e], e.chunk.frameId;
    var s: nat :| GatheredSince(b, before, timeout, id, s);
    var b' := Store(b, e.chunk);
    forall i: nat | i < |b'.chunks| && b'.chunks[i].Some?
      ensures Came(events, timeout, id, s, i, b'.chunks[i].value)
    {
      if i == e.chunk.chunkIndex {
        assert Brought(events, timeout, id, s, i, b'.chunks[i].value, |before|);
      } else {
        var j: nat :| Brought(before, timeout, id, s, i, b.chunks[i].value, j);
        assert Brought(events, timeout, id, s, i, b'.chunks[i].value, j);
      }
    }
    assert GatheredSince(b', events, timeout, id, s);
  }

  lemma NewGathers(before: seq<Event>, e: Event, timeout: nat)
    ensures Gathered(Store(NewBuffer(e.chunk, e.now), e.chunk), before + [e], timeout, e.chunk.frameId)
  {
    var events, id, s := before + [e], e.chunk.frameId, |before|;
    var b := Store(NewBuffer(e.chunk, e.now), e.chunk);
    forall i: nat | i < |b.chunks| && b.chunks[i].Some?
      ensures Came(events, timeout, id, s, i, b.chunks[i].value)
    {
      assert Brought(events, timeout, id, s, i, b.chunks[i].value, s);
    }
    assert GatheredSince(b, events, timeout, id, s);
  }

  /** The buffer a chunk lands in, and with it every frame emitted, was gathered inside one timeout. */
  lemma UpdatedGathers(frames: map<nat, FrameBuffer>, before: seq<Event>, e: Event, timeout: nat)
    requires forall id <- frames :: Gathered(frames[id], before, timeout, id)
    requires forall id <- frames :: frames[id].firstSeenUs <= e.now
    ensures Gathered(Updated(frames, timeout, e.chunk, e.now), before + [e], timeout, e.chunk.frameId)
  {
    hide Gathered;
    NewGathers(before, e, timeout);
    if e.chunk.frameId in Unexpired(frames, timeout, e.now) {
      StoreGathers(frames[e.chunk.frameId], before, e, timeout);
    }
  }

  ghost predicate AllGathered(frames: map<nat, FrameBuffer>, events: seq<Event>, timeout: nat, now: nat) {
    forall id <- frames :: Gathered(frames[id], events, timeout, id) && frames[id].firstSeenUs <= now
  }

  lemma StepGathers(frames: map<nat, FrameBuffer>, before: seq<Event>, e: Event, timeout: nat)
    requires AllGathered(frames, before, timeout, e.now)
    ensures AllGathered(FramesAfter(frames, timeout, e.chunk, e.now), before + [e], timeout, e.now)
  {
    hide Gathered;
    hide Full;
    UpdatedGathers(frames, before, e, timeout);
    forall id <- frames
      ensures Gathered(frames[id], before + [e], timeout, id)
    {
      GatheredLater(frames[id], before, e, timeout, id);
    }
  }

  lemma {:induction false} RunGathers(timeout: nat, events: seq<Event>, now: nat)
    requires Ordered(events) && (events != [] ==> events[|events| - 1].now <= now)
    ensures AllGathered(Run(map[], timeout, events), events, timeout, now)
  {
    if events != [] {
      var n := |events| - 1;
      var before, e := events[..n], events[n];
      assert events == before + [e];
      RunGathers(timeout, before, e.now);
      var frames := Run(map[], timeout, before);
      hide Gathered;
      hide FramesAfter;
      StepGathers(frames, before, e, timeout);
    }
  }

  /** Frame `f` was put together, in order, from pieces gathered since event `s`. */
  ghost predicate MadeOf(f: Frame, events: seq<Event>, timeout: nat, s: nat, pieces: seq<Bytes>) {
    && s < |events| && events[s].chunk.frameId == f.frameId
    && (var c := events[s].chunk;
        && |pieces| == c.chunkCount && f.timestampUs == c.timestampUs && f.keyframe == c.keyframe
        && f.captureUs == c.captureUs && f.encodeUs == c.encodeUs)
    && f.data == Join(pieces)
    && (forall i: nat | i < |pieces| :: Came(events, timeout, f.frameId, s, i, pieces[i]))
  }

  /**
   Whatever the events, an emitted frame consists of pieces of one frame id, each of which came
   less than a timeout after the first of them.
   */
  lemma EmittedInTime(timeout: nat, events: seq<Event>, m: nat) returns (s: nat, pieces: seq<Bytes>)
    requires Ordered(events) && m < |events| && OutputAt(map[], timeout, events, m).Some?
    ensures MadeOf(OutputAt(map[], timeout, events, m).value, events[..m + 1], timeout, s, pieces)
  {
    var before, e := events[..m], events[m];
    assert events[..m + 1] == before + [e];
    RunGathers(timeout, before, e.now);
    var frames := Run(map[], timeout, before);
    UpdatedGathers(frames, before, e, timeout);
    var b := Updated(frames, timeout, e.chunk, e.now);
    pieces := Values(b.chunks);
    s :| GatheredSince(b, before + [e], timeout, e.chunk.frameId, s);
  }
}
