/**
 Chunked file transfer (crates/wavry-common/src/file_transfer.rs): the sending cursor over the
 source bytes and the receiving bitmap over the file being filled in place.
 */
module FileTransfer {
  import opened Common

  /** `nameOk`: the name survives sanitizing. */
  datatype FileOffer = FileOffer(
    fileId: nat, nameOk: bool, fileSize: nat, checksum: string, chunkSize: nat, totalChunks: nat)

  predicate IsHexDigit(c: char) { '0' <= c <= '9' || 'a' <= c <= 'f' || 'A' <= c <= 'F' }

  predicate IsHexDigest(s: string) { |s| == 64 && forall i | 0 <= i < 64 :: IsHexDigit(s[i]) }

  /** SHA-256 in hex: any function of the bytes with results of that form. */
  type Digest = s: string | IsHexDigest(s) witness seq(64, _ => '0')
  type Hash = Bytes -> Digest

  datatype FileChunk = FileChunk(fileId: nat, chunkIndex: nat, payload: Bytes)

  datatype TransferError =
    | ZeroFileId | BadName | ZeroSize | TooLarge | ZeroChunkSize | ZeroChunks | TooManyChunks | WrongChunkCount
    | BadChecksum
    | IndexOutOfRange | WrongLength

  // ---------------------------------------------------------------------------
  // Chunk geometry
  // ---------------------------------------------------------------------------

  function ChunkCount(fileSize: nat, chunkSize: nat): Result<nat, TransferError> {
    if chunkSize == 0 then Err(ZeroChunkSize)
    else
      var count := DivCeil(fileSize, chunkSize);
      if count == 0 then Err(ZeroSize)
      else if count > U32 - 1 then Err(TooManyChunks)
      else Ok(count)
  }

  function ValidateOffer(o: FileOffer, maxFileBytes: nat): Result<(), TransferError> {
    if o.fileId == 0 then Err(ZeroFileId)
    else if !o.nameOk then Err(BadName)
    else if o.fileSize == 0 then Err(ZeroSize)
    else if o.fileSize > maxFileBytes then Err(TooLarge)
    else if o.chunkSize == 0 then Err(ZeroChunkSize)
    else if o.totalChunks == 0 then Err(ZeroChunks)
    else match ChunkCount(o.fileSize, o.chunkSize)
         case Err(e) => Err(e)
         case Ok(expected) =>
           if expected != o.totalChunks then Err(WrongChunkCount)
           else if !IsHexDigest(o.checksum) then Err(BadChecksum)
           else Ok(())
  }

  /** An offer whose chunk count is right for its size. */
  ghost predicate Consistent(o: FileOffer) {
    && o.fileId != 0
    && 0 < o.chunkSize < U32
    && 0 < o.totalChunks < U32
    && forall c: nat :: Covers(o, c) <==> o.totalChunks <= c
  }

  /** `c` chunks are enough for the file. */
  ghost predicate Covers(o: FileOffer, c: nat) { o.fileSize <= c * o.chunkSize }

  /** Validation accepts exactly the consistent offers within the limit that have a usable name and checksum. */
  lemma ValidatedIsConsistent(o: FileOffer, maxFileBytes: nat)
    requires o.chunkSize < U32
    ensures ValidateOffer(o, maxFileBytes).Ok? <==>
              Consistent(o) && o.fileSize <= maxFileBytes && o.nameOk && IsHexDigest(o.checksum)
  {
    if o.chunkSize > 0 {
      forall c: nat
        ensures Covers(o, c) <==> DivCeil(o.fileSize, o.chunkSize) <= c
      {
        DivCeilCovers(o.fileSize, o.chunkSize, c);
      }
      if Consistent(o) {
        assert Covers(o, o.totalChunks) && Covers(o, DivCeil(o.fileSize, o.chunkSize));
        assert !Covers(o, 0);
      }
    }
  }

  function ExpectedChunkLen(o: FileOffer, i: nat): Result<nat, TransferError> {
    if i >= o.totalChunks then Err(IndexOutOfRange)
    else Ok(Min(SatSub(o.fileSize, Offset(o, i)), o.chunkSize))
  }

  /** Where chunk `i` starts. */
  function Offset(o: FileOffer, i: nat): nat { i * o.chunkSize }

  /** Where chunk `i` ends. */
  function End(o: FileOffer, i: nat): nat { Min(o.fileSize, Offset(o, i) + o.chunkSize) }

  /** Chunks of a consistent offer are non-empty, adjacent, and end where the file ends. */
  lemma ChunkBounds(o: FileOffer, i: nat)
    requires Consistent(o) && i < o.totalChunks
    ensures Offset(o, i) < End(o, i) <= o.fileSize
    ensures ExpectedChunkLen(o, i) == Ok(End(o, i) - Offset(o, i))
    ensures i + 1 < o.totalChunks ==> End(o, i) == Offset(o, i + 1)
    ensures i + 1 == o.totalChunks ==> End(o, i) == o.fileSize
  {
    assert !Covers(o, i);
    assert Offset(o, i + 1) == Offset(o, i) + o.chunkSize;
    assert Covers(o, i + 1) <==> o.totalChunks <= i + 1;
  }

  lemma ChunksDisjoint(o: FileOffer, i: nat, j: nat)
    requires i < j
    ensures Offset(o, i) + o.chunkSize <= Offset(o, j)
  {
    MulMonotone(i + 1, j, o.chunkSize);
    assert Offset(o, i + 1) == Offset(o, i) + o.chunkSize;
  }

  lemma Apart(o: FileOffer, i: nat, j: nat)
    requires i != j
    ensures End(o, i) <= Offset(o, j) || End(o, j) <= Offset(o, i)
  {
    if i < j {
      ChunksDisjoint(o, i, j);
    } else {
      ChunksDisjoint(o, j, i);
    }
  }

  /** Every byte of the file lies in a chunk. */
  lemma ChunksCover(o: FileOffer, p: nat) returns (i: nat)
    requires Consistent(o) && p < o.fileSize
    ensures i < o.totalChunks && Offset(o, i) <= p < End(o, i)
  {
    i := p / o.chunkSize;
    assert p == Offset(o, i) + p % o.chunkSize;
    assert !Covers(o, i);
  }

  /** The bytes of chunk `i`. */
  function Slice(o: FileOffer, file: Bytes, i: nat): Bytes
    requires Consistent(o) && i < o.totalChunks && |file| == o.fileSize
  {
    ChunkBounds(o, i);
    file[Offset(o, i)..End(o, i)]
  }

  function Splice(file: Bytes, at: nat, payload: Bytes): Bytes
    requires at + |payload| <= |file|
  {
    file[..at] + payload + file[at + |payload|..]
  }

  // ---------------------------------------------------------------------------
  // What a partly received file says
  // ---------------------------------------------------------------------------

  /** Every chunk marked received holds exactly the source's bytes. */
  ghost predicate Agrees(o: FileOffer, file: Bytes, received: seq<bool>, source: Bytes)
    requires Consistent(o) && |file| == |source| == o.fileSize && |received| == o.totalChunks
  {
    forall i | 0 <= i < o.totalChunks && received[i] :: Slice(o, file, i) == Slice(o, source, i)
  }

  /** Writing the source's own chunk keeps every other chunk and fills this one. */
  lemma WriteKeepsAgreement(o: FileOffer, file: Bytes, received: seq<bool>, source: Bytes, i: nat)
    requires Consistent(o) && |file| == |source| == o.fileSize && |received| == o.totalChunks
    requires i < o.totalChunks && Agrees(o, file, received, source)
    ensures Offset(o, i) + |Slice(o, source, i)| <= |file|
    ensures Agrees(o, Splice(file, Offset(o, i), Slice(o, source, i)), received[i := true], source)
  {
    hide Consistent;
    hide Splice;
    hide Offset;
    ChunkBounds(o, i);
    var at, piece := Offset(o, i), Slice(o, source, i);
    var file' := Splice(file, at, piece);
    SpliceSelf(file, at, piece);
    forall j | 0 <= j < o.totalChunks && received[i := true][j]
      ensures Slice(o, file', j) == Slice(o, source, j)
    {
      if j != i {
        assert received[j];
        ChunkBounds(o, j);
        Apart(o, i, j);
        SpliceElsewhere(file, at, piece, Offset(o, j), End(o, j));
      }
    }
  }

  lemma SpliceSelf(file: Bytes, at: nat, payload: Bytes)
    requires at + |payload| <= |file|
    ensures |Splice(file, at, payload)| == |file|
    ensures Splice(file, at, payload)[at..at + |payload|] == payload
  {
  }

  lemma SpliceElsewhere(file: Bytes, at: nat, payload: Bytes, lo: nat, hi: nat)
    requires at + |payload| <= |file| && lo <= hi <= |file|
    requires hi <= at || at + |payload| <= lo
    ensures |Splice(file, at, payload)| == |file|
    ensures Splice(file, at, payload)[lo..hi] == file[lo..hi]
  {
  }

  lemma SliceAt(o: FileOffer, file: Bytes, i: nat, p: nat)
    requires Consistent(o) && |file| == o.fileSize && i < o.totalChunks && Offset(o, i) <= p < End(o, i)
    ensures p - Offset(o, i) < |Slice(o, file, i)| && Slice(o, file, i)[p - Offset(o, i)] == file[p]
  {
  }

  /** Once every chunk agrees, the file is the source. */
  lemma CompleteIsSource(o: FileOffer, file: Bytes, received: seq<bool>, source: Bytes)
    requires Consistent(o) && |file| == |source| == o.fileSize && |received| == o.totalChunks
    requires Agrees(o, file, received, source)
    requires forall i | 0 <= i < o.totalChunks :: received[i]
    ensures file == source
  {
    hide Consistent;
    hide Offset;
    forall p | 0 <= p < |file|
      ensures file[p] == source[p]
    {
      var i := ChunksCover(o, p);
      assert received[i];
      SliceAt(o, file, i, p);
      SliceAt(o, source, i, p);
    }
  }

  ghost function CountTrue(s: seq<bool>): nat {
    if s == [] then 0 else CountTrue(s[..|s| - 1]) + if s[|s| - 1] then 1 else 0
  }

  lemma {:induction false} CountTrueMark(s: seq<bool>, i: nat)
    requires i < |s|
    ensures CountTrue(s[i := true]) == CountTrue(s) + if s[i] then 0 else 1
  {
    var n := |s| - 1;
    if i < n {
      CountTrueMark(s[..n], i);
      assert s[i := true][..n] == s[..n][i := true];
    } else {
      assert s[i := true][..n] == s[..n];
    }
  }

  lemma {:induction false} CountTrueAll(s: seq<bool>)
    ensures CountTrue(s) <= |s|
    ensures CountTrue(s) == |s| <==> forall i | 0 <= i < |s| :: s[i]
  {
    if s != [] {
      var n := |s| - 1;
      CountTrueAll(s[..n]);
      if forall i | 0 <= i < n :: s[..n][i] {
        assert forall i | 0 <= i < n :: s[i];
      } else {
        var i :| 0 <= i < n && !s[..n][i];
        assert !s[i];
      }
    }
  }

  lemma {:induction false} CountTrueNone(s: seq<bool>)
    requires forall i | 0 <= i < |s| :: !s[i]
    ensures CountTrue(s) == 0
  {
    if s != [] {
      CountTrueNone(s[..|s| - 1]);
    }
  }

  // ---------------------------------------------------------------------------
  // The two ends
  // ---------------------------------------------------------------------------

  /** The chunk size fits 32 bits, or what is left of it still holds the whole file in one chunk. */
  predicate SurvivesCut(fileSize: nat, chunkSize: nat) {
    chunkSize < U32 || 0 < fileSize <= chunkSize % U32
  }

  /** A chunk at most half as long needs more chunks, unless one of them is enough. */
  lemma SmallerChunksCountMore(n: nat, size: nat, cut: nat)
    requires 0 < 2 * cut <= size && n > cut
    ensures DivCeil(n, cut) > DivCeil(n, size)
  {
    var k := DivCeil(n, size);
    DivCeilCovers(n, cut, 1);
    if k > 1 {
      DivCeilCovers(n, size, k - 1);
      DivCeilCovers(n, cut, k);
      hide DivCeil;
      MulMonotone(2 * cut, size, k - 1);
      MulMonotone(k, 2 * (k - 1), cut);
      assert 2 * (k - 1) * cut == 2 * cut * (k - 1);
    }
  }

  lemma OneChunk(n: nat, size: nat)
    requires 0 < n <= size
    ensures DivCeil(n, size) == 1
  {
    DivCeilCovers(n, size, 0);
    DivCeilCovers(n, size, 1);
  }

  /** `chunk_size as u32` leaves the number of chunks as it is exactly for the sizes that survive it. */
  lemma CutKeepsCount(fileSize: nat, chunkSize: nat)
    requires chunkSize > 0 && fileSize > 0
    ensures chunkSize % U32 != 0 && DivCeil(fileSize, chunkSize % U32) == DivCeil(fileSize, chunkSize)
            <==> SurvivesCut(fileSize, chunkSize)
  {
    hide DivCeil;
    var cut := chunkSize % U32;
    if chunkSize >= U32 && cut != 0 {
      if fileSize <= cut {
        OneChunk(fileSize, cut);
        OneChunk(fileSize, chunkSize);
      } else {
        SmallerChunksCountMore(fileSize, chunkSize, cut);
      }
    }
  }

  /** A chunk size of 2^32 is cut to zero. */
  lemma SizeCutAway(fileId: nat, source: Bytes, hash: Hash)
    requires fileId != 0 && source != []
    ensures ValidateOffer(FileOffer(fileId, true, |source|, hash(source), U32 % U32, DivCeil(|source|, U32)), |source|)
         == Err(ZeroChunkSize)
  {
  }

  class OutgoingFile {
    const offer: FileOffer
    const source: Bytes
    var nextChunk: nat
    var headerSent: bool
    var paused: bool

    ghost predicate Sized()
      reads this
    {
      |source| == offer.fileSize && nextChunk <= offer.totalChunks
    }

    ghost predicate Valid()
      reads this
    {
      Sized() && Consistent(offer)
    }

    constructor (offer: FileOffer, source: Bytes)
      ensures this.offer == offer && this.source == source && nextChunk == 0 && !headerSent && !paused
    {
      this.offer, this.source := offer, source;
      nextChunk, headerSent, paused := 0, false, false;
    }

    /**
     Which files can be offered. The chunk count is computed from the whole chunk size, the
     offer carries it cut to 32 bits: the offer is one its receiver accepts exactly when the
     size survives the cut.
     */
    static method FromSource(fileId: nat, nameOk: bool, source: Bytes, chunkSize: nat, maxFileBytes: nat, hash: Hash)
      returns (r: Result<OutgoingFile, TransferError>)
      ensures r.Ok? <==> && fileId != 0 && chunkSize != 0 && source != [] && |source| <= maxFileBytes && nameOk
                         && DivCeil(|source|, chunkSize) < U32
      ensures r.Ok? ==> && fresh(r.value) && r.value.source == source
                        && r.value.nextChunk == 0 && !r.value.headerSent && !r.value.paused
                        && r.value.offer
                           == FileOffer(fileId, true, |source|, hash(source), chunkSize % U32, DivCeil(|source|, chunkSize))
      ensures r.Ok? ==> (ValidateOffer(r.value.offer, maxFileBytes).Ok? <==> SurvivesCut(|source|, chunkSize))
      ensures r.Ok? ==> (r.value.Valid() <==> SurvivesCut(|source|, chunkSize))
    {
      if fileId == 0 {
        return Err(ZeroFileId);
      }
      if chunkSize == 0 {
        return Err(ZeroChunkSize);
      }
      if source == [] {
        return Err(ZeroSize);
      }
      if |source| > maxFileBytes {
        return Err(TooLarge);
      }
      if !nameOk {
        return Err(BadName);
      }
      DivCeilCovers(|source|, chunkSize, 0);
      var total := ChunkCount(|source|, chunkSize);
      if total.Err? {
        return Err(total.error);
      }
      var f := new OutgoingFile(FileOffer(fileId, true, |source|, hash(source), chunkSize % U32, total.value), source);
      ValidatedIsConsistent(f.offer, maxFileBytes);
      CutKeepsCount(|source|, chunkSize);
      hide Consistent;
      return Ok(f);
    }

    predicate Finished()
      reads this
    {
      nextChunk >= offer.totalChunks
    }

    method SetNextChunk(i: nat) returns (r: Result<(), TransferError>)
      requires Sized()
      modifies this`nextChunk
      ensures Sized()
      ensures r.Ok? <==> i <= offer.totalChunks
      ensures nextChunk == if r.Ok? then i else old(nextChunk)
    {
      if i > offer.totalChunks {
        return Err(IndexOutOfRange);
      }
      nextChunk := i;
      return Ok(());
    }

    method RestartFromBeginning()
      requires Sized()
      modifies this`nextChunk, this`headerSent
      ensures Sized() && nextChunk == 0 && !headerSent
    {
      nextChunk, headerSent := 0, false;
    }

    /**
     The chunk under the cursor, cut from the source. An empty one sends the cursor to the
     end; a consistent offer never has one.
     */
    method NextChunk() returns (r: Option<FileChunk>)
      requires Sized()
      modifies this`nextChunk
      ensures Sized()
      ensures var i := old(nextChunk);
              var len := Min(SatSub(offer.fileSize, Offset(offer, i)), offer.chunkSize);
              if i == offer.totalChunks || len == 0 then r.None? && nextChunk == offer.totalChunks
              else
                && nextChunk == i + 1
                && r == Some(FileChunk(offer.fileId, i, source[Offset(offer, i)..Offset(offer, i) + len]))
      ensures Consistent(offer) ==>
                r == if old(nextChunk) == offer.totalChunks then None
                     else Some(FileChunk(offer.fileId, old(nextChunk), Slice(offer, source, old(nextChunk))))
    {
      if Finished() {
        return None;
      }
      var i := nextChunk;
      var at := Offset(offer, i);
      var len := ExpectedChunkLen(offer, i).value;
      if Consistent(offer) {
        ChunkBounds(offer, i);
      }
      if len == 0 {
        nextChunk := offer.totalChunks;
        return None;
      }
      var payload := source[at..at + len];
      nextChunk := nextChunk + 1;
      return Some(FileChunk(offer.fileId, i, payload));
    }
  }

  /** Position of the first chunk not yet there, or the number of chunks when all are. */
  ghost function FirstMissing(marks: seq<bool>): (m: nat)
    ensures m <= |marks| && (m < |marks| ==> !marks[m])
    ensures forall i | 0 <= i < m :: marks[i]
  {
    if marks == [] then 0
    else
      var n := |marks| - 1;
      var m := FirstMissing(marks[..n]);
      if m == n && marks[n] then n + 1 else m
  }

  class IncomingFile {
    const offer: FileOffer
    const file: array<Byte>
    const received: array<bool>
    var receivedCount: nat

    ghost predicate Valid()
      reads this, file, received
    {
      && Consistent(offer)
      && file.Length == offer.fileSize
      && received.Length == offer.totalChunks
      && receivedCount == CountTrue(received[..])
    }

    ghost predicate AgreesWith(source: Bytes)
      reads this, file, received
      requires Valid() && |source| == offer.fileSize
    {
      Agrees(offer, file[..], received[..], source)
    }

    constructor (offer: FileOffer)
      requires Consistent(offer)
      ensures Valid() && this.offer == offer && fresh(file) && fresh(received)
      ensures receivedCount == 0 && forall i | 0 <= i < received.Length :: !received[i]
    {
      this.offer := offer;
      file := new Byte[offer.fileSize](_ => 0);
      received := new bool[offer.totalChunks](_ => false);
      receivedCount := 0;
      new;
      CountTrueNone(received[..]);
    }

    predicate IsComplete()
      reads this
    {
      receivedCount == offer.totalChunks
    }

    /** Complete means every chunk, and then the file is the source. */
    lemma CompleteMeansSource(source: Bytes)
      requires Valid() && |source| == offer.fileSize && AgreesWith(source)
      ensures IsComplete() <==> forall i | 0 <= i < received.Length :: received[i]
      ensures IsComplete() ==> file[..] == source
    {
      CountTrueAll(received[..]);
      if IsComplete() {
        CompleteIsSource(offer, file[..], received[..], source);
      }
    }

    method NextMissingChunk() returns (m: nat)
      requires Valid()
      ensures m == FirstMissing(received[..])
      ensures m == offer.totalChunks <==> IsComplete()
    {
      CountTrueAll(received[..]);
      m := 0;
      while m < received.Length && received[m]
        invariant m <= received.Length && forall i | 0 <= i < m :: received[i]
      {
        m := m + 1;
      }
    }

    /** Out-of-range chunks and wrong lengths are refused; a chunk already there is not rewritten. */
    method WriteChunk(i: nat, payload: Bytes) returns (r: Result<bool, TransferError>)
      requires Valid()
      modifies this`receivedCount, file, received
      ensures Valid()
      ensures r.Ok? <==> i < offer.totalChunks && ExpectedChunkLen(offer, i) == Ok(|payload|)
      ensures r.Ok? ==> r.value == IsComplete()
      ensures r.Err? ==> file[..] == old(file[..]) && received[..] == old(received[..])
      ensures r.Ok? ==> Offset(offer, i) + |payload| <= file.Length
      ensures r.Ok? ==> received[..] == old(received[..])[i := true]
      ensures r.Ok? ==> file[..] == if old(received[i]) then old(file[..])
                                    else Splice(old(file[..]), Offset(offer, i), payload)
    {
      if i >= offer.totalChunks {
        return Err(IndexOutOfRange);
      }
      var expected := ExpectedChunkLen(offer, i).value;
      if |payload| != expected {
        return Err(WrongLength);
      }
      ChunkBounds(offer, i);
      hide Consistent;
      hide Offset;
      hide CountTrue;
      CountTrueMark(received[..], i);
      if !received[i] {
        WriteAt(Offset(offer, i), payload);
        ghost var marks := received[..];
        received[i] := true;
        assert received[..] == marks[i := true];
        receivedCount := receivedCount + 1;
      } else {
        assert received[..][i := true] == received[..];
      }
      return Ok(IsComplete());
    }

    /** Seek and write. */
    method WriteAt(at: nat, payload: Bytes)
      requires at + |payload| <= file.Length
      modifies file
      ensures file[..] == Splice(old(file[..]), at, payload)
    {
      forall k | 0 <= k < |payload| {
        file[at + k] := payload[k];
      }
    }
  }
}
