/** The firmware streaming part of the protocol client in `logic/client.rs`, on top of the driver. */
module FirmwareClient {
  import opened Options
  import opened Numbers
  import opened SlicedDownload

  const B64_ENCODED_CHUNK_SIZE: nat := 400

  datatype ClientState = Normal | FirmwareUpdate

  datatype Event = FWChunkReceived(sequence: nat, bytes: Bytes) | FWDownloadComplete | FWDownloadFailed

  datatype Start = Started | StartFailed | ConnectionError

  /** The `k`-th piece of a file: 400 bytes, fewer at the end. */
  function Piece(file: Bytes, k: nat): Bytes {
    if k * B64_ENCODED_CHUNK_SIZE <= |file|
    then file[k * B64_ENCODED_CHUNK_SIZE..Min((k + 1) * B64_ENCODED_CHUNK_SIZE, |file|)]
    else []
  }

  /** How many non-empty pieces a file has. */
  function Pieces(file: Bytes): nat { (|file| + B64_ENCODED_CHUNK_SIZE - 1) / B64_ENCODED_CHUNK_SIZE }

  class Client {
    const driver: Driver
    const decode: Bytes -> Option<Bytes>
    var state: ClientState
    var url: bool
    var sequence: nat

    // History: the chunk events since the last start attempt, the bytes they decode, and whether that
    // attempt failed while an earlier download was still streaming.
    ghost var emitted: seq<Event>
    ghost var chunks: seq<Bytes>
    ghost var restartFailed: bool

    ghost predicate Valid()
      reads this, driver
    {
      && driver.Valid() && Pieces(driver.file) < 0x1_0000
      && Numbered(decode, emitted, chunks) && PiecesOf(driver.file, driver.satisfies, chunks)
      && (restartFailed ==> state == FirmwareUpdate && driver.stage == Failed && emitted == [])
      && (state == FirmwareUpdate && !restartFailed ==>
            && driver.stage == Streaming && sequence == |chunks|
            && InStep(driver.file, driver.satisfies, chunks, driver.got, driver.Exhausted()))
    }

    /** Every piece of the file can be decoded. */
    ghost predicate AllDecode()
      reads this, driver
    {
      forall k: nat | k < Pieces(driver.file) :: decode(Piece(driver.file, k)).Some?
    }

    constructor (driver: Driver, decode: Bytes -> Option<Bytes>)
      requires driver.Valid() && Pieces(driver.file) < 0x1_0000
      ensures Valid() && this.driver == driver && state == Normal && emitted == []
    {
      this.driver, this.decode := driver, decode;
      state, url, sequence := Normal, false, 0;
      emitted, chunks, restartFailed := [], [], false;
    }

    /** A firmware announcement sets the URL. */
    method Announce()
      requires Valid()
      modifies `url
      ensures Valid() && url
    {
      url := true;
    }

    /** `download_firmware_update`. A failed start leaves `state` as it was: harmless from Normal, but
        a start that fails while chunks of an earlier download are still being streamed leaves the
        client streaming a download that no longer exists. */
    method DownloadFirmwareUpdate() returns (r: Start)
      requires Valid()
      modifies this, driver
      ensures Valid() && url == old(url)
      ensures r == Started ==> state == FirmwareUpdate && sequence == 0 && emitted == [] && !restartFailed
      ensures r != Started ==> state == old(state)
      ensures r != Started && old(state) == Normal ==> !restartFailed
      ensures r != Started && old(url) && old(state) == FirmwareUpdate ==> restartFailed
      ensures !old(url) ==> r == StartFailed && unchanged(this) && unchanged(driver)
      ensures driver.faults >= old(driver.faults) && (old(url) && r != Started ==> driver.faults > old(driver.faults))
    {
      if !url {
        return StartFailed;
      }
      var ok := driver.DownloadFile();
      emitted, chunks := [], [];
      if ok {
        sequence := 0;
        state := FirmwareUpdate;
        restartFailed := false;
        return Started;
      }
      restartFailed := state == FirmwareUpdate;
      if * {
        return ConnectionError;
      }
      return StartFailed;
    }

    /** `handle_update_state`. Each chunk event continues the sequence; completion is reported after
        the last piece, and, wrongly, right after a restart that failed while streaming; a failure ends
        the streaming. */
    method HandleUpdateState() returns (event: Event)
      requires Valid() && state == FirmwareUpdate
      modifies this, driver
      ensures Valid() && url == old(url) && !restartFailed
      ensures event.FWChunkReceived? ==>
                && state == FirmwareUpdate && emitted == old(emitted) + [event] && |chunks| == old(|chunks|) + 1
                && |chunks| <= Pieces(driver.file)
                && old(chunks) == chunks[..|chunks| - 1] && driver.got == old(driver.got) + chunks[|chunks| - 1]
      ensures !event.FWChunkReceived? ==> state == Normal && emitted == old(emitted) && chunks == old(chunks)
      ensures event.FWDownloadComplete? && !old(restartFailed) && driver.satisfies ==> |emitted| == Pieces(driver.file)
      ensures old(restartFailed) ==> event == FWDownloadComplete && emitted == []
      ensures old(driver.Exhausted()) ==> event == FWDownloadComplete
      ensures driver.faults >= old(driver.faults)
      ensures event.FWDownloadFailed? && driver.satisfies && AllDecode() ==>
                driver.faults >= old(driver.faults) + SLICE_ATTEMPTS
    {
      ghost var before := driver.got;
      hide Driver.Valid, Numbered, PiecesOf, InStep, Piece, Pieces;
      var r := driver.ReadFileChunk(B64_ENCODED_CHUNK_SIZE);
      match r
      case Chunk(bytes) =>
        ChunkContinues(driver.file, driver.satisfies, chunks, before, bytes, driver.got, driver.Exhausted());
        event := HandleChunk(bytes);
      case ReadError =>
        state := Normal;
        event := FWDownloadFailed;
      case EndOfFile =>
        if !restartFailed && driver.satisfies {
          AllPieces(driver.file, chunks, before);
        }
        state, restartFailed := Normal, false;
        event := FWDownloadComplete;
    }

    /** A chunk that continues the pieces: decoded and numbered, or the end of the update. */
    method HandleChunk(bytes: Bytes) returns (event: Event)
      requires state == FirmwareUpdate && sequence == |chunks| && |chunks| + 1 <= Pieces(driver.file) < 0x1_0000
      requires Numbered(decode, emitted, chunks)
      modifies this
      ensures url == old(url) && restartFailed == old(restartFailed)
      ensures decode(bytes).None? ==>
                && event == FWDownloadFailed && state == Normal
                && sequence == old(sequence) && emitted == old(emitted) && chunks == old(chunks)
      ensures decode(bytes).Some? ==>
                && event == FWChunkReceived(old(sequence), decode(bytes).value) && state == FirmwareUpdate
                && sequence == old(sequence) + 1 && emitted == old(emitted) + [event] && chunks == old(chunks) + [bytes]
      ensures Numbered(decode, emitted, chunks)
    {
      var decoded := decode(bytes);
      if decoded.Some? {
        event := FWChunkReceived(sequence, decoded.value);
        EventContinues(decode, emitted, chunks, bytes);
        assert sequence + 1 < 0x1_0000;
        sequence := sequence + 1;
        emitted := emitted + [event];
        chunks := chunks + [bytes];
      } else {
        state := Normal;
        event := FWDownloadFailed;
      }
    }

    /** Handling events until the update is over. From a server that satisfies ranges, with every piece
        decodable and unless three commands go wrong, all pieces are reported and then completion. */
    method ReceiveAll() returns (last: Event)
      requires Valid() && state == FirmwareUpdate && !restartFailed
      modifies this, driver
      ensures Valid() && state == Normal && !last.FWChunkReceived?
      ensures driver.satisfies && AllDecode() && driver.faults < old(driver.faults) + SLICE_ATTEMPTS ==>
                last == FWDownloadComplete && |emitted| == Pieces(driver.file)
    {
      assert |chunks| <= Pieces(driver.file);
      hide Driver.Tracks, Driver.Stored, Numbered, PiecesOf, InStep, Driver.Valid;
      while true
        invariant Valid() && state == FirmwareUpdate && !restartFailed
        invariant driver.faults >= old(driver.faults) && |chunks| <= Pieces(driver.file)
        decreases Pieces(driver.file) - |chunks|
      {
        last := HandleUpdateState();
        if !last.FWChunkReceived? {
          return;
        }
      }
    }
  }

  /** A chunk read after `k` full pieces begins piece `k`, and is all of it when it has full size or
      ends the file. */
  lemma ChunkIsPiece(file: Bytes, k: nat, before: Bytes, bytes: Bytes, after: Bytes)
    requires before <= file && |before| == k * B64_ENCODED_CHUNK_SIZE
    requires 0 < |bytes| <= B64_ENCODED_CHUNK_SIZE && after == before + bytes && after <= file
    ensures bytes <= Piece(file, k)
    ensures |bytes| == B64_ENCODED_CHUNK_SIZE || after == file ==> bytes == Piece(file, k)
    ensures k + 1 <= Pieces(file)
  {
    assert bytes == file[..|after|][|before|..];
  }

  /** Chunk events carry consecutive numbers from zero and decode the chunks with those numbers. */
  ghost predicate Numbered(decode: Bytes -> Option<Bytes>, events: seq<Event>, chunks: seq<Bytes>) {
    && |events| == |chunks|
    && forall k | 0 <= k < |chunks| ::
         decode(chunks[k]).Some? && events[k] == FWChunkReceived(k, decode(chunks[k]).value)
  }

  /** Chunk `k` is piece `k` of the file; only the last may be cut short, and only by a server that does
      not satisfy ranges. */
  ghost predicate PiecesOf(file: Bytes, satisfies: bool, chunks: seq<Bytes>) {
    forall k | 0 <= k < |chunks| :: IsPiece(file, k, chunks[k], k < |chunks| - 1 || satisfies)
  }

  /** A chunk is piece `k` of the file, or unless `whole`, the beginning of it. */
  predicate IsPiece(file: Bytes, k: nat, chunk: Bytes, whole: bool) {
    chunk <= Piece(file, k) && (whole ==> chunk == Piece(file, k))
  }

  /** What was read is the pieces in full, or the driver has nothing left. */
  ghost predicate InStep(file: Bytes, satisfies: bool, chunks: seq<Bytes>, got: Bytes, exhausted: bool) {
    && got <= file && |chunks| <= Pieces(file)
    && (exhausted || |got| == |chunks| * B64_ENCODED_CHUNK_SIZE)
    && (exhausted || forall k | 0 <= k < |chunks| :: IsPiece(file, k, chunks[k], true))
    && (satisfies ==> |got| == Min(|chunks| * B64_ENCODED_CHUNK_SIZE, |file|))
  }

  lemma EventContinues(decode: Bytes -> Option<Bytes>, events: seq<Event>, chunks: seq<Bytes>, bytes: Bytes)
    requires Numbered(decode, events, chunks) && decode(bytes).Some?
    ensures |events| == |chunks|
    ensures Numbered(decode, events + [FWChunkReceived(|chunks|, decode(bytes).value)], chunks + [bytes])
  {
  }

  lemma ChunkContinues(
    file: Bytes, satisfies: bool, chunks: seq<Bytes>, before: Bytes, bytes: Bytes, after: Bytes, exhausted: bool)
    requires PiecesOf(file, satisfies, chunks) && InStep(file, satisfies, chunks, before, false)
    requires 0 < |bytes| <= B64_ENCODED_CHUNK_SIZE && after == before + bytes && after <= file
    requires |bytes| < B64_ENCODED_CHUNK_SIZE ==> exhausted && (satisfies ==> after == file)
    ensures PiecesOf(file, satisfies, chunks + [bytes]) && InStep(file, satisfies, chunks + [bytes], after, exhausted)
    ensures satisfies ==> bytes == Piece(file, |chunks|)
    ensures |chunks| + 1 <= Pieces(file)
  {
    ChunkIsPiece(file, |chunks|, before, bytes, after);
    assert IsPiece(file, |chunks|, bytes, |bytes| == B64_ENCODED_CHUNK_SIZE || after == file);
    assert !exhausted ==> IsPiece(file, |chunks|, bytes, true);
    assert IsPiece(file, |chunks|, bytes, satisfies);
    hide Piece, Pieces, IsPiece;
    var all := chunks + [bytes];
    forall k | 0 <= k < |all| ensures IsPiece(file, k, all[k], k < |all| - 1 || satisfies) {
      assert k < |chunks| ==> all[k] == chunks[k];
    }
    forall k | 0 <= k < |all| && !exhausted ensures IsPiece(file, k, all[k], true) {
      assert k < |chunks| ==> all[k] == chunks[k];
    }
  }

  lemma AllPieces(file: Bytes, chunks: seq<Bytes>, got: Bytes)
    requires InStep(file, true, chunks, got, true) && got == file
    ensures |chunks| == Pieces(file)
  {
  }

  function Concat(file: Bytes, n: nat): Bytes {
    if n == 0 then [] else Concat(file, n - 1) + Piece(file, n - 1)
  }

  lemma PieceExtends(file: Bytes, k: nat)
    requires k * B64_ENCODED_CHUNK_SIZE <= |file|
    ensures file[..k * B64_ENCODED_CHUNK_SIZE] + Piece(file, k) == file[..Min((k + 1) * B64_ENCODED_CHUNK_SIZE, |file|)]
  {
  }

  /** Putting the pieces together gives the file. */
  lemma {:induction false} PiecesMakeTheFile(file: Bytes, n: nat)
    requires n <= Pieces(file)
    ensures Concat(file, n) == file[..Min(n * B64_ENCODED_CHUNK_SIZE, |file|)]
  {
    if n > 0 {
      PiecesMakeTheFile(file, n - 1);
      PieceExtends(file, n - 1);
    }
  }
}
