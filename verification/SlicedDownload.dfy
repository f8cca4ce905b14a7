/** The sliced HTTP download of `drivers/quectel.rs`: range requests into one temporary modem file,
    read out in chunks, with nested retries, re-fetch and resume.

    Every modem command may fail at any time, by non-deterministic choice. The server follows RFC 9110:
    it answers a range request with 206 and (part of) the range (section 15.3.7), ignores the range and
    answers 200 with the whole file (section 14.2), or answers 416 when the range starts at or after
    the end (section 15.5.17). */
module SlicedDownload {
  import opened Options
  import opened Numbers

  const DOWNLOAD_SLICE_LEN: nat := 16000
  const SLICE_ATTEMPTS: nat := 3
  const MAX_FILE_CHUNK_LEN: nat := 600

  datatype Download = Download(offset: nat, len: nat, read: nat, complete: bool) {
    /** `slice_remaining`, a wrapping `u32` subtraction. */
    function Remaining(): nat { (len - read) % U32 }
  }

  /** Status code and body of a response, as far as the modem reports them. */
  datatype Reply = NoReply | Reply(code: nat, body: Option<Bytes>)

  /** What RFC 9110 lets a server answer to `Range: bytes=offset-(offset+15999)`. A server that
      `satisfies` ranges sends all it has of the requested range; section 15.3.7 also allows less. */
  predicate LawfulReply(file: Bytes, satisfies: bool, offset: nat, r: Reply) {
    r.Reply? ==>
      && (r.code == 416 ==> |file| <= offset)
      && (r.body.Some? && r.code == 200 ==> r.body.value == file)
      && (r.body.Some? && r.code == 206 ==>
            && offset < |file| && 1 <= |r.body.value| <= DOWNLOAD_SLICE_LEN
            && r.body.value <= file[offset..]
            && (satisfies ==> |r.body.value| == Min(DOWNLOAD_SLICE_LEN, |file| - offset)))
  }

  /** A reply a download can go on with: part of the range, the whole file where it is one slice and was
      asked for from its start, or the news that there is nothing from the offset on. */
  predicate Usable(file: Bytes, offset: nat, r: Reply) {
    r.Reply? && (r.code == 416
                 || (r.code == 206 && r.body.Some?)
                 || (r.code == 200 && r.body.Some? && offset == 0 && |file| <= DOWNLOAD_SLICE_LEN))
  }

  /** How `fetch_slice` takes a reply: the slice, or a refusal. */
  function Accept(offset: nat, r: Reply): Option<Bytes> {
    if r.NoReply? then None
    else if r.code == 206 && r.body.Some? then r.body
    else if r.code == 200 && r.body.Some? && offset == 0 && |r.body.value| <= DOWNLOAD_SLICE_LEN then r.body
    else if r.code == 416 then Some([])
    else None
  }

  /** The bookkeeping after a slice was stored: a short slice is taken for the last one. */
  function Fetched(offset: nat, slice: Bytes): Download {
    Download(offset, |slice|, 0, |slice| < DOWNLOAD_SLICE_LEN)
  }

  /** An accepted slice is the part of the file at `offset`. */
  lemma AcceptedSlice(file: Bytes, satisfies: bool, offset: nat, r: Reply)
    requires LawfulReply(file, satisfies, offset, r) && offset <= |file| && Accept(offset, r).Some?
    ensures
      var slice := Accept(offset, r).value;
      && |slice| <= DOWNLOAD_SLICE_LEN && offset + |slice| <= |file| && slice == file[offset..offset + |slice|]
      && (offset < |file| ==> slice != [])
      && (satisfies ==> |slice| == Min(DOWNLOAD_SLICE_LEN, |file| - offset))
  {
    var slice := Accept(offset, r).value;
    if r.code == 206 {
      assert file[offset..][..|slice|] == file[offset..offset + |slice|];
    }
  }

  /** Exactly the usable replies of a lawful server are accepted; one that says there is nothing more is
      taken as an empty last slice. */
  lemma AcceptedIffUsable(file: Bytes, satisfies: bool, offset: nat, r: Reply)
    requires LawfulReply(file, satisfies, offset, r)
    ensures Accept(offset, r).Some? <==> Usable(file, offset, r)
    ensures r.Reply? && r.code == 416 ==> Accept(offset, r) == Some([]) && Fetched(offset, []).complete
  {
  }

  /** When the end is mistaken. A slice is wrongly taken for the last one exactly when a 206 answer
      carries less than the server had of the requested range. */
  lemma MistakesEndIffShortPartialContent(file: Bytes, offset: nat, r: Reply)
    requires LawfulReply(file, false, offset, r) && offset <= |file| && Accept(offset, r).Some?
    ensures
      var d := Fetched(offset, Accept(offset, r).value);
      (d.complete && d.offset + d.len < |file|) <==>
        (r.code == 206 && |r.body.value| < Min(DOWNLOAD_SLICE_LEN, |file| - offset))
  {
    AcceptedSlice(file, false, offset, r);
  }

  /** Such an answer is lawful for every file of two bytes or more, so a correct server can make the
      download of a file end after its first byte. */
  lemma ShortPartialContentIsLawful(file: Bytes)
    requires |file| >= 2
    ensures
      var r := Reply(206, Some(file[..1]));
      && LawfulReply(file, false, 0, r) && Accept(0, r) == Some(file[..1])
      && Fetched(0, file[..1]) == Download(0, 1, 0, true)
  {
    assert file[0..] == file;
  }

  /** Reading on in a slice reads on in the file. */
  lemma ReadOn(file: Bytes, offset: nat, len: nat, read: nat, n: nat)
    requires offset + len <= |file| && read + n <= len
    ensures file[..offset + read] + file[offset..offset + len][read..read + n] == file[..offset + read + n]
  {
    var slice := file[offset..offset + len];
    var part, same := slice[read..read + n], file[offset + read..offset + read + n];
    assert forall k | 0 <= k < n :: part[k] == same[k];
    assert part == same;
  }

  datatype ChunkResult = Chunk(bytes: Bytes) | EndOfFile | ReadError

  /** How the download started last stands; a history variable. */
  datatype Stage = Nothing | Streaming | Finished | Failed

  /** The bookkeeping is consistent and `got` is the file up to the reading point. */
  ghost predicate InTrack(file: Bytes, satisfies: bool, download: Option<Download>, got: Bytes) {
    && |file| + DOWNLOAD_SLICE_LEN <= U32
    && got <= file
    && (download.Some? ==>
          var d := download.value;
          && d.offset + d.len <= |file| && d.len <= DOWNLOAD_SLICE_LEN && d.read <= DOWNLOAD_SLICE_LEN
          && (d.complete <==> d.len < DOWNLOAD_SLICE_LEN) && (d.offset < |file| ==> d.len > 0)
          && d.offset + d.read <= |file| && got == file[..d.offset + d.read]
          && (satisfies ==> d.read <= d.len == Min(DOWNLOAD_SLICE_LEN, |file| - d.offset)))
  }

  /** The temporary file holds the current slice, and an open handle is where reading stopped. */
  ghost predicate InStore(file: Bytes, download: Option<Download>, tmp: Option<Bytes>, handle: bool, position: nat) {
    download.Some? ==>
      var d := download.value;
      && d.offset + d.len <= |file|
      && (d.len > 0 ==> tmp == Some(file[d.offset..d.offset + d.len]))
      && (handle ==> position == d.read)
  }

  lemma RemainingMeans(file: Bytes, satisfies: bool, d: Download, got: Bytes)
    requires InTrack(file, satisfies, Some(d), got)
    ensures satisfies && d.Remaining() > 0 ==> d.read < d.len
    ensures (d.Remaining() == 0 <==> d.read == d.len) && (d.Remaining() > 0 ==> d.len > 0) && got <= file
  {
  }

  /** Reading `n` bytes on keeps the bookkeeping. */
  lemma ReadKeepsTrack(file: Bytes, satisfies: bool, d: Download, tmp: Option<Bytes>, got: Bytes, n: nat)
    requires InTrack(file, satisfies, Some(d), got) && InStore(file, Some(d), tmp, true, d.read)
    requires d.len > 0 && d.read + n <= d.len
    ensures |tmp.value| == d.len
    ensures
      var part := tmp.value[d.read..d.read + n];
      && InTrack(file, satisfies, Some(d.(read := d.read + n)), got + part) && got + part <= file
      && InStore(file, Some(d.(read := d.read + n)), tmp, true, d.read + n)
  {
    ReadOn(file, d.offset, d.len, d.read, n);
  }

  class Driver {
    const file: Bytes
    const satisfies: bool

    var download: Option<Download>
    var handle: bool

    // The modem: the temporary file and the read position of the open handle.
    var tmp: Option<Bytes>
    var position: nat

    // History: the bytes handed out since the last start, and how that download stands.
    ghost var got: Bytes
    ghost var stage: Stage

    // How many commands failed, gave no usable reply or no data so far.
    ghost var faults: nat

    constructor (file: Bytes, satisfies: bool)
      requires |file| + DOWNLOAD_SLICE_LEN <= U32
      ensures this.file == file && this.satisfies == satisfies
      ensures Valid() && stage == Nothing && got == []
    {
      this.file, this.satisfies := file, satisfies;
      download, handle, tmp, position := None, false, None, 0;
      got, stage, faults := [], Nothing, 0;
    }

    ghost predicate Tracks()
      reads this
    {
      InTrack(file, satisfies, download, got)
    }

    ghost predicate Stored()
      reads this
    {
      InStore(file, download, tmp, handle, position)
    }

    ghost predicate Valid()
      reads this
    {
      && Tracks() && Stored()
      && (download.Some? <==> stage == Streaming)
      && (stage == Finished && satisfies ==> got == file)
    }

    /** A range request; the answer is any lawful one, or none. */
    method Get(offset: nat) returns (r: Reply)
      modifies `faults
      ensures LawfulReply(file, satisfies, offset, r)
      ensures faults == old(faults) + if Usable(file, offset, r) then 0 else 1
    {
      var choice: nat, hasBody: bool := *, *;
      if choice == 200 && hasBody {
        r := Reply(200, Some(file));
      } else if choice == 206 && hasBody && offset < |file| {
        var most := Min(DOWNLOAD_SLICE_LEN, |file| - offset);
        assert 1 <= most <= most;
        var n: nat :| 1 <= n <= most && (satisfies ==> n == most);
        assert file[offset..offset + n] == file[offset..][..n];
        r := Reply(206, Some(file[offset..offset + n]));
      } else if choice == 0 || (choice == 416 && offset < |file|) {
        r := NoReply;
      } else {
        r := Reply(choice, None);
      }
      faults := faults + if Usable(file, offset, r) then 0 else 1;
    }

    /** `close_file`: the handle is forgotten even if the command fails. */
    method CloseFile()
      modifies `handle
      ensures !handle
    {
      handle := false;
    }

    /** `discard_slice_file`: the file may survive. */
    method DiscardSliceFile()
      modifies `handle, `tmp
      ensures !handle
    {
      CloseFile();
      if * {
        tmp := None;
      }
    }

    /** `fetch_slice`: fails only if there is no download or something went wrong. */
    method FetchSlice(offset: nat) returns (ok: bool)
      requires offset <= |file| && |file| + DOWNLOAD_SLICE_LEN <= U32
      modifies `download, `tmp, `faults
      ensures !ok ==> download == old(download)
      ensures ok ==> FetchedAt(offset)
      ensures faults >= old(faults) && (!ok && old(download).Some? ==> faults > old(faults))
    {
      if download.None? {
        return false;
      }
      var lastByte := offset + DOWNLOAD_SLICE_LEN - 1;
      assert lastByte < U32;
      var reply := Get(offset);
      AcceptedIffUsable(file, satisfies, offset, reply);
      var slice := Accept(offset, reply);
      if slice.None? {
        return false;
      }
      AcceptedSlice(file, satisfies, offset, reply);
      if slice.value != [] {
        var partial: Option<Bytes> := *;
        if * {
          tmp := partial;
          faults := faults + 1;
          return false;
        }
        tmp := slice;
      }
      download := Some(Fetched(offset, slice.value));
      return true;
    }

    ghost predicate FetchedAt(offset: nat)
      reads this
    {
      && download.Some?
      && var d := download.value;
      && d.offset == offset && d.read == 0
      && d.len <= DOWNLOAD_SLICE_LEN && (d.complete <==> d.len < DOWNLOAD_SLICE_LEN)
      && offset + d.len <= |file|
      && (offset < |file| ==> d.len > 0)
      && (d.len > 0 ==> tmp == Some(file[offset..offset + d.len]))
      && (satisfies ==> d.len == Min(DOWNLOAD_SLICE_LEN, |file| - offset))
    }

    /** `fetch_slice_with_retry`: gives up only after three faults. */
    method FetchSliceWithRetry(offset: nat) returns (ok: bool)
      requires offset <= |file| && |file| + DOWNLOAD_SLICE_LEN <= U32 && !handle
      modifies `download, `tmp, `handle, `faults
      ensures !handle
      ensures !ok ==> download == old(download)
      ensures ok ==> FetchedAt(offset)
      ensures faults >= old(faults) && (!ok && old(download).Some? ==> faults >= old(faults) + SLICE_ATTEMPTS)
    {
      var attempt := 1;
      while true
        invariant 1 <= attempt <= SLICE_ATTEMPTS && !handle && download == old(download)
        invariant faults >= old(faults) && (old(download).Some? ==> faults >= old(faults) + attempt - 1)
        decreases SLICE_ATTEMPTS - attempt
      {
        ok := FetchSlice(offset);
        if ok || attempt == SLICE_ATTEMPTS {
          return;
        }
        DiscardSliceFile();
        attempt := attempt + 1;
      }
    }

    /** The first half of `read_slice`: opens the file and seeks if no handle is open. */
    method SeekSlice() returns (ok: bool)
      requires Stored() && download.Some?
      modifies `handle, `position, `faults
      ensures ok ==> handle && position == download.value.read
      ensures faults == old(faults) + if ok then 0 else 1
    {
      if !handle {
        if * {
          faults := faults + 1;
          return false;
        }
        handle, position := true, 0;
        if * {
          faults := faults + 1;
          return false;
        }
        position := download.value.read;
      }
      return true;
    }

    /** `read_slice`: reads at most `len` bytes where the previous read stopped. */
    method ReadSlice(len: nat) returns (part: Option<Bytes>)
      requires Tracks() && Stored() && download.Some? && download.value.len > 0
      modifies `download, `handle, `position, `got, `faults
      ensures Tracks() && got <= file
      ensures part.None? ==> download == old(download) && got == old(got)
      ensures faults >= old(faults)
      ensures part.None? && len > 0 && old(download).value.read < old(download).value.len ==> faults > old(faults)
      ensures part.Some? ==>
                && Stored() && 1 <= |part.value| <= len
                && download == Some(old(download).value.(read := old(download).value.read + |part.value|))
                && got == old(got) + part.value
    {
      var d := download.value;
      assert tmp == Some(file[d.offset..d.offset + d.len]) && d.offset + d.len <= |file|;
      var ok := SeekSlice();
      assert got <= file && InStore(file, Some(d), tmp, true, d.read);
      hide InTrack, InStore;
      if !ok {
        return None;
      }
      if * {
        position := *;
        faults := faults + 1;
        return None;
      }
      var available := if position < |tmp.value| then |tmp.value| - position else 0;
      var n: nat :| n <= len && n <= available;
      if n == 0 {
        faults := if len > 0 && available > 0 then faults + 1 else faults;
        return None;
      }
      part := Some(tmp.value[position..position + n]);
      ReadKeepsTrack(file, satisfies, d, tmp, got, n);
      position := position + n;
      download := Some(d.(read := d.read + n));
      got := got + part.value;
    }

    /** The current slice once more; reading resumes where it stopped. */
    method FetchAgain() returns (ok: bool)
      requires Tracks() && download.Some? && download.value.len > 0
      modifies `download, `handle, `tmp, `faults
      ensures Tracks() && download.Some?
      ensures ok ==> Stored() && download.value.len > 0 && (satisfies ==> download == old(download))
      ensures faults >= old(faults) && (!ok ==> faults >= old(faults) + SLICE_ATTEMPTS)
    {
      var offset, read := download.value.offset, download.value.read;
      assert offset < |file|;
      DiscardSliceFile();
      ok := FetchSliceWithRetry(offset);
      if ok {
        download := Some(download.value.(read := read));
      }
    }

    /** `read_slice_with_retry`: from the second retry on the slice is fetched again, and reading
        resumes where it stopped. */
    method ReadSliceWithRetry(len: nat) returns (part: Option<Bytes>)
      requires Tracks() && Stored() && download.Some? && download.value.len > 0
      modifies `download, `handle, `position, `got, `tmp, `faults
      ensures Tracks() && got <= file && download.Some?
      ensures part.None? ==> got == old(got)
      ensures faults >= old(faults)
      ensures part.None? && satisfies && len > 0 && old(download).value.read < old(download).value.len ==>
                faults >= old(faults) + SLICE_ATTEMPTS
      ensures part.Some? ==> Stored() && 1 <= |part.value| <= len && got == old(got) + part.value
    {
      var attempt := 1;
      assert got <= file;
      hide InTrack;
      while true
        invariant 1 <= attempt <= SLICE_ATTEMPTS
        invariant Tracks() && Stored() && download.Some? && download.value.len > 0 && got == old(got) <= file
        invariant satisfies ==> download == old(download)
        invariant faults >= old(faults)
        invariant satisfies && len > 0 && old(download).value.read < old(download).value.len ==>
                    faults >= old(faults) + attempt - 1
        decreases SLICE_ATTEMPTS - attempt
      {
        part := ReadSlice(len);
        if part.Some? || attempt == SLICE_ATTEMPTS {
          return;
        }
        CloseFile();
        assert Stored();
        if attempt > 1 {
          var ok := FetchAgain();
          if !ok {
            return None;
          }
        }
        attempt := attempt + 1;
      }
    }

    /** Nothing is left to read, as far as the driver can tell. */
    ghost predicate Exhausted()
      reads this
    {
      download.Some? && download.value.complete && download.value.read == download.value.len
    }

    /** The next slice, when the current one is read and was not the last. */
    method NextSlice() returns (ok: bool)
      requires Tracks() && download.Some? && download.value.Remaining() == 0 && !download.value.complete
      modifies `download, `handle, `tmp, `faults
      ensures Tracks() && download.Some?
      ensures faults >= old(faults) && (!ok ==> faults >= old(faults) + SLICE_ATTEMPTS)
      ensures ok ==> Stored() && (|got| == |file| || download.value.Remaining() > 0)
      ensures ok ==> !(download.value.Remaining() == 0 && !download.value.complete)
    {
      var d := download.value;
      DiscardSliceFile();
      ok := FetchSliceWithRetry(d.offset + d.len);
    }

    /** `read_download_chunk`: fills a chunk across slice boundaries. */
    method ReadDownloadChunk(size: nat) returns (chunk: Option<Bytes>)
      requires Tracks() && Stored()
      modifies `download, `handle, `position, `got, `tmp, `faults
      ensures Tracks() && got <= file && download.Some? == old(download).Some?
      ensures faults >= old(faults) && (chunk.None? && satisfies ==> faults >= old(faults) + SLICE_ATTEMPTS)
      ensures old(download).None? ==> chunk.Some?
      ensures chunk.Some? ==>
                && Stored() && |chunk.value| <= size && got == old(got) + chunk.value
                && (|chunk.value| < size ==> download.None? || Exhausted())
                && (download.None? ==> chunk.value == [] && unchanged(this))
      ensures old(Exhausted()) ==> chunk == Some([])
    {
      var data := [];
      assert got == old(got) + data && got <= file;
      hide InTrack, InStore;
      if download.None? {
        return Some(data);
      }
      while |data| < size
        invariant |data| <= size && Tracks() && Stored() && got <= file && got == old(got) + data
        invariant download.Some? && faults >= old(faults)
        invariant old(Exhausted()) ==> data == [] && Exhausted()
        decreases |file| - |got|,
                  if download.value.Remaining() == 0 && !download.value.complete then 1 else 0
      {
        var d := download.value;
        RemainingMeans(file, satisfies, d, got);
        if d.Remaining() == 0 {
          if d.complete {
            break;
          }
          var ok := NextSlice();
          if !ok {
            return None;
          }
        } else {
          var part := ReadSliceWithRetry(Min(size - |data|, d.Remaining()));
          if part.None? {
            return None;
          }
          assert old(got) + data + part.value == old(got) + (data + part.value);
          data := data + part.value;
        }
      }
      return Some(data);
    }

    /** `finish_download` */
    method FinishDownload(ghost next: Stage)
      requires next != Streaming && Tracks() && (next == Finished && satisfies ==> got == file)
      modifies `download, `handle, `tmp, `stage
      ensures Valid() && download.None? && stage == next
    {
      if download.Some? {
        download := None;
        DiscardSliceFile();
      }
      stage := next;
    }

    /** The trait's `download_file`: any set-up command may fail, and so may the first slice. */
    method DownloadFile() returns (ok: bool)
      requires Valid()
      modifies this
      ensures Valid()
      ensures ok ==> stage == Streaming && got == []
      ensures !ok ==> stage == Failed && download.None?
      ensures faults >= old(faults) && (!ok ==> faults > old(faults))
    {
      DiscardSliceFile();
      if * {
        faults := faults + 1;
        FinishDownload(Failed);
        return false;
      }
      download := Some(Download(0, 0, 0, false));
      ok := FetchSliceWithRetry(0);
      got := [];
      if !ok {
        download := None;
        DiscardSliceFile();
        stage := Failed;
      } else {
        stage := Streaming;
      }
    }

    /** The trait's `read_file_chunk`. What is handed out is always the file up to some point, a chunk
        falls short of the requested size only at the end, and the end is announced only there. */
    method ReadFileChunk(size: nat) returns (r: ChunkResult)
      requires Valid()
      modifies this
      ensures Valid() && got <= file
      ensures size > MAX_FILE_CHUNK_LEN ==> r == ReadError && unchanged(this)
      ensures r.Chunk? ==>
                && old(stage) == stage == Streaming && r.bytes != [] && |r.bytes| <= size
                && got == old(got) + r.bytes
                && (|r.bytes| < size ==> Exhausted())
                && (satisfies && |r.bytes| < size ==> got == file)
      ensures old(Exhausted()) && size <= MAX_FILE_CHUNK_LEN ==> r.EndOfFile?
      ensures r.EndOfFile? ==> got == old(got) && download.None?
      ensures r.EndOfFile? && old(stage) == Streaming ==> stage == if size > 0 then Finished else Failed
      ensures r.EndOfFile? && old(stage) == Streaming && satisfies && size > 0 ==> got == file
      ensures r.EndOfFile? && old(stage) != Streaming ==> stage == old(stage)
      ensures r.ReadError? && size <= MAX_FILE_CHUNK_LEN ==> stage == Failed && got == old(got)
      ensures old(stage) != Streaming && size <= MAX_FILE_CHUNK_LEN ==> r.EndOfFile?
      ensures faults >= old(faults)
      ensures r.ReadError? && satisfies && size <= MAX_FILE_CHUNK_LEN ==> faults >= old(faults) + SLICE_ATTEMPTS
    {
      if size > MAX_FILE_CHUNK_LEN {
        return ReadError;
      }
      ghost var before := got;
      var chunk := ReadDownloadChunk(size);
      if chunk.None? {
        got := before;
        download := None;
        DiscardSliceFile();
        stage := Failed;
        return ReadError;
      }
      if chunk.value != [] {
        return Chunk(chunk.value);
      }
      assert before + [] == before;
      FinishDownload(if stage != Streaming then stage else if size > 0 then Finished else Failed);
      return EndOfFile;
    }

    /** Reading to the end, chunk by chunk. From a server that satisfies ranges, and unless three commands
        go wrong, it comes to the end and the chunks make up the rest of the file, whatever its length. */
    method ReadToEnd(size: nat) returns (chunks: seq<Bytes>, end: ChunkResult)
      requires Valid() && stage == Streaming && 0 < size <= MAX_FILE_CHUNK_LEN
      modifies this
      ensures Valid() && !end.Chunk? && (end.EndOfFile? ==> stage == Finished)
      ensures forall c <- chunks :: c != []
      ensures got == old(got) + Joined(chunks)
      ensures faults >= old(faults)
      ensures satisfies && faults < old(faults) + SLICE_ATTEMPTS ==> end.EndOfFile? && stage == Finished && got == file
    {
      chunks := [];
      assert got == old(got) + Joined(chunks);
      hide InTrack, InStore;
      while true
        invariant Valid() && stage == Streaming && got <= file && got == old(got) + Joined(chunks)
        invariant faults >= old(faults) && forall c <- chunks :: c != []
        decreases |file| - |got|
      {
        end := ReadFileChunk(size);
        if !end.Chunk? {
          return;
        }
        JoinedMore(chunks, end.bytes);
        assert old(got) + Joined(chunks) + end.bytes == old(got) + (Joined(chunks) + end.bytes);
        chunks := chunks + [end.bytes];
      }
    }

    /** A whole download: with no fault, every file of a server that satisfies ranges arrives. */
    method DownloadAndRead(size: nat) returns (content: Option<Bytes>)
      requires Valid() && 0 < size <= MAX_FILE_CHUNK_LEN
      modifies this
      ensures Valid() && faults >= old(faults)
      ensures content.Some? && satisfies ==> content.value == file
      ensures satisfies && faults == old(faults) ==> content == Some(file)
    {
      var ok := DownloadFile();
      if !ok {
        return None;
      }
      var chunks, end := ReadToEnd(size);
      assert [] + Joined(chunks) == Joined(chunks);
      if end.EndOfFile? {
        return Some(Joined(chunks));
      }
      return None;
    }
  }

  function Joined(chunks: seq<Bytes>): Bytes {
    if chunks == [] then [] else Joined(chunks[..|chunks| - 1]) + chunks[|chunks| - 1]
  }

  lemma JoinedMore(chunks: seq<Bytes>, c: Bytes)
    ensures Joined(chunks + [c]) == Joined(chunks) + c
  {
    assert (chunks + [c])[..|chunks|] == chunks;
  }
}
