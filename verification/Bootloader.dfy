/** The update decision and the flash copy of `bootloader.rs`. */
module Bootloader {
  import opened Options
  import opened Numbers
  import opened FirmwareValidator

  /** Reading one fragment of the stored file gives some bytes or fails; a missing file has no
      fragments. The stored file is the same at every boot. */
  type Fragment = Option<Bytes>
  type File = seq<Fragment>

  datatype AppStatus =
    | UpToDate(header: Header)
    | UpdateRejected(header: Header, error: ValidationError)
    | ShouldUpdate(header: Header)
    | Bricked(existing: ValidationError, candidate: ValidationError)

  /** The fragments before the first unreadable one. */
  function ReadablePrefix(file: File): seq<Bytes> {
    if file == [] || file[0].None? then [] else [file[0].value] + ReadablePrefix(file[1..])
  }

  /** Every readable fragment, in order: what `apply_update` copies. */
  function ReadableBytes(file: File): Bytes {
    if file == [] then [] else (if file[0].Some? then file[0].value else []) + ReadableBytes(file[1..])
  }

  function Erased(n: nat): Bytes { seq(n, i => 0xFF) }

  /** A region erased up to `n`, and one erased and then written up to `m`. */
  function PartErased(region: Bytes, n: nat): Bytes
    requires n <= |region|
  {
    Erased(n) + region[n..]
  }

  function PartCopied(file: File, m: nat, size: nat): Bytes
    requires m <= |ReadableBytes(file)| && m <= size
  {
    Filled(ReadableBytes(file), m, size)
  }

  function Filled(data: Bytes, m: nat, size: nat): (r: Bytes)
    requires m <= |data| && m <= size
    ensures |r| == size
  {
    data[..m] + Erased(size - m)
  }

  function Overwritten(region: Bytes, at: nat, data: Bytes): (r: Bytes)
    requires at + |data| <= |region|
    ensures |r| == |region|
  {
    region[..at] + data + region[at + |data|..]
  }

  /** What a copy of the file over `region` may leave when it stops anywhere, or does not stop. */
  ghost predicate CopyLeaves(region: Bytes, file: File, after: Bytes) {
    || (exists n: nat :: n <= |region| && after == PartErased(region, n))
    || (exists m: nat :: m <= |ReadableBytes(file)| && m <= |region| && after == PartCopied(file, m, |region|))
  }

  /** Feeding a slice to a decided validator changes nothing. */
  lemma {:induction false} DecidedStays(p: Platform, v: Progress, slices: seq<Bytes>)
    requires p.Valid() && v.phase.Terminal()
    ensures FeedAll(p, v, slices) == v
    decreases |slices|
  {
    if slices != [] {
      DecidedStays(p, v, slices[..|slices| - 1]);
    }
  }

  /** The candidate's validator after reading the file. */
  function Candidate(p: Platform, file: File): Phase
    requires p.Valid()
  {
    FeedAll(p, START, ReadablePrefix(file)).phase
  }

  /** `validate_new_firmware`: the loop stops at the first unreadable fragment or once the validator
      reports completion; neither loses anything. */
  method ValidateNewFirmware(p: Platform, device: Device, file: File) returns (v: Validator)
    requires p.Valid()
    ensures fresh(v) && v.minSecurity == SignedLevel && v.device == device
    ensures v.progress.phase == Candidate(p, file)
  {
    v := new Validator(p, SignedLevel, device);
    var frag := 0;
    assert file[0..] == file;
    while frag < |file|
      invariant frag <= |file| && fresh(v) && v.platform == p && v.progress.Valid(p)
      invariant FeedAll(p, v.progress, ReadablePrefix(file[frag..])) == FeedAll(p, START, ReadablePrefix(file))
    {
      assert file[frag..][1..] == file[frag + 1..];
      if file[frag].None? {
        return;
      }
      FeedFirst(p, v.progress, ReadablePrefix(file[frag..]));
      var done := v.Update(file[frag].value);
      if done {
        DecidedStays(p, v.progress, ReadablePrefix(file[frag + 1..]));
        return;
      }
      frag := frag + 1;
    }
  }

  /** `validate_existing_firmware`: the verdict on the installed application region. */
  function Installed(p: Platform, device: Device, installedMin: SecurityLevel, flash: Bytes)
    : Result<Header, ValidationError>
    requires p.Valid()
  {
    Judge(p, Policy(installedMin, device), Feed(p, START, flash).0.phase, None)
  }

  /** `validate_update`. `flash` is the installed application region. */
  function Decide(p: Platform, device: Device, installedMin: SecurityLevel, flash: Bytes, file: File): AppStatus
    requires p.Valid()
  {
    var candidateHeader := if file == [] || file[0].None? then Err(TooFewBytes) else p.TryFromBytes(file[0].value);
    var installed := Feed(p, START, flash).0.phase;
    var candidate := Candidate(p, file);
    var strict := Policy(SignedLevel, device);
    match Installed(p, device, installedMin, flash)
    case Ok(existing) =>
      if candidateHeader == Ok(existing) then UpToDate(existing)
      else if DataHash(candidate).Ok? && DataHash(candidate) == DataHash(installed) then UpToDate(existing)
      else (match Judge(p, strict, candidate, Some(existing))
        case Ok(h) => ShouldUpdate(h)
        case Err(e) => UpdateRejected(existing, e))
    case Err(e) =>
      (match Judge(p, strict, candidate, None)
        case Ok(h) => ShouldUpdate(h)
        case Err(e') => Bricked(e, e'))
  }

  datatype ApplyResult = Applied(header: Header) | EraseFailed | WriteFailed | ValidateFailed(error: ValidationError)

  /** Internal flash: the application region and the writer's cursor. */
  class AppFlash {
    var region: Bytes
    var cursor: nat
    ghost var faults: nat // flash operations that failed

    ghost predicate Valid()
      reads this
    {
      cursor <= |region|
    }

    constructor (content: Bytes)
      ensures region == content && Valid() && faults == 0
    {
      region, cursor, faults := content, 0, 0;
    }

    /** Erasing may stop half-way. */
    method Erase() returns (ok: bool, ghost n: nat)
      modifies this
      ensures Valid() && n <= old(|region|) && region == PartErased(old(region), n)
      ensures ok ==> cursor == 0 && region == Erased(old(|region|))
      ensures faults == old(faults) + if ok then 0 else 1
    {
      cursor := 0;
      var done: nat :| done <= |region|;
      n := done;
      region := seq(done, i => 0xFF) + region[done..];
      ok := done == |region|;
      faults := faults + if ok then 0 else 1;
    }

    /** Appending stops at the end of the region, and may fail anywhere before. */
    method Append(data: Bytes) returns (ok: bool, ghost n: nat)
      requires Valid()
      modifies this
      ensures Valid() && n <= |data| && old(cursor) + n <= old(|region|)
      ensures region == Overwritten(old(region), old(cursor), data[..n])
      ensures ok ==> n == |data|
      ensures cursor == old(cursor) + if ok then n else 0
      ensures faults == old(faults) + if ok || old(cursor) + |data| > old(|region|) then 0 else 1
    {
      var done: nat :| done <= |data| && cursor + done <= |region|;
      n := done;
      region := region[..cursor] + data[..done] + region[cursor + done..];
      ok := done == |data|;
      faults := faults + if ok || cursor + |data| > |region| then 0 else 1;
      if ok {
        cursor := cursor + done;
      }
    }

    /** One fragment of the copy: `all` is to be written and `m` bytes of it are. */
    method AppendFragment(data: Bytes, ghost all: Bytes, ghost rest: Bytes, ghost m: nat, ghost size: nat)
      returns (ok: bool, ghost m': nat)
      requires Valid() && cursor == m <= |all| && m <= size && region == Filled(all, m, size) && all[m..] == data + rest
      modifies this
      ensures Valid() && m' <= |all| && m' <= size && region == Filled(all, m', size)
      ensures ok ==> cursor == m' && all[m'..] == rest
      ensures faults >= old(faults) && (!ok && |all| <= size ==> faults > old(faults))
    {
      ghost var n;
      hide Filled, Overwritten;
      ok, n := Append(data);
      CopyGoesOn(all, data, rest, m, n, size);
      m' := m + n;
    }

    /** The copying loop of `apply_update`, over an erased region. */
    method Copy(file: File) returns (ok: bool, ghost m: nat)
      requires Valid() && cursor == 0 && region == Erased(|region|)
      modifies this
      ensures m <= |ReadableBytes(file)| && m <= old(|region|)
      ensures region == PartCopied(file, m, old(|region|))
      ensures ok ==> m == |ReadableBytes(file)|
      ensures faults >= old(faults) && (!ok && |ReadableBytes(file)| <= old(|region|) ==> faults > old(faults))
    {
      ghost var all, size := ReadableBytes(file), |region|;
      var frag := 0;
      m := 0;
      assert file[0..] == file;
      assert region == Filled(all, 0, size);
      hide ReadableBytes, Erased, Filled, Overwritten;
      while frag < |file|
        invariant frag <= |file| && Valid() && |region| == size && faults >= old(faults)
        invariant m == cursor <= |all| && m <= size && region == Filled(all, m, size)
        invariant all[m..] == ReadableBytes(file[frag..])
      {
        ReadableFrom(file, frag);
        if file[frag].Some? {
          ok, m := AppendFragment(file[frag].value, all, ReadableBytes(file[frag + 1..]), m, size);
          if !ok {
            return;
          }
        }
        frag := frag + 1;
      }
      NothingReadable();
      assert file[frag..] == [];
      return true, m;
    }

    /** `apply_update`: erase, copy every readable fragment, verify. Whatever operation fails, the
        region is old, partly erased or partly written; if none fails, it starts with the readable
        bytes of the file and the result is the verdict on the region. */
    method ApplyUpdate(p: Platform, device: Device, file: File) returns (r: ApplyResult)
      requires p.Valid()
      modifies this
      ensures |region| == old(|region|) && CopyLeaves(old(region), file, region)
      ensures r.Applied? || r.ValidateFailed? ==>
                && ReadableBytes(file) <= region
                && Feed(p, START, region).0.Valid(p)
                && (match Installed(p, device, SignedLevel, region)
                    case Ok(h) => r == Applied(h)
                    case Err(e) => r == ValidateFailed(e))
      ensures (r.EraseFailed? || r.WriteFailed?) && |ReadableBytes(file)| <= |region| ==> faults > old(faults)
    {
      ghost var n, m;
      var ok;
      ok, n := Erase();
      if !ok {
        return EraseFailed;
      }
      ok, m := Copy(file);
      if !ok {
        return WriteFailed;
      }
      var v := new Validator(p, SignedLevel, device);
      var _ := v.Update(region);
      match Judge(p, Policy(SignedLevel, device), v.progress.phase, None)
      case Ok(h) => return Applied(h);
      case Err(e) => return ValidateFailed(e);
    }

    /** One boot: decide, and copy if an update is due. A copy in which no flash operation fails is
        accepted as the header that was due and the next boot has nothing to do; a copy that fails
        anywhere leaves a device that still boots or updates. */
    method Boot(p: Platform, device: Device, installedMin: SecurityLevel, file: File)
      returns (status: AppStatus, r: Option<ApplyResult>)
      requires p.Valid()
      modifies this
      ensures |region| == old(|region|)
      ensures status == Decide(p, device, installedMin, old(region), file)
      ensures !status.ShouldUpdate? ==> r.None? && region == old(region)
      ensures status.ShouldUpdate? ==>
                && r.Some? && CopyLeaves(old(region), file, region)
                && !Decide(p, device, installedMin, region, file).Bricked?
      ensures Streamable(p, file) && r.Some? && (r.value.Applied? || r.value.ValidateFailed?) ==>
                status.ShouldUpdate? && r == Some(Applied(status.header))
                && Decide(p, device, installedMin, region, file) == UpToDate(status.header)
      ensures Streamable(p, file) && status.ShouldUpdate? ==>
                |ReadableBytes(file)| <= |region| && faults == old(faults) ==> r == Some(Applied(status.header))
    {
      hide Decide, Judge, Feed, FeedAll, ReadableBytes, Streamable, CopyLeaves;
      status := Decide(p, device, installedMin, region, file);
      if !status.ShouldUpdate? {
        return status, None;
      }
      var result := ApplyUpdate(p, device, file);
      PowerCutNeverBricks(p, device, installedMin, old(region), file, status.header, region);
      if Streamable(p, file) && (result.Applied? || result.ValidateFailed?) {
        UpdateIsAppliedOnce(p, device, installedMin, old(region), file, status.header, region);
      }
      r := Some(result);
    }

    /** Once an update is due, any number of interrupted copies followed by one that succeeds installs
        it, and no boot on the way finds the device bricked. */
    method BootUntilApplied(p: Platform, device: Device, installedMin: SecurityLevel, file: File, boots: nat)
      returns (applied: bool, statuses: seq<AppStatus>)
      requires p.Valid() && Streamable(p, file) && Decide(p, device, installedMin, region, file).ShouldUpdate?
      modifies this
      ensures forall s <- statuses :: !s.Bricked?
      ensures !Decide(p, device, installedMin, region, file).Bricked?
      ensures applied ==>
                Decide(p, device, installedMin, region, file)
                == UpToDate(Decide(p, device, installedMin, old(region), file).header)
    {
      hide Decide, Judge, Feed, FeedAll, ReadableBytes, Streamable;
      ghost var flash, h := region, Decide(p, device, installedMin, region, file).header;
      applied, statuses := false, [];
      var i := 0;
      while i < boots && !applied
        invariant forall s <- statuses :: !s.Bricked?
        invariant !Decide(p, device, installedMin, region, file).Bricked?
        invariant applied ==> Decide(p, device, installedMin, region, file) == UpToDate(h)
      {
        SameUpdateIsDue(p, device, installedMin, flash, file, region);
        var status, r := Boot(p, device, installedMin, file);
        statuses := statuses + [status];
        applied := r.Some? && r.value.Applied?;
        i := i + 1;
      }
    }
  }

  // ---------------------------------------------------------------- the update cycle

  /** The stored file can be streamed: the first fragment covers the header, and if it is the header,
      the next one is not empty. */
  ghost predicate Streamable(p: Platform, file: File) {
    && file != [] && file[0].Some? && |file[0].value| >= p.headerSize
    && !(|file| > 1 && |file[0].value| == p.headerSize && file[1] == Some([]))
  }

  /** Skipping unreadable fragments only adds bytes after those the candidate was judged on. */
  lemma {:induction false} PrefixOfReadable(file: File)
    ensures Flatten(ReadablePrefix(file)) <= ReadableBytes(file)
    decreases |file|
  {
    if file != [] && file[0].Some? {
      PrefixOfReadable(file[1..]);
      FlattenFirst(ReadablePrefix(file));
      assert ReadablePrefix(file)[1..] == ReadablePrefix(file[1..]);
    }
  }

  lemma CandidateMeaning(p: Platform, file: File)
    requires p.Valid() && Streamable(p, file)
    ensures Candidate(p, file) == Meaning(p, Flatten(ReadablePrefix(file))).phase
    ensures |Flatten(ReadablePrefix(file))| >= p.headerSize
    ensures Flatten(ReadablePrefix(file))[..p.headerSize] == file[0].value[..p.headerSize]
  {
    var slices := ReadablePrefix(file);
    var rest := file[1..];
    assert slices == [file[0].value] + ReadablePrefix(rest);
    assert |slices| > 1 ==> rest != [] && rest[0].Some? && file[1] == rest[0] && slices[1] == rest[0].value;
    SlicingDoesNotMatter(p, slices);
    FlattenKeepsFirst(slices);
    assert Flatten(slices)[..|slices[0]|][..p.headerSize] == Flatten(slices)[..p.headerSize];
  }

  /** The candidate accepted from the file is the image that a region starting with the file's
      readable bytes holds. */
  lemma CopyHasCandidate(p: Platform, file: File, region: Bytes)
    requires p.Valid() && Streamable(p, file) && Candidate(p, file).Complete?
    requires ReadableBytes(file) <= region
    ensures START.Valid(p) && Feed(p, START, region).0.phase == Candidate(p, file)
    ensures p.TryFromBytes(file[0].value) == Ok(Candidate(p, file).header)
  {
    hide Feed, FeedAll, ReadableBytes, ReadablePrefix;
    var image := Flatten(ReadablePrefix(file));
    CandidateMeaning(p, file);
    PrefixOfReadable(file);
    var more := region[|image|..];
    assert region == image + more;
    FeedOnce(p, region);
    TrailingBytesDoNotMatter(p, image, more);
  }

  // ---------------------------------------------------------------- what a boot decides, in bytes

  /** The stored image: what is readable before the first unreadable fragment. */
  function StoredImage(file: File): Bytes { Flatten(ReadablePrefix(file)) }

  /** An image that may be installed over version `least`: its own header says signed, for this device
      and recent enough, and its signature is one of its authenticated fields and data. */
  predicate Installable(p: Platform, device: Device, image: Bytes, least: nat, h: Header) {
    && |image| > p.headerSize && p.TryFromBytes(image) == Ok(h)
    && h.security.Signed? && h.device == device && least <= h.version
    && p.headerSize <= h.security.length <= |image|
    && p.verify(p.hash(p.auth(h) + image[p.headerSize..h.security.length]), h.security.signature)
  }

  lemma StrictlyJudged(p: Platform, device: Device, file: File, existing: Option<Header>, h: Header)
    requires p.Valid() && Streamable(p, file)
    ensures Judge(p, Policy(SignedLevel, device), Candidate(p, file), existing) == Ok(h) <==>
            Installable(p, device, StoredImage(file), if existing.Some? then existing.value.version else 0, h)
  {
    var image := StoredImage(file);
    CandidateMeaning(p, file);
    hide Streamable, ReadablePrefix, Candidate;
    AcceptedMeans(p, Policy(SignedLevel, device), image, existing, h);
    hide Meaning, Judge;
  }

  /** `validate_existing_firmware` accepts exactly the genuine contents of the region. */
  lemma InstalledIff(p: Platform, device: Device, installedMin: SecurityLevel, flash: Bytes, h: Header)
    requires p.Valid()
    ensures Installed(p, device, installedMin, flash) == Ok(h) <==>
            Genuine(p, Policy(installedMin, device), flash, 0, h)
  {
    FeedOnce(p, flash);
    AcceptedMeans(p, Policy(installedMin, device), flash, None, h);
    hide Feed, Meaning, Judge, Genuine;
  }

  lemma StoredDigest(p: Platform, file: File, flash: Bytes)
    requires p.Valid() && Streamable(p, file)
    ensures
      var installed := Feed(p, START, flash).0.phase;
      (DataHash(Candidate(p, file)).Ok? && DataHash(Candidate(p, file)) == DataHash(installed)) <==>
        Digest(p, StoredImage(file)).Some? && Digest(p, StoredImage(file)) == Digest(p, flash)
  {
    var image := StoredImage(file);
    CandidateMeaning(p, file);
    FeedOnce(p, flash);
    hide Streamable, ReadablePrefix, Candidate, Feed;
    DataHashIsDigest(p, image, if Digest(p, image).Some? then Digest(p, image).value else 0);
    DataHashIsDigest(p, flash, if Digest(p, image).Some? then Digest(p, image).value else 0);
    hide Digest, Meaning;
  }

  lemma StoredHeader(p: Platform, file: File)
    requires p.Valid() && Streamable(p, file)
    ensures p.TryFromBytes(file[0].value) == p.TryFromBytes(StoredImage(file))
  {
    CandidateMeaning(p, file);
  }

  /** What a boot decides over an accepted image, from the bytes in flash and in the stored file: up to
      date exactly if the stored header is the installed one or both images have the same digest; an
      update exactly if neither holds and the stored image may be installed over the version that is;
      rejected otherwise. */
  lemma DecidesOverAccepted(
    p: Platform, device: Device, installedMin: SecurityLevel, flash: Bytes, file: File, existing: Header, h: Header)
    requires p.Valid() && Streamable(p, file) && Installed(p, device, installedMin, flash) == Ok(existing)
    ensures
      var status, image := Decide(p, device, installedMin, flash, file), StoredImage(file);
      var same := p.TryFromBytes(image) == Ok(existing)
                  || (Digest(p, image).Some? && Digest(p, image) == Digest(p, flash));
      && (status == UpToDate(existing) <==> same)
      && (status == ShouldUpdate(h) <==> !same && Installable(p, device, image, existing.version, h))
      && (status.UpToDate? || status.ShouldUpdate? || (status.UpdateRejected? && status.header == existing))
      && (status.UpToDate? ==> status.header == existing)
  {
    StrictlyJudged(p, device, file, Some(existing), h);
    StoredDigest(p, file, flash);
    StoredHeader(p, file);
    hide Streamable, StoredImage, Installable, Digest, Candidate, Judge, DataHash, Feed, Platform.TryFromBytes;
  }

  /** And over one that is not: an update exactly if the stored image may be installed at all, and
      otherwise the device is bricked. */
  lemma DecidesOverInvalid(
    p: Platform, device: Device, installedMin: SecurityLevel, flash: Bytes, file: File, h: Header)
    requires p.Valid() && Streamable(p, file) && Installed(p, device, installedMin, flash).Err?
    ensures
      var status, image := Decide(p, device, installedMin, flash, file), StoredImage(file);
      && (status == ShouldUpdate(h) <==> Installable(p, device, image, 0, h))
      && (status.ShouldUpdate? || status.Bricked?)
      && (status.Bricked? ==> Err(status.existing) == Installed(p, device, installedMin, flash))
  {
    StrictlyJudged(p, device, file, None, h);
    hide Streamable, StoredImage, Installable, Candidate, Judge, DataHash, Feed;
  }

  /** The reason given for a rejection, or beside a brick, is why the stored image may not be installed. */
  lemma DecidesWhy(p: Platform, device: Device, installedMin: SecurityLevel, flash: Bytes, file: File)
    requires p.Valid() && Streamable(p, file)
    ensures
      var status, phase := Decide(p, device, installedMin, flash, file), Meaning(p, StoredImage(file)).phase;
      var strict := Policy(SignedLevel, device);
      && (status.UpdateRejected? ==> Judge(p, strict, phase, Some(status.header)) == Err(status.error))
      && (status.Bricked? ==> Judge(p, strict, phase, None) == Err(status.candidate))
  {
    CandidateMeaning(p, file);
    hide Streamable, ReadablePrefix, Judge, DataHash, Feed, Meaning;
  }

  /** The update succeeds and sticks: after `ShouldUpdate(h)`, a copy in which no flash operation
      fails answers `h`, and the next boot answers `UpToDate(h)`. */
  lemma UpdateIsAppliedOnce(
    p: Platform, device: Device, installedMin: SecurityLevel, flash: Bytes, file: File, h: Header, region: Bytes)
    requires p.Valid() && Streamable(p, file)
    requires Decide(p, device, installedMin, flash, file) == ShouldUpdate(h)
    requires ReadableBytes(file) <= region
    ensures Installed(p, device, SignedLevel, region) == Installed(p, device, installedMin, region) == Ok(h)
    ensures Decide(p, device, installedMin, region, file) == UpToDate(h)
  {
    hide Feed, FeedAll, ReadableBytes, ReadablePrefix, Streamable;
    CopyHasCandidate(p, file, region);
  }

  /** A power cut cannot brick the device. Once an update was due, every later boot with the same
      stored file finds something to run, whatever the interrupted copy left in flash: either the
      flash content is itself accepted, or the same update is due again. */
  lemma PowerCutNeverBricks(
    p: Platform, device: Device, installedMin: SecurityLevel, flash: Bytes, file: File, h: Header, region: Bytes)
    requires p.Valid()
    requires Decide(p, device, installedMin, flash, file) == ShouldUpdate(h)
    ensures !Decide(p, device, installedMin, region, file).Bricked?
    ensures Installed(p, device, installedMin, region).Err? ==>
              Decide(p, device, installedMin, region, file) == ShouldUpdate(h)
  {
  }

  /** Whatever is in flash, the update that is due with a stored file is always the same one. */
  lemma SameUpdateIsDue(
    p: Platform, device: Device, installedMin: SecurityLevel, flash: Bytes, file: File, region: Bytes)
    requires p.Valid() && Decide(p, device, installedMin, flash, file).ShouldUpdate?
    ensures Decide(p, device, installedMin, region, file).ShouldUpdate? ==>
              Decide(p, device, installedMin, region, file) == Decide(p, device, installedMin, flash, file)
  {
    hide Feed, FeedAll;
  }

  lemma ReadableFrom(file: File, frag: nat)
    requires frag < |file|
    ensures
      var rest := ReadableBytes(file[frag + 1..]);
      ReadableBytes(file[frag..]) == if file[frag].Some? then file[frag].value + rest else rest
  {
    assert file[frag..][1..] == file[frag + 1..];
  }

  lemma NothingReadable()
    ensures ReadableBytes([]) == []
  {
  }

  lemma CopyGoesOn(all: Bytes, data: Bytes, rest: Bytes, m: nat, n: nat, size: nat)
    requires m <= |all| && all[m..] == data + rest && n <= |data| && m + n <= size
    ensures m + n <= |all| && Overwritten(Filled(all, m, size), m, data[..n]) == Filled(all, m + n, size)
    ensures n == |data| ==> all[m + n..] == rest
  {
    assert n == |data| ==> all[m + n..] == all[m..][|data|..];
    assert all[m..][..n] == data[..n];
    assert all[..m] + data[..n] == all[..m + n];
    assert Filled(all, m, size)[..m] == all[..m];
  }

  // ---------------------------------------------------------------- versions over interrupted updates

  /** What a device has: the application region and the stored file. */
  datatype Stock = Stock(region: Bytes, file: File)

  /** A boot, with the copy stopping anywhere if one is due, or an exchange of the stored file. */
  ghost predicate Happens(p: Platform, device: Device, installedMin: SecurityLevel, s: Stock, t: Stock)
    requires p.Valid()
  {
    || (t.region == s.region && t.file != s.file)
    || (t.file == s.file && if Decide(p, device, installedMin, s.region, s.file).ShouldUpdate?
                            then CopyLeaves(s.region, s.file, t.region) else t.region == s.region)
  }

  /** The stored file is exchanged only while the installed image is accepted. */
  predicate Careful(p: Platform, device: Device, installedMin: SecurityLevel, s: Stock, t: Stock)
    requires p.Valid()
  {
    t.file != s.file ==> Installed(p, device, installedMin, s.region).Ok?
  }

  /** The header format gives itself away when it is not whole: a region that begins erased, or with
      less than the header of the file, is not accepted. */
  ghost predicate RejectsTorn(p: Platform, device: Device, installedMin: SecurityLevel, file: File)
    requires p.Valid()
  {
    && (forall r: Bytes | r != [] && r[0] == 0xFF :: Installed(p, device, installedMin, r).Err?)
    && (forall m: nat, size: nat | m < p.headerSize && m <= |ReadableBytes(file)| && m <= size ::
          Installed(p, device, installedMin, PartCopied(file, m, size)).Err?)
  }

  lemma InstalledHeader(p: Platform, device: Device, installedMin: SecurityLevel, region: Bytes)
    requires p.Valid() && Installed(p, device, installedMin, region).Ok?
    ensures p.TryFromBytes(region) == Ok(Installed(p, device, installedMin, region).value)
  {
    FeedOnce(p, region);
    hide Feed;
  }

  /** Whatever the file's fragments, the candidate's header is read from its first bytes. */
  lemma DueHeader(p: Platform, device: Device, installedMin: SecurityLevel, flash: Bytes, file: File)
    requires p.Valid() && Decide(p, device, installedMin, flash, file).ShouldUpdate?
    ensures p.TryFromBytes(ReadableBytes(file)) == Ok(Decide(p, device, installedMin, flash, file).header)
  {
    hide Feed, FeedAll, ReadableBytes, ReadablePrefix;
    var slices := ReadablePrefix(file);
    HeaderIsFirst(p, slices);
    PrefixOfReadable(file);
    assert Candidate(p, file).Complete?;
    assert ReadableBytes(file)[..p.headerSize] == Flatten(slices)[..p.headerSize];
  }

  /** A copy that stops anywhere leaves what was installed, nothing acceptable, or what was due. */
  lemma CopyLeavesOldOrNew(
    p: Platform, device: Device, installedMin: SecurityLevel, region: Bytes, file: File, after: Bytes)
    requires p.Valid() && Decide(p, device, installedMin, region, file).ShouldUpdate?
    requires CopyLeaves(region, file, after) && RejectsTorn(p, device, installedMin, file)
    ensures
      var installed := Installed(p, device, installedMin, after);
      || after == region || installed.Err? || installed == Ok(Decide(p, device, installedMin, region, file).header)
  {
    DueHeader(p, device, installedMin, region, file);
    hide Decide, ReadableBytes;
    if Installed(p, device, installedMin, after).Ok? && after != region {
      InstalledHeader(p, device, installedMin, after);
      hide Installed;
      var m := AcceptedIsCopied(p, device, installedMin, region, file, after);
      PartCopiedBegins(file, m, |region|, p.headerSize);
    }
  }

  lemma AcceptedIsCopied(
    p: Platform, device: Device, installedMin: SecurityLevel, region: Bytes, file: File, after: Bytes) returns (m: nat)
    requires p.Valid() && after != region && Installed(p, device, installedMin, after).Ok?
    requires CopyLeaves(region, file, after) && RejectsTorn(p, device, installedMin, file)
    ensures p.headerSize <= m <= |ReadableBytes(file)| && m <= |region| && after == PartCopied(file, m, |region|)
  {
    hide Installed, ReadableBytes, PartCopied;
    forall n: nat | n <= |region| ensures after != PartErased(region, n) {
      var r := PartErased(region, n);
      assert if n == 0 then r == region else r[0] == 0xFF;
    }
    m :| m <= |ReadableBytes(file)| && m <= |region| && after == PartCopied(file, m, |region|);
  }

  lemma PartCopiedBegins(file: File, m: nat, size: nat, k: nat)
    requires k <= m <= |ReadableBytes(file)| && m <= size
    ensures |PartCopied(file, m, size)| >= k && PartCopied(file, m, size)[..k] == ReadableBytes(file)[..k]
  {
    hide ReadableBytes;
  }

  /** The installed image is accepted and not older than `version`, or an update to one that is not is due. */
  predicate AtLeast(p: Platform, device: Device, installedMin: SecurityLevel, s: Stock, version: nat)
    requires p.Valid()
  {
    match Installed(p, device, installedMin, s.region)
    case Ok(h) => version <= h.version
    case Err(_) =>
      var due := Decide(p, device, installedMin, s.region, s.file);
      due.ShouldUpdate? && version <= due.header.version
  }

  lemma AtLeastStays(p: Platform, device: Device, installedMin: SecurityLevel, s: Stock, t: Stock, version: nat)
    requires p.Valid() && AtLeast(p, device, installedMin, s, version)
    requires Happens(p, device, installedMin, s, t) && Careful(p, device, installedMin, s, t)
    requires RejectsTorn(p, device, installedMin, s.file)
    ensures AtLeast(p, device, installedMin, t, version)
  {
    hide CopyLeaves, RejectsTorn;
    var due := Decide(p, device, installedMin, s.region, s.file);
    if t.file == s.file && due.ShouldUpdate? {
      NotOlder(p, device, installedMin, s.region, s.file);
      CopyLeavesOldOrNew(p, device, installedMin, s.region, s.file, t.region);
      PowerCutNeverBricks(p, device, installedMin, s.region, s.file, due.header, t.region);
      hide Decide, Installed;
    }
  }

  /** No downgrade over power cuts. In every run of boots, with copies stopped anywhere, and of file
      exchanges, as long as no file is exchanged while the installed image is not accepted: the
      version of what is installed never decreases, and when nothing acceptable is installed, an
      update to a version that is not lower is due. */
  lemma {:induction false} VersionsNeverDecrease(
    p: Platform, device: Device, installedMin: SecurityLevel, run: seq<Stock>, version: nat)
    requires p.Valid() && run != [] && AtLeast(p, device, installedMin, run[0], version)
    requires forall k | 0 <= k < |run| - 1 ::
               && Happens(p, device, installedMin, run[k], run[k + 1])
               && Careful(p, device, installedMin, run[k], run[k + 1])
    requires forall s <- run :: RejectsTorn(p, device, installedMin, s.file)
    ensures AtLeast(p, device, installedMin, run[|run| - 1], version)
    decreases |run|
  {
    hide AtLeast, Happens, Careful, RejectsTorn;
    if |run| > 1 {
      var n := |run| - 2;
      VersionsNeverDecrease(p, device, installedMin, run[..n + 1], version);
      assert Happens(p, device, installedMin, run[n], run[n + 1]);
      AtLeastStays(p, device, installedMin, run[n], run[n + 1], version);
    }
  }

  /** An installed image is replaced only by a signed one for the device that is not older. */
  lemma NotOlder(p: Platform, device: Device, installedMin: SecurityLevel, flash: Bytes, file: File)
    requires p.Valid() && Decide(p, device, installedMin, flash, file).ShouldUpdate?
    ensures
      var h := Decide(p, device, installedMin, flash, file).header;
      h.security.Signed? && h.device == device &&
      (Installed(p, device, installedMin, flash).Ok? ==>
         Installed(p, device, installedMin, flash).value.version <= h.version)
  {
    hide Feed, FeedAll;
  }

  // ---------------------------------------------------------------- an exchange at the wrong time

  /** A header format of one byte: the version; 0xFF is no header. Images have two bytes, and the hash is
      the second. */
  const TINY := Platform(
    1,
    (b: Bytes) => if b == [] || b[0] == 0xFF then Err(InvalidHeader) else Ok(TinyHeader(b[0])),
    (h: Header) => [],
    (b: Bytes) => if b == [] then 0 else b[0],
    (hash: Hash, signature: Signature) => true)

  function TinyHeader(version: nat): Header { Header(Signed(2, 0), 0, version) }

  lemma TinyInstalled(v: Byte)
    requires v != 0xFF
    ensures Feed(TINY, START, [v, v]).0.phase == Complete(TinyHeader(v), v)
    ensures Installed(TINY, 0, SignedLevel, [v, v]) == Ok(TinyHeader(v))
  {
    var image: Bytes := [v, v];
    FeedOnce(TINY, image);
    assert image[..1] == [v] && image[1..2] == [v] && [] + image[1..2] == [v];
    hide Feed;
  }

  lemma TinyErased(region: Bytes)
    requires region == [] || region[0] == 0xFF
    ensures Installed(TINY, 0, SignedLevel, region).Err?
  {
    FeedOnce(TINY, region);
    hide Feed;
  }

  lemma TinyRejectsTorn(file: File)
    ensures RejectsTorn(TINY, 0, SignedLevel, file)
  {
    forall r: Bytes | r != [] && r[0] == 0xFF ensures Installed(TINY, 0, SignedLevel, r).Err? {
      TinyErased(r);
    }
    hide Installed, ReadableBytes;
    forall m: nat, size: nat | m < 1 && m <= |ReadableBytes(file)| && m <= size
      ensures Installed(TINY, 0, SignedLevel, PartCopied(file, m, size)).Err?
    {
      TinyErased(PartCopied(file, m, size));
    }
  }

  function TinyFile(v: Byte): File { [Some([v, v])] }

  lemma TinyCandidate(v: Byte)
    requires v != 0xFF
    ensures Candidate(TINY, TinyFile(v)) == Complete(TinyHeader(v), v)
    ensures TINY.TryFromBytes([v, v]) == Ok(TinyHeader(v)) && ReadableBytes(TinyFile(v)) == [v, v]
  {
    TinyInstalled(v);
    var image: Bytes := [v, v];
    assert TinyFile(v)[1..] == [] && ReadablePrefix(TinyFile(v)) == [image] && [image][..0] == [];
    assert FeedAll(TINY, START, [image]) == Feed(TINY, START, image).0;
    assert image[..1] == [v];
    hide Feed;
  }

  /** Over an accepted image an update is due if it is newer, over an invalid one whatever its version. */
  lemma TinyDecides(region: Bytes, v: Byte)
    requires v != 0xFF
    ensures region == [] || region[0] == 0xFF ==>
              Decide(TINY, 0, SignedLevel, region, TinyFile(v)) == ShouldUpdate(TinyHeader(v))
    ensures forall u: Byte | region == [u, u] && u < v ::
              Decide(TINY, 0, SignedLevel, region, TinyFile(v)) == ShouldUpdate(TinyHeader(v))
  {
    TinyCandidate(v);
    hide Feed, FeedAll, ReadableBytes, ReadablePrefix;
    if region == [] || region[0] == 0xFF {
      TinyErased(region);
    } else if |region| == 2 && region[0] == region[1] < v {
      TinyInstalled(region[0]);
      assert region == [region[0], region[0]];
    }
  }

  /** Version 5 is installed, the copy of version 6 is interrupted, version 3 is stored instead, and it
      is installed. */
  function Story(k: nat): Stock {
    Stock(if k == 0 then [5, 5] else if k < 3 then [0xFF, 0xFF] else [3, 3], TinyFile(if k < 2 then 6 else 3))
  }

  lemma UpdateIsInterrupted()
    ensures Happens(TINY, 0, SignedLevel, Story(0), Story(1))
  {
    var s, t := Story(0), Story(1);
    TinyDecides(s.region, 6);
    hide Decide, ReadableBytes;
    assert t.region == PartErased(s.region, 2);
  }

  lemma FileIsExchanged()
    ensures Happens(TINY, 0, SignedLevel, Story(1), Story(2))
  {
    var s, t := Story(1), Story(2);
    hide Decide, CopyLeaves;
    assert s.file[0].value[0] != t.file[0].value[0];
  }

  lemma OlderIsInstalled()
    ensures Happens(TINY, 0, SignedLevel, Story(2), Story(3))
  {
    var s, t := Story(2), Story(3);
    TinyDecides(s.region, 3);
    TinyCandidate(3);
    hide Decide, ReadableBytes, Candidate;
    assert t.region == PartCopied(s.file, 2, 2);
  }

  lemma StoryEnds(k: nat)
    ensures RejectsTorn(TINY, 0, SignedLevel, Story(k).file)
    ensures Installed(TINY, 0, SignedLevel, Story(0).region) == Ok(TinyHeader(5))
    ensures Installed(TINY, 0, SignedLevel, Story(3).region) == Ok(TinyHeader(3))
  {
    TinyInstalled(5);
    TinyInstalled(3);
    TinyRejectsTorn(Story(k).file);
    hide Installed, RejectsTorn;
  }

  /** Exchanging the stored file while the installed image is not accepted can downgrade. */
  lemma ExchangeWhileInvalidDowngrades()
    ensures exists run: seq<Stock> ::
              && |run| == 4 && TINY.Valid()
              && (forall k | 0 <= k < |run| - 1 :: Happens(TINY, 0, SignedLevel, run[k], run[k + 1]))
              && (forall s <- run :: RejectsTorn(TINY, 0, SignedLevel, s.file))
              && Installed(TINY, 0, SignedLevel, run[0].region) == Ok(TinyHeader(5))
              && Installed(TINY, 0, SignedLevel, run[3].region) == Ok(TinyHeader(3))
  {
    hide Installed, Happens, RejectsTorn, Story, TinyHeader;
    var run := [Story(0), Story(1), Story(2), Story(3)];
    UpdateIsInterrupted();
    FileIsExchanged();
    OlderIsInstalled();
    StoryEnds(0);
    StoryEnds(1);
    StoryEnds(2);
    StoryEnds(3);
    assert forall k | 0 <= k < |run| - 1 :: Happens(TINY, 0, SignedLevel, run[k], run[k + 1]);
    assert forall s <- run :: RejectsTorn(TINY, 0, SignedLevel, s.file);
  }
}
