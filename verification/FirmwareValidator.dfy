/** The streaming firmware `Validator` of `meta/firmware.rs`.

    The header format, the hash and the signature check are arbitrary functions collected in a
    `Platform`, so every statement holds for all of them. */
module FirmwareValidator {
  import opened Options
  import opened Numbers

  type Hash = nat
  type Signature = nat
  type Device = nat

  datatype Result<+T, +E> = Ok(value: T) | Err(error: E)

  datatype HeaderError =
    | TooFewBytes | InvalidHeader | InvalidSecurityLevel | InvalidSecurityTag | InvalidLength | InvalidDeviceType

  datatype SecurityLevel = NoSecurity | IntegrityOnly | SignedLevel {
    function Rank(): nat { if NoSecurity? then 0 else if IntegrityOnly? then 1 else 2 }
  }

  datatype Security = Unprotected | Hashed(length: nat, hash: Hash) | Signed(length: nat, signature: Signature) {
    function Level(): SecurityLevel {
      match this
      case Unprotected => NoSecurity
      case Hashed(_, _) => IntegrityOnly
      case Signed(_, _) => SignedLevel
    }
  }

  datatype Header = Header(security: Security, device: Device, version: nat)

  /** `parse` reads the first `headerSize` bytes of an image, `auth` gives a header's authenticated
      fields, `hash` is the digest of everything fed to the hasher, `verify` checks a signature. */
  datatype Platform = Platform(
    headerSize: nat,
    parse: Bytes -> Result<Header, HeaderError>,
    auth: Header -> Bytes,
    hash: Bytes -> Hash,
    verify: (Hash, Signature) -> bool)
  {
    ghost predicate Valid() { headerSize > 0 }

    function TryFromBytes(b: Bytes): Result<Header, HeaderError> {
      if |b| < headerSize then Err(TooFewBytes) else parse(b[..headerSize])
    }
  }

  datatype Phase =
    | Init(buffer: Bytes)
    | NeedMoreData(header: Header, fed: Bytes)
    | Complete(header: Header, hash: Hash)
    | Fail(error: HeaderError)
  {
    predicate Terminal() { Complete? || Fail? }
  }

  /** The mutable part of a `Validator`: its state and `n_bytes`. */
  datatype Progress = Progress(phase: Phase, n: nat) {
    ghost predicate Valid(p: Platform) {
      phase.Init? ==> n == |phase.buffer| < p.headerSize
    }
  }

  const START := Progress(Init([]), 0)

  /** One pass of the loop in `update`: the new progress, the bytes consumed, and whether to return
      true at once. */
  function Pass(p: Platform, v: Progress, bytes: Bytes): (r: (Progress, nat, bool))
    requires p.Valid() && v.Valid(p)
    ensures r.0.Valid(p) && r.1 <= |bytes|
    ensures r.2 ==> r.0.phase.Terminal()
  {
    match v.phase
    case Init(buffer) =>
      var remaining := p.headerSize - v.n;
      var k := Min(remaining, |bytes|);
      if k == remaining then
        var phase := match p.parse(buffer + bytes[..k])
          case Ok(h) => NeedMoreData(h, [])
          case Err(e) => Fail(e);
        (Progress(phase, k), k, false)
      else
        (Progress(Init(buffer + bytes[..k]), v.n + k), k, false)
    case NeedMoreData(h, fed) =>
      if h.security.Unprotected? then (v.(phase := Complete(h, p.hash(fed))), 0, true)
      else if v.n > h.security.length then (v.(phase := Fail(InvalidLength)), 0, true)
      else
        var remaining := h.security.length - v.n;
        var k := Min(remaining, |bytes|);
        var fed' := fed + (if v.n == p.headerSize then p.auth(h) else []) + bytes[..k];
        (Progress(if k == remaining then Complete(h, p.hash(fed')) else NeedMoreData(h, fed'), v.n + k), k, false)
    case Complete(_, _) => (v, 0, true)
    case Fail(_) => (v, 0, true)
  }

  /** `update`: the progress after feeding one slice, and the returned flag. */
  function Feed(p: Platform, v: Progress, bytes: Bytes): (r: (Progress, bool))
    requires p.Valid() && v.Valid(p)
    ensures r.0.Valid(p)
    ensures r.1 ==> r.0.phase.Terminal()
    decreases |bytes|
  {
    var (v', k, done) := Pass(p, v, bytes);
    if done then (v', true)
    else if k == 0 || k == |bytes| then (v', false)
    else Feed(p, v', bytes[k..])
  }

  function FeedAll(p: Platform, v: Progress, slices: seq<Bytes>): (r: Progress)
    requires p.Valid() && v.Valid(p)
    ensures r.Valid(p)
    decreases |slices|
  {
    if slices == [] then v else Feed(p, FeedAll(p, v, slices[..|slices| - 1]), slices[|slices| - 1]).0
  }

  function Flatten(slices: seq<Bytes>): Bytes
    decreases |slices|
  {
    if slices == [] then [] else Flatten(slices[..|slices| - 1]) + slices[|slices| - 1]
  }

  class Validator {
    const platform: Platform
    const minSecurity: SecurityLevel
    const device: Device
    var progress: Progress

    constructor (platform: Platform, minSecurity: SecurityLevel, device: Device)
      requires platform.Valid()
      ensures this.platform == platform && this.minSecurity == minSecurity && this.device == device
      ensures progress == START
    {
      this.platform, this.minSecurity, this.device := platform, minSecurity, device;
      progress := START;
    }

    /** The loop of `update`. */
    method Update(bytes: Bytes) returns (done: bool)
      requires platform.Valid() && progress.Valid(platform)
      modifies this
      ensures (progress, done) == Feed(platform, old(progress), bytes)
    {
      var rest := bytes;
      while true
        invariant progress.Valid(platform)
        invariant Feed(platform, progress, rest) == Feed(platform, old(progress), bytes)
        decreases |rest|
      {
        var (next, k, finished) := Pass(platform, progress, rest);
        progress := next;
        if finished {
          return true;
        }
        if k == 0 || k == |rest| {
          return false;
        }
        rest := rest[k..];
      }
    }
  }

  // ---------------------------------------------------------------- the one-shot meaning

  /** What a validator should know about an image, as a function of the image alone. */
  function Meaning(p: Platform, image: Bytes): Progress {
    if |image| < p.headerSize then Progress(Init(image), |image|)
    else
      match p.TryFromBytes(image)
      case Err(e) => Progress(Fail(e), p.headerSize)
      case Ok(h) =>
        if |image| == p.headerSize then Progress(NeedMoreData(h, []), p.headerSize)
        else if h.security.Unprotected? then Progress(Complete(h, p.hash([])), p.headerSize)
        else if h.security.length < p.headerSize then Progress(Fail(InvalidLength), p.headerSize)
        else if h.security.length <= |image| then
          Progress(Complete(h, p.hash(p.auth(h) + image[p.headerSize..h.security.length])), h.security.length)
        else Progress(NeedMoreData(h, p.auth(h) + image[p.headerSize..]), |image|)
  }

  lemma MeaningValid(p: Platform, image: Bytes)
    requires p.Valid()
    ensures Meaning(p, image).Valid(p)
  {
  }

  /** Once an image is decided, bytes after it never matter. */
  lemma TrailingBytesDoNotMatter(p: Platform, image: Bytes, more: Bytes)
    requires p.Valid() && Meaning(p, image).phase.Terminal()
    ensures Meaning(p, image + more) == Meaning(p, image)
  {
    assert (image + more)[..p.headerSize] == image[..p.headerSize];
    match p.TryFromBytes(image)
    case Err(_) =>
    case Ok(h) =>
      if !h.security.Unprotected? && p.headerSize <= h.security.length <= |image| {
        assert (image + more)[p.headerSize..h.security.length] == image[p.headerSize..h.security.length];
      }
  }

  /** What is known of the header after `d`: nothing before it is whole, and then what its bytes say. */
  predicate HeaderKnown(p: Platform, v: Progress, d: Bytes) {
    match v.phase
    case Init(buffer) => buffer == d && |d| < p.headerSize
    case NeedMoreData(h, _) => p.TryFromBytes(d) == Ok(h)
    case Complete(h, _) => p.TryFromBytes(d) == Ok(h)
    case Fail(_) => true
  }

  lemma {:induction false} HeaderStaysKnown(p: Platform, v: Progress, d: Bytes, bytes: Bytes)
    requires p.Valid() && v.Valid(p) && HeaderKnown(p, v, d)
    ensures HeaderKnown(p, Feed(p, v, bytes).0, d + bytes)
    decreases |bytes|
  {
    var (w, k, done) := Pass(p, v, bytes);
    assert HeaderKnown(p, w, d + bytes[..k]) by {
      if |d| >= p.headerSize {
        assert (d + bytes[..k])[..p.headerSize] == d[..p.headerSize];
      } else if |d| + k == p.headerSize {
        assert (d + bytes[..k])[..p.headerSize] == d + bytes[..k];
      }
    }
    if done || k == 0 {
      MoreBytesKeepHeader(p, w, d + bytes[..k], bytes[k..]);
      assert d + bytes[..k] + bytes[k..] == d + bytes;
    } else if k == |bytes| {
      assert bytes[..k] == bytes;
    } else {
      HeaderStaysKnown(p, w, d + bytes[..k], bytes[k..]);
      assert d + bytes[..k] + bytes[k..] == d + bytes;
    }
  }

  lemma MoreBytesKeepHeader(p: Platform, v: Progress, d: Bytes, more: Bytes)
    requires HeaderKnown(p, v, d) && (v.phase.Init? ==> more == [])
    ensures HeaderKnown(p, v, d + more)
  {
    if |d| >= p.headerSize {
      assert (d + more)[..p.headerSize] == d[..p.headerSize];
    }
    assert more == [] ==> d + more == d;
  }

  /** However an image is sliced, its header is read from its first bytes. */
  lemma {:induction false} HeaderIsFirst(p: Platform, slices: seq<Bytes>)
    requires p.Valid()
    ensures START.Valid(p) && HeaderKnown(p, FeedAll(p, START, slices), Flatten(slices))
    decreases |slices|
  {
    if slices != [] {
      var init, last := slices[..|slices| - 1], slices[|slices| - 1];
      HeaderIsFirst(p, init);
      HeaderStaysKnown(p, FeedAll(p, START, init), Flatten(init), last);
    }
  }

  /** Past the header, feeding data keeps the meaning; right behind the header it must not be empty. */
  lemma FeedData(p: Platform, image: Bytes, bytes: Bytes)
    requires p.Valid() && |image| >= p.headerSize && (bytes != [] || |image| > p.headerSize)
    requires Meaning(p, image).Valid(p)
    ensures Feed(p, Meaning(p, image), bytes).0 == Meaning(p, image + bytes)
  {
    var v := Meaning(p, image);
    assert (image + bytes)[..p.headerSize] == image[..p.headerSize];
    if v.phase.Terminal() {
      TrailingBytesDoNotMatter(p, image, bytes);
    } else {
      var h := v.phase.header;
      if !h.security.Unprotected? && v.n <= h.security.length {
        FeedProtected(p, h, image, bytes);
      }
    }
  }

  lemma FeedProtected(p: Platform, h: Header, image: Bytes, bytes: Bytes)
    requires p.Valid() && p.TryFromBytes(image) == Ok(h) && !h.security.Unprotected?
    requires Meaning(p, image).phase.NeedMoreData? && |image| <= h.security.length
    requires bytes != [] || |image| > p.headerSize
    ensures p.TryFromBytes(image + bytes) == Ok(h)
    ensures Feed(p, Meaning(p, image), bytes).0 == Meaning(p, image + bytes)
  {
    var v := Meaning(p, image);
    var k := Min(h.security.length - v.n, |bytes|);
    var data := (image + bytes)[p.headerSize..|image| + k];
    assert (image + bytes)[..p.headerSize] == image[..p.headerSize];
    assert image[p.headerSize..] + bytes[..k] == data;
    if |image| == p.headerSize {
      assert [] + p.auth(h) + bytes[..k] == p.auth(h) + data;
    } else {
      assert v.phase.fed + [] + bytes[..k] == p.auth(h) + data;
    }
    hide Platform.TryFromBytes;
  }

  /** One update with a whole image gives the image's meaning. */
  lemma FeedOnce(p: Platform, image: Bytes)
    requires p.Valid()
    ensures START.Valid(p) && Feed(p, START, image).0 == Meaning(p, image)
  {
    if |image| >= p.headerSize {
      var head, rest := image[..p.headerSize], image[p.headerSize..];
      assert [] + head == head && head + rest == image && head[..p.headerSize] == head;
      if rest != [] {
        FeedData(p, head, rest);
      }
    } else {
      assert [] + image[..|image|] == image;
    }
  }

  /** The first slice covers the header, and if it is the header, the next one is not empty. */
  predicate CoversHeader(p: Platform, slices: seq<Bytes>) {
    && slices != [] && |slices[0]| >= p.headerSize
    && !(|slices| > 1 && |slices[0]| == p.headerSize && slices[1] == [])
  }

  lemma {:induction false} FlattenFirst(slices: seq<Bytes>)
    requires slices != []
    ensures Flatten(slices) == slices[0] + Flatten(slices[1..])
    decreases |slices|
  {
    if |slices| == 1 {
      assert slices[..0] == [] && slices[1..] == [];
    } else {
      var init, tail, last := slices[..|slices| - 1], slices[1..], slices[|slices| - 1];
      FlattenFirst(init);
      assert init[1..] == tail[..|tail| - 1] && tail[|tail| - 1] == last;
      assert Flatten(tail) == Flatten(init[1..]) + last;
      assert slices[0] + (Flatten(init[1..]) + last) == slices[0] + Flatten(init[1..]) + last;
    }
  }

  lemma FlattenGrows(slices: seq<Bytes>)
    requires slices != []
    ensures |slices| > 1 ==> |Flatten(slices)| >= |slices[0]| + |slices[1]|
  {
    FlattenFirst(slices);
    if |slices| > 1 {
      FlattenFirst(slices[1..]);
    }
  }

  lemma {:induction false} FeedFirst(p: Platform, v: Progress, slices: seq<Bytes>)
    requires p.Valid() && v.Valid(p) && slices != []
    ensures FeedAll(p, v, slices) == FeedAll(p, Feed(p, v, slices[0]).0, slices[1..])
    decreases |slices|
  {
    if |slices| == 1 {
      assert slices[..0] == [];
    } else {
      FeedFirst(p, v, slices[..|slices| - 1]);
      assert slices[..|slices| - 1][1..] == slices[1..][..|slices| - 2];
    }
  }

  lemma {:induction false} FlattenKeepsFirst(slices: seq<Bytes>)
    requires slices != []
    ensures |Flatten(slices)| >= |slices[0]| && Flatten(slices)[..|slices[0]|] == slices[0]
    decreases |slices|
  {
    if |slices| == 1 {
      assert slices[..0] == [];
    } else {
      FlattenKeepsFirst(slices[..|slices| - 1]);
    }
  }

  /** For every splitting whose first slice covers the header, empty slices included unless one follows
      a header-sized first one, the validator ends where one update with the concatenation ends: at
      the meaning of the image. */
  lemma {:induction false} SlicingDoesNotMatter(p: Platform, slices: seq<Bytes>)
    requires p.Valid() && CoversHeader(p, slices)
    ensures START.Valid(p)
    ensures FeedAll(p, START, slices) == Feed(p, START, Flatten(slices)).0 == Meaning(p, Flatten(slices))
    decreases |slices|
  {
    FeedOnce(p, Flatten(slices));
    var init, last := slices[..|slices| - 1], slices[|slices| - 1];
    if |slices| == 1 {
      assert init == [] && [] + last == last;
    } else {
      SlicingDoesNotMatter(p, init);
      FlattenKeepsFirst(init);
      FlattenGrows(init);
      MeaningValid(p, Flatten(init));
      FeedData(p, Flatten(init), last);
    }
  }

  // ---------------------------------------------------------------- when the header is split

  /** `image` is protected and records its own length, as every image made by `sign` does. */
  predicate RecordsOwnLength(p: Platform, image: Bytes) {
    && |image| > p.headerSize
    && p.TryFromBytes(image).Ok?
    && !p.TryFromBytes(image).value.security.Unprotected?
    && p.TryFromBytes(image).value.security.length == |image|
  }

  /** The byte count has fallen behind the bytes seen: completion is out of reach. */
  predicate Lagging(v: Progress, seen: nat, total: nat) {
    && v.phase.NeedMoreData? && !v.phase.header.security.Unprotected?
    && v.phase.header.security.length == total && v.n < seen
  }

  lemma LaggingStays(p: Platform, v: Progress, seen: nat, total: nat, bytes: Bytes)
    requires p.Valid() && Lagging(v, seen, total) && seen + |bytes| <= total
    ensures Lagging(Feed(p, v, bytes).0, seen + |bytes|, total)
  {
  }

  /** Where a validator is after `d`, a non-empty part of a self-sized image of length `total` whose
      header arrived in pieces: the pieces are buffered, and once the header is whole the count lags. */
  predicate SplitProgress(p: Platform, v: Progress, d: Bytes, total: nat) {
    if |d| < p.headerSize then v == Progress(Init(d), |d|) && d != [] else Lagging(v, |d|, total)
  }

  lemma SplitStep(p: Platform, v: Progress, d: Bytes, last: Bytes, image: Bytes)
    requires p.Valid() && v.Valid(p) && SplitProgress(p, v, d, |image|)
    requires RecordsOwnLength(p, image) && d + last <= image
    ensures SplitProgress(p, Feed(p, v, last).0, d + last, |image|)
  {
    if |d| >= p.headerSize {
      LaggingStays(p, v, |d|, |image|, last);
    } else {
      var k := Min(p.headerSize - |d|, |last|);
      if k == p.headerSize - |d| {
        assert d + last[..k] == image[..p.headerSize];
        var w := Pass(p, v, last).0;
        assert Lagging(w, p.headerSize, |image|);
        if k < |last| {
          LaggingStays(p, w, p.headerSize, |image|, last[k..]);
        }
      } else {
        assert last[..k] == last;
      }
    }
  }

  lemma SplitBegins(p: Platform, first: Bytes, total: nat)
    requires p.Valid() && 0 < |first| < p.headerSize
    ensures START.Valid(p) && SplitProgress(p, Feed(p, START, first).0, first, total)
  {
    assert [] + first[..|first|] == first;
  }

  lemma {:induction false} SplitHeaderLags(p: Platform, slices: seq<Bytes>, image: Bytes)
    requires p.Valid() && slices != [] && 0 < |slices[0]| < p.headerSize
    requires RecordsOwnLength(p, image) && Flatten(slices) <= image
    ensures START.Valid(p)
    ensures SplitProgress(p, FeedAll(p, START, slices), Flatten(slices), |image|)
    decreases |slices|
  {
    var init, last := slices[..|slices| - 1], slices[|slices| - 1];
    if |slices| == 1 {
      assert init == [] && [] + last == last;
      SplitBegins(p, last, |image|);
    } else {
      hide Feed, SplitProgress, RecordsOwnLength;
      assert init[0] == slices[0];
      SplitHeaderLags(p, init, image);
      SplitStep(p, FeedAll(p, START, init), Flatten(init), last, image);
    }
  }

  /** The first slice that is not empty. */
  function FirstNonEmpty(slices: seq<Bytes>): Bytes {
    if slices == [] then [] else if slices[0] != [] then slices[0] else FirstNonEmpty(slices[1..])
  }

  /** The exact condition for completing. An image that records its own length, however sliced, is
      recognised as complete if and only if the first non-empty slice covers the header; otherwise the
      validator keeps asking for more data. */
  lemma {:induction false} CompletesIffFirstSliceCoversHeader(p: Platform, slices: seq<Bytes>)
    requires p.Valid() && RecordsOwnLength(p, Flatten(slices))
    ensures START.Valid(p)
    ensures FeedAll(p, START, slices).phase.Complete? <==> |FirstNonEmpty(slices)| >= p.headerSize
    decreases |slices|
  {
    FlattenFirst(slices);
    if slices[0] == [] {
      assert [] + Flatten(slices[1..]) == Flatten(slices[1..]);
      FeedFirst(p, START, slices);
      assert Feed(p, START, []).0 == START;
      CompletesIffFirstSliceCoversHeader(p, slices[1..]);
    } else if |slices[0]| >= p.headerSize {
      HashCoversAuthRepeatedly(p, slices);
    } else {
      SplitHeaderLags(p, slices, Flatten(slices));
    }
  }

  // ---------------------------------------------------------------- empty slices behind the header

  function Repeated(a: Bytes, n: nat): Bytes {
    if n == 0 then [] else Repeated(a, n - 1) + a
  }

  /** Past the header of an image for `h`, with `a` hashed in front of the data. */
  function Counted(p: Platform, h: Header, a: Bytes, image: Bytes): Progress
    requires !h.security.Unprotected? && p.headerSize < |image|
  {
    if p.headerSize <= h.security.length <= |image| then
      Progress(Complete(h, p.hash(a + image[p.headerSize..h.security.length])), h.security.length)
    else Progress(NeedMoreData(h, a + image[p.headerSize..]), |image|)
  }

  lemma CountedStep(p: Platform, h: Header, a: Bytes, image: Bytes, bytes: Bytes)
    requires p.Valid() && !h.security.Unprotected? && p.headerSize < |image| && p.headerSize <= h.security.length
    ensures Feed(p, Counted(p, h, a, image), bytes).0 == Counted(p, h, a, image + bytes)
  {
    if h.security.length <= |image| {
      assert (image + bytes)[p.headerSize..h.security.length] == image[p.headerSize..h.security.length];
    } else {
      var k := Min(h.security.length - |image|, |bytes|);
      assert a + image[p.headerSize..] + [] + bytes[..k] == a + (image + bytes)[p.headerSize..|image| + k];
    }
  }

  /** How many empty slices come right after the first one. */
  function EmptiesAfterFirst(slices: seq<Bytes>): (e: nat)
    requires slices != []
    ensures e < |slices| && forall i | 1 <= i <= e :: slices[i] == []
    ensures 1 + e < |slices| ==> slices[1 + e] != []
  {
    LeadingEmpties(slices[1..])
  }

  function LeadingEmpties(slices: seq<Bytes>): (e: nat)
    ensures e <= |slices| && forall i | 0 <= i < e :: slices[i] == []
    ensures e < |slices| ==> slices[e] != []
  {
    if slices == [] || slices[0] != [] then 0 else 1 + LeadingEmpties(slices[1..])
  }

  /** A header-sized first slice: every empty slice behind it adds the authenticated fields once more. */
  lemma {:induction false} AuthRepeats(p: Platform, slices: seq<Bytes>, e: nat, image: Bytes)
    requires p.Valid() && slices != [] && |slices[0]| == p.headerSize
    requires RecordsOwnLength(p, image) && Flatten(slices) <= image
    requires forall i | 1 <= i <= e && i < |slices| :: slices[i] == []
    requires 1 + e < |slices| ==> slices[1 + e] != []
    ensures START.Valid(p) && |Flatten(slices)| >= p.headerSize
    ensures
      var h := p.TryFromBytes(image).value;
      if |slices| <= 1 + e then
        && FeedAll(p, START, slices) == Progress(NeedMoreData(h, Repeated(p.auth(h), |slices| - 1)), p.headerSize)
        && Flatten(slices) == slices[0]
      else
        && |Flatten(slices)| > p.headerSize
        && FeedAll(p, START, slices) == Counted(p, h, Repeated(p.auth(h), 1 + e), Flatten(slices))
    decreases |slices|
  {
    var h := p.TryFromBytes(image).value;
    var init, last := slices[..|slices| - 1], slices[|slices| - 1];
    FlattenKeepsFirst(slices);
    assert image[..p.headerSize] == slices[0];
    if |slices| == 1 {
      assert init == [] && [] + last == last && last[..p.headerSize] == last;
      FeedOnce(p, last);
    } else {
      AuthRepeats(p, init, e, image);
      hide Feed, Counted;
      if |slices| <= 2 + e {
        OneMoreAuth(p, h, Repeated(p.auth(h), |slices| - 2), slices[0], last);
      } else {
        CountedStep(p, h, Repeated(p.auth(h), 1 + e), Flatten(init), last);
      }
    }
  }

  /** Feeding behind the header: the authenticated fields go first. */
  lemma OneMoreAuth(p: Platform, h: Header, fed: Bytes, head: Bytes, bytes: Bytes)
    requires p.Valid() && !h.security.Unprotected? && h.security.length > p.headerSize == |head|
    ensures Feed(p, Progress(NeedMoreData(h, fed), p.headerSize), bytes).0 ==
            if bytes == [] then Progress(NeedMoreData(h, fed + p.auth(h)), p.headerSize)
            else Counted(p, h, fed + p.auth(h), head + bytes)
  {
    var k := Min(h.security.length - p.headerSize, |bytes|);
    assert fed + p.auth(h) + bytes[..k] == fed + p.auth(h) + (head + bytes)[p.headerSize..p.headerSize + k];
  }

  /** What every slicing that covers the header first makes of an image that records its own length: it
      completes, and the hash covers the authenticated fields once, plus once for every empty slice
      right behind a header-sized first one. */
  lemma HashCoversAuthRepeatedly(p: Platform, slices: seq<Bytes>)
    requires p.Valid() && slices != [] && |slices[0]| >= p.headerSize && RecordsOwnLength(p, Flatten(slices))
    ensures START.Valid(p)
    ensures
      var image := Flatten(slices);
      var h := p.TryFromBytes(image).value;
      var e := if |slices[0]| == p.headerSize then EmptiesAfterFirst(slices) else 0;
      FeedAll(p, START, slices).phase == Complete(h, p.hash(Repeated(p.auth(h), 1 + e) + image[p.headerSize..]))
  {
    var image := Flatten(slices);
    var h := p.TryFromBytes(image).value;
    assert image[p.headerSize..|image|] == image[p.headerSize..];
    if |slices[0]| == p.headerSize {
      AuthRepeats(p, slices, EmptiesAfterFirst(slices), image);
    } else {
      SlicingDoesNotMatter(p, slices);
      assert Repeated(p.auth(h), 0) == [];
      assert [] + p.auth(h) == p.auth(h);
    }
  }

  // ---------------------------------------------------------------- the verdict

  datatype ValidationError =
    | Incomplete
    | Invalid(header: HeaderError)
    | TooWeak(level: SecurityLevel)
    | Downgrade(version: nat)
    | Integrity
    | BadSignature

  datatype Policy = Policy(minSecurity: SecurityLevel, device: Device)

  /** `validate_update`; `verify` passes no existing application. */
  function Judge(p: Platform, policy: Policy, phase: Phase, existing: Option<Header>)
    : (r: Result<Header, ValidationError>)
    ensures r.Ok? ==> phase.Complete? && r.value == phase.header
  {
    match phase
    case Init(_) => Err(Incomplete)
    case NeedMoreData(_, _) => Err(Incomplete)
    case Fail(e) => Err(Invalid(e))
    case Complete(h, hash) =>
      var minVersion := if existing.Some? then existing.value.version else 0;
      if h.device != policy.device then Err(Invalid(InvalidDeviceType))
      else if h.security.Level().Rank() < policy.minSecurity.Rank() then Err(TooWeak(h.security.Level()))
      else if h.version < minVersion then Err(Downgrade(h.version))
      else match h.security
        case Unprotected => Ok(h)
        case Hashed(_, expected) => if expected == hash then Ok(h) else Err(Integrity)
        case Signed(_, signature) => if p.verify(hash, signature) then Ok(h) else Err(BadSignature)
  }

  function DataHash(phase: Phase): Result<Hash, ValidationError> {
    match phase
    case Init(_) => Err(Incomplete)
    case NeedMoreData(_, _) => Err(Incomplete)
    case Fail(e) => Err(Invalid(e))
    case Complete(_, hash) => Ok(hash)
  }

  /** An image is genuine for a policy and not older than `least`: its own header, for this device, strong enough,
      and its authenticated fields and data up to the recorded length match the header's tag.
      Unprotected images are taken on their header alone. */
  predicate Genuine(p: Platform, policy: Policy, image: Bytes, least: nat, h: Header) {
    && |image| > p.headerSize && p.TryFromBytes(image) == Ok(h)
    && h.device == policy.device
    && h.security.Level().Rank() >= policy.minSecurity.Rank()
    && least <= h.version
    && (h.security.Unprotected? ||
        (p.headerSize <= h.security.length <= |image| &&
         var digest := p.hash(p.auth(h) + image[p.headerSize..h.security.length]);
         match h.security
         case Unprotected => true
         case Hashed(_, expected) => expected == digest
         case Signed(_, signature) => p.verify(digest, signature)))
  }

  /** Exactly the genuine images that are not older than the installed one are accepted. */
  lemma AcceptedMeans(p: Platform, policy: Policy, image: Bytes, existing: Option<Header>, h: Header)
    requires p.Valid()
    ensures Judge(p, policy, Meaning(p, image).phase, existing) == Ok(h) <==>
            Genuine(p, policy, image, if existing.Some? then existing.value.version else 0, h)
  {
  }

  /** The digest an image is judged by: of its authenticated fields and data up to the recorded length, or
      of nothing for an unprotected one. An image without a readable header, with an impossible length or
      still incomplete has none. */
  function Digest(p: Platform, image: Bytes): Option<Hash> {
    if |image| <= p.headerSize || p.TryFromBytes(image).Err? then None
    else
      var h := p.TryFromBytes(image).value;
      if h.security.Unprotected? then Some(p.hash([]))
      else if p.headerSize <= h.security.length <= |image| then
        Some(p.hash(p.auth(h) + image[p.headerSize..h.security.length]))
      else None
  }

  /** `data_hash` gives exactly that digest. */
  lemma DataHashIsDigest(p: Platform, image: Bytes, d: Hash)
    requires p.Valid()
    ensures DataHash(Meaning(p, image).phase) == Ok(d) <==> Digest(p, image) == Some(d)
    ensures DataHash(Meaning(p, image).phase).Ok? <==> Digest(p, image).Some?
  {
  }

  /** Why an image is not accepted, in the order the reasons are looked for: incomplete; no valid header or
      length; another device; too weak; too old; tag mismatch. */
  lemma RejectedMeans(p: Platform, policy: Policy, image: Bytes, existing: Option<Header>, e: ValidationError)
    requires p.Valid()
    ensures
      Judge(p, policy, Meaning(p, image).phase, existing) == Err(e) <==>
        if |image| < p.headerSize then e == Incomplete
        else
          match p.TryFromBytes(image)
          case Err(why) => e == Invalid(why)
          case Ok(h) =>
            var protected := !h.security.Unprotected?;
            if |image| == p.headerSize then e == Incomplete
            else if protected && h.security.length < p.headerSize then e == Invalid(InvalidLength)
            else if protected && |image| < h.security.length then e == Incomplete
            else if h.device != policy.device then e == Invalid(InvalidDeviceType)
            else if h.security.Level().Rank() < policy.minSecurity.Rank() then e == TooWeak(h.security.Level())
            else if existing.Some? && h.version < existing.value.version then e == Downgrade(h.version)
            else
              var digest := p.hash(p.auth(h) + if protected then image[p.headerSize..h.security.length] else []);
              match h.security
              case Unprotected => false
              case Hashed(_, expected) => e == Integrity && expected != digest
              case Signed(_, signature) => e == BadSignature && !p.verify(digest, signature)
  {
  }

  /** What `update` returns for a whole image: true exactly if the image is decided and bytes are left
      over behind what decided it, except for an image recorded as nothing but a header. So it is false
      in the call that completes an image of exactly its recorded length. */
  lemma DoneIff(p: Platform, image: Bytes)
    requires p.Valid()
    ensures START.Valid(p)
    ensures
      var m := Meaning(p, image);
      var bare := m.phase.Complete? && !m.phase.header.security.Unprotected?
                  && m.phase.header.security.length == p.headerSize;
      Feed(p, START, image).1 <==> m.phase.Terminal() && |image| > m.n && !bare
  {
    if |image| >= p.headerSize {
      var head, rest := image[..p.headerSize], image[p.headerSize..];
      assert [] + head == head && head[..p.headerSize] == head;
      if p.TryFromBytes(image).Ok? && rest != [] {
        DoneBehindHeader(p, p.TryFromBytes(image).value, rest);
      }
    }
  }

  lemma DoneBehindHeader(p: Platform, h: Header, rest: Bytes)
    requires p.Valid() && rest != []
    ensures
      Feed(p, Progress(NeedMoreData(h, []), p.headerSize), rest).1 <==>
        || h.security.Unprotected? || h.security.length < p.headerSize
        || p.headerSize < h.security.length < p.headerSize + |rest|
  {
  }

  // ---------------------------------------------------------------- signing

  /** The write side of the header format: `encode` is `as_bytes`, whose last bytes, from `rawSize`
      on, are the authenticated fields; `sign` signs the digest of some bytes. */
  datatype Signer = Signer(rawSize: nat, encode: Header -> Bytes, sign: Bytes -> Signature)

  /** What the header format and the key pair promise each other. */
  ghost predicate Lawful(p: Platform, s: Signer) {
    && p.Valid() && s.rawSize <= p.headerSize
    && (forall h :: |s.encode(h)| == p.headerSize && p.parse(s.encode(h)) == Ok(h))
    && (forall b | |b| == p.headerSize && p.parse(b).Ok? :: b[s.rawSize..] == p.auth(p.parse(b).value))
    && (forall h: Header, security: Security :: p.auth(h.(security := security)) == p.auth(h))
    && (forall b :: p.verify(p.hash(b), s.sign(b)))
  }

  /** `sign`: the image with its header replaced by a signed one. */
  function Sign(p: Platform, s: Signer, image: Bytes): Result<Bytes, HeaderError>
    requires s.rawSize <= p.headerSize
  {
    match p.TryFromBytes(image)
    case Err(e) => Err(e)
    case Ok(h) =>
      Ok(s.encode(h.(security := Signed(|image|, s.sign(image[s.rawSize..])))) + image[p.headerSize..])
  }

  /** A signed image is accepted by every validator for its device, unless it would downgrade,
      however it is sliced as long as the first slice covers the header. */
  lemma SignedImageIsAccepted(
    p: Platform, s: Signer, image: Bytes, slices: seq<Bytes>, policy: Policy, existing: Option<Header>)
    requires Lawful(p, s) && |image| > p.headerSize && p.TryFromBytes(image).Ok?
    requires p.TryFromBytes(image).value.device == policy.device
    requires existing.Some? ==> existing.value.version <= p.TryFromBytes(image).value.version
    requires CoversHeader(p, slices)
    requires Sign(p, s, image) == Ok(Flatten(slices))
    ensures START.Valid(p)
    ensures Judge(p, policy, FeedAll(p, START, slices).phase, existing)
            == Ok(p.TryFromBytes(image).value.(security := Signed(|image|, s.sign(image[s.rawSize..]))))
  {
    var h := p.TryFromBytes(image).value;
    var signature := s.sign(image[s.rawSize..]);
    var signed := h.(security := Signed(|image|, signature));
    var out := Flatten(slices);
    assert out == s.encode(signed) + image[p.headerSize..];
    assert out[..p.headerSize] == s.encode(signed) && out[p.headerSize..|image|] == image[p.headerSize..];
    var head := image[..p.headerSize];
    assert p.auth(signed) == p.auth(h) == head[s.rawSize..];
    assert p.auth(signed) + out[p.headerSize..|image|] == image[s.rawSize..];
    SlicingDoesNotMatter(p, slices);
    AcceptedMeans(p, policy, out, existing, signed);
  }
}
