/** The delegation messages of src/core/hosted/Delegation.cpp. */
module Delegation {
  import opened Bytes
  import opened Frames

  const DELEGATION: Kind := 24
  const DELEGATION_REPLY: Kind := 25
  const MAP_ACKNOWLEDGEMENT: Kind := 26

  const IDENTITY_SIZE := 24
  const REQUEST_HEADER_SIZE := 26
  const REPLY_SIZE := 26
  const MAXIMUM_REGIONS := 255
  const COMMIT: byte := 3
  const FAILED: byte := 4
  const NO_FAILURE: byte := 0
  const LEASE_EXPIRED: byte := 5

  type word = x: int | 0 <= x <= U64_MAX
  type region = x: int | 0 <= x < 65536

  datatype Identity = Identity(generation: word, request: word, revision: word) {
    predicate Valid() {
      generation != 0 && request != 0 && revision != 0
    }
  }

  /** Enumerations are kept as the octets that stand for them: a caller can pass a value outside them. */
  datatype Request = Request(identity: Identity, action: byte, regions: seq<region>) {
    predicate Valid() {
      && identity.Valid() && action <= COMMIT && 1 <= |regions| <= MAXIMUM_REGIONS && Increasing(regions)
    }
  }

  datatype Reply = Reply(identity: Identity, status: byte, failure: byte) {
    predicate Valid() {
      && identity.Valid() && status <= FAILED && failure <= LEASE_EXPIRED
      && (status == FAILED <==> failure != NO_FAILURE)
    }
  }

  /** Strictly increasing and never zero. */
  predicate Increasing(regions: seq<region>) {
    && (forall i :: 0 <= i < |regions| ==> regions[i] != 0)
    && (forall i, j :: 0 <= i < j < |regions| ==> regions[i] < regions[j])
  }

  // ---- The format ----------------------------------------------------------------------------

  function IdentityBytes(i: Identity): (b: seq<byte>)
    ensures |b| == IDENTITY_SIZE
  {
    BigEndian(i.generation, 8) + BigEndian(i.request, 8) + BigEndian(i.revision, 8)
  }

  function ReadWord(b: seq<byte>): word
    requires |b| == 8
  {
    Words();
    FromBigEndianBound(b);
    FromBigEndian(b)
  }

  lemma Words()
    ensures Power256(8) == U64_MAX + 1 && Power256(2) == 65536
  {
    assert Power256(4) == 0x1_0000_0000;
  }

  function ReadIdentity(b: seq<byte>): Identity
    requires |b| >= IDENTITY_SIZE
  {
    Identity(ReadWord(b[..8]), ReadWord(b[8..16]), ReadWord(b[16..24]))
  }

  function RegionBytes(regions: seq<region>): (b: seq<byte>)
    ensures |b| == 2 * |regions|
  {
    if regions == [] then [] else BigEndian(regions[0], 2) + RegionBytes(regions[1..])
  }

  function ReadRegion(b: seq<byte>): region
    requires |b| == 2
  {
    Words();
    FromBigEndianBound(b);
    FromBigEndian(b)
  }

  function ReadRegions(b: seq<byte>): (regions: seq<region>)
    requires |b| % 2 == 0
    ensures 2 * |regions| == |b|
  {
    if b == [] then [] else [ReadRegion(b[..2])] + ReadRegions(b[2..])
  }

  function RequestBytes(q: Request): seq<byte>
    requires |q.regions| <= MAXIMUM_REGIONS
  {
    IdentityBytes(q.identity) + [q.action, |q.regions|] + RegionBytes(q.regions)
  }

  function ReplyBytes(r: Reply): seq<byte> {
    IdentityBytes(r.identity) + [r.status, r.failure]
  }

  function DecodedRequest(f: Frame): Option<Request> {
    var b := f.payload;
    if f.kind != DELEGATION || |b| < REQUEST_HEADER_SIZE || |b| != REQUEST_HEADER_SIZE + 2 * b[25] as int then None
    else
      var q := Request(ReadIdentity(b), b[24], ReadRegions(b[REQUEST_HEADER_SIZE..]));
      if q.Valid() then Some(q) else None
  }

  function DecodedReply(f: Frame): Option<Reply> {
    if f.kind != DELEGATION_REPLY || |f.payload| != REPLY_SIZE then None
    else
      var r := Reply(ReadIdentity(f.payload), f.payload[24], f.payload[25]);
      if r.Valid() then Some(r) else None
  }

  function DecodedAcknowledgement(f: Frame): Option<word> {
    if f.kind != MAP_ACKNOWLEDGEMENT || |f.payload| != 8 || ReadWord(f.payload) == 0 then None
    else Some(ReadWord(f.payload))
  }

  // ---- Canonicity ----------------------------------------------------------------------------

  lemma WordRoundTrip(w: word)
    ensures ReadWord(BigEndian(w, 8)) == w
  {
    Words();
    ReadAppended(w, 8);
  }

  lemma IdentityRoundTrip(i: Identity, rest: seq<byte>)
    ensures ReadIdentity(IdentityBytes(i) + rest) == i
  {
    var b := IdentityBytes(i) + rest;
    assert b[..8] == BigEndian(i.generation, 8) && b[8..16] == BigEndian(i.request, 8);
    assert b[16..24] == BigEndian(i.revision, 8);
    WordRoundTrip(i.generation);
    WordRoundTrip(i.request);
    WordRoundTrip(i.revision);
  }

  lemma IdentityIsCanonical(b: seq<byte>)
    requires |b| >= IDENTITY_SIZE
    ensures IdentityBytes(ReadIdentity(b)) == b[..IDENTITY_SIZE]
  {
    AppendRead(b[..8]);
    AppendRead(b[8..16]);
    AppendRead(b[16..24]);
    assert b[..8] + b[8..16] + b[16..24] == b[..24];
  }

  lemma {:induction false} RegionsRoundTrip(regions: seq<region>)
    ensures ReadRegions(RegionBytes(regions)) == regions
  {
    if regions != [] {
      RegionsRoundTrip(regions[1..]);
      var b := RegionBytes(regions);
      Words();
      ReadAppended(regions[0], 2);
      assert b[..2] == BigEndian(regions[0], 2) && b[2..] == RegionBytes(regions[1..]);
    }
  }

  lemma {:induction false} RegionsAreCanonical(b: seq<byte>)
    requires |b| % 2 == 0
    ensures RegionBytes(ReadRegions(b)) == b
  {
    if b != [] {
      RegionsAreCanonical(b[2..]);
      AppendRead(b[..2]);
      var r := ReadRegions(b);
      assert r[1..] == ReadRegions(b[2..]);
      assert b[..2] + b[2..] == b;
    }
  }

  /** Where the octets of an identity come from, each word most significant octet first. */
  lemma IdentityLayout(i: Identity, k: nat)
    requires k < 8
    ensures var b := IdentityBytes(i);
      && b[..8] == BigEndian(i.generation, 8) && b[8..16] == BigEndian(i.request, 8)
      && b[16..24] == BigEndian(i.revision, 8)
      && b[k] == ShiftRight(i.generation, 7 - k) % 256 && b[8 + k] == ShiftRight(i.request, 7 - k) % 256
      && b[16 + k] == ShiftRight(i.revision, 7 - k) % 256
  {
    hide BigEndian, ShiftRight;
    BigEndianOctet(i.generation, 8, k);
    BigEndianOctet(i.request, 8, k);
    BigEndianOctet(i.revision, 8, k);
    var b := IdentityBytes(i);
    assert b[..8] == BigEndian(i.generation, 8) && b[8..16] == BigEndian(i.request, 8);
    assert b[16..24] == BigEndian(i.revision, 8);
  }

  lemma {:induction false} RegionsLayout(regions: seq<region>, k: nat)
    requires k < |regions|
    ensures RegionBytes(regions)[2 * k..2 * k + 2] == BigEndian(regions[k], 2)
  {
    if k > 0 {
      RegionsLayout(regions[1..], k - 1);
      assert RegionBytes(regions)[2..] == RegionBytes(regions[1..]);
    }
  }

  /** And of a request and a reply: the identity, the two octets behind it and the regions in order. */
  lemma MessageLayout(q: Request, r: Reply, k: nat)
    requires |q.regions| <= MAXIMUM_REGIONS && k < |q.regions|
    ensures var b := RequestBytes(q);
      && b[..24] == IdentityBytes(q.identity) && b[24] == q.action && b[25] == |q.regions|
      && b[26 + 2 * k..26 + 2 * k + 2] == BigEndian(q.regions[k], 2)
    ensures var b := ReplyBytes(r); b[..24] == IdentityBytes(r.identity) && b[24] == r.status && b[25] == r.failure
  {
    hide IdentityBytes, RegionBytes, BigEndian;
    RegionsLayout(q.regions, k);
    var b, regions := RequestBytes(q), RegionBytes(q.regions);
    HeaderThenRegions(IdentityBytes(q.identity), q.action, |q.regions|, regions, b);
    assert b[26 + 2 * k..26 + 2 * k + 2] == b[26..][2 * k..2 * k + 2];
    assert b[..24] == IdentityBytes(q.identity) && ReplyBytes(r)[..24] == IdentityBytes(r.identity);
  }

  lemma HeaderThenRegions(identity: seq<byte>, action: byte, count: byte, regions: seq<byte>, b: seq<byte>)
    requires |identity| == IDENTITY_SIZE && b == identity + [action, count] + regions
    ensures b == identity + ([action, count] + regions)
    ensures |b| == REQUEST_HEADER_SIZE + |regions| && b[24] == action && b[25] == count
    ensures b[REQUEST_HEADER_SIZE..] == regions
  {
  }

  lemma {:induction false} RequestReadsBack(q: Request)
    requires q.Valid()
    ensures DecodedRequest(Frame(DELEGATION, RequestBytes(q))) == Some(q)
  {
    var rest := [q.action, |q.regions|] + RegionBytes(q.regions);
    var b := RequestBytes(q);
    IdentityRoundTrip(q.identity, rest);
    RegionsRoundTrip(q.regions);
    hide IdentityBytes, RegionBytes, ReadIdentity, ReadRegions, Increasing;
    HeaderThenRegions(IdentityBytes(q.identity), q.action, |q.regions|, RegionBytes(q.regions), b);
  }

  lemma {:induction false} AcceptedRequestIsEncoding(f: Frame)
    requires DecodedRequest(f).Some?
    ensures DecodedRequest(f).value.Valid() && f == Frame(DELEGATION, RequestBytes(DecodedRequest(f).value))
  {
    var b := f.payload;
    IdentityIsCanonical(b);
    RegionsAreCanonical(b[REQUEST_HEADER_SIZE..]);
    hide IdentityBytes, RegionBytes, ReadIdentity, ReadRegions, Increasing;
    assert b == b[..24] + [b[24], b[25]] + b[REQUEST_HEADER_SIZE..];
  }

  /** The frames accepted as requests are exactly the encodings of valid requests, each read back as that request. */
  lemma {:induction false} RequestIsCanonical(f: Frame, q: Request)
    ensures DecodedRequest(f) == Some(q) <==> q.Valid() && f == Frame(DELEGATION, RequestBytes(q))
  {
    hide DecodedRequest, RequestBytes;
    if q.Valid() && f == Frame(DELEGATION, RequestBytes(q)) {
      RequestReadsBack(q);
    }
    if DecodedRequest(f) == Some(q) {
      AcceptedRequestIsEncoding(f);
    }
  }

  /** The same for replies. */
  lemma ReplyIsCanonical(f: Frame, r: Reply)
    ensures DecodedReply(f) == Some(r) <==> r.Valid() && f == Frame(DELEGATION_REPLY, ReplyBytes(r))
  {
    IdentityRoundTrip(r.identity, [r.status, r.failure]);
    if DecodedReply(f) == Some(r) {
      IdentityIsCanonical(f.payload);
      assert f.payload == f.payload[..24] + [f.payload[24], f.payload[25]];
    }
  }

  /** The same for acknowledgements of a network map. */
  lemma AcknowledgementIsCanonical(f: Frame, revision: word)
    ensures DecodedAcknowledgement(f) == Some(revision)
      <==> revision != 0 && f == Frame(MAP_ACKNOWLEDGEMENT, BigEndian(revision, 8))
  {
    WordRoundTrip(revision);
    if |f.payload| == 8 {
      AppendRead(f.payload);
    }
  }

  // ---- The codec -----------------------------------------------------------------------------

  method EncodeIdentity(i: Identity) returns (r: Option<seq<byte>>)
    ensures r == if i.Valid() then Some(IdentityBytes(i)) else None
  {
    if i.generation == 0 || i.request == 0 || i.revision == 0 {
      return None;
    }
    var bytes := AppendBigEndian([], i.generation, 8);
    bytes := AppendBigEndian(bytes, i.request, 8);
    bytes := AppendBigEndian(bytes, i.revision, 8);
    assert [] + BigEndian(i.generation, 8) == BigEndian(i.generation, 8);
    return Some(bytes);
  }

  predicate Sorted(regions: seq<region>) {
    forall i :: 0 < i < |regions| ==> regions[i - 1] <= regions[i]
  }

  predicate AdjacentDiffer(regions: seq<region>) {
    forall i :: 0 < i < |regions| ==> regions[i - 1] != regions[i]
  }

  lemma {:induction false} NeighboursDecideOrder(regions: seq<region>)
    requires regions != []
    ensures Increasing(regions) <==> Sorted(regions) && AdjacentDiffer(regions) && regions[0] != 0
  {
    if Sorted(regions) && AdjacentDiffer(regions) && regions[0] != 0 {
      forall i, j | 0 <= i < j < |regions|
        ensures regions[i] < regions[j]
      {
        Apart(regions, i, j);
      }
      assert forall i :: 0 < i < |regions| ==> regions[0] < regions[i];
    }
  }

  lemma {:induction false} Apart(regions: seq<region>, i: nat, j: nat)
    requires Sorted(regions) && AdjacentDiffer(regions) && i < j < |regions|
    ensures regions[i] < regions[j]
    decreases j
  {
    assert regions[j - 1] <= regions[j];
    if i < j - 1 {
      Apart(regions, i, j - 1);
    }
  }

  /** A frame is made from exactly the valid requests. */
  method EncodeRequest(q: Request) returns (r: Option<Frame>)
    ensures r.Some? <==> q.Valid()
    ensures r.Some? ==> r.value == Frame(DELEGATION, RequestBytes(q))
  {
    if q.regions == [] || |q.regions| > MAXIMUM_REGIONS {
      return None;
    }
    NeighboursDecideOrder(q.regions);
    if !Sorted(q.regions) || !AdjacentDiffer(q.regions) || q.regions[0] == 0 || q.action > COMMIT {
      return None;
    }
    var identity := EncodeIdentity(q.identity);
    if identity.None? {
      return None;
    }
    var bytes := identity.value + [q.action];
    bytes := bytes + [|q.regions|];
    ghost var header := bytes;
    var i := 0;
    assert q.regions[..0] == [];
    while i < |q.regions|
      invariant 0 <= i <= |q.regions|
      invariant bytes == header + RegionBytes(q.regions[..i])
    {
      RegionBytesNext(q.regions, i);
      bytes := bytes + [q.regions[i] / 256];
      bytes := bytes + [q.regions[i] % 256];
      i := i + 1;
    }
    assert q.regions[..i] == q.regions;
    assert header == identity.value + [q.action, |q.regions|];
    return Some(Frame(DELEGATION, bytes));
  }

  lemma {:induction false} RegionBytesNext(regions: seq<region>, i: nat)
    requires i < |regions|
    ensures RegionBytes(regions[..i + 1]) == RegionBytes(regions[..i]) + [regions[i] / 256] + [regions[i] % 256]
    decreases i
  {
    if i == 0 {
      assert regions[..1] == [regions[0]] && regions[..1][1..] == [] && regions[..0] == [];
      TwoOctets(regions[0]);
    } else {
      RegionBytesNext(regions[1..], i - 1);
      assert regions[..i + 1][1..] == regions[1..][..i] && regions[..i][1..] == regions[1..][..i - 1];
    }
  }

  lemma TwoOctets(r: region)
    ensures BigEndian(r, 2) == [r / 256, r % 256]
  {
    assert BigEndian(r / 256, 1) == BigEndian(r / 256 / 256, 0) + [r / 256 % 256];
  }

  method EncodeReply(p: Reply) returns (r: Option<Frame>)
    ensures r.Some? <==> p.Valid()
    ensures r.Some? ==> r.value == Frame(DELEGATION_REPLY, ReplyBytes(p))
  {
    if p.status > FAILED || p.failure > LEASE_EXPIRED || (p.status == FAILED) != (p.failure != NO_FAILURE) {
      return None;
    }
    var identity := EncodeIdentity(p.identity);
    if identity.None? {
      return None;
    }
    return Some(Frame(DELEGATION_REPLY, identity.value + [p.status, p.failure]));
  }

  method ReadIdentityFields(b: seq<byte>) returns (i: Identity)
    requires |b| >= IDENTITY_SIZE
    ensures i == ReadIdentity(b)
  {
    Words();
    var generation := ReadBigEndian(b[..8]);
    var request := ReadBigEndian(b[8..16]);
    var revision := ReadBigEndian(b[16..24]);
    return Identity(generation, request, revision);
  }

  /** Regions are checked as they are read, each against the last. */
  method DecodeRequest(f: Frame) returns (r: Option<Request>)
    ensures r == DecodedRequest(f)
  {
    hide ReadRegions, ReadIdentity, Increasing;
    var bytes := f.payload;
    if f.kind != DELEGATION || |bytes| < REQUEST_HEADER_SIZE || bytes[24] > COMMIT {
      return None;
    }
    var count := bytes[25] as int;
    if count == 0 || count > MAXIMUM_REGIONS || |bytes| != REQUEST_HEADER_SIZE + count * 2 {
      return None;
    }
    var identity := ReadIdentityFields(bytes);
    if identity.generation == 0 || identity.request == 0 || identity.revision == 0 {
      return None;
    }
    ghost var all := ReadRegions(bytes[REQUEST_HEADER_SIZE..]);
    var regions: seq<region> := [];
    NoRegions();
    var index := 0;
    while index < count
      invariant 0 <= index <= count && regions == all[..index] && Increasing(regions)
    {
      var next := RegionOf(bytes, index);
      NextRegion(all, index);
      if next == 0 || (regions != [] && next <= regions[|regions| - 1]) {
        return None;
      }
      regions := regions + [next];
      index := index + 1;
    }
    assert all[..count] == all;
    return Some(Request(identity, bytes[24], regions));
  }

  lemma NoRegions()
    ensures Increasing([])
  {
  }

  method RegionOf(bytes: seq<byte>, index: nat) returns (r: region)
    requires |bytes| % 2 == 0 && REQUEST_HEADER_SIZE + index * 2 < |bytes|
    ensures r == ReadRegions(bytes[REQUEST_HEADER_SIZE..])[index]
  {
    hide ReadRegions, ReadRegion;
    var offset := REQUEST_HEADER_SIZE + index * 2;
    RegionAt(bytes[REQUEST_HEADER_SIZE..], index);
    TwoRead(bytes[offset], bytes[offset + 1]);
    assert bytes[REQUEST_HEADER_SIZE..][2 * index..2 * index + 2] == [bytes[offset], bytes[offset + 1]];
    return bytes[offset] as int * 256 + bytes[offset + 1];
  }

  /** Comparing with the last region is enough to tell whether the order goes on. */
  lemma NextRegion(all: seq<region>, i: nat)
    requires i < |all| && Increasing(all[..i])
    ensures all[..i + 1] == all[..i] + [all[i]]
    ensures var fine := all[i] != 0 && (i == 0 || all[i - 1] < all[i]);
      if fine then Increasing(all[..i + 1]) else !Increasing(all)
  {
    if i > 0 {
      assert all[..i][i - 1] == all[i - 1];
      assert forall j :: 0 <= j < i ==> all[..i][j] == all[j] <= all[i - 1];
    }
  }

  lemma {:induction false} RegionAt(b: seq<byte>, i: nat)
    requires |b| % 2 == 0 && 2 * i < |b|
    ensures ReadRegions(b)[i] == ReadRegion(b[2 * i..2 * i + 2])
    decreases i
  {
    if i > 0 {
      RegionAt(b[2..], i - 1);
      assert b[2..][2 * (i - 1)..2 * (i - 1) + 2] == b[2 * i..2 * i + 2];
    }
  }

  lemma TwoRead(high: byte, low: byte)
    ensures ReadRegion([high, low]) == high as int * 256 + low
  {
    assert [high, low][..1] == [high] && [high][..0] == [];
    assert FromBigEndian([high]) == 256 * FromBigEndian([]) + high;
  }

  method DecodeReply(f: Frame) returns (r: Option<Reply>)
    ensures r == DecodedReply(f)
  {
    var bytes := f.payload;
    if f.kind != DELEGATION_REPLY || |bytes| != REPLY_SIZE || bytes[24] > FAILED || bytes[25] > LEASE_EXPIRED {
      return None;
    }
    var identity := ReadIdentityFields(bytes);
    var reply := Reply(identity, bytes[24], bytes[25]);
    if identity.generation == 0 || identity.request == 0 || identity.revision == 0
       || (reply.status == FAILED) != (reply.failure != NO_FAILURE)
    {
      return None;
    }
    return Some(reply);
  }

  method EncodeMapAcknowledgement(revision: word) returns (r: Option<Frame>)
    ensures r == if revision == 0 then None else Some(Frame(MAP_ACKNOWLEDGEMENT, BigEndian(revision, 8)))
  {
    if revision == 0 {
      return None;
    }
    var bytes := AppendBigEndian([], revision, 8);
    assert [] + BigEndian(revision, 8) == BigEndian(revision, 8);
    return Some(Frame(MAP_ACKNOWLEDGEMENT, bytes));
  }

  method DecodeMapAcknowledgement(f: Frame) returns (r: Option<word>)
    ensures r == DecodedAcknowledgement(f)
  {
    if f.kind != MAP_ACKNOWLEDGEMENT || |f.payload| != 8 {
      return None;
    }
    Words();
    var revision := ReadBigEndian(f.payload);
    return if revision == 0 then None else Some(revision);
  }
}
