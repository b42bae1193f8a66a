/**
 The bytes that the stream hashes. Equal pre-images mean equal fields, across all five domains;
 so for a hash without collisions among the strings actually hashed, equality of real digests
 is equality of the symbolic digests of module Digests.
 */
module Preimages {
  import opened Words
  import opened Digests
  import opened Keys

  /** The arguments of one hash computation, digests as bytes. */
  datatype HashInput =
    | ContentInput(stream: Stream, previous: Digest32, revision: U64, occurredAt: I64, payload: Digest32)
    | LeafInput(stream: Stream, revision: U64, content: Digest32)
    | NodeInput(stream: Stream, height: U8, start: U64, left: Digest32, right: Digest32)
    | RootInput(stream: Stream, leafCount: U64, peaks: seq<PeakRecord>)
    | HeadInput(stream: Stream, revision: U64, occurredAt: I64, content: Digest32, proofRoot: Digest32)

  function Domain(i: HashInput): string {
    match i
    case ContentInput(_, _, _, _, _) => "TALON_REVISION_STREAM_CONTENT_V2"
    case LeafInput(_, _, _) => "TALON_REVISION_STREAM_MMR_LEAF_V1"
    case NodeInput(_, _, _, _, _) => "TALON_REVISION_STREAM_MMR_NODE_V1"
    case RootInput(_, _, _) => "TALON_REVISION_STREAM_MMR_ROOT_V1"
    case HeadInput(_, _, _, _, _) => "TALON_REVISION_STREAM_HEAD_V2"
  }

  function Fields(i: HashInput): seq<Bytes> {
    match i
    case ContentInput(_, previous, revision, at, payload) => [previous, BE(revision, 8), BE(Unsigned(at), 8), payload]
    case LeafInput(_, revision, content) => [BE(revision, 8), content]
    case NodeInput(_, height, start, left, right) => [[height], BE(start, 8), left, right]
    case RootInput(_, leafCount, peaks) => [BE(leafCount, 8), [|peaks| % 0x100], EncodePeaks(peaks)]
    case HeadInput(_, revision, at, content, proofRoot) => [BE(revision, 8), BE(Unsigned(at), 8), content, proofRoot]
  }

  /** Domain, length-prefixed stream identifier, fields. */
  function Preimage(i: HashInput): Bytes {
    StreamKey(TextBytes(Domain(i)), i.stream) + Concat(Fields(i))
  }

  /** One number for each domain. */
  function Kind(i: HashInput): nat {
    match i
    case ContentInput(_, _, _, _, _) => 0
    case LeafInput(_, _, _) => 1
    case NodeInput(_, _, _, _, _) => 2
    case RootInput(_, _, _) => 3
    case HeadInput(_, _, _, _, _) => 4
  }

  lemma {:induction false} DomainMarks(i: HashInput)
    ensures |Domain(i)| >= 29
    ensures Domain(i)[22] == (if i.ContentInput? then 'C' else if i.HeadInput? then 'H' else 'M')
    ensures i.LeafInput? ==> Domain(i)[26] == 'L'
    ensures i.NodeInput? ==> Domain(i)[26] == 'N'
    ensures i.RootInput? ==> Domain(i)[26] == 'R'
  {
  }

  /** A pre-image shows its domain's characters. */
  lemma {:induction false} PreimageShows(i: HashInput, k: nat)
    requires k < |Domain(i)|
    ensures k < |Preimage(i)| && Preimage(i)[k] == Domain(i)[k] as int % 0x100
  {
    PrefixByte(TextBytes(Domain(i)), BE(|i.stream| % 0x1_0000_0000, 4), i.stream, Concat(Fields(i)), k);
  }

  /** The domains differ in their 23rd or 27th character, before any of them ends. */
  function KindByMarks(a: Byte, b: Byte): nat {
    if a == 0x43 then 0 else if a == 0x48 then 4 else if b == 0x4C then 1 else if b == 0x4E then 2 else 3
  }

  lemma {:induction false} KindShows(i: HashInput)
    ensures |Preimage(i)| > 26 && Kind(i) == KindByMarks(Preimage(i)[22], Preimage(i)[26])
  {
    DomainMarks(i);
    PreimageShows(i, 22);
    PreimageShows(i, 26);
  }

  lemma {:induction false} DomainsDiffer(a: HashInput, b: HashInput)
    requires Preimage(a) == Preimage(b)
    ensures Kind(a) == Kind(b)
  {
    KindShows(a);
    KindShows(b);
  }

  lemma {:induction false} PrefixByte(a: Bytes, b: Bytes, c: Bytes, d: Bytes, i: nat)
    requires i < |a|
    ensures (a + b + c + d)[i] == a[i]
  {
  }

  lemma {:induction false} PreimageInjective(a: HashInput, b: HashInput)
    requires |a.stream| <= MAX_STREAM_BYTES && |b.stream| <= MAX_STREAM_BYTES
    requires Preimage(a) == Preimage(b)
    ensures a == b
  {
    DomainsDiffer(a, b);
    StreamKeySplit(TextBytes(Domain(a)), a.stream, Concat(Fields(a)), TextBytes(Domain(b)), b.stream,
                   Concat(Fields(b)));
    ConcatCut(Fields(a), Fields(b));
    FieldsInjective(a, b);
  }

  lemma {:induction false} FieldsInjective(a: HashInput, b: HashInput)
    requires Kind(a) == Kind(b) && a.stream == b.stream && Fields(a) == Fields(b)
    ensures a == b
  {
    Pow256Values();
    var x, y := Fields(a), Fields(b);
    match a
    case ContentInput(_, _, revision, at, _) =>
      assert x[0] == y[0] && x[1] == y[1] && x[2] == y[2] && x[3] == y[3];
      BERoundTrip(revision, 8);
      BERoundTrip(b.revision, 8);
      TimeInjective(at, b.occurredAt);
    case LeafInput(_, revision, _) =>
      assert x[0] == y[0] && x[1] == y[1];
      BERoundTrip(revision, 8);
      BERoundTrip(b.revision, 8);
    case NodeInput(_, height, start, _, _) =>
      assert x[0] == y[0] && x[1] == y[1] && x[2] == y[2] && x[3] == y[3];
      assert x[0][0] == height && y[0][0] == b.height;
      BERoundTrip(start, 8);
      BERoundTrip(b.start, 8);
    case RootInput(_, leafCount, peaks) =>
      assert x[0] == y[0] && x[2] == y[2];
      BERoundTrip(leafCount, 8);
      BERoundTrip(b.leafCount, 8);
      PeaksInjective(peaks, b.peaks);
    case HeadInput(_, revision, at, _, _) =>
      assert x[0] == y[0] && x[1] == y[1] && x[2] == y[2] && x[3] == y[3];
      BERoundTrip(revision, 8);
      BERoundTrip(b.revision, 8);
      TimeInjective(at, b.occurredAt);
  }

  lemma {:induction false} TimeInjective(a: I64, b: I64)
    requires BE(Unsigned(a), 8) == BE(Unsigned(b), 8)
    ensures a == b
  {
    Pow256Values();
    BERoundTrip(Unsigned(a), 8);
    BERoundTrip(Unsigned(b), 8);
    SignedUnsigned(a);
    SignedUnsigned(b);
  }

  // ---- From symbolic digests to bytes ----

  type Hash = Bytes -> Digest32

  const ZERO_ROOT: Digest32 := seq(32, _ => 0)

  /** A digest whose every part is a hash of known bytes. */
  predicate Opened(d: Digest)
    decreases d
  {
    match d
    case Zero => true
    case Content(stream, previous, _, _, payload) =>
      |stream| <= MAX_STREAM_BYTES && Opened(previous) && payload.OfPayload?
    case Leaf(stream, _, content) => |stream| <= MAX_STREAM_BYTES && Opened(content)
    case Node(stream, _, _, left, right) => |stream| <= MAX_STREAM_BYTES && Opened(left) && Opened(right)
    case Root(stream, _, peaks) =>
      |stream| <= MAX_STREAM_BYTES && forall i :: 0 <= i < |peaks| ==> Opened(peaks[i].root)
    case Head(stream, _, _, content, proofRoot) => |stream| <= MAX_STREAM_BYTES && Opened(content) && Opened(proofRoot)
    case Foreign(_) => false
  }

  /** The hash computation behind a digest other than the zero root. */
  function InputOf(sha: Hash, d: Digest): HashInput
    requires Opened(d) && !d.Zero?
    decreases d, 0
  {
    match d
    case Content(stream, previous, revision, at, payload) =>
      ContentInput(stream, Render(sha, previous), revision, at, sha(payload.payload))
    case Leaf(stream, revision, content) => LeafInput(stream, revision, Render(sha, content))
    case Node(stream, height, start, left, right) =>
      NodeInput(stream, height, start, Render(sha, left), Render(sha, right))
    case Root(stream, leafCount, peaks) =>
      RootInput(stream, leafCount, seq(|peaks|, i requires 0 <= i < |peaks| =>
        PeakRecord(peaks[i].height, peaks[i].start, Render(sha, peaks[i].root))))
    case Head(stream, revision, at, content, proofRoot) =>
      HeadInput(stream, revision, at, Render(sha, content), Render(sha, proofRoot))
  }

  /** The 32 bytes of a digest under a hash function. */
  function Render(sha: Hash, d: Digest): Digest32
    requires Opened(d)
    decreases d, 1
  {
    if d.Zero? then ZERO_ROOT else sha(Preimage(InputOf(sha, d)))
  }

  /**
   The string hashed for a digest: the domain, the length of the stream in four bytes, the stream, and
   the fields of the digest in their places, digests as their 32 bytes.
   */
  ghost predicate ShowsDigest(sha: Hash, b: Bytes, d: Digest)
    requires Opened(d) && !d.Zero?
  {
    match d
    case Content(stream, previous, revision, at, payload) =>
      var p := 36 + |stream|;
      && Headed(b, "TALON_REVISION_STREAM_CONTENT_V2", stream) && |b| == p + 80
      && b[p..p + 32] == Render(sha, previous) && b[p + 32..p + 40] == BE(revision, 8)
      && b[p + 40..p + 48] == BE(Unsigned(at), 8) && b[p + 48..] == sha(payload.payload)
    case Leaf(stream, revision, content) =>
      var p := 37 + |stream|;
      && Headed(b, "TALON_REVISION_STREAM_MMR_LEAF_V1", stream) && |b| == p + 40
      && b[p..p + 8] == BE(revision, 8) && b[p + 8..] == Render(sha, content)
    case Node(stream, height, start, left, right) =>
      var p := 37 + |stream|;
      && Headed(b, "TALON_REVISION_STREAM_MMR_NODE_V1", stream) && |b| == p + 73
      && b[p] == height && b[p + 1..p + 9] == BE(start, 8)
      && b[p + 9..p + 41] == Render(sha, left) && b[p + 41..] == Render(sha, right)
    case Root(stream, leafCount, peaks) =>
      var p := 37 + |stream|;
      && Headed(b, "TALON_REVISION_STREAM_MMR_ROOT_V1", stream) && |b| == p + 9 + 41 * |peaks|
      && b[p..p + 8] == BE(leafCount, 8) && b[p + 8] == |peaks| % 0x100
      && forall i :: 0 <= i < |peaks| ==>
           PeakStands(b[p + 9..], i, peaks[i].height, peaks[i].start, Render(sha, peaks[i].root))
    case Head(stream, revision, at, content, proofRoot) =>
      var p := 33 + |stream|;
      && Headed(b, "TALON_REVISION_STREAM_HEAD_V2", stream) && |b| == p + 80
      && b[p..p + 8] == BE(revision, 8) && b[p + 8..p + 16] == BE(Unsigned(at), 8)
      && b[p + 16..p + 48] == Render(sha, content) && b[p + 48..] == Render(sha, proofRoot)
  }

  /** Domain, length, stream. */
  ghost predicate Headed(b: Bytes, domain: string, stream: Stream) {
    var d := |domain|;
    && |b| >= d + 4 + |stream| && b[..d] == TextBytes(domain) && b[d..d + 4] == BE(|stream| % TWO32, 4)
    && b[d + 4..d + 4 + |stream|] == stream
  }

  /** Record i of a list of 41-byte peak records. */
  ghost predicate PeakStands(b: Bytes, i: nat, height: U8, start: U64, root: Digest32) {
    var q := 41 * i;
    |b| >= q + 41 && b[q] == height && b[q + 1..q + 9] == BE(start, 8) && b[q + 9..q + 41] == root
  }

  /** The zero root is 32 zero bytes; every other digest is the hash of the string that shows it. */
  lemma {:induction false} RenderShows(sha: Hash, d: Digest)
    requires Opened(d)
    ensures d.Zero? ==> forall i :: 0 <= i < 32 ==> Render(sha, d)[i] == 0
    ensures !d.Zero? ==>
      Render(sha, d) == sha(Preimage(InputOf(sha, d))) && ShowsDigest(sha, Preimage(InputOf(sha, d)), d)
  {
    match d
    case Zero =>
    case Content(_, _, _, _, _) => ContentShows(sha, d);
    case Leaf(_, _, _) => LeafShows(sha, d);
    case Node(_, _, _, _, _) => NodeShows(sha, d);
    case Root(_, _, _) => RootInputShows(sha, d);
    case Head(_, _, _, _, _) => HeadInputShows(sha, d);
  }

  lemma {:induction false} ContentShows(sha: Hash, d: Digest)
    requires Opened(d) && d.Content?
    ensures ShowsDigest(sha, Preimage(InputOf(sha, d)), d)
  {
    var i := InputOf(sha, d);
    PreimageHeaded(i);
    FieldsStand(Preimage(i), 36 + |d.stream|, Fields(i));
  }

  lemma {:induction false} LeafShows(sha: Hash, d: Digest)
    requires Opened(d) && d.Leaf?
    ensures ShowsDigest(sha, Preimage(InputOf(sha, d)), d)
  {
    var i := InputOf(sha, d);
    PreimageHeaded(i);
    FieldsStand(Preimage(i), 37 + |d.stream|, Fields(i));
  }

  lemma {:induction false} NodeShows(sha: Hash, d: Digest)
    requires Opened(d) && d.Node?
    ensures ShowsDigest(sha, Preimage(InputOf(sha, d)), d)
  {
    var i := InputOf(sha, d);
    PreimageHeaded(i);
    FieldsStand(Preimage(i), 37 + |d.stream|, Fields(i));
  }

  lemma {:induction false} RootInputShows(sha: Hash, d: Digest)
    requires Opened(d) && d.Root?
    ensures ShowsDigest(sha, Preimage(InputOf(sha, d)), d)
  {
    var i := InputOf(sha, d);
    PreimageHeaded(i);
    FieldsStand(Preimage(i), 37 + |d.stream|, Fields(i));
    RootShows(sha, d, i, Preimage(i), 37 + |d.stream|);
  }

  lemma {:induction false} HeadInputShows(sha: Hash, d: Digest)
    requires Opened(d) && d.Head?
    ensures ShowsDigest(sha, Preimage(InputOf(sha, d)), d)
  {
    var i := InputOf(sha, d);
    PreimageHeaded(i);
    FieldsStand(Preimage(i), 33 + |d.stream|, Fields(i));
  }

  lemma {:induction false} RootShows(sha: Hash, d: Digest, i: HashInput, b: Bytes, p: nat)
    requires Opened(d) && d.Root? && i == InputOf(sha, d) && p == 37 + |d.stream|
    requires Headed(b, "TALON_REVISION_STREAM_MMR_ROOT_V1", d.stream) && |b| >= p + 9
    requires b[p..p + 8] == BE(d.leafCount, 8) && b[p + 8..p + 9] == [|d.peaks| % 0x100]
    requires b[p + 9..] == EncodePeaks(i.peaks)
    ensures ShowsDigest(sha, b, d)
  {
    assert b[p + 8] == b[p + 8..p + 9][0];
    forall k | 0 <= k < |d.peaks|
      ensures PeakStands(b[p + 9..], k, d.peaks[k].height, d.peaks[k].start, Render(sha, d.peaks[k].root))
    {
      RootPeak(b[p + 9..], i.peaks, k);
    }
  }

  lemma {:induction false} PreimageHeaded(i: HashInput)
    ensures var p := |Domain(i)| + 4 + |i.stream|;
      Headed(Preimage(i), Domain(i), i.stream) && |Preimage(i)| >= p && Preimage(i)[p..] == Concat(Fields(i))
  {
    FourParts(TextBytes(Domain(i)), BE(|i.stream| % TWO32, 4), i.stream, Concat(Fields(i)));
  }

  lemma {:induction false} RootPeak(b: Bytes, peaks: seq<PeakRecord>, k: nat)
    requires b == EncodePeaks(peaks) && k < |peaks|
    ensures PeakStands(b, k, peaks[k].height, peaks[k].start, peaks[k].root)
  {
    PeakBytes(peaks, k);
    var q, s := 41 * k, PeakCode(peaks[k]);
    assert b[q] == s[0] && b[q + 1..q + 9] == s[1..9] && b[q + 9..q + 41] == s[9..];
  }

  /** Fields one after another, two to four of them. */
  lemma {:induction false} FieldsStand(b: Bytes, p: nat, parts: seq<Bytes>)
    requires p <= |b| && b[p..] == Concat(parts) && 2 <= |parts| <= 4
    ensures var q := p + |parts[0]|;
      && q <= |b| && b[p..q] == parts[0]
      && (|parts| == 2 ==> b[q..] == parts[1])
      && (|parts| > 2 ==>
           var r := q + |parts[1]|;
           && r <= |b| && b[q..r] == parts[1]
           && (|parts| == 3 ==> b[r..] == parts[2])
           && (|parts| > 3 ==>
                var s := r + |parts[2]|; s <= |b| && b[r..s] == parts[2] && b[s..] == parts[3]))
  {
    var q := p + |parts[0]|;
    NextField(b, p, parts);
    NextField(b, q, parts[1..]);
    if |parts| > 2 {
      var r := q + |parts[1]|;
      assert parts[1..][1..] == parts[2..];
      NextField(b, r, parts[2..]);
      if |parts| > 3 {
        assert parts[2..][1..] == parts[3..];
        NextField(b, r + |parts[2]|, parts[3..]);
      }
    }
  }

  lemma {:induction false} NextField(b: Bytes, p: nat, parts: seq<Bytes>)
    requires p <= |b| && parts != [] && b[p..] == Concat(parts)
    ensures var q := p + |parts[0]|;
      q <= |b| && b[p..q] == parts[0] && b[q..] == Concat(parts[1..]) && (|parts| == 1 ==> b[p..] == parts[0])
  {
    TwoParts(b, p, parts[0], Concat(parts[1..]));
  }

  /** Every byte string hashed on the way to a digest. */
  ghost function Hashed(sha: Hash, d: Digest): set<Bytes>
    requires Opened(d)
    decreases d
  {
    match d
    case Zero => {}
    case Content(_, previous, _, _, payload) => {Preimage(InputOf(sha, d)), payload.payload} + Hashed(sha, previous)
    case Leaf(_, _, content) => {Preimage(InputOf(sha, d))} + Hashed(sha, content)
    case Node(_, _, _, left, right) => {Preimage(InputOf(sha, d))} + Hashed(sha, left) + Hashed(sha, right)
    case Root(_, _, peaks) =>
      {Preimage(InputOf(sha, d))} + set i, x | 0 <= i < |peaks| && x in Hashed(sha, peaks[i].root) :: x
    case Head(_, _, _, content, proofRoot) =>
      {Preimage(InputOf(sha, d))} + Hashed(sha, content) + Hashed(sha, proofRoot)
  }

  /** No two of these strings share a hash, and none hashes to the zero root. */
  ghost predicate Separates(sha: Hash, hashed: set<Bytes>) {
    && (forall x, y :: x in hashed && y in hashed && sha(x) == sha(y) ==> x == y)
    && (forall x :: x in hashed ==> sha(x) != ZERO_ROOT)
  }

  lemma {:induction false} NotZeroRoot(sha: Hash, d: Digest, hashed: set<Bytes>)
    requires Opened(d) && !d.Zero? && Hashed(sha, d) <= hashed && Separates(sha, hashed)
    ensures Preimage(InputOf(sha, d)) in hashed && Render(sha, d) != ZERO_ROOT
  {
    assert Preimage(InputOf(sha, d)) in Hashed(sha, d);
  }

  /** Equal bytes of two digests mean equal digests, unless two of the strings hashed for them collide. */
  lemma {:induction false} RenderInjective(sha: Hash, d: Digest, e: Digest, hashed: set<Bytes>)
    requires Opened(d) && Opened(e) && Hashed(sha, d) <= hashed && Hashed(sha, e) <= hashed
    requires Separates(sha, hashed) && Render(sha, d) == Render(sha, e)
    ensures d == e
    decreases d
  {
    if !d.Zero? { NotZeroRoot(sha, d, hashed); }
    if !e.Zero? { NotZeroRoot(sha, e, hashed); }
    if !d.Zero? {
      PreimageInjective(InputOf(sha, d), InputOf(sha, e));
      match d
      case Content(_, previous, _, _, payload) =>
        RenderInjective(sha, previous, e.previous, hashed);
        assert payload.payload in Hashed(sha, d) && e.payload.payload in Hashed(sha, e);
      case Leaf(_, _, content) =>
        RenderInjective(sha, content, e.content, hashed);
      case Node(_, _, _, left, right) =>
        RenderInjective(sha, left, e.left, hashed);
        RenderInjective(sha, right, e.right, hashed);
      case Root(_, _, peaks) =>
        RootInjective(sha, d, e, hashed);
      case Head(_, _, _, content, proofRoot) =>
        RenderInjective(sha, content, e.content, hashed);
        RenderInjective(sha, proofRoot, e.proofRoot, hashed);
    }
  }

  lemma {:induction false} RootInjective(sha: Hash, d: Digest, e: Digest, hashed: set<Bytes>)
    requires Opened(d) && Opened(e) && d.Root? && e.Root? && Hashed(sha, d) <= hashed && Hashed(sha, e) <= hashed
    requires Separates(sha, hashed) && InputOf(sha, d) == InputOf(sha, e)
    ensures d == e
    decreases d, 0
  {
    var x, y := InputOf(sha, d).peaks, InputOf(sha, e).peaks;
    assert |d.peaks| == |x| == |y| == |e.peaks|;
    forall i | 0 <= i < |d.peaks|
      ensures d.peaks[i] == e.peaks[i]
    {
      assert x[i] == y[i];
      assert Hashed(sha, d.peaks[i].root) <= Hashed(sha, d) && Hashed(sha, e.peaks[i].root) <= Hashed(sha, e);
      RenderInjective(sha, d.peaks[i].root, e.peaks[i].root, hashed);
    }
  }
}
