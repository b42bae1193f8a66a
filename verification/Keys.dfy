/** The byte keys of a stream's records and the byte layout of its head and event values. */
module Keys {
  import opened Words
  import opened Digests

  const INTERNAL_KEYSPACE := "__revision_stream_v1__"
  const USER_PREFIX := "__user_conditional__."

  // "HRS1", "ERS1", "TRS1" and "MRS2".
  const HEAD_TAG: Bytes := [0x48, 0x52, 0x53, 0x31]
  const EVENT_TAG: Bytes := [0x45, 0x52, 0x53, 0x31]
  const TIME_TAG: Bytes := [0x54, 0x52, 0x53, 0x31]
  const NODE_TAG: Bytes := [0x4D, 0x52, 0x53, 0x32]

  /** The records that an append writes, named by what they hold. */
  datatype RecordKey =
    | HeadKey(stream: Stream)
    | EventKey(stream: Stream, revision: U64)
    | TimeKey(stream: Stream, occurredAt: I64, revision: U64)
    | NodeKey(stream: Stream, height: U8, start: U64)

  function StreamKey(tag: Bytes, stream: Stream): Bytes {
    tag + BE(|stream| % 0x1_0000_0000, 4) + stream
  }

  /** The time as an unsigned word with its sign bit flipped. */
  function SortableTime(at: I64): (u: U64)
    ensures u == at + 0x8000_0000_0000_0000
  {
    var word := Unsigned(at);
    if word >= 0x8000_0000_0000_0000 then word - 0x8000_0000_0000_0000 else word + 0x8000_0000_0000_0000
  }

  function Tag(k: RecordKey): (tag: Bytes)
    ensures |tag| == 4
  {
    match k
    case HeadKey(_) => HEAD_TAG
    case EventKey(_, _) => EVENT_TAG
    case TimeKey(_, _, _) => TIME_TAG
    case NodeKey(_, _, _) => NODE_TAG
  }

  /** What follows the stream identifier in a key. */
  function Suffix(k: RecordKey): Bytes {
    match k
    case HeadKey(_) => []
    case EventKey(_, revision) => BE(revision, 8)
    case TimeKey(_, at, revision) => BE(SortableTime(at), 8) + BE(revision, 8)
    case NodeKey(_, height, start) => [height] + BE(start, 8)
  }

  function KeyBytes(k: RecordKey): Bytes {
    StreamKey(Tag(k), k.stream) + Suffix(k)
  }

  lemma {:induction false} TagsDiffer(a: RecordKey, b: RecordKey)
    requires Tag(a) == Tag(b)
    ensures a.HeadKey? == b.HeadKey? && a.EventKey? == b.EventKey? && a.TimeKey? == b.TimeKey?
  {
    assert HEAD_TAG[0] != EVENT_TAG[0] && HEAD_TAG[0] != TIME_TAG[0] && HEAD_TAG[0] != NODE_TAG[0];
    assert EVENT_TAG[0] != TIME_TAG[0] && EVENT_TAG[0] != NODE_TAG[0] && TIME_TAG[0] != NODE_TAG[0];
  }

  lemma {:induction false} FramedSplit(tag: Bytes, width: Bytes, rest: Bytes, x: Bytes, tag': Bytes, width': Bytes,
                                       rest': Bytes, y: Bytes)
    requires |tag| == |tag'| && |width| == |width'|
    requires tag + width + rest + x == tag' + width' + rest' + y
    ensures tag == tag' && width == width' && rest + x == rest' + y
  {
    assert tag + width + rest + x == tag + (width + (rest + x));
    assert tag' + width' + rest' + y == tag' + (width' + (rest' + y));
    CutSame(tag, width + (rest + x), tag', width' + (rest' + y));
    CutSame(width, rest + x, width', rest' + y);
  }

  /** Equal key bytes followed by anything mean equal tags, equal streams and equal rests. */
  lemma {:induction false} StreamKeySplit(tag: Bytes, stream: Stream, x: Bytes, tag': Bytes, stream': Stream, y: Bytes)
    requires |tag| == |tag'| && |stream| < 0x1_0000_0000 && |stream'| < 0x1_0000_0000
    requires StreamKey(tag, stream) + x == StreamKey(tag', stream') + y
    ensures tag == tag' && stream == stream' && x == y
  {
    FramedSplit(tag, BE(|stream| % 0x1_0000_0000, 4), stream, x, tag', BE(|stream'| % 0x1_0000_0000, 4), stream', y);
    LengthSame(|stream|, |stream'|);
    CutSame(stream, x, stream', y);
  }

  lemma {:induction false} LengthSame(m: nat, n: nat)
    requires m < 0x1_0000_0000 && n < 0x1_0000_0000 && BE(m % 0x1_0000_0000, 4) == BE(n % 0x1_0000_0000, 4)
    ensures m == n
  {
    Pow256Values();
    BERoundTrip(m % 0x1_0000_0000, 4);
    BERoundTrip(n % 0x1_0000_0000, 4);
  }

  /** Two records share a key only when they are the same record: streams, kinds, revisions and nodes never collide. */
  lemma {:induction false} KeyBytesInjective(a: RecordKey, b: RecordKey)
    requires |a.stream| <= MAX_STREAM_BYTES && |b.stream| <= MAX_STREAM_BYTES
    requires KeyBytes(a) == KeyBytes(b)
    ensures a == b
  {
    Pow256Values();
    StreamKeySplit(Tag(a), a.stream, Suffix(a), Tag(b), b.stream, Suffix(b));
    TagsDiffer(a, b);
    match a
    case HeadKey(_) =>
    case EventKey(_, revision) =>
      BESplit(revision, b.revision, 8, [], []);
    case TimeKey(_, at, revision) =>
      BESplit(SortableTime(at), SortableTime(b.occurredAt), 8, BE(revision, 8), BE(b.revision, 8));
      BESplit(revision, b.revision, 8, [], []);
    case NodeKey(_, height, start) =>
      CutSame([height], BE(start, 8), [b.height], BE(b.start, 8));
      BESplit(start, b.start, 8, [], []);
  }

  /** Key order of one stream's time index is order by signed time, then by revision. */
  lemma {:induction false} TimeKeyOrder(stream: Stream, at: I64, revision: U64, at': I64, revision': U64)
    ensures LexLess(KeyBytes(TimeKey(stream, at, revision)), KeyBytes(TimeKey(stream, at', revision')))
         == (at < at' || (at == at' && revision < revision'))
  {
    Pow256Values();
    var a, b := Suffix(TimeKey(stream, at, revision)), Suffix(TimeKey(stream, at', revision'));
    LexCommonPrefix(StreamKey(TIME_TAG, stream), a, b);
    LexAppend(BE(SortableTime(at), 8), BE(SortableTime(at'), 8), BE(revision, 8), BE(revision', 8));
    BEOrder(SortableTime(at), SortableTime(at'), 8);
    BEOrder(revision, revision', 8);
    BERoundTrip(SortableTime(at), 8);
    BERoundTrip(SortableTime(at'), 8);
  }

  /** No namespace gives the keyspace that the stream's own records live in. */
  lemma {:induction false} UserKeyspaceApart(namespace: string)
    ensures USER_PREFIX + namespace != INTERNAL_KEYSPACE
  {
    assert (USER_PREFIX + namespace)[2] == 'u' && INTERNAL_KEYSPACE[2] == 'r';
  }

  // ---- Values ----

  type Digest32 = d: Bytes | |d| == 32 witness seq(32, _ => 0)

  datatype PeakRecord = PeakRecord(height: U8, start: U64, root: Digest32)

  datatype HeadRecord = HeadRecord(
    revision: U64, occurredAt: I64, root: Digest32, content: Digest32, proofRoot: Digest32, peaks: seq<PeakRecord>)

  datatype EventRecord = EventRecord(
    occurredAt: I64, previousRoot: Digest32, payloadSha: Digest32, content: Digest32, proofRoot: Digest32,
    root: Digest32, payload: Bytes)

  // "TLNRSH2" and "TLNRSE2".
  const HEAD_MAGIC: Bytes := [0x54, 0x4C, 0x4E, 0x52, 0x53, 0x48, 0x32]
  const EVENT_MAGIC: Bytes := [0x54, 0x4C, 0x4E, 0x52, 0x53, 0x45, 0x32]

  function EncodePeaks(peaks: seq<PeakRecord>): (s: Bytes)
    ensures |s| == 41 * |peaks|
  {
    if peaks == [] then []
    else [peaks[0].height] + BE(peaks[0].start, 8) + peaks[0].root + EncodePeaks(peaks[1..])
  }

  function HeadFields(head: HeadRecord): seq<Bytes> {
    [HEAD_MAGIC, BE(head.revision, 8), BE(Unsigned(head.occurredAt), 8), head.root, head.content, head.proofRoot,
     [|head.peaks| % 0x100], EncodePeaks(head.peaks)]
  }

  function EventFields(e: EventRecord): seq<Bytes> {
    [EVENT_MAGIC, BE(Unsigned(e.occurredAt), 8), e.previousRoot, e.payloadSha, e.content, e.proofRoot, e.root,
     BE(|e.payload| % 0x1_0000_0000, 4), e.payload]
  }

  lemma {:induction false} PeaksSnoc(peaks: seq<PeakRecord>, peak: PeakRecord)
    ensures EncodePeaks(peaks + [peak]) == EncodePeaks(peaks) + ([peak.height] + BE(peak.start, 8) + peak.root)
  {
    if peaks == [] {
      assert peaks + [peak] == [peak] && [peak][1..] == [];
    } else {
      assert (peaks + [peak])[1..] == peaks[1..] + [peak];
      PeaksSnoc(peaks[1..], peak);
    }
  }

  /** The loop that appends one peak after another. */
  method EncodePeakList(prefix: Bytes, peaks: seq<PeakRecord>) returns (result: Bytes)
    ensures result == prefix + EncodePeaks(peaks)
  {
    result := prefix;
    for i := 0 to |peaks|
      invariant result == prefix + EncodePeaks(peaks[..i])
    {
      result := result + [peaks[i].height] + BE(peaks[i].start, 8) + peaks[i].root;
      PeaksSnoc(peaks[..i], peaks[i]);
      assert peaks[..i] + [peaks[i]] == peaks[..i + 1];
    }
    assert peaks[..|peaks|] == peaks;
  }

  lemma {:induction false} PeaksInjective(a: seq<PeakRecord>, b: seq<PeakRecord>)
    requires EncodePeaks(a) == EncodePeaks(b)
    ensures a == b
    decreases |a|
  {
    Pow256Values();
    if a == [] {
    } else {
      var x, y := [a[0].height] + BE(a[0].start, 8) + a[0].root, [b[0].height] + BE(b[0].start, 8) + b[0].root;
      CutSame(x, EncodePeaks(a[1..]), y, EncodePeaks(b[1..]));
      CutSame([a[0].height] + BE(a[0].start, 8), a[0].root, [b[0].height] + BE(b[0].start, 8), b[0].root);
      CutSame([a[0].height], BE(a[0].start, 8), [b[0].height], BE(b[0].start, 8));
      BERoundTrip(a[0].start, 8);
      BERoundTrip(b[0].start, 8);
      assert a[0].height == [a[0].height][0] == [b[0].height][0] == b[0].height;
      PeaksInjective(a[1..], b[1..]);
      assert a == [a[0]] + a[1..] && b == [b[0]] + b[1..];
    }
  }

  /** Equal head values mean equal heads, so comparing the stored bytes compares the whole head. */
  lemma {:induction false} HeadValueInjective(a: HeadRecord, b: HeadRecord)
    requires Concat(HeadFields(a)) == Concat(HeadFields(b))
    ensures a == b
  {
    Pow256Values();
    ConcatCut(HeadFields(a), HeadFields(b));
    var x, y := HeadFields(a), HeadFields(b);
    assert x[1] == y[1] && x[2] == y[2] && x[3] == y[3] && x[4] == y[4] && x[5] == y[5] && x[7] == y[7];
    BERoundTrip(a.revision, 8);
    BERoundTrip(b.revision, 8);
    BERoundTrip(Unsigned(a.occurredAt), 8);
    BERoundTrip(Unsigned(b.occurredAt), 8);
    SignedUnsigned(a.occurredAt);
    SignedUnsigned(b.occurredAt);
    PeaksInjective(a.peaks, b.peaks);
  }

  lemma {:induction false} EventValueInjective(a: EventRecord, b: EventRecord)
    requires Concat(EventFields(a)) == Concat(EventFields(b))
    ensures a == b
  {
    Pow256Values();
    ConcatCut(EventFields(a), EventFields(b));
    var x, y := EventFields(a), EventFields(b);
    assert x[1] == y[1] && x[2] == y[2] && x[3] == y[3] && x[4] == y[4] && x[5] == y[5] && x[6] == y[6] && x[8] == y[8];
    BERoundTrip(Unsigned(a.occurredAt), 8);
    BERoundTrip(Unsigned(b.occurredAt), 8);
    SignedUnsigned(a.occurredAt);
    SignedUnsigned(b.occurredAt);
  }

  // ---- The bytes at their places ----

  /** The bytes after the stream identifier. */
  ghost predicate ShowsSuffix(b: Bytes, from: nat, k: RecordKey) {
    match k
    case HeadKey(_) => |b| == from
    case EventKey(_, revision) => |b| == from + 8 && b[from..] == BE(revision, 8)
    case TimeKey(_, at, revision) =>
      && |b| == from + 16 && b[from..from + 8] == BE(at + 0x8000_0000_0000_0000, 8)
      && b[from + 8..] == BE(revision, 8)
    case NodeKey(_, height, start) => |b| == from + 9 && b[from] == height && b[from + 1..] == BE(start, 8)
  }

  function KindText(k: RecordKey): string {
    if k.HeadKey? then "HRS1" else if k.EventKey? then "ERS1" else if k.TimeKey? then "TRS1" else "MRS2"
  }

  /** Every key names its kind, the length of the stream, the stream, and then what tells the record apart. */
  lemma {:induction false} KeyShows(k: RecordKey)
    ensures var b, n := KeyBytes(k), |k.stream|;
      && |b| >= 8 + n && b[..4] == TextBytes(KindText(k)) && b[4..8] == BE(n % TWO32, 4) && b[8..8 + n] == k.stream
      && ShowsSuffix(b, 8 + n, k)
  {
    var n := |k.stream|;
    TagText(k);
    FourParts(Tag(k), BE(n % TWO32, 4), k.stream, Suffix(k));
    SuffixShows(KeyBytes(k), 8 + n, k);
  }

  lemma {:induction false} TagText(k: RecordKey)
    ensures Tag(k) == TextBytes(KindText(k))
  {
  }

  lemma {:induction false} SuffixShows(b: Bytes, from: nat, k: RecordKey)
    requires from <= |b| && b[from..] == Suffix(k)
    ensures ShowsSuffix(b, from, k)
  {
    match k
    case TimeKey(_, at, revision) => TwoParts(b, from, BE(SortableTime(at), 8), BE(revision, 8));
    case NodeKey(_, height, start) => TwoParts(b, from, [height], BE(start, 8));
    case _ =>
  }

  lemma {:induction false} FourParts(w: Bytes, x: Bytes, y: Bytes, z: Bytes)
    ensures var s, i, j := w + x + y + z, |w| + |x|, |w| + |x| + |y|;
      && |s| == j + |z| && s[..|w|] == w && s[|w|..i] == x && s[i..j] == y && s[j..] == z
  {
  }

  lemma {:induction false} TwoParts(b: Bytes, start: nat, x: Bytes, y: Bytes)
    requires start <= |b| && b[start..] == x + y
    ensures start + |x| <= |b| && b[start..start + |x|] == x && b[start + |x|..] == y
    ensures x != [] ==> b[start] == x[0]
  {
    assert b[start..start + |x|] == b[start..][..|x|] && b[start + |x|..] == b[start..][|x|..];
    if x != [] {
      assert b[start] == b[start..][0];
    }
  }

  /** A stored event: magic, time, five digests, the length of the payload and the payload. */
  ghost predicate ShowsEvent(b: Bytes, at: I64, previousRoot: Digest32, payloadSha: Digest32, content: Digest32,
                             proofRoot: Digest32, root: Digest32, payload: Bytes)
  {
    && |b| == 179 + |payload| && b[..7] == TextBytes("TLNRSE2") && b[7..15] == BE(Unsigned(at), 8)
    && b[15..47] == previousRoot && b[47..79] == payloadSha && b[79..111] == content && b[111..143] == proofRoot
    && b[143..175] == root && b[175..179] == BE(|payload| % TWO32, 4) && b[179..] == payload
  }

  /** A stored head up to its peaks: magic, revision, time, three digests and the number of peaks. */
  ghost predicate ShowsHead(b: Bytes, revision: U64, at: I64, root: Digest32, content: Digest32, proofRoot: Digest32,
                            peaks: nat)
  {
    && |b| == 120 + 41 * peaks && b[..7] == TextBytes("TLNRSH2")
    && b[7..15] == BE(revision, 8) && b[15..23] == BE(Unsigned(at), 8)
    && b[23..55] == root && b[55..87] == content && b[87..119] == proofRoot && b[119] == peaks % 0x100
  }

  /** Peak i of a stored head: height, start and root. */
  ghost predicate ShowsPeak(b: Bytes, i: nat, height: U8, start: U64, root: Digest32) {
    var p := 120 + 41 * i;
    |b| >= p + 41 && b[p] == height && b[p + 1..p + 9] == BE(start, 8) && b[p + 9..p + 41] == root
  }

  /** The first six fields of both values: the widths 7, 8, w, 32, 32 and 32. */
  lemma {:induction false} FirstOffsets(parts: seq<Bytes>, w: nat)
    requires |parts| >= 6 && |parts[0]| == 7 && |parts[1]| == 8 && |parts[2]| == w
    requires |parts[3]| == 32 && |parts[4]| == 32 && |parts[5]| == 32
    ensures Offset(parts, 0) == 0 && Offset(parts, 1) == 7 && Offset(parts, 2) == 15
    ensures Offset(parts, 3) == 15 + w && Offset(parts, 4) == 47 + w && Offset(parts, 5) == 79 + w
    ensures Offset(parts, 6) == 111 + w
  {
  }

  lemma {:induction false} EventShows(e: EventRecord)
    ensures ShowsEvent(Concat(EventFields(e)), e.occurredAt, e.previousRoot, e.payloadSha, e.content, e.proofRoot,
                       e.root, e.payload)
  {
    var parts := EventFields(e);
    FirstOffsets(parts, 32);
    assert Offset(parts, 7) == 175 && Offset(parts, 8) == 179;
    forall i | 0 <= i < 9
      ensures FieldAt(Concat(parts), parts, i, Offset(parts, i))
    {
      ConcatShows(parts, i);
    }
    ConcatShows(parts, 8);
    EventPlaces(Concat(parts), parts, e);
  }

  lemma {:induction false} EventPlaces(b: Bytes, parts: seq<Bytes>, e: EventRecord)
    requires parts == EventFields(e) && |b| == 179 + |e.payload|
    requires FieldAt(b, parts, 0, 0) && FieldAt(b, parts, 1, 7) && FieldAt(b, parts, 2, 15) && FieldAt(b, parts, 3, 47)
    requires FieldAt(b, parts, 4, 79) && FieldAt(b, parts, 5, 111) && FieldAt(b, parts, 6, 143)
    requires FieldAt(b, parts, 7, 175) && FieldAt(b, parts, 8, 179)
    ensures ShowsEvent(b, e.occurredAt, e.previousRoot, e.payloadSha, e.content, e.proofRoot, e.root, e.payload)
  {
    assert EVENT_MAGIC == TextBytes("TLNRSE2");
  }

  /** One peak record of 41 bytes. */
  function PeakCode(peak: PeakRecord): (s: Bytes)
    ensures |s| == 41 && s[0] == peak.height && s[1..9] == BE(peak.start, 8) && s[9..] == peak.root
  {
    [peak.height] + BE(peak.start, 8) + peak.root
  }

  lemma {:induction false} SliceBehind(b: Bytes, from: nat, j: nat, width: nat)
    requires from + j + width <= |b|
    ensures b[from + j..from + j + width] == b[from..][j..j + width]
  {
  }

  lemma {:induction false} PeakBytes(peaks: seq<PeakRecord>, i: nat)
    requires i < |peaks|
    ensures 41 * i + 41 <= |EncodePeaks(peaks)| && EncodePeaks(peaks)[41 * i..41 * i + 41] == PeakCode(peaks[i])
  {
    var b := EncodePeaks(peaks);
    assert b == PeakCode(peaks[0]) + EncodePeaks(peaks[1..]);
    if i > 0 {
      PeakBytes(peaks[1..], i - 1);
      assert b[41..] == EncodePeaks(peaks[1..]);
      SliceBehind(b, 41, 41 * (i - 1), 41);
    }
  }

  lemma {:induction false} HeadShows(head: HeadRecord)
    ensures ShowsHead(Concat(HeadFields(head)), head.revision, head.occurredAt, head.root, head.content,
                      head.proofRoot, |head.peaks|)
    ensures forall i :: 0 <= i < |head.peaks| ==>
      ShowsPeak(Concat(HeadFields(head)), i, head.peaks[i].height, head.peaks[i].start, head.peaks[i].root)
  {
    var parts := HeadFields(head);
    var b := Concat(parts);
    FirstOffsets(parts, 8);
    assert Offset(parts, 7) == 120;
    forall i | 0 <= i < 8
      ensures FieldAt(b, parts, i, Offset(parts, i))
    {
      ConcatShows(parts, i);
    }
    ConcatShows(parts, 7);
    HeadPlaces(b, parts, head);
    forall i | 0 <= i < |head.peaks|
      ensures ShowsPeak(b, i, head.peaks[i].height, head.peaks[i].start, head.peaks[i].root)
    {
      PeakBytes(head.peaks, i);
      PeakAmong(b, EncodePeaks(head.peaks), i, head.peaks[i]);
    }
  }

  lemma {:induction false} HeadPlaces(b: Bytes, parts: seq<Bytes>, head: HeadRecord)
    requires parts == HeadFields(head) && |b| == 120 + 41 * |head.peaks|
    requires FieldAt(b, parts, 0, 0) && FieldAt(b, parts, 1, 7) && FieldAt(b, parts, 2, 15) && FieldAt(b, parts, 3, 23)
    requires FieldAt(b, parts, 4, 55) && FieldAt(b, parts, 5, 87) && FieldAt(b, parts, 6, 119)
    requires FieldAt(b, parts, 7, 120)
    ensures ShowsHead(b, head.revision, head.occurredAt, head.root, head.content, head.proofRoot, |head.peaks|)
    ensures b[120..] == EncodePeaks(head.peaks)
  {
    assert HEAD_MAGIC == TextBytes("TLNRSH2");
    assert b[119] == b[119..120][0];
  }

  /** The peak records begin at byte 120. */
  lemma {:induction false} PeakAmong(b: Bytes, peaks: Bytes, i: nat, peak: PeakRecord)
    requires |b| >= 120 && b[120..] == peaks && 41 * i + 41 <= |peaks|
    requires peaks[41 * i..41 * i + 41] == PeakCode(peak)
    ensures ShowsPeak(b, i, peak.height, peak.start, peak.root)
  {
    var p, s := 120 + 41 * i, PeakCode(peak);
    assert b[p..p + 41] == b[120..][41 * i..41 * i + 41];
    assert b[p] == s[0] && b[p + 1..p + 9] == s[1..9] && b[p + 9..p + 41] == s[9..];
  }
}
