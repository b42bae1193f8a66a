/** Time-range queries: typed decoding and verification of one page, and what an accepted page proves. */
module Query {
  import opened Words
  import opened Digests
  import opened Merkle
  import opened Inclusion
  import opened Streams

  const SCHEME := "talon_mmr_sha256_v1"
  const MAX_QUERY_LIMIT := 1_000

  /** Revisions first..last, or None/None for an empty window. */
  datatype Range = Range(first: Option<U64>, last: Option<U64>)

  datatype Entry = Entry(
    revision: U64, occurredAt: I64, payload: Bytes, payloadSha: Hex<PayloadDigest>,
    root: Hex<Digest>, previousRoot: Hex<Digest>, content: Hex<Digest>, proofRoot: Hex<Digest>)

  datatype ProofPoint = ProofPoint(
    revision: U64, occurredAt: I64, payloadSha: Hex<PayloadDigest>, previousRoot: Hex<Digest>,
    content: Hex<Digest>, proofRoot: Hex<Digest>, root: Hex<Digest>, inclusion: InclusionProof)

  datatype QueryProof = QueryProof(
    version: nat, scheme: string, root: Hex<Digest>,
    windowPredecessor: Option<ProofPoint>, windowFirst: Option<ProofPoint>, windowLast: Option<ProofPoint>,
    windowSuccessor: Option<ProofPoint>, pageSuccessor: Option<ProofPoint>, entryProofs: seq<InclusionProof>)

  /** What a verified page hands to the next request. */
  datatype Continuation = Continuation(
    stream: Stream, from: I64, until: I64, pinned: StreamHead, afterRevision: U64,
    window: Range, previousRoot: Digest, minimumLive: StreamHead)

  datatype Request = Request(
    stream: Stream, from: I64, until: I64, pinned: Option<StreamHead>, afterRevision: Option<U64>, limit: U64,
    expectedWindow: Option<Range>, previousRoot: Option<Digest>, minimumLive: Option<StreamHead>)

  /** The answer after JSON decoding; an Option is a field that may be null. */
  datatype WirePage = WirePage(
    pinned: Option<StreamHead>, live: Option<StreamHead>,
    windowFirst: Option<U64>, windowLast: Option<U64>, pageFirst: Option<U64>, pageLast: Option<U64>,
    next: Option<U64>, hasMore: bool, entries: seq<Entry>, proof: QueryProof)

  datatype Page = Page(
    pinned: StreamHead, live: StreamHead, window: Range, range: Range, next: Option<U64>, hasMore: bool,
    entries: seq<Entry>, proof: QueryProof)

  /** A page that passed every check, with the continuation it issues when there is more. */
  datatype Accepted = Accepted(page: Page, continuation: Option<Continuation>)

  // ---- Requests ----

  predicate ValidRequest(request: Request) {
    && 0 < |request.stream| <= MAX_STREAM_BYTES
    && request.from < request.until
    && 0 < request.limit <= MAX_QUERY_LIMIT
    && (request.pinned.Some? ==> ValidHead(request.stream, request.pinned.value))
    && (request.afterRevision.Some? ==>
         && request.pinned.Some? && 0 < request.afterRevision.value < request.pinned.value.revision
         && request.expectedWindow.Some? && request.previousRoot.Some? && request.minimumLive.Some?)
  }

  /** The next request of a continuation, or None when it does not validate. */
  function NextRequest(c: Continuation, limit: U64): (r: Option<Request>) {
    var request := Request(c.stream, c.from, c.until, Some(c.pinned), Some(c.afterRevision), limit,
                           Some(c.window), Some(c.previousRoot), Some(c.minimumLive));
    if ValidRequest(request) then Some(request) else None
  }

  // ---- Decoding ----

  function DecodeRange(first: Option<U64>, last: Option<U64>): (r: Option<Range>) {
    if first.None? != last.None? then None
    else if first.None? then Some(Range(None, None))
    else if first.value == 0 || first.value > last.value then None
    else Some(Range(first, last))
  }

  /** The live head neither precedes nor contradicts another head seen before. */
  predicate NotBefore(live: StreamHead, seen: StreamHead) {
    && live.revision >= seen.revision && live.lastOccurredAt >= seen.lastOccurredAt
    && (live.revision == seen.revision ==> live == seen)
  }

  /** The two heads of a page, against each other and against the request. */
  predicate HeadsAgree(request: Request, pinned: StreamHead, live: StreamHead) {
    && ValidHead(request.stream, pinned) && ValidHead(request.stream, live)
    && (request.pinned.Some? ==> Some(pinned) == request.pinned)
    && NotBefore(live, pinned)
    && (request.pinned.None? ==> live == pinned)
    && (request.minimumLive.Some? ==> NotBefore(live, request.minimumLive.value))
  }

  predicate HeadsAccepted(request: Request, wire: WirePage) {
    wire.pinned.Some? && wire.live.Some? && HeadsAgree(request, wire.pinned.value, wire.live.value)
  }

  predicate EntryDecodes(entry: Entry, pinnedRevision: U64) {
    && 0 < entry.revision <= pinnedRevision
    && entry.payloadSha.Hex? && entry.root.Hex? && entry.previousRoot.Hex? && entry.content.Hex? && entry.proofRoot.Hex?
  }

  predicate InclusionDecodes(proof: InclusionProof) {
    && proof.revision != 0 && |proof.siblings| <= MAX_PROOF_DEPTH && proof.leaf.Hex?
    && forall i :: 0 <= i < |proof.siblings| ==> proof.siblings[i].root.Hex?
  }

  predicate PointDecodes(point: Option<ProofPoint>) {
    point.Some? ==>
      && point.value.revision != 0
      && point.value.payloadSha.Hex? && point.value.previousRoot.Hex? && point.value.content.Hex?
      && point.value.proofRoot.Hex? && point.value.root.Hex?
      && InclusionDecodes(point.value.inclusion)
  }

  predicate ProofDecodes(proof: QueryProof) {
    && |proof.entryProofs| <= MAX_QUERY_LIMIT
    && PointDecodes(proof.windowPredecessor) && PointDecodes(proof.windowFirst) && PointDecodes(proof.windowLast)
    && PointDecodes(proof.windowSuccessor) && PointDecodes(proof.pageSuccessor)
    && forall i :: 0 <= i < |proof.entryProofs| ==> InclusionDecodes(proof.entryProofs[i])
  }

  /** The checks on window, page bounds and cursor that need no digest. */
  predicate BoundsAccepted(request: Request, wire: WirePage, window: Range, range: Range)
    requires wire.pinned.Some?
    requires window.first.Some? == window.last.Some? && range.first.Some? == range.last.Some?
  {
    && (request.expectedWindow.Some? ==> window == request.expectedWindow.value)
    && (window.first.Some? ==> window.first.value != 0 && window.last.value <= wire.pinned.value.revision)
    && (wire.entries == [] <==> range.first.None?)
    && (range.first.Some? ==> window.first.Some?)
    && (range.first.Some? ==> window.first.value <= range.first.value && range.last.value <= window.last.value)
    && (forall i :: 0 <= i < |wire.entries| ==> EntryDecodes(wire.entries[i], wire.pinned.value.revision))
    && (wire.entries != [] ==>
         range.first.value == wire.entries[0].revision && range.last.value == wire.entries[|wire.entries| - 1].revision)
    && (request.afterRevision.None? && range.first.Some? ==> range.first == window.first)
    && (if wire.hasMore then
          wire.next.Some? && range.last.Some? && wire.next == range.last && range.last.value < window.last.value
        else
          wire.next.None? && (range.last.Some? ==> range.last == window.last))
  }

  /** The last steps of decoding: the verifier, the root the page must continue, and the continuation. */
  function AcceptPage(request: Request, page: Page): (r: Option<Accepted>)
    requires page.hasMore ==> page.entries != [] && page.entries[|page.entries| - 1].root.Hex? && page.next.Some?
  {
    if !PageVerified(request, page) then None
    else if request.previousRoot.Some? && page.entries != [] &&
            page.entries[0].previousRoot != Hex(request.previousRoot.value) then None
    else if !page.hasMore then Some(Accepted(page, None))
    else
      var tail := page.entries[|page.entries| - 1];
      Some(Accepted(page, Some(Continuation(
        request.stream, request.from, request.until, page.pinned, page.next.value, page.window,
        tail.root.digest, page.live))))
  }

  /** The typed part of page decoding: every check, then the page itself. */
  function DecodePage(request: Request, wire: WirePage): (r: Option<Accepted>) {
    var window := DecodeRange(wire.windowFirst, wire.windowLast);
    var range := DecodeRange(wire.pageFirst, wire.pageLast);
    if !HeadsAccepted(request, wire) || window.None? || range.None? then None
    else if !BoundsAccepted(request, wire, window.value, range.value) || !ProofDecodes(wire.proof) then None
    else
      AcceptPage(request, Page(wire.pinned.value, wire.live.value, window.value, range.value, wire.next, wire.hasMore,
                               wire.entries, wire.proof))
  }

  // ---- Verification ----

  predicate PointVerified(stream: Stream, pinned: StreamHead, point: ProofPoint)
    requires pinned.proof.Some?
  {
    && point.previousRoot.Hex? && point.payloadSha.Hex? && point.proofRoot.Hex?
    && var content := Content(stream, point.previousRoot.digest, point.revision, point.occurredAt,
                              point.payloadSha.digest);
       && point.content == Hex(content)
       && point.root == Hex(Digest.Head(stream, point.revision, point.occurredAt, content, point.proofRoot.digest))
       && Included(stream, pinned.proof.value.peaks, point.revision, content, point.inclusion)
  }

  predicate EntryVerified(stream: Stream, pinned: StreamHead, entry: Entry, proof: InclusionProof)
    requires pinned.proof.Some?
  {
    && entry.payloadSha == Hex(OfPayload(entry.payload))
    && entry.previousRoot.Hex? && entry.proofRoot.Hex?
    && var content := Content(stream, entry.previousRoot.digest, entry.revision, entry.occurredAt,
                              OfPayload(entry.payload));
       && entry.content == Hex(content)
       && entry.root == Hex(Digest.Head(stream, entry.revision, entry.occurredAt, content, entry.proofRoot.digest))
       && Included(stream, pinned.proof.value.peaks, entry.revision, content, proof)
  }

  predicate PointsVerified(stream: Stream, pinned: StreamHead, proof: QueryProof)
    requires pinned.proof.Some?
  {
    && (proof.windowPredecessor.Some? ==> PointVerified(stream, pinned, proof.windowPredecessor.value))
    && (proof.windowFirst.Some? ==> PointVerified(stream, pinned, proof.windowFirst.value))
    && (proof.windowLast.Some? ==> PointVerified(stream, pinned, proof.windowLast.value))
    && (proof.windowSuccessor.Some? ==> PointVerified(stream, pinned, proof.windowSuccessor.value))
    && (proof.pageSuccessor.Some? ==> PointVerified(stream, pinned, proof.pageSuccessor.value))
  }

  predicate AtRevision(point: Option<ProofPoint>, revision: int) {
    point.Some? && point.value.revision == revision
  }

  predicate Within(request: Request, at: I64) {
    request.from <= at < request.until
  }

  /** The points around a non-empty window bracket it in time. */
  predicate WindowBracketed(request: Request, pinned: StreamHead, first: U64, last: U64, proof: QueryProof) {
    && AtRevision(proof.windowFirst, first) && AtRevision(proof.windowLast, last)
    && Within(request, proof.windowFirst.value.occurredAt) && Within(request, proof.windowLast.value.occurredAt)
    && (if first == 1 then proof.windowPredecessor.None?
        else AtRevision(proof.windowPredecessor, first - 1) && proof.windowPredecessor.value.occurredAt < request.from)
    && (if last == pinned.revision then proof.windowSuccessor.None?
        else AtRevision(proof.windowSuccessor, last + 1) && proof.windowSuccessor.value.occurredAt >= request.until)
  }

  /** The points of an empty window are neighbours, or one of them ends the stream. */
  predicate GapBracketed(request: Request, pinned: StreamHead, proof: QueryProof) {
    && proof.windowFirst.None? && proof.windowLast.None?
    && (proof.windowPredecessor.Some? ==> proof.windowPredecessor.value.occurredAt < request.from)
    && (proof.windowSuccessor.Some? ==> proof.windowSuccessor.value.occurredAt >= request.until)
    && (if proof.windowPredecessor.Some? && proof.windowSuccessor.Some? then
          proof.windowPredecessor.value.revision != U64_MAX &&
          proof.windowPredecessor.value.revision + 1 == proof.windowSuccessor.value.revision
        else if proof.windowSuccessor.Some? then proof.windowSuccessor.value.revision == 1
        else proof.windowPredecessor.Some? && proof.windowPredecessor.value.revision == pinned.revision)
  }

  predicate WindowVerified(request: Request, page: Page) {
    if page.window.first.Some? && page.window.last.Some? then
      WindowBracketed(request, page.pinned, page.window.first.value, page.window.last.value, page.proof)
    else
      page.window.first.None? && page.window.last.None? && GapBracketed(request, page.pinned, page.proof)
  }

  /** The page starts where the cursor left off and is empty only when the window is exhausted. */
  predicate CursorVerified(request: Request, page: Page) {
    && (request.afterRevision.Some? ==>
         && page.window.first.Some? && page.window.last.Some?
         && page.window.first.value <= request.afterRevision.value <= page.window.last.value
         && request.afterRevision.value < page.pinned.revision)
    && (if page.entries == [] then
          page.range.first.None? && page.range.last.None? &&
          (page.window.last.Some? ==> request.afterRevision == page.window.last)
        else
          && page.range.first == Some(page.entries[0].revision)
          && page.range.last == Some(page.entries[|page.entries| - 1].revision)
          && (if request.afterRevision.Some? then page.entries[0].revision == request.afterRevision.value + 1
              else page.range.first == page.window.first))
    && |page.entries| <= request.limit
  }

  /** Each entry follows the one before it and names its root. */
  predicate Linked(entries: seq<Entry>) {
    forall i, j :: 0 <= i < |entries| && 0 <= j < |entries| && j == i + 1 ==>
      && entries[i].revision != U64_MAX && entries[i].revision + 1 == entries[j].revision
      && entries[j].previousRoot == entries[i].root
  }

  predicate EntriesVerified(request: Request, page: Page)
    requires page.pinned.proof.Some?
  {
    && |page.proof.entryProofs| == |page.entries|
    && Linked(page.entries)
    && (forall i :: 0 <= i < |page.entries| ==>
         && Within(request, page.entries[i].occurredAt)
         && page.window.first.Some? && page.window.last.Some?
         && page.window.first.value <= page.entries[i].revision <= page.window.last.value
         && EntryVerified(request.stream, page.pinned, page.entries[i], page.proof.entryProofs[i]))
  }

  /** The root of the last entry is the pinned root or the previous root of the entry after it. */
  predicate TailVerified(page: Page) {
    page.entries != [] ==>
      var tail := page.entries[|page.entries| - 1];
      if tail.revision == page.pinned.revision then
        page.proof.pageSuccessor.None? && tail.root == page.pinned.root
      else
        && AtRevision(page.proof.pageSuccessor, tail.revision + 1)
        && page.proof.pageSuccessor.value.previousRoot == tail.root
  }

  predicate MoreVerified(page: Page) {
    var more := page.range.last.Some? && page.window.last.Some? && page.range.last.value < page.window.last.value;
    page.hasMore == more && (if more then page.next == page.range.last else page.next.None?)
  }

  predicate PageVerified(request: Request, page: Page) {
    && page.pinned.proof.Some?
    && page.proof.version == PROOF_VERSION && page.proof.scheme == SCHEME
    && page.proof.root == page.pinned.proof.value.root
    && |page.proof.entryProofs| == |page.entries|
    && PointsVerified(request.stream, page.pinned, page.proof)
    && WindowVerified(request, page)
    && CursorVerified(request, page)
    && EntriesVerified(request, page)
    && TailVerified(page)
    && MoreVerified(page)
  }

  // ---- What an accepted page proves ----

  /** The entry that the history holds at a revision, with all its digests. */
  function EntryOf(stream: Stream, h: History, revision: U64): Entry
    requires 1 <= revision <= |h|
  {
    var e := h[revision - 1];
    Entry(revision, e.occurredAt, e.payload, Hex(OfPayload(e.payload)), Hex(HeadRoot(stream, h[..revision])),
          Hex(HeadRoot(stream, h[..revision - 1])), Hex(LastContent(stream, h[..revision])),
          Hex(ProofRoot(stream, h[..revision])))
  }

  lemma {:induction false} ContentIncluded(stream: Stream, h: History, revision: U64, previous: Digest, at: I64,
                                           payload: PayloadDigest, proof: InclusionProof)
    requires Included(stream, PeaksOf(stream, Leaves(stream, h)), revision,
                      Content(stream, previous, revision, at, payload), proof)
    ensures 1 <= revision <= |h|
    ensures previous == HeadRoot(stream, h[..revision - 1]) && at == h[revision - 1].occurredAt
    ensures payload == OfPayload(h[revision - 1].payload)
    ensures Content(stream, previous, revision, at, payload) == LastContent(stream, h[..revision])
  {
    InclusionSound(stream, Leaves(stream, h), revision, Content(stream, previous, revision, at, payload), proof);
    LeafAt(stream, h, revision);
    assert h[..revision][..revision - 1] == h[..revision - 1];
  }

  /**
   A verified point tells the history's time, payload, content and previous root at its revision; its
   head root is the one that its own proof root gives.
   */
  lemma {:induction false} PointSound(stream: Stream, h: History, point: ProofPoint)
    requires h != [] && PointVerified(stream, HeadOf(stream, h), point)
    ensures 1 <= point.revision <= |h|
    ensures point.occurredAt == h[point.revision - 1].occurredAt
    ensures point.payloadSha == Hex(OfPayload(h[point.revision - 1].payload))
    ensures point.previousRoot == Hex(HeadRoot(stream, h[..point.revision - 1]))
    ensures point.content == Hex(LastContent(stream, h[..point.revision])) && point.proofRoot.Hex?
    ensures point.root == Hex(Digest.Head(stream, point.revision, point.occurredAt,
                                          LastContent(stream, h[..point.revision]), point.proofRoot.digest))
    ensures point.inclusion.leaf == Hex(Leaf(stream, point.revision, LastContent(stream, h[..point.revision])))
  {
    ContentIncluded(stream, h, point.revision, point.previousRoot.digest, point.occurredAt, point.payloadSha.digest,
                    point.inclusion);
  }

  /** Agreement with the history in everything the content digest covers; the head root decides the rest. */
  ghost predicate Agrees(stream: Stream, h: History, entry: Entry) {
    && 1 <= entry.revision <= |h|
    && var honest := EntryOf(stream, h, entry.revision);
       && entry.occurredAt == honest.occurredAt && entry.payload == honest.payload
       && entry.payloadSha == honest.payloadSha
       && entry.previousRoot == honest.previousRoot && entry.content == honest.content
       && (entry.root == honest.root ==> entry == honest)
  }

  /** The entry is the history's in every field. */
  ghost predicate Honest(stream: Stream, h: History, entry: Entry) {
    1 <= entry.revision <= |h| && entry == EntryOf(stream, h, entry.revision)
  }

  lemma {:induction false} EntrySound(stream: Stream, h: History, entry: Entry, proof: InclusionProof)
    requires h != [] && EntryVerified(stream, HeadOf(stream, h), entry, proof)
    ensures Agrees(stream, h, entry)
  {
    ContentIncluded(stream, h, entry.revision, entry.previousRoot.digest, entry.occurredAt, OfPayload(entry.payload),
                    proof);
  }

  ghost predicate InTime(request: Request, h: History, revision: int)
    requires 1 <= revision <= |h|
  {
    request.from <= h[revision - 1].occurredAt < request.until
  }

  /** The window holds exactly the revisions whose time lies in [from, until). */
  ghost predicate ExactWindow(request: Request, h: History, window: Range) {
    forall r :: 1 <= r <= |h| ==>
      (InTime(request, h, r) <==>
         window.first.Some? && window.last.Some? && window.first.value <= r <= window.last.value)
  }

  lemma {:induction false} Earlier(h: History, i: int, j: int)
    requires Chronological(h) && 1 <= i <= j <= |h|
    ensures h[i - 1].occurredAt <= h[j - 1].occurredAt
  {
  }

  lemma {:induction false} WindowSound(request: Request, h: History, page: Page)
    requires h != [] && Chronological(h) && page.pinned == HeadOf(request.stream, h)
    requires PointsVerified(request.stream, page.pinned, page.proof)
    requires page.window.first.Some? && page.window.last.Some?
    requires WindowBracketed(request, page.pinned, page.window.first.value, page.window.last.value, page.proof)
    ensures ExactWindow(request, h, page.window)
  {
    var first, last := page.window.first.value, page.window.last.value;
    PointSound(request.stream, h, page.proof.windowFirst.value);
    PointSound(request.stream, h, page.proof.windowLast.value);
    if first != 1 { PointSound(request.stream, h, page.proof.windowPredecessor.value); }
    if last != |h| { PointSound(request.stream, h, page.proof.windowSuccessor.value); }
    forall r | 1 <= r <= |h|
      ensures InTime(request, h, r) <==> first <= r <= last
    {
      if r < first {
        Earlier(h, r, first - 1);
      } else if r > last {
        Earlier(h, last + 1, r);
      } else {
        Earlier(h, first, r);
        Earlier(h, r, last);
      }
    }
  }

  lemma {:induction false} GapSound(request: Request, h: History, page: Page)
    requires h != [] && Chronological(h) && page.pinned == HeadOf(request.stream, h)
    requires PointsVerified(request.stream, page.pinned, page.proof)
    requires GapBracketed(request, page.pinned, page.proof)
    requires page.window.first.None?
    ensures ExactWindow(request, h, page.window)
  {
    var before, after := page.proof.windowPredecessor, page.proof.windowSuccessor;
    if before.Some? { PointSound(request.stream, h, before.value); }
    if after.Some? { PointSound(request.stream, h, after.value); }
    forall r | 1 <= r <= |h|
      ensures !InTime(request, h, r)
    {
      if before.Some? && r <= before.value.revision {
        Earlier(h, r, before.value.revision);
      } else {
        Earlier(h, after.value.revision, r);
      }
    }
  }

  /** The last entry's root is the history's, by the pinned root or by the page successor. */
  lemma {:induction false} TailSound(request: Request, h: History, page: Page)
    requires h != [] && page.pinned == HeadOf(request.stream, h)
    requires PointsVerified(request.stream, page.pinned, page.proof) && TailVerified(page)
    requires page.entries != [] && 1 <= page.entries[|page.entries| - 1].revision <= |h|
    ensures var tail := page.entries[|page.entries| - 1]; tail.root == Hex(HeadRoot(request.stream, h[..tail.revision]))
  {
    var tail := page.entries[|page.entries| - 1];
    if tail.revision == |h| {
      assert h[..tail.revision] == h;
    } else {
      PointSound(request.stream, h, page.proof.pageSuccessor.value);
    }
  }

  /** Head roots follow backwards from the end of the page: each entry's root is its successor's previous root. */
  lemma {:induction false} ChainSound(stream: Stream, h: History, entries: seq<Entry>, i: nat)
    requires Linked(entries) && i < |entries|
    requires forall k :: 0 <= k < |entries| ==> Agrees(stream, h, entries[k])
    requires Honest(stream, h, entries[|entries| - 1])
    ensures entries[i].revision == entries[|entries| - 1].revision - (|entries| - 1 - i)
    ensures Honest(stream, h, entries[i])
    decreases |entries| - i
  {
    if i + 1 < |entries| {
      ChainSound(stream, h, entries, i + 1);
      assert entries[i + 1].previousRoot == entries[i].root;
      assert Agrees(stream, h, entries[i]);
    }
  }

  /**
   Page soundness. Against the pinned head of a chronological history, an accepted page names
   exactly the revisions in the time range as its window, and every returned entry is the
   history's entry in every field, head root and proof root included.
   */
  lemma {:induction false} PageSound(request: Request, h: History, wire: WirePage)
    requires h != [] && Chronological(h)
    requires DecodePage(request, wire).Some? && DecodePage(request, wire).value.page.pinned == HeadOf(request.stream, h)
    ensures var page := DecodePage(request, wire).value.page;
      && ExactWindow(request, h, page.window)
      && HonestEntries(request, h, page.entries)
  {
    var page := DecodePage(request, wire).value.page;
    VerifiedPageSound(request, h, page);
  }

  /** Consecutive entries, each equal to the history's. */
  ghost predicate HonestEntries(request: Request, h: History, entries: seq<Entry>) {
    forall i :: 0 <= i < |entries| ==>
      entries[i].revision == entries[0].revision + i && Honest(request.stream, h, entries[i])
  }

  lemma {:induction false} VerifiedPageSound(request: Request, h: History, page: Page)
    requires h != [] && Chronological(h)
    requires PageVerified(request, page) && page.pinned == HeadOf(request.stream, h)
    ensures ExactWindow(request, h, page.window)
    ensures HonestEntries(request, h, page.entries)
  {
    if page.window.first.Some? {
      WindowSound(request, h, page);
    } else {
      GapSound(request, h, page);
    }
    if page.entries != [] {
      EntriesSound(request, h, page);
    }
  }

  lemma {:induction false} EntriesSound(request: Request, h: History, page: Page)
    requires h != [] && page.pinned == HeadOf(request.stream, h) && page.entries != []
    requires PointsVerified(request.stream, page.pinned, page.proof)
    requires EntriesVerified(request, page) && TailVerified(page)
    ensures HonestEntries(request, h, page.entries)
  {
    forall k | 0 <= k < |page.entries|
      ensures Agrees(request.stream, h, page.entries[k])
    {
      EntrySound(request.stream, h, page.entries[k], page.proof.entryProofs[k]);
    }
    assert Agrees(request.stream, h, page.entries[|page.entries| - 1]);
    TailSound(request, h, page);
    HonestChain(request, h, page.entries);
  }

  lemma {:induction false} HonestChain(request: Request, h: History, entries: seq<Entry>)
    requires Linked(entries) && entries != []
    requires forall k :: 0 <= k < |entries| ==> Agrees(request.stream, h, entries[k])
    requires Honest(request.stream, h, entries[|entries| - 1])
    ensures HonestEntries(request, h, entries)
  {
    ChainSound(request.stream, h, entries, 0);
    forall i | 0 <= i < |entries|
      ensures entries[i].revision == entries[0].revision + i && Honest(request.stream, h, entries[i])
    {
      ChainSound(request.stream, h, entries, i);
    }
  }
}
