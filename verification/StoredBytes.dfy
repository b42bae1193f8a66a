/** The bytes that an append writes and that every run leaves in the store, place by place. */
module StoredBytes {
  import opened Words
  import opened Digests
  import opened Keys
  import opened Merkle
  import opened Streams
  import opened Transactions
  import opened Receipts
  import opened Appends
  import opened Ledger

  /** The stored value of a head: its own numbers and the bytes of its digests. */
  ghost predicate ShowsStreamHead(r: Rendering, b: Bytes, head: StreamHead) {
    && head.root.Hex? && head.proof.Some?
    && var proof := head.proof.value;
       && proof.root.Hex? && proof.lastContent.Hex? && AllHex(proof.peaks)
       && ShowsHead(b, head.revision, head.lastOccurredAt, r.digest(head.root.digest),
                    r.digest(proof.lastContent.digest), r.digest(proof.root.digest), |proof.peaks|)
       && forall i :: 0 <= i < |proof.peaks| ==>
            ShowsPeak(b, i, proof.peaks[i].height, proof.peaks[i].start, r.digest(proof.peaks[i].root.digest))
  }

  lemma {:induction false} HeadBytesShow(r: Rendering, stream: Stream, head: StreamHead)
    requires ValidHead(stream, head)
    ensures ShowsStreamHead(r, HeadBytes(r, head), head)
  {
    var record, peaks := HeadRecordOf(r, head), head.proof.value.peaks;
    HeadShows(record);
    forall i | 0 <= i < |peaks|
      ensures ShowsPeak(HeadBytes(r, head), i, peaks[i].height, peaks[i].start, r.digest(peaks[i].root.digest))
    {
      assert record.peaks[i] == PeakRecord(peaks[i].height, peaks[i].start, HexBytes(r, peaks[i].root));
    }
  }

  lemma {:induction false} EventBytesShow(r: Rendering, event: Event, previous: Digest, content: Digest,
                                          proofRoot: Digest, root: Digest)
    ensures ShowsEvent(EventBytes(r, event, previous, content, proofRoot, root), event.occurredAt, r.digest(previous),
                       r.payload(OfPayload(event.payload)), r.digest(content), r.digest(proofRoot), r.digest(root),
                       event.payload)
  {
    EventShows(EventRecord(event.occurredAt, r.digest(previous), r.payload(OfPayload(event.payload)),
                           r.digest(content), r.digest(proofRoot), r.digest(root), event.payload));
  }

  // ---- What an append writes ----

  /** The event record that an append writes, under the event's own key. */
  ghost predicate WritesEvent(r: Rendering, q: AppendRequest, head: StreamHead, w: InternalWrite)
    requires head.root.Hex? && head.proof.Some? && (q.expected.Some? ==> q.expected.value.root.Hex?)
    requires head.proof.value.root.Hex?
  {
    var previous := if q.expected.None? then Zero else q.expected.value.root.digest;
    var content := Content(q.stream, previous, q.revision, q.event.occurredAt, OfPayload(q.event.payload));
    && w.key == EventKey(q.stream, q.revision) && w.before.None?
    && head.proof.value.lastContent == Hex(content)
    && ShowsEvent(w.value, q.event.occurredAt, r.digest(previous), r.payload(OfPayload(q.event.payload)),
                  r.digest(content), r.digest(head.proof.value.root.digest), r.digest(head.root.digest),
                  q.event.payload)
  }

  /** The head record, and what must have been in its place. */
  ghost predicate WritesHead(r: Rendering, q: AppendRequest, head: StreamHead, w: InternalWrite) {
    && w.key == HeadKey(q.stream) && ShowsStreamHead(r, w.value, head)
    && w.before.Some? == q.expected.Some?
    && (q.expected.Some? ==> ShowsStreamHead(r, w.before.value, q.expected.value))
  }

  /** The tree nodes: one for each power of two that divides the new revision, over the leaves that end there. */
  ghost predicate WritesNodes(q: AppendRequest, ws: seq<InternalWrite>)
    requires q.revision > 0
  {
    && |ws| == 4 + TrailingZeros(q.revision)
    && forall i :: 3 <= i < |ws| ==>
      && ws[i].key.NodeKey? && ws[i].key.stream == q.stream && ws[i].key.height == i - 3
      && ws[i].key.start - 1 + Pow2(i - 3) == q.revision && ws[i].before.None? && |ws[i].value| == 32
  }

  /**
   The records of an append: event, time entry, head and nodes, with their keys and the bytes of
   their values. The new head has the request's revision and time.
   */
  lemma {:induction false} BuiltRecords(r: Rendering, q: AppendRequest)
    requires Admissible(q)
    ensures var b := Built(r, q); var head := b.head;
      && ValidHead(q.stream, head) && head.revision == q.revision && head.lastOccurredAt == q.event.occurredAt
      && |b.writes| >= 3
      && WritesEvent(r, q, head, b.writes[0])
      && b.writes[1]
         == InternalWrite(TimeKey(q.stream, q.event.occurredAt, q.revision), None, r.digest(head.root.digest))
      && WritesHead(r, q, head, b.writes[2])
      && WritesNodes(q, b.writes)
  {
    ExtendValid(q.stream, q.expected, q.revision, q.event);
    var e := Extend(q.stream, q.expected, q.revision, q.event).value;
    EventBytesShow(r, q.event, e.previousRoot, e.content, e.proofRoot, e.root);
    HeadBytesShow(r, q.stream, e.head);
    if q.expected.Some? {
      HeadBytesShow(r, q.stream, q.expected.value);
    }
    ExtendedStack(q, e);
    NodesBehind(r, q, [EventWrite(r, q, e), TimeWrite(r, q, e), HeadWrite(r, q, e)], e.created);
  }

  /** The nodes that an admitted append creates. */
  lemma {:induction false} ExtendedStack(q: AppendRequest, e: Extension)
    requires Admissible(q) && Extend(q.stream, q.expected, q.revision, q.event) == Some(e)
    ensures |e.created| == TrailingZeros(q.revision) + 1 && Stacked(e.created, q.revision)
  {
    var peaks := if q.expected.None? then [] else q.expected.value.proof.value.peaks;
    var node := MerkleNode(0, q.revision, Leaf(q.stream, q.revision, e.content));
    assert peaks == [] ==> BlocksOf(peaks) == Layout(0);
    assert Pow2(0) == 1;
    CreatedPlaces(q.stream, peaks, node, [node], q.revision);
  }

  lemma {:induction false} NodesBehind(r: Rendering, q: AppendRequest, first: seq<InternalWrite>, nodes: seq<MerkleNode>)
    requires |first| == 3 && q.revision > 0 && |nodes| == TrailingZeros(q.revision) + 1 && Stacked(nodes, q.revision)
    ensures WritesNodes(q, first + NodeWrites(r, q.stream, nodes))
  {
    var ws := first + NodeWrites(r, q.stream, nodes);
    forall i | 3 <= i < |ws|
      ensures ws[i] == NodeWrites(r, q.stream, nodes)[i - 3]
    {
    }
  }

  ghost function StreamPlace(k: RecordKey): Location {
    Location("__revision_stream_v1__", KeyBytes(k))
  }

  ghost function CheckOf(w: InternalWrite): Condition<Location> {
    Condition(StreamPlace(w.key), w.before, Equal)
  }

  /** Side conditions first, in the user's keyspace; then the head, the event, the time entry and the nodes. */
  ghost predicate ConditionsInOrder(q: AppendRequest, cs: seq<Condition<Location>>, w: seq<InternalWrite>)
    requires |w| >= 3
  {
    var n := |q.sideConditions|;
    && |cs| == n + |w| && cs[n] == CheckOf(w[2]) && cs[n + 1] == CheckOf(w[0]) && cs[n + 2] == CheckOf(w[1])
    && (forall i :: 3 <= i < |w| ==> cs[n + i] == CheckOf(w[i]))
    && forall i :: 0 <= i < n ==>
         cs[i] == Condition(Location("__user_conditional__." + q.namespace, q.sideConditions[i].at),
                            q.sideConditions[i].expected, q.sideConditions[i].operator)
  }

  /** Side mutations first, in the user's keyspace; then the records in the order they are listed. */
  ghost predicate MutationsInOrder(q: AppendRequest, ms: seq<Mutation<Location>>, w: seq<InternalWrite>) {
    var n := |q.sideMutations|;
    && |ms| == n + |w|
    && (forall i :: 0 <= i < |w| ==> ms[n + i] == Put(StreamPlace(w[i].key), w[i].value))
    && forall i :: 0 <= i < n ==>
         ms[i].at == Location("__user_conditional__." + q.namespace, q.sideMutations[i].at)
  }

  lemma {:induction false} BuiltOrder(r: Rendering, q: AppendRequest)
    requires Admissible(q)
    ensures var b := Built(r, q);
      |b.writes| >= 3 && ConditionsInOrder(q, b.conditions, b.writes) && MutationsInOrder(q, b.mutations, b.writes)
  {
    ExtendValid(q.stream, q.expected, q.revision, q.event);
    var e := Extend(q.stream, q.expected, q.revision, q.event).value;
    ConditionOrder(q, InternalWrites(r, q, e));
    MutationOrder(q, InternalWrites(r, q, e));
  }

  lemma {:induction false} ConditionOrder(q: AppendRequest, w: seq<InternalWrite>)
    requires |w| >= 3
    ensures ConditionsInOrder(q, PlaceConditions(Keyspace(q.namespace), q.sideConditions) + Checks(Guards(w)), w)
  {
    var sides, checks := PlaceConditions(Keyspace(q.namespace), q.sideConditions), Checks(Guards(w));
    forall i | 0 <= i < |w|
      ensures (sides + checks)[|sides| + i] == CheckOf(w[WriteIndex(i)])
    {
      assert (sides + checks)[|sides| + i] == checks[i];
      GuardChecks(w, i);
    }
    assert WriteIndex(0) == 2 && WriteIndex(1) == 0 && WriteIndex(2) == 1;
    SideConditionOrder(q, sides, checks);
  }

  lemma {:induction false} GuardChecks(w: seq<InternalWrite>, i: nat)
    requires |w| >= 3 && i < |w|
    ensures WriteIndex(i) < |w| && Checks(Guards(w))[i] == CheckOf(w[WriteIndex(i)])
  {
    GuardAt(w, i);
  }

  lemma {:induction false} SideConditionOrder(q: AppendRequest, sides: seq<Condition<Location>>,
                                              checks: seq<Condition<Location>>)
    requires sides == PlaceConditions(Keyspace(q.namespace), q.sideConditions)
    ensures forall i :: 0 <= i < |sides| ==>
      (sides + checks)[i] == Condition(Location("__user_conditional__." + q.namespace, q.sideConditions[i].at),
                                       q.sideConditions[i].expected, q.sideConditions[i].operator)
  {
  }

  lemma {:induction false} MutationOrder(q: AppendRequest, w: seq<InternalWrite>)
    ensures MutationsInOrder(q, PlaceMutations(Keyspace(q.namespace), q.sideMutations) + Puts(w), w)
  {
    var sides, puts := PlaceMutations(Keyspace(q.namespace), q.sideMutations), Puts(w);
    forall i | 0 <= i < |w|
      ensures (sides + puts)[|sides| + i] == Put(StreamPlace(w[i].key), w[i].value)
    {
    }
    forall i | 0 <= i < |sides|
      ensures (sides + puts)[i].at == Location("__user_conditional__." + q.namespace, q.sideMutations[i].at)
    {
      assert sides[i] == Relocate(Keyspace(q.namespace), q.sideMutations[i]);
    }
  }

  // ---- What every run leaves ----

  /** In step with the histories, every event is stored under its key, payload and digests in their places. */
  lemma {:induction false} EventStored(r: Rendering, hs: Histories, store: Store, stream: Stream, revision: U64)
    requires InStep(r, hs, store) && |stream| <= MAX_STREAM_BYTES && 1 <= revision <= |HistoryOf(hs, stream)|
    ensures var h := HistoryOf(hs, stream); var event, value := h[revision - 1],
      Read(store, Location("__revision_stream_v1__", KeyBytes(EventKey(stream, revision))));
      && value.Some?
      && ShowsEvent(value.value, event.occurredAt, r.digest(HeadRoot(stream, h[..revision - 1])),
                    r.payload(OfPayload(event.payload)), r.digest(LastContent(stream, h[..revision])),
                    r.digest(ProofRoot(stream, h[..revision])), r.digest(HeadRoot(stream, h[..revision])),
                    event.payload)
  {
    var h := HistoryOf(hs, stream);
    assert RecordMatches(r, hs, store, EventKey(stream, revision));
    EventBytesShow(r, h[revision - 1], HeadRoot(stream, h[..revision - 1]), LastContent(stream, h[..revision]),
                   ProofRoot(stream, h[..revision]), HeadRoot(stream, h[..revision]));
  }

  /** And the head of every stream that has events, with the peaks of its history. */
  lemma {:induction false} HeadStored(r: Rendering, hs: Histories, store: Store, stream: Stream)
    requires InStep(r, hs, store) && |stream| <= MAX_STREAM_BYTES
    ensures var h, value :=
        HistoryOf(hs, stream), Read(store, Location("__revision_stream_v1__", KeyBytes(HeadKey(stream))));
      && (h == [] <==> value.None?)
      && (h != [] ==> ShowsStreamHead(r, value.value, HeadOf(stream, h)))
  {
    var h := HistoryOf(hs, stream);
    assert RecordMatches(r, hs, store, HeadKey(stream));
    if h != [] {
      HeadOfValid(stream, h);
      HeadBytesShow(r, stream, HeadOf(stream, h));
    }
  }

  /** After every run the payload of every event can be read back from the store, byte for byte. */
  lemma {:induction false} RunStoresPayloads(r: Rendering, ops: seq<Operation>, known: set<Digest>, stream: Stream,
                                             revision: U64)
    requires Separated(r, known) && forall i :: 0 <= i < |ops| ==> Allowed(ops[i]) && RootsKnown(ops[i], known)
    requires |stream| <= MAX_STREAM_BYTES && 1 <= revision <= |HistoryOf(Run(r, ops).histories, stream)|
    ensures var h, value := HistoryOf(Run(r, ops).histories, stream),
        Read(Run(r, ops).store, Location("__revision_stream_v1__", KeyBytes(EventKey(stream, revision))));
      && value.Some? && |value.value| == 179 + |h[revision - 1].payload|
      && value.value[179..] == h[revision - 1].payload
      && value.value[7..15] == BE(Unsigned(h[revision - 1].occurredAt), 8)
  {
    RunKeepsStep(r, ops, known);
    EventStored(r, Run(r, ops).histories, Run(r, ops).store, stream, revision);
  }
}
