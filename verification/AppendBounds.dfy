/** Sizes of what an append builds: its command can be encoded, and its receipt can be carried. */
module AppendBounds {
  import opened Words
  import opened Digests
  import opened Keys
  import opened Merkle
  import opened Streams
  import opened Transactions
  import opened Receipts
  import opened Sealing
  import opened Commands
  import opened Appends
  import opened AppendReceipts

  // ---- Stored values ----

  lemma {:induction false} KeyLength(k: RecordKey)
    ensures |KeyBytes(k)| <= |k.stream| + 24
  {
  }

  lemma {:induction false} HeadLength(r: Rendering, head: StreamHead)
    requires head.proof.Some? && |head.proof.value.peaks| <= MAX_PROOF_PEAKS
    ensures |HeadBytes(r, head)| <= MAX_KEY_BYTES
  {
    var fields := HeadFields(HeadRecordOf(r, head));
    assert forall i :: 0 <= i < |fields| ==> |fields[i]| <= 41 * MAX_PROOF_PEAKS;
    ConcatBound(fields, 41 * MAX_PROOF_PEAKS);
  }

  lemma {:induction false} EventLength(r: Rendering, event: Event, previousRoot: Digest, content: Digest,
                                       proofRoot: Digest, root: Digest)
    requires |event.payload| <= MAX_PAYLOAD_BYTES
    ensures |EventBytes(r, event, previousRoot, content, proofRoot, root)| <= APPEND_LIMITS.maxValueBytes
  {
    var fields := EventFields(EventRecord(event.occurredAt, r.digest(previousRoot), r.payload(OfPayload(event.payload)),
                                          r.digest(content), r.digest(proofRoot), r.digest(root), event.payload));
    assert forall i :: 0 <= i < |fields| ==> |fields[i]| <= MAX_PAYLOAD_BYTES;
    ConcatBound(fields, MAX_PAYLOAD_BYTES);
  }

  // ---- The writes ----

  /** A record write whose key and values are within every limit. */
  predicate SmallWrite(w: InternalWrite) {
    && |KeyBytes(w.key)| <= MAX_KEY_BYTES && |w.value| <= APPEND_LIMITS.maxValueBytes
    && (w.before.Some? ==> |w.before.value| <= APPEND_LIMITS.maxValueBytes)
  }

  lemma {:induction false} WritesSmall(r: Rendering, q: AppendRequest, e: Extension)
    requires |q.stream| <= MAX_STREAM_BYTES && |q.event.payload| <= MAX_PAYLOAD_BYTES
    requires e.head.proof.Some? && |e.head.proof.value.peaks| <= MAX_PROOF_PEAKS
    requires q.expected.Some? ==>
      q.expected.value.proof.Some? && |q.expected.value.proof.value.peaks| <= MAX_PROOF_PEAKS
    ensures forall i :: 0 <= i < |InternalWrites(r, q, e)| ==> SmallWrite(InternalWrites(r, q, e)[i])
  {
    EventWriteSmall(r, q, e);
    TimeWriteSmall(r, q, e);
    HeadWriteSmall(r, q, e);
    NodeWritesSmall(r, q.stream, e.created);
    SmallAppended(EventWrite(r, q, e), TimeWrite(r, q, e), HeadWrite(r, q, e), NodeWrites(r, q.stream, e.created));
  }

  lemma {:induction false} SmallAppended(a: InternalWrite, b: InternalWrite, c: InternalWrite, rest: seq<InternalWrite>)
    requires SmallWrite(a) && SmallWrite(b) && SmallWrite(c) && forall i :: 0 <= i < |rest| ==> SmallWrite(rest[i])
    ensures forall i :: 0 <= i < |[a, b, c] + rest| ==> SmallWrite(([a, b, c] + rest)[i])
  {
  }

  lemma {:induction false} EventWriteSmall(r: Rendering, q: AppendRequest, e: Extension)
    requires |q.stream| <= MAX_STREAM_BYTES && |q.event.payload| <= MAX_PAYLOAD_BYTES
    ensures SmallWrite(EventWrite(r, q, e))
  {
    EventLength(r, q.event, e.previousRoot, e.content, e.proofRoot, e.root);
    KeyLength(EventKey(q.stream, q.revision));
  }

  lemma {:induction false} TimeWriteSmall(r: Rendering, q: AppendRequest, e: Extension)
    requires |q.stream| <= MAX_STREAM_BYTES
    ensures SmallWrite(TimeWrite(r, q, e))
  {
    KeyLength(TimeKey(q.stream, q.event.occurredAt, q.revision));
  }

  lemma {:induction false} NodeWritesSmall(r: Rendering, stream: Stream, nodes: seq<MerkleNode>)
    requires |stream| <= MAX_STREAM_BYTES
    ensures forall i :: 0 <= i < |nodes| ==> SmallWrite(NodeWrites(r, stream, nodes)[i])
  {
    forall i | 0 <= i < |nodes|
      ensures SmallWrite(NodeWrites(r, stream, nodes)[i])
    {
      KeyLength(NodeKey(stream, nodes[i].height, nodes[i].start));
    }
  }

  lemma {:induction false} HeadWriteSmall(r: Rendering, q: AppendRequest, e: Extension)
    requires |q.stream| <= MAX_STREAM_BYTES && e.head.proof.Some? && |e.head.proof.value.peaks| <= MAX_PROOF_PEAKS
    requires q.expected.Some? ==>
      q.expected.value.proof.Some? && |q.expected.value.proof.value.peaks| <= MAX_PROOF_PEAKS
    ensures SmallWrite(HeadWrite(r, q, e))
  {
    KeyLength(HeadKey(q.stream));
    HeadLength(r, e.head);
    if q.expected.Some? {
      HeadLength(r, q.expected.value);
    }
  }

  lemma {:induction false} BuiltWritesSmall(r: Rendering, q: AppendRequest)
    requires Admissible(q)
    ensures forall i :: 0 <= i < |Built(r, q).writes| ==> SmallWrite(Built(r, q).writes[i])
    ensures |Built(r, q).writes| <= 259
  {
    ExtendValid(q.stream, q.expected, q.revision, q.event);
    ExtensionHeights(q);
    var e := Extend(q.stream, q.expected, q.revision, q.event).value;
    WritesSmall(r, q, e);
    assert |e.created| > 256 ==> e.created[256].height == 256;
  }

  // ---- The side items ----

  lemma {:induction false} SideConditionsSmall(q: AppendRequest, i: nat)
    requires Admissible(q) && i < |q.sideConditions|
    ensures var c := q.sideConditions[i];
      SideConditionForm(c) && (c.expected.Some? ==> |c.expected.value| <= MAX_SIDE_BYTES)
  {
    CostWithin(q.sideConditions, i, SideConditionCost(|Keyspace(q.namespace)|));
  }

  lemma {:induction false} SideMutationsSmall(q: AppendRequest, i: nat)
    requires Admissible(q) && i < |q.sideMutations|
    ensures var m := q.sideMutations[i]; SideMutationForm(m) && (m.Put? ==> |m.value| <= MAX_SIDE_BYTES)
  {
    CostWithin(q.sideMutations, i, SideMutationCost(|Keyspace(q.namespace)|));
  }

  // ---- All items ----

  /** A location that a command and a receipt of an append may name. */
  predicate SmallPlace(at: Location) {
    KnownKeyspace(at.keyspace, true) && ClearPlace(at) && |at.key| <= MAX_KEY_BYTES
  }

  predicate SmallCheck(c: Condition<Location>) {
    SmallPlace(c.at) && ClearCondition(c)
  }

  predicate SmallChange(m: Mutation<Location>) {
    SmallPlace(m.at) && ClearMutation(m) && (m.Put? ==> |m.value| <= APPEND_LIMITS.maxValueBytes)
  }

  lemma {:induction false} InternalPlace(k: RecordKey)
    requires |KeyBytes(k)| <= MAX_KEY_BYTES
    ensures SmallPlace(At(k))
  {
    assert IsAscii(INTERNAL_KEYSPACE);
  }

  lemma {:induction false} UserPlace(namespace: string, key: Bytes)
    requires ValidNamespace(namespace) && |key| <= MAX_KEY_BYTES
    ensures SmallPlace(Location(Keyspace(namespace), key))
  {
    KeyspaceKnown(namespace);
    AsciiKeyspace(namespace);
  }

  lemma {:induction false} ChecksSmall(q: AppendRequest, head: StreamHead, ws: seq<InternalWrite>)
    requires |ws| >= 3 && ValidNamespace(q.namespace) && forall i :: 0 <= i < |ws| ==> SmallWrite(ws[i])
    requires forall i :: 0 <= i < |q.sideConditions| ==>
      var c := q.sideConditions[i]; SideConditionForm(c) && (c.expected.Some? ==> |c.expected.value| <= MAX_SIDE_BYTES)
    ensures forall i :: 0 <= i < |Assemble(q, head, ws).conditions| ==> SmallCheck(Assemble(q, head, ws).conditions[i])
  {
    var placed, gs := PlaceConditions(Keyspace(q.namespace), q.sideConditions), Guards(ws);
    forall i | 0 <= i < |placed|
      ensures SmallCheck(placed[i])
    {
      UserPlace(q.namespace, q.sideConditions[i].at);
    }
    forall i | 0 <= i < |gs|
      ensures SmallCheck(Checks(gs)[i])
    {
      assert SmallWrite(gs[i]);
      InternalPlace(gs[i].key);
    }
  }

  lemma {:induction false} ChangesSmall(q: AppendRequest, head: StreamHead, ws: seq<InternalWrite>)
    requires |ws| >= 3 && ValidNamespace(q.namespace) && forall i :: 0 <= i < |ws| ==> SmallWrite(ws[i])
    requires forall i :: 0 <= i < |q.sideMutations| ==>
      var m := q.sideMutations[i]; SideMutationForm(m) && (m.Put? ==> |m.value| <= MAX_SIDE_BYTES)
    ensures forall i :: 0 <= i < |Assemble(q, head, ws).mutations| ==> SmallChange(Assemble(q, head, ws).mutations[i])
  {
    var placed := PlaceMutations(Keyspace(q.namespace), q.sideMutations);
    forall i | 0 <= i < |placed|
      ensures SmallChange(placed[i])
    {
      UserPlace(q.namespace, q.sideMutations[i].at);
    }
    forall i | 0 <= i < |ws|
      ensures SmallChange(Puts(ws)[i])
    {
      InternalPlace(ws[i].key);
    }
  }

  /** Every item of an admissible append is small, and there are few of them. */
  ghost predicate SmallItems(b: BuiltAppend) {
    && |b.conditions| < TWO32 && |b.mutations| < TWO32
    && (forall i :: 0 <= i < |b.conditions| ==> SmallCheck(b.conditions[i]))
    && (forall i :: 0 <= i < |b.mutations| ==> SmallChange(b.mutations[i]))
  }

  lemma {:induction false} BuiltSmall(r: Rendering, q: AppendRequest)
    requires Admissible(q)
    ensures SmallItems(Built(r, q))
  {
    BuiltWritesSmall(r, q);
    ExtendValid(q.stream, q.expected, q.revision, q.event);
    var e := Extend(q.stream, q.expected, q.revision, q.event).value;
    forall i | 0 <= i < |q.sideConditions|
      ensures var c := q.sideConditions[i];
        SideConditionForm(c) && (c.expected.Some? ==> |c.expected.value| <= MAX_SIDE_BYTES)
    {
      SideConditionsSmall(q, i);
    }
    forall i | 0 <= i < |q.sideMutations|
      ensures var m := q.sideMutations[i]; SideMutationForm(m) && (m.Put? ==> |m.value| <= MAX_SIDE_BYTES)
    {
      SideMutationsSmall(q, i);
    }
    ChecksSmall(q, e.head, InternalWrites(r, q, e));
    ChangesSmall(q, e.head, InternalWrites(r, q, e));
  }

  // ---- The command ----

  /** The command of an admissible append can be encoded without loss. */
  lemma {:induction false} BuiltClear(r: Rendering, q: AppendRequest)
    requires Admissible(q)
    ensures Clear(Built(r, q).conditions, Built(r, q).mutations)
  {
    BuiltSmall(r, q);
  }

  /** Equal commands of two appends mean equal conditions and equal writes, side items included. */
  lemma {:induction false} AppendCommandInjective(r: Rendering, q: AppendRequest, q': AppendRequest)
    requires Admissible(q) && Admissible(q')
    requires Command(Built(r, q).conditions, Built(r, q).mutations)
          == Command(Built(r, q').conditions, Built(r, q').mutations)
    ensures Built(r, q).conditions == Built(r, q').conditions && Built(r, q).mutations == Built(r, q').mutations
  {
    BuiltClear(r, q);
    BuiltClear(r, q');
    CommandInjective(Built(r, q).conditions, Built(r, q).mutations, Built(r, q').conditions, Built(r, q').mutations);
  }

  /** The whole builder, with the command whose hash identifies the append; it fails only on inadmissible requests. */
  method BuildAppendCommand(r: Rendering, q: AppendRequest) returns (built: Option<BuiltAppend>, command: Bytes)
    ensures built.Some? <==> Admissible(q)
    ensures built.Some? ==>
      built.value == Built(r, q) && command == Command(built.value.conditions, built.value.mutations)
  {
    command := [];
    built := BuildAppend(r, q);
    if built.Some? {
      BuiltClear(r, q);
      var encoded := EncodeStreamCommand(built.value.conditions, built.value.mutations);
      if encoded.None? {
        return None, [];
      }
      command := encoded.value;
    }
  }

  // ---- The receipt ----

  /** The honest receipt of an admissible append is accepted when the values it touches fit a receipt. */
  lemma {:induction false} HonestAppendFits(r: Rendering, q: AppendRequest, store: Store, revision: U64)
    requires Admissible(q) && revision > 0
    requires forall i :: 0 <= i < |Built(r, q).conditions| ==>
      FitsReceipt(store, Built(r, q).conditions[i].at, Limits(0x100_0000, true))
    requires forall i :: 0 <= i < |Built(r, q).mutations| ==>
      FitsReceipt(store, Built(r, q).mutations[i].at, Limits(0x100_0000, true))
    ensures SmallItems(Built(r, q))
    ensures var b := Built(r, q); var receipt := HonestReceipt(store, q.requestID, b.conditions, b.mutations, revision);
      ReceiptDecodes(receipt, q.requestID, APPEND_LIMITS) && AppendValidates(receipt, b)
  {
    BuiltSmall(r, q);
    SmallWithinLimits(Built(r, q), store);
    HonestAppendAccepted(r, q, store, revision);
  }

  lemma {:induction false} SmallWithinLimits(b: BuiltAppend, store: Store)
    requires SmallItems(b)
    requires forall i :: 0 <= i < |b.conditions| ==> FitsReceipt(store, b.conditions[i].at, APPEND_LIMITS)
    requires forall i :: 0 <= i < |b.mutations| ==> FitsReceipt(store, b.mutations[i].at, APPEND_LIMITS)
    ensures WithinLimits(store, b.conditions, b.mutations, APPEND_LIMITS)
  {
    forall i | 0 <= i < |b.conditions|
      ensures SmallAt(store, b.conditions[i].at, APPEND_LIMITS)
    {
      assert SmallCheck(b.conditions[i]);
    }
    forall i | 0 <= i < |b.mutations|
      ensures SmallMutation(store, b.mutations[i], APPEND_LIMITS)
    {
      assert SmallChange(b.mutations[i]);
    }
  }
}
