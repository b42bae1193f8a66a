/** Every run of appends and transactions keeps the stored records in step with the streams' histories. */
module Ledger {
  import opened Words
  import opened Digests
  import opened Keys
  import opened Merkle
  import opened Streams
  import opened Transactions
  import opened Receipts
  import opened Appends
  import opened AppendReceipts
  import Requests

  // ---- What a history leaves in the store ----

  /** The perfect tree of this height and start lies within the first n leaves. */
  predicate Completed(n: nat, height: nat, start: nat) {
    1 <= start && Aligned(start - 1, height) && start - 1 + Pow2(height) <= n
  }

  function StoredEvent(r: Rendering, stream: Stream, h: History, revision: U64): Bytes
    requires 1 <= revision <= |h|
  {
    var now := h[..revision];
    EventBytes(r, h[revision - 1], HeadRoot(stream, h[..revision - 1]), LastContent(stream, now),
               ProofRoot(stream, now), HeadRoot(stream, now))
  }

  /** The value of one record of a stream with history h; None when the record must be absent. */
  function Recorded(r: Rendering, h: History, k: RecordKey): Option<Bytes> {
    match k
    case HeadKey(stream) => if h == [] then None else Some(HeadBytes(r, HeadOf(stream, h)))
    case EventKey(stream, revision) => if 1 <= revision <= |h| then Some(StoredEvent(r, stream, h, revision)) else None
    case TimeKey(stream, at, revision) =>
      if 1 <= revision <= |h| && h[revision - 1].occurredAt == at then Some(r.digest(HeadRoot(stream, h[..revision])))
      else None
    case NodeKey(stream, height, start) =>
      if Completed(|h|, height, start) then Some(r.digest(Subtree(stream, Leaves(stream, h), height, start))) else None
  }

  // ---- One append seen from the records ----

  /** A tree is new with the last leaf exactly when the last leaf completes it. */
  lemma {:induction false} NewlyCompleted(n: nat, height: nat, start: nat)
    requires n > 0
    ensures Completed(n, height, start) && !Completed(n - 1, height, start) <==>
      height <= TrailingZeros(n) && start == n - Pow2(height) + 1
    ensures Completed(n - 1, height, start) ==> Completed(n, height, start)
  {
    if Pow2(height) <= n {
      AlignedShift(n - Pow2(height), height);
    }
    if height <= TrailingZeros(n) {
      Pow2Monotonic(height, TrailingZeros(n));
    }
  }

  /** Records of earlier revisions do not depend on later events. */
  lemma {:induction false} OldRecordsStay(r: Rendering, h: History, event: Event, k: RecordKey)
    requires |h| + 1 < TWO64 && !k.HeadKey? && Recorded(r, h, k).Some?
    ensures Recorded(r, h + [event], k) == Recorded(r, h, k)
  {
    var all := h + [event];
    match k
    case EventKey(_, revision) =>
      assert all[..revision] == h[..revision] && all[..revision - 1] == h[..revision - 1];
    case TimeKey(_, _, revision) =>
      assert all[..revision] == h[..revision];
    case NodeKey(stream, height, start) =>
      NewlyCompleted(|all|, height, start);
      assert all[..|h|] == h;
      SubtreePrefix(stream, Leaves(stream, h), Leaf(stream, |all|, LastContent(stream, all)), height, start);
  }

  /** The key of a record that the last event of a history adds. */
  ghost predicate AddedBy(n: nat, at: I64, k: RecordKey)
    requires n > 0
  {
    match k
    case HeadKey(_) => true
    case EventKey(_, revision) => revision == n
    case TimeKey(_, t, revision) => t == at && revision == n
    case NodeKey(_, height, start) => height <= TrailingZeros(n) && start == n - Pow2(height) + 1
  }

  /** All other records are the same with and without the last event. */
  lemma {:induction false} OtherRecordsSame(r: Rendering, h: History, event: Event, k: RecordKey)
    requires |h| + 1 < TWO64 && !AddedBy(|h| + 1, event.occurredAt, k)
    ensures Recorded(r, h + [event], k) == Recorded(r, h, k)
  {
    if Recorded(r, h, k).Some? {
      OldRecordsStay(r, h, event, k);
    } else if k.NodeKey? {
      NewlyCompleted(|h| + 1, k.height, k.start);
    }
  }

  /** An append whose expected head is the head of history h. */
  ghost predicate AppendsTo(q: AppendRequest, h: History) {
    Admissible(q) && |h| + 1 < TWO64 && q.expected == HeadOption(q.stream, h) && q.revision == |h| + 1
  }

  function ExtensionOf(stream: Stream, h: History, event: Event): (e: Extension)
    requires |h| + 1 < TWO64
    ensures e.head.proof.Some?
  {
    var all := h + [event];
    Extension(HeadOf(stream, all), HeadRoot(stream, h), LastContent(stream, all), ProofRoot(stream, all),
              HeadRoot(stream, all),
              CompletedNodes(stream, Leaves(stream, all)))
  }

  function WritesOf(r: Rendering, q: AppendRequest, h: History): (ws: seq<InternalWrite>)
    requires |h| + 1 < TWO64 && q.expected == HeadOption(q.stream, h)
    ensures |ws| >= 3
  {
    InternalWrites(r, q, ExtensionOf(q.stream, h, q.event))
  }

  lemma {:induction false} BuiltOnHistory(r: Rendering, q: AppendRequest, h: History)
    requires AppendsTo(q, h)
    ensures Built(r, q) == Assemble(q, HeadOf(q.stream, h + [q.event]), WritesOf(r, q, h))
  {
    ExtendHistory(q.stream, h, q.event);
  }

  /** A write takes a record from what the history had to what the longer history has. */
  ghost predicate Advances(r: Rendering, q: AppendRequest, h: History, w: InternalWrite)
    requires |h| + 1 < TWO64
  {
    && w.key.stream == q.stream && AddedBy(|h| + 1, q.event.occurredAt, w.key)
    && w.before == Recorded(r, h, w.key) && Some(w.value) == Recorded(r, h + [q.event], w.key)
  }

  lemma {:induction false} EventAdvances(r: Rendering, q: AppendRequest, h: History)
    requires |h| + 1 < TWO64 && q.expected == HeadOption(q.stream, h) && q.revision == |h| + 1
    ensures Advances(r, q, h, EventWrite(r, q, ExtensionOf(q.stream, h, q.event)))
  {
    var all := h + [q.event];
    assert all[..|all|] == all && all[..|all| - 1] == h;
  }

  lemma {:induction false} TimeAdvances(r: Rendering, q: AppendRequest, h: History)
    requires |h| + 1 < TWO64 && q.expected == HeadOption(q.stream, h) && q.revision == |h| + 1
    ensures Advances(r, q, h, TimeWrite(r, q, ExtensionOf(q.stream, h, q.event)))
  {
    var all := h + [q.event];
    assert all[..|all|] == all;
  }

  lemma {:induction false} HeadAdvances(r: Rendering, q: AppendRequest, h: History)
    requires |h| + 1 < TWO64 && q.expected == HeadOption(q.stream, h) && q.revision == |h| + 1
    ensures Advances(r, q, h, HeadWrite(r, q, ExtensionOf(q.stream, h, q.event)))
  {
  }

  lemma {:induction false} NodeAdvances(r: Rendering, q: AppendRequest, h: History, all: History, height: nat)
    requires |h| + 1 < TWO64 && all == h + [q.event] && height <= TrailingZeros(|h| + 1)
    ensures var node := CompletedNode(q.stream, Leaves(q.stream, all), height);
      Advances(r, q, h, InternalWrite(NodeKey(q.stream, node.height, node.start), None, r.digest(node.root)))
  {
    var node := CompletedNode(q.stream, Leaves(q.stream, all), height);
    NewlyCompleted(|all|, height, node.start);
    assert Completed(|all|, height, node.start) && !Completed(|h|, height, node.start);
    assert node.root == Subtree(q.stream, Leaves(q.stream, all), height, node.start);
  }

  lemma {:induction false} WriteAdvances(r: Rendering, q: AppendRequest, h: History, i: nat)
    requires |h| + 1 < TWO64 && q.expected == HeadOption(q.stream, h) && q.revision == |h| + 1
    requires i < |WritesOf(r, q, h)|
    ensures Advances(r, q, h, WritesOf(r, q, h)[i])
  {
    EventAdvances(r, q, h);
    TimeAdvances(r, q, h);
    HeadAdvances(r, q, h);
    if i >= 3 {
      NodeAdvances(r, q, h, h + [q.event], i - 3);
    }
  }

  lemma {:induction false} KeyAmongWrites(r: Rendering, q: AppendRequest, e: Extension, k: RecordKey) returns (i: nat)
    requires e.head.proof.Some? && (q.expected.Some? ==> q.expected.value.proof.Some?) && q.revision > 0
    requires |e.created| == TrailingZeros(q.revision) + 1
    requires forall i :: 0 <= i < |e.created| ==>
      e.created[i].height == i && e.created[i].start - 1 + Pow2(i) == q.revision
    requires k.stream == q.stream && AddedBy(q.revision, q.event.occurredAt, k)
    ensures i < |InternalWrites(r, q, e)| && InternalWrites(r, q, e)[i].key == k
  {
    i := match k
      case EventKey(_, _) => 0
      case TimeKey(_, _, _) => 1
      case HeadKey(_) => 2
      case NodeKey(_, height, _) => 3 + height;
  }

  /** Every record that the event adds is written. */
  lemma {:induction false} AddedIsWritten(r: Rendering, q: AppendRequest, h: History, k: RecordKey) returns (i: nat)
    requires |h| + 1 < TWO64 && q.expected == HeadOption(q.stream, h) && q.revision == |h| + 1
    requires k.stream == q.stream && AddedBy(|h| + 1, q.event.occurredAt, k)
    ensures i < |WritesOf(r, q, h)| && WritesOf(r, q, h)[i].key == k
  {
    i := KeyAmongWrites(r, q, ExtensionOf(q.stream, h, q.event), k);
  }

  // ---- The invariant ----

  type Histories = map<Stream, History>

  function HistoryOf(hs: Histories, stream: Stream): History {
    if stream in hs then hs[stream] else []
  }

  /**
   The streams' own keyspace holds exactly what the histories say: every record of every stream
   has its value or is absent, and there is nothing else.
   */
  ghost predicate InStep(r: Rendering, hs: Histories, store: Store) {
    RecordsMatch(r, hs, store) && NothingElse(store) && AllChronological(hs)
  }

  ghost predicate RecordsMatch(r: Rendering, hs: Histories, store: Store) {
    forall k: RecordKey :: RecordMatches(r, hs, store, k)
  }

  ghost predicate RecordMatches(r: Rendering, hs: Histories, store: Store, k: RecordKey) {
    |k.stream| <= MAX_STREAM_BYTES ==> Read(store, At(k)) == Recorded(r, HistoryOf(hs, k.stream), k)
  }

  ghost predicate NothingElse(store: Store) {
    forall at :: at in store && at.keyspace == INTERNAL_KEYSPACE ==> IsRecord(at)
  }

  ghost predicate AllChronological(hs: Histories) {
    forall stream :: stream in hs ==> Chronological(hs[stream])
  }

  ghost predicate IsRecord(at: Location) {
    exists k: RecordKey :: |k.stream| <= MAX_STREAM_BYTES && at == At(k)
  }

  /** Two head roots among `known` have the same bytes only when they are the same root. */
  ghost predicate Separated(r: Rendering, known: set<Digest>) {
    forall d, e :: d in known && e in known && r.digest(d) == r.digest(e) ==> d == e
  }

  // ---- The stored head decides ----

  /** A head that passes the check and has the bytes of a history's head is that head. */
  lemma {:induction false} HeadBytesBind(r: Rendering, stream: Stream, head: StreamHead, h: History, known: set<Digest>)
    requires ValidHead(stream, head) && h != [] && HeadBytes(r, head) == HeadBytes(r, HeadOf(stream, h))
    requires Separated(r, known) && head.root.digest in known && HeadRoot(stream, h) in known
    ensures head == HeadOf(stream, h)
  {
    HeadValueInjective(HeadRecordOf(r, head), HeadRecordOf(r, HeadOf(stream, h)));
    assert r.digest(head.root.digest) == r.digest(HeadRoot(stream, h));
    RootBindsHead(stream, head, h);
  }

  /** An append whose head condition holds appends to the stream's history. */
  lemma {:induction false} HeadDecides(r: Rendering, hs: Histories, store: Store, q: AppendRequest, known: set<Digest>)
    requires InStep(r, hs, store) && Admissible(q) && Separated(r, known)
    requires q.expected.Some? ==> q.expected.value.root.digest in known
    requires HistoryOf(hs, q.stream) != [] ==> HeadRoot(q.stream, HistoryOf(hs, q.stream)) in known
    requires Read(store, At(HeadKey(q.stream)))
          == if q.expected.None? then None else Some(HeadBytes(r, q.expected.value))
    ensures AppendsTo(q, HistoryOf(hs, q.stream))
  {
    var h := HistoryOf(hs, q.stream);
    assert RecordMatches(r, hs, store, HeadKey(q.stream));
    if q.expected.Some? {
      HeadBytesBind(r, q.stream, q.expected.value, h, known);
    }
  }

  /** Then every other internal condition holds as well. */
  lemma {:induction false} AbsencesHold(r: Rendering, hs: Histories, store: Store, q: AppendRequest, i: nat)
    requires InStep(r, hs, store) && Admissible(q) && AppendsTo(q, HistoryOf(hs, q.stream)) && i < |Built(r, q).writes|
    ensures Read(store, At(Built(r, q).writes[i].key)) == Built(r, q).writes[i].before
  {
    var h := HistoryOf(hs, q.stream);
    BuiltOnHistory(r, q, h);
    WriteAdvances(r, q, h, i);
    assert RecordMatches(r, hs, store, WritesOf(r, q, h)[i].key);
  }

  function WriteIndex(g: nat): nat {
    if g == 0 then 2 else if g <= 2 then g - 1 else g
  }

  lemma {:induction false} ConditionOfWrite(q: AppendRequest, head: StreamHead, ws: seq<InternalWrite>, c: nat)
    requires |ws| >= 3 && |q.sideConditions| <= c < |Assemble(q, head, ws).conditions|
    ensures var i := WriteIndex(c - |q.sideConditions|);
      i < |ws| && Assemble(q, head, ws).conditions[c] == Condition(At(ws[i].key), ws[i].before, Equal)
  {
    var sides := PlaceConditions(Keyspace(q.namespace), q.sideConditions);
    GuardAt(ws, c - |sides|);
    assert (sides + Checks(Guards(ws)))[c] == Checks(Guards(ws))[c - |sides|];
  }

  lemma {:induction false} GuardAt(ws: seq<InternalWrite>, g: nat)
    requires |ws| >= 3 && g < |ws|
    ensures WriteIndex(g) < |ws| && Guards(ws)[g] == ws[WriteIndex(g)]
  {
  }

  lemma {:induction false} BuiltCondition(r: Rendering, q: AppendRequest, c: nat)
    requires Admissible(q) && |q.sideConditions| <= c < |Built(r, q).conditions|
    ensures var i := WriteIndex(c - |q.sideConditions|); var b := Built(r, q);
      i < |b.writes| && b.conditions[c] == Condition(At(b.writes[i].key), b.writes[i].before, Equal)
  {
    ExtendValid(q.stream, q.expected, q.revision, q.event);
    var e := Extend(q.stream, q.expected, q.revision, q.event).value;
    ConditionOfWrite(q, e.head, InternalWrites(r, q, e), c);
  }

  lemma {:induction false} BuiltHeadWrite(r: Rendering, q: AppendRequest)
    requires Admissible(q)
    ensures var b := Built(r, q);
      && |b.writes| >= 3 && |b.conditions| == |q.sideConditions| + |b.writes|
      && b.writes[2].key == HeadKey(q.stream)
      && b.writes[2].before == if q.expected.None? then None else Some(HeadBytes(r, q.expected.value))
  {
    ExtendValid(q.stream, q.expected, q.revision, q.event);
  }

  /** What the ledger knows about the roots that an append compares. */
  ghost predicate Known(hs: Histories, q: AppendRequest, known: set<Digest>) {
    && (q.expected.Some? && q.expected.value.root.Hex? ==> q.expected.value.root.digest in known)
    && (HistoryOf(hs, q.stream) != [] ==> HeadRoot(q.stream, HistoryOf(hs, q.stream)) in known)
  }

  /**
   If the stored head is the expected one, every other internal condition already holds: an
   append that fails a condition fails a side condition or the head condition, never the absence
   of an event, a time entry or a tree node.
   */
  lemma {:induction false} OnlyHeadOrSideFails(r: Rendering, hs: Histories, store: Store, q: AppendRequest,
                                               known: set<Digest>)
    requires InStep(r, hs, store) && Admissible(q) && Separated(r, known) && Known(hs, q, known)
    ensures var b := Built(r, q); var c := FirstFailing(store, b.conditions);
      && (c < |b.conditions| ==> c <= |q.sideConditions|)
      && (c > |q.sideConditions| ==> AppendsTo(q, HistoryOf(hs, q.stream)))
  {
    var b := Built(r, q);
    var c := FirstFailing(store, b.conditions);
    var sides := |q.sideConditions|;
    if c > sides {
      BuiltHeadWrite(r, q);
      BuiltCondition(r, q, sides);
      CompareIsOrder(Read(store, At(HeadKey(q.stream))), b.writes[2].before, None);
      assert Holds(store, b.conditions[sides]);
      HeadDecides(r, hs, store, q, known);
      if c < |b.conditions| {
        BuiltCondition(r, q, c);
        var i := WriteIndex(c - sides);
        AbsencesHold(r, hs, store, q, i);
        CompareIsOrder(Read(store, At(b.writes[i].key)), b.writes[i].before, None);
      }
    }
  }

  // ---- When an append applies ----

  lemma {:induction false} ConcatHolds(store: Store, a: seq<Condition<Location>>, b: seq<Condition<Location>>)
    requires forall i :: 0 <= i < |b| ==> Holds(store, b[i])
    ensures FirstFailing(store, a + b) == |a + b| <==> FirstFailing(store, a) == |a|
  {
    var all := a + b;
    assert forall i :: 0 <= i < |a| ==> all[i] == a[i];
    assert forall i :: |a| <= i < |all| ==> all[i] == b[i - |a|];
  }

  lemma {:induction false} ConcatRefused(store: Store, a: seq<Mutation<Location>>, b: seq<Mutation<Location>>)
    requires forall i :: 0 <= i < |b| ==> b[i].Put?
    ensures FirstRefused(store, a + b) == |a + b| <==> FirstRefused(store, a) == |a|
  {
    var all := a + b;
    assert forall i :: 0 <= i < |a| ==> all[i] == a[i];
    assert forall i :: |a| <= i < |all| ==> all[i] == b[i - |a|];
  }

  /** The internal conditions of an append to the stream's own history all hold. */
  lemma {:induction false} GuardsOfHistoryHold(r: Rendering, hs: Histories, store: Store, q: AppendRequest)
    requires InStep(r, hs, store) && AppendsTo(q, HistoryOf(hs, q.stream))
    ensures var cs := Checks(Guards(WritesOf(r, q, HistoryOf(hs, q.stream)))); forall i :: 0 <= i < |cs| ==>
      Holds(store, cs[i])
  {
    var h := HistoryOf(hs, q.stream);
    var ws := WritesOf(r, q, h);
    forall i | 0 <= i < |ws|
      ensures Holds(store, Checks(Guards(ws))[i])
    {
      GuardAt(ws, i);
      var w := ws[WriteIndex(i)];
      WriteAdvances(r, q, h, WriteIndex(i));
      assert RecordMatches(r, hs, store, w.key);
      CompareIsOrder(Read(store, At(w.key)), w.before, None);
    }
  }

  /** The side conditions hold and no side increment is refused. */
  ghost predicate SidesPass(store: Store, q: AppendRequest) {
    var cs := PlaceConditions(Keyspace(q.namespace), q.sideConditions);
    var ms := PlaceMutations(Keyspace(q.namespace), q.sideMutations);
    FirstFailing(store, cs) == |cs| && FirstRefused(store, ms) == |ms|
  }

  lemma {:induction false} AssembledApplies(q: AppendRequest, head: StreamHead, ws: seq<InternalWrite>, store: Store)
    requires |ws| >= 3
    requires var cs := Checks(Guards(ws)); forall i :: 0 <= i < |cs| ==> Holds(store, cs[i])
    ensures var b := Assemble(q, head, ws); Transact(store, b.conditions, b.mutations).Applied? <==> SidesPass(store, q)
  {
    ConcatHolds(store, PlaceConditions(Keyspace(q.namespace), q.sideConditions), Checks(Guards(ws)));
    ConcatRefused(store, PlaceMutations(Keyspace(q.namespace), q.sideMutations), Puts(ws));
  }

  /**
   An append that expects the stored head applies exactly when its side conditions hold and no
   side increment is refused: nothing of the stream itself can stop it.
   */
  lemma {:induction false} AppendApplies(r: Rendering, hs: Histories, store: Store, q: AppendRequest)
    requires InStep(r, hs, store) && AppendsTo(q, HistoryOf(hs, q.stream))
    ensures Transact(store, Built(r, q).conditions, Built(r, q).mutations).Applied? <==> SidesPass(store, q)
  {
    var h := HistoryOf(hs, q.stream);
    BuiltOnHistory(r, q, h);
    GuardsOfHistoryHold(r, hs, store, q);
    AssembledApplies(q, HeadOf(q.stream, h + [q.event]), WritesOf(r, q, h), store);
  }

  // ---- What an applied append does to the records ----

  ghost predicate OnlyWrites(ws: seq<InternalWrite>, before: Store, after: Store) {
    && (forall i :: 0 <= i < |ws| ==> Read(after, At(ws[i].key)) == Some(ws[i].value))
    && (forall at: Location ::
         at.keyspace == INTERNAL_KEYSPACE && (forall i :: 0 <= i < |ws| ==> at != At(ws[i].key)) ==>
         Read(after, at) == Read(before, at))
  }

  lemma {:induction false} AppliedWrites(placed: seq<Mutation<Location>>, ws: seq<InternalWrite>, store: Store)
    requires DistinctMutations(placed + Puts(ws)) && FirstRefused(store, placed + Puts(ws)) == |placed + Puts(ws)|
    requires forall j :: 0 <= j < |placed| ==> placed[j].at.keyspace != INTERNAL_KEYSPACE
    ensures OnlyWrites(ws, store, ApplyAll(store, placed + Puts(ws)))
  {
    var ms := placed + Puts(ws);
    ApplyAllReads(store, ms);
    forall i | 0 <= i < |ws|
      ensures Read(ApplyAll(store, ms), At(ws[i].key)) == Some(ws[i].value)
    {
      assert ms[|placed| + i] == Put(At(ws[i].key), ws[i].value);
    }
    forall at: Location | at.keyspace == INTERNAL_KEYSPACE && forall i :: 0 <= i < |ws| ==> at != At(ws[i].key)
      ensures Read(ApplyAll(store, ms), at) == Read(store, at)
    {
      assert forall j :: 0 <= j < |placed| ==> ms[j].at != at;
      assert forall j :: |placed| <= j < |ms| ==> ms[j].at != at;
    }
  }

  lemma {:induction false} AppendedRecord(r: Rendering, q: AppendRequest, h: History, before: Store, after: Store,
                                          k: RecordKey)
    requires AppendsTo(q, h) && OnlyWrites(WritesOf(r, q, h), before, after)
    requires k.stream == q.stream && Read(before, At(k)) == Recorded(r, h, k)
    ensures Read(after, At(k)) == Recorded(r, h + [q.event], k)
  {
    var ws := WritesOf(r, q, h);
    if AddedBy(|h| + 1, q.event.occurredAt, k) {
      var i := AddedIsWritten(r, q, h, k);
      WriteAdvances(r, q, h, i);
    } else {
      NotWritten(r, q, h, k);
      OtherRecordsSame(r, h, q.event, k);
    }
  }

  /** Any record of any stream, after the append. */
  lemma {:induction false} AnyRecord(r: Rendering, q: AppendRequest, h: History, all: History, own: History,
                                     before: Store, after: Store, k: RecordKey)
    requires AppendsTo(q, h) && all == h + [q.event] && OnlyWrites(WritesOf(r, q, h), before, after)
    requires |k.stream| <= MAX_STREAM_BYTES
    requires (k.stream == q.stream ==> own == h) && Read(before, At(k)) == Recorded(r, own, k)
    ensures Read(after, At(k)) == Recorded(r, if k.stream == q.stream then all else own, k)
  {
    if k.stream == q.stream {
      AppendedRecord(r, q, h, before, after, k);
    } else {
      NotWritten(r, q, h, k);
    }
  }

  lemma {:induction false} NotWritten(r: Rendering, q: AppendRequest, h: History, k: RecordKey)
    requires AppendsTo(q, h) && |k.stream| <= MAX_STREAM_BYTES
    requires k.stream != q.stream || !AddedBy(|h| + 1, q.event.occurredAt, k)
    ensures forall i :: 0 <= i < |WritesOf(r, q, h)| ==> At(k) != At(WritesOf(r, q, h)[i].key)
  {
    var ws := WritesOf(r, q, h);
    forall i | 0 <= i < |ws|
      ensures At(k) != At(ws[i].key)
    {
      WriteAdvances(r, q, h, i);
      if KeyBytes(k) == KeyBytes(ws[i].key) {
        KeyBytesInjective(k, ws[i].key);
      }
    }
  }

  lemma {:induction false} RecordMatchesAfter(r: Rendering, hs: Histories, grown: Histories, q: AppendRequest,
                                              h: History, all: History, before: Store, after: Store, k: RecordKey)
    requires AppendsTo(q, h) && all == h + [q.event] && h == HistoryOf(hs, q.stream) && grown == hs[q.stream := all]
    requires RecordMatches(r, hs, before, k) && OnlyWrites(WritesOf(r, q, h), before, after)
    ensures RecordMatches(r, grown, after, k)
  {
    if |k.stream| <= MAX_STREAM_BYTES {
      var own := HistoryOf(hs, k.stream);
      assert HistoryOf(grown, k.stream) == if k.stream == q.stream then all else own;
      AnyRecord(r, q, h, all, own, before, after, k);
    }
  }

  lemma {:induction false} RecordsMatchAfter(r: Rendering, hs: Histories, q: AppendRequest, h: History, all: History,
                                             before: Store, after: Store)
    requires AppendsTo(q, h) && all == h + [q.event] && h == HistoryOf(hs, q.stream)
    requires RecordsMatch(r, hs, before) && OnlyWrites(WritesOf(r, q, h), before, after)
    ensures RecordsMatch(r, hs[q.stream := all], after)
  {
    var grown := hs[q.stream := all];
    forall k: RecordKey
      ensures RecordMatches(r, grown, after, k)
    {
      RecordMatchesAfter(r, hs, grown, q, h, all, before, after, k);
    }
  }

  lemma {:induction false} NothingElseAfter(r: Rendering, q: AppendRequest, h: History, before: Store, after: Store)
    requires AppendsTo(q, h) && NothingElse(before) && OnlyWrites(WritesOf(r, q, h), before, after)
    ensures NothingElse(after)
  {
    var ws := WritesOf(r, q, h);
    forall at | at in after && at.keyspace == INTERNAL_KEYSPACE
      ensures IsRecord(at)
    {
      if i :| 0 <= i < |ws| && at == At(ws[i].key) {
        WriteAdvances(r, q, h, i);
      } else {
        assert Read(after, at) == Read(before, at);
      }
    }
  }

  lemma {:induction false} ChronologicalAfter(hs: Histories, q: AppendRequest, h: History, all: History)
    requires AppendsTo(q, h) && all == h + [q.event] && h == HistoryOf(hs, q.stream) && AllChronological(hs)
    ensures AllChronological(hs[q.stream := all])
  {
    assert Chronological(h);
    ChronologicalSplit(h, q.event);
  }

  /** The histories after an append. */
  function Grown(hs: Histories, stream: Stream, event: Event): Histories {
    var h := HistoryOf(hs, stream);
    if |h| + 1 < TWO64 then hs[stream := h + [event]] else hs
  }

  /** The ledger stays in step: the stream's history grows by the event, and no other record moves. */
  lemma {:induction false} WritesKeepStep(r: Rendering, hs: Histories, q: AppendRequest, h: History, before: Store,
                                          after: Store)
    requires AppendsTo(q, h) && h == HistoryOf(hs, q.stream)
    requires InStep(r, hs, before) && OnlyWrites(WritesOf(r, q, h), before, after)
    ensures InStep(r, Grown(hs, q.stream, q.event), after)
  {
    var all: History := h + [q.event];
    RecordsMatchAfter(r, hs, q, h, all, before, after);
    NothingElseAfter(r, q, h, before, after);
    ChronologicalAfter(hs, q, h, all);
  }

  /** An applied append: the stored head was the expected one, and the ledger stays in step with the longer history. */
  lemma {:induction false} AppendStep(r: Rendering, hs: Histories, store: Store, q: AppendRequest, known: set<Digest>,
                                      after: Store)
    requires InStep(r, hs, store) && Admissible(q) && Separated(r, known) && Known(hs, q, known)
    requires Transact(store, Built(r, q).conditions, Built(r, q).mutations) == Applied(after)
    ensures AppendsTo(q, HistoryOf(hs, q.stream)) && InStep(r, Grown(hs, q.stream, q.event), after)
  {
    var h := HistoryOf(hs, q.stream);
    AppendStepHead(r, hs, store, q, known, Built(r, q));
    AppendStepWrites(r, q, h, store, Built(r, q), after);
    WritesKeepStep(r, hs, q, h, store, after);
  }

  lemma {:induction false} AppendStepHead(r: Rendering, hs: Histories, store: Store, q: AppendRequest,
                                          known: set<Digest>, b: BuiltAppend)
    requires InStep(r, hs, store) && Admissible(q) && Separated(r, known) && Known(hs, q, known)
    requires b == Built(r, q) && FirstFailing(store, b.conditions) == |b.conditions|
    ensures AppendsTo(q, HistoryOf(hs, q.stream))
  {
    BuiltHeadWrite(r, q);
    OnlyHeadOrSideFails(r, hs, store, q, known);
  }

  lemma {:induction false} BuiltMutations(r: Rendering, q: AppendRequest, h: History)
    requires AppendsTo(q, h)
    ensures Built(r, q).mutations == PlaceMutations(Keyspace(q.namespace), q.sideMutations) + Puts(WritesOf(r, q, h))
  {
    BuiltOnHistory(r, q, h);
  }

  lemma {:induction false} AppendStepWrites(r: Rendering, q: AppendRequest, h: History, store: Store, b: BuiltAppend,
                                            after: Store)
    requires AppendsTo(q, h) && b == Built(r, q) && Transact(store, b.conditions, b.mutations) == Applied(after)
    ensures OnlyWrites(WritesOf(r, q, h), store, after)
  {
    BuiltDistinct(r, q);
    BuiltMutations(r, q, h);
    AppliedPlacedWrites(q.namespace, q.sideMutations, WritesOf(r, q, h), store, b.mutations);
  }

  lemma {:induction false} AppliedPlacedWrites(namespace: string, side: seq<Mutation<Bytes>>, ws: seq<InternalWrite>,
                                               store: Store, ms: seq<Mutation<Location>>)
    requires ms == PlaceMutations(Keyspace(namespace), side) + Puts(ws) && DistinctMutations(ms)
    requires FirstRefused(store, ms) == |ms|
    ensures OnlyWrites(ws, store, ApplyAll(store, ms))
  {
    UserKeyspaceApart(namespace);
    AppliedWrites(PlaceMutations(Keyspace(namespace), side), ws, store);
  }

  // ---- Transactions of users ----

  /** A sealed request cannot touch the streams' records, whatever it asks. */
  lemma {:induction false} TransactionStep(r: Rendering, hs: Histories, store: Store, namespace: string,
                                           requestID: string, cs: seq<Condition<Bytes>>, ms: seq<Mutation<Bytes>>)
    requires InStep(r, hs, store) && Requests.Sealable(namespace, requestID, cs, ms)
    requires var placed := PlaceMutations(Keyspace(namespace), ms); FirstRefused(store, placed) == |placed|
    ensures InStep(r, hs, ApplyAll(store, PlaceMutations(Keyspace(namespace), ms)))
  {
    var placed := PlaceMutations(Keyspace(namespace), ms);
    PlacedDistinct(namespace, ms);
    ApplyAllReads(store, placed);
    var after := ApplyAll(store, placed);
    forall at: Location | at.keyspace == INTERNAL_KEYSPACE
      ensures Read(after, at) == Read(store, at)
    {
      assert forall i :: 0 <= i < |placed| ==> placed[i].at != at;
    }
    SameRecords(r, hs, store, after);
  }

  lemma {:induction false} SameRecords(r: Rendering, hs: Histories, before: Store, after: Store)
    requires InStep(r, hs, before)
    requires forall at: Location :: at.keyspace == INTERNAL_KEYSPACE ==> Read(after, at) == Read(before, at)
    ensures InStep(r, hs, after)
  {
    forall k: RecordKey
      ensures RecordMatches(r, hs, after, k)
    {
      assert RecordMatches(r, hs, before, k);
    }
    forall at | at in after && at.keyspace == INTERNAL_KEYSPACE
      ensures IsRecord(at)
    {
      assert Read(after, at) == Read(before, at);
    }
  }

  // ---- Whole runs ----

  datatype Operation =
    | Append(request: AppendRequest)
    | Transaction(
        namespace: string, requestID: string, conditions: seq<Condition<Bytes>>, mutations: seq<Mutation<Bytes>>)

  datatype State = State(store: Store, histories: Histories)

  predicate Allowed(op: Operation) {
    match op
    case Append(q) => Admissible(q)
    case Transaction(namespace, requestID, cs, ms) => Requests.Sealable(namespace, requestID, cs, ms)
  }

  function OutcomeOf(r: Rendering, store: Store, op: Operation): Outcome
    requires Allowed(op)
  {
    match op
    case Append(q) => Transact(store, Built(r, q).conditions, Built(r, q).mutations)
    case Transaction(namespace, _, cs, ms) =>
      Transact(store, PlaceConditions(Keyspace(namespace), cs), PlaceMutations(Keyspace(namespace), ms))
  }

  /** One operation of any client; an applied append also adds its event to its stream's history. */
  function Perform(r: Rendering, state: State, op: Operation): State
    requires Allowed(op)
  {
    var outcome := OutcomeOf(r, state.store, op);
    if outcome.Conflict? then state
    else if op.Append? then State(outcome.store, Grown(state.histories, op.request.stream, op.request.event))
    else State(outcome.store, state.histories)
  }

  function Run(r: Rendering, ops: seq<Operation>): State
    requires forall i :: 0 <= i < |ops| ==> Allowed(ops[i])
  {
    if ops == [] then State(map[], map[]) else Perform(r, Run(r, ops[..|ops| - 1]), ops[|ops| - 1])
  }

  /** The head roots that an operation expects and makes. */
  predicate RootsKnown(op: Operation, known: set<Digest>)
    requires Allowed(op)
  {
    op.Append? ==>
      && (op.request.expected.Some? ==> op.request.expected.value.root.digest in known)
      && NewRoot(op.request) in known
  }

  function NewRoot(q: AppendRequest): Digest
    requires Admissible(q)
  {
    ExtendValid(q.stream, q.expected, q.revision, q.event);
    Extend(q.stream, q.expected, q.revision, q.event).value.root
  }

  ghost predicate HeadsKnown(hs: Histories, known: set<Digest>) {
    forall stream :: stream in hs ==> hs[stream] != [] && HeadRoot(stream, hs[stream]) in known
  }

  lemma {:induction false} NewHeadKnown(hs: Histories, q: AppendRequest, known: set<Digest>)
    requires AppendsTo(q, HistoryOf(hs, q.stream)) && HeadsKnown(hs, known) && NewRoot(q) in known
    ensures HeadsKnown(Grown(hs, q.stream, q.event), known)
  {
    ExtendHistory(q.stream, HistoryOf(hs, q.stream), q.event);
  }

  /** The records are in step with the histories, and the heads of the histories are known. */
  ghost predicate OnTrack(r: Rendering, state: State, known: set<Digest>) {
    InStep(r, state.histories, state.store) && HeadsKnown(state.histories, known)
  }

  lemma {:induction false} AppendKeepsStep(r: Rendering, state: State, q: AppendRequest, known: set<Digest>)
    requires Admissible(q) && RootsKnown(Append(q), known) && Separated(r, known) && OnTrack(r, state, known)
    ensures OnTrack(r, Perform(r, state, Append(q)), known)
  {
    var outcome := OutcomeOf(r, state.store, Append(q));
    if outcome.Applied? {
      AppendStep(r, state.histories, state.store, q, known, outcome.store);
      NewHeadKnown(state.histories, q, known);
    }
  }

  lemma {:induction false} TransactionKeepsStep(r: Rendering, state: State, op: Operation, known: set<Digest>)
    requires op.Transaction? && Allowed(op) && OnTrack(r, state, known)
    ensures OnTrack(r, Perform(r, state, op), known)
  {
    if OutcomeOf(r, state.store, op).Applied? {
      TransactionStep(r, state.histories, state.store, op.namespace, op.requestID, op.conditions, op.mutations);
    }
  }

  lemma {:induction false} PerformKeepsStep(r: Rendering, state: State, op: Operation, known: set<Digest>)
    requires Allowed(op) && RootsKnown(op, known) && Separated(r, known) && OnTrack(r, state, known)
    ensures OnTrack(r, Perform(r, state, op), known)
  {
    match op
    case Append(q) => AppendKeepsStep(r, state, q, known);
    case Transaction(_, _, _, _) => TransactionKeepsStep(r, state, op, known);
  }

  /**
   The store invariant over all runs: after any sequence of appends to any streams and of user
   transactions, applied or refused, the streams' keyspace holds exactly the records of the
   histories, provided the head roots of the run have distinct bytes.
   */
  lemma {:induction false} RunKeepsStep(r: Rendering, ops: seq<Operation>, known: set<Digest>)
    requires forall i :: 0 <= i < |ops| ==> Allowed(ops[i]) && RootsKnown(ops[i], known)
    requires Separated(r, known)
    ensures OnTrack(r, Run(r, ops), known)
  {
    if ops == [] {
    } else {
      RunKeepsStep(r, ops[..|ops| - 1], known);
      PerformKeepsStep(r, Run(r, ops[..|ops| - 1]), ops[|ops| - 1], known);
    }
  }

  /** In every reachable state the key order of a stream's time entries is its revision order. */
  lemma {:induction false} TimeEntriesInOrder(r: Rendering, hs: Histories, store: Store, stream: Stream, i: U64, j: U64)
    requires InStep(r, hs, store) && 1 <= i <= |HistoryOf(hs, stream)| && 1 <= j <= |HistoryOf(hs, stream)|
    ensures var h := HistoryOf(hs, stream);
      LexLess(KeyBytes(TimeKey(stream, h[i - 1].occurredAt, i)), KeyBytes(TimeKey(stream, h[j - 1].occurredAt, j)))
      <==> i < j
  {
    var h := HistoryOf(hs, stream);
    assert Chronological(h);
    TimeKeyOrder(stream, h[i - 1].occurredAt, i, h[j - 1].occurredAt, j);
  }

  // ---- Records are written once ----

  lemma {:induction false} GrownRecord(r: Rendering, hs: Histories, stream: Stream, event: Event, k: RecordKey)
    requires !k.HeadKey? && Recorded(r, HistoryOf(hs, k.stream), k).Some?
    ensures Recorded(r, HistoryOf(Grown(hs, stream, event), k.stream), k) == Recorded(r, HistoryOf(hs, k.stream), k)
  {
    if k.stream == stream && |HistoryOf(hs, stream)| + 1 < TWO64 {
      OldRecordsStay(r, HistoryOf(hs, stream), event, k);
    }
  }

  /** An operation leaves the histories or grows one of them. */
  lemma {:induction false} HistoriesAfter(r: Rendering, state: State, op: Operation)
    requires Allowed(op)
    ensures var next := Perform(r, state, op).histories;
      || next == state.histories
      || (op.Append? && next == Grown(state.histories, op.request.stream, op.request.event))
  {
  }

  lemma {:induction false} RecordStays(r: Rendering, before: State, after: State, k: RecordKey)
    requires RecordsMatch(r, before.histories, before.store) && RecordsMatch(r, after.histories, after.store)
    requires |k.stream| <= MAX_STREAM_BYTES
    requires Recorded(r, HistoryOf(after.histories, k.stream), k)
          == Recorded(r, HistoryOf(before.histories, k.stream), k)
    ensures Read(after.store, At(k)) == Read(before.store, At(k))
  {
    assert RecordMatches(r, before.histories, before.store, k) && RecordMatches(r, after.histories, after.store, k);
  }

  lemma {:induction false} PerformKeepsRecord(r: Rendering, state: State, op: Operation, known: set<Digest>,
                                              k: RecordKey)
    requires Allowed(op) && RootsKnown(op, known) && Separated(r, known) && OnTrack(r, state, known)
    requires !k.HeadKey? && |k.stream| <= MAX_STREAM_BYTES && Read(state.store, At(k)).Some?
    ensures Read(Perform(r, state, op).store, At(k)) == Read(state.store, At(k))
  {
    var next := Perform(r, state, op);
    PerformKeepsStep(r, state, op, known);
    HistoriesAfter(r, state, op);
    assert RecordMatches(r, state.histories, state.store, k);
    if next.histories != state.histories {
      GrownRecord(r, state.histories, op.request.stream, op.request.event, k);
    }
    RecordStays(r, state, next, k);
  }

  /** Once an event, time entry or tree node is stored, no later operation of any run changes or removes it. */
  lemma {:induction false} RecordsPermanent(r: Rendering, ops: seq<Operation>, known: set<Digest>, n: nat, k: RecordKey)
    requires forall i :: 0 <= i < |ops| ==> Allowed(ops[i]) && RootsKnown(ops[i], known)
    requires Separated(r, known) && n <= |ops|
    requires !k.HeadKey? && |k.stream| <= MAX_STREAM_BYTES && Read(Run(r, ops[..n]).store, At(k)).Some?
    ensures Read(Run(r, ops).store, At(k)) == Read(Run(r, ops[..n]).store, At(k))
    decreases |ops|
  {
    if n == |ops| {
      assert ops[..n] == ops;
    } else {
      var front := ops[..|ops| - 1];
      assert front[..n] == ops[..n];
      RecordsPermanent(r, front, known, n, k);
      RunKeepsStep(r, front, known);
      PerformKeepsRecord(r, Run(r, front), ops[|ops| - 1], known, k);
    }
  }

  /** The node of this height that append n completes. */
  ghost function NodeAt(stream: Stream, n: nat, height: nat): (k: RecordKey)
    requires 0 < n < TWO64 && height <= TrailingZeros(n)
    ensures k.NodeKey? && k.stream == stream && k.height == height && k.start == n - Pow2(height) + 1
  {
    HeightBound(n, TrailingZeros(n));
    Pow2Monotonic(height, TrailingZeros(n));
    NodeKey(stream, height, n - Pow2(height) + 1)
  }

  ghost function NodesBelow(stream: Stream, n: nat, top: nat): set<RecordKey>
    requires 0 < n < TWO64 && top <= TrailingZeros(n) + 1
  {
    if top == 0 then {} else NodesBelow(stream, n, top - 1) + {NodeAt(stream, n, top - 1)}
  }

  lemma {:induction false} NodesBelowAre(stream: Stream, n: nat, top: nat, k: RecordKey)
    requires 0 < n < TWO64 && top <= TrailingZeros(n) + 1
    ensures k in NodesBelow(stream, n, top) <==>
      k.NodeKey? && k.stream == stream && k.height < top && k.start == n - Pow2(k.height) + 1
  {
    if top == 0 {
    } else {
      NodesBelowAre(stream, n, top - 1, k);
    }
  }

  lemma {:induction false} NodesBelowSize(stream: Stream, n: nat, top: nat)
    requires 0 < n < TWO64 && top <= TrailingZeros(n) + 1
    ensures |NodesBelow(stream, n, top)| == top
  {
    if top == 0 {
    } else {
      NodesBelowSize(stream, n, top - 1);
      NodesBelowAre(stream, n, top - 1, NodeAt(stream, n, top - 1));
    }
  }

  /** The node records of a stream after n appends. */
  ghost function NodeKeys(stream: Stream, n: nat): set<RecordKey>
    requires n < TWO64
  {
    if n == 0 then {} else NodeKeys(stream, n - 1) + NodesBelow(stream, n, TrailingZeros(n) + 1)
  }

  /** They are the complete trees: each was added by exactly one append. */
  lemma {:induction false} NodeKeysAreCompleted(stream: Stream, n: nat, k: RecordKey)
    requires n < TWO64
    ensures k in NodeKeys(stream, n) <==> k.NodeKey? && k.stream == stream && Completed(n, k.height, k.start)
    ensures n > 0 ==> !(k in NodeKeys(stream, n - 1) && k in NodesBelow(stream, n, TrailingZeros(n) + 1))
  {
    if n == 0 {
    } else {
      NodeKeysAreCompleted(stream, n - 1, k);
      NodesBelowAre(stream, n, TrailingZeros(n) + 1, k);
      if k.NodeKey? {
        NewlyCompleted(n, k.height, k.start);
      }
    }
  }

  lemma {:induction false} NewNodesApart(stream: Stream, n: nat)
    requires 0 < n < TWO64
    ensures NodeKeys(stream, n - 1) !! NodesBelow(stream, n, TrailingZeros(n) + 1)
  {
    var added := NodesBelow(stream, n, TrailingZeros(n) + 1);
    forall k | k in added
      ensures k !in NodeKeys(stream, n - 1)
    {
      NodeKeysAreCompleted(stream, n, k);
    }
  }

  lemma {:induction false} DisjointSize<T>(a: set<T>, b: set<T>)
    requires a !! b
    ensures |a + b| == |a| + |b|
  {
  }

  lemma {:induction false} NodeKeyCount(stream: Stream, n: nat)
    requires n < TWO64
    ensures |NodeKeys(stream, n)| == NodesCreated(n)
  {
    if n == 0 {
    } else {
      NodeKeyCount(stream, n - 1);
      NodesBelowSize(stream, n, TrailingZeros(n) + 1);
      NewNodesApart(stream, n);
      DisjointSize(NodeKeys(stream, n - 1), NodesBelow(stream, n, TrailingZeros(n) + 1));
    }
  }

  // ---- The node records in the store ----

  ghost predicate IsNodeOf(at: Location, stream: Stream) {
    exists height: U8, start: U64 :: at == At(NodeKey(stream, height, start))
  }

  /** The node records of a stream that a store holds. */
  ghost function StoredNodes(store: Store, stream: Stream): set<Location> {
    set at | at in store && IsNodeOf(at, stream)
  }

  ghost function Locations(keys: set<RecordKey>): set<Location> {
    set k | k in keys :: At(k)
  }

  lemma {:induction false} LocationCount(keys: set<RecordKey>)
    requires forall k :: k in keys ==> |k.stream| <= MAX_STREAM_BYTES
    ensures |Locations(keys)| == |keys|
  {
    if keys == {} {
      assert Locations(keys) == {};
    } else {
      var k :| k in keys;
      var rest := keys - {k};
      LocationCount(rest);
      forall other | other in rest
        ensures At(other) != At(k)
      {
        if KeyBytes(other) == KeyBytes(k) {
          KeyBytesInjective(other, k);
        }
      }
      assert Locations(keys) == Locations(rest) + {At(k)};
    }
  }

  lemma {:induction false} StoredNodesAreKeys(r: Rendering, hs: Histories, store: Store, stream: Stream)
    requires RecordsMatch(r, hs, store) && |stream| <= MAX_STREAM_BYTES
    ensures StoredNodes(store, stream) == Locations(NodeKeys(stream, |HistoryOf(hs, stream)|))
  {
    var n := |HistoryOf(hs, stream)|;
    forall at | at in StoredNodes(store, stream)
      ensures at in Locations(NodeKeys(stream, n))
    {
      var height: U8, start: U64 :| at == At(NodeKey(stream, height, start));
      var k := NodeKey(stream, height, start);
      assert RecordMatches(r, hs, store, k);
      NodeKeysAreCompleted(stream, n, k);
    }
    forall at | at in Locations(NodeKeys(stream, n))
      ensures at in StoredNodes(store, stream)
    {
      var k :| k in NodeKeys(stream, n) && at == At(k);
      NodeKeysAreCompleted(stream, n, k);
      assert RecordMatches(r, hs, store, k);
      assert k == NodeKey(stream, k.height, k.start);
    }
  }

  /** After any run, a stream whose history has n events has 2n - popcount(n) node records in the store. */
  lemma {:induction false} NodeRecordCount(r: Rendering, ops: seq<Operation>, known: set<Digest>, stream: Stream)
    requires forall i :: 0 <= i < |ops| ==> Allowed(ops[i]) && RootsKnown(ops[i], known)
    requires Separated(r, known) && |stream| <= MAX_STREAM_BYTES
    ensures var state := Run(r, ops); var n := |HistoryOf(state.histories, stream)|;
      |StoredNodes(state.store, stream)| == 2 * n - PopCount(n)
  {
    var state := Run(r, ops);
    var n := |HistoryOf(state.histories, stream)|;
    RunKeepsStep(r, ops, known);
    StoredNodesAreKeys(r, state.histories, state.store, stream);
    forall k | k in NodeKeys(stream, n)
      ensures |k.stream| <= MAX_STREAM_BYTES
    {
      NodeKeysAreCompleted(stream, n, k);
    }
    LocationCount(NodeKeys(stream, n));
    NodeKeyCount(stream, n);
    NodeCount(n);
  }
}
