/** The receipt of an append: its validator, and the state change an accepted receipt tells. */
module AppendReceipts {
  import opened Words
  import opened Digests
  import opened Keys
  import opened Merkle
  import opened Streams
  import opened Transactions
  import opened Receipts
  import opened Sealing
  import opened Appends
  import Requests

  // ---- The validator ----

  /** The range test of the append validator, written without the shared addition. */
  predicate IncrementInRange(before: I64, delta: I64, after: I64) {
    && !(delta > 0 && before > I64_MAX - delta) && !(delta < 0 && before < I64_MIN - delta)
    && after == Wrap(before + delta)
  }

  /** It agrees with the overflow flag of the shared addition on every pair of words. */
  lemma {:induction false} RangeTestsAgree(before: I64, delta: I64, after: I64)
    ensures IncrementInRange(before, delta, after) <==> AddInt64(before, delta) == (after, false)
    ensures IncrementInRange(before, delta, after) <==> after == before + delta
  {
    AddInt64Exact(before, delta);
  }

  predicate AppendConditionEvidence(o: Observation, index: int, c: Condition<Location>) {
    && o.index == index && Location(o.keyspace, o.key) == c.at
    && o.matched.Some? && o.beforeI64.None? && o.afterI64.None? && o.before == o.after
    && o.matched.value == Matches(o.before, c.expected, c.operator)
  }

  predicate AppendAppliedEvidence(o: Observation, m: Mutation<Location>) {
    match m
    case Put(_, value) => o.after == Some(value)
    case Delete(_) => o.after.None?
    case Increment(_, delta) =>
      && o.beforeI64.Some? && o.afterI64.Some?
      && BytesMatchI64(o.before, o.beforeI64.value) && BytesMatchI64(o.after, o.afterI64.value)
      && IncrementInRange(o.beforeI64.value, delta, o.afterI64.value)
    case Unset(_) => false
  }

  /** `before` is the value demanded of an internal record, and None for a side mutation. */
  predicate AppendMutationEvidence(o: Observation, index: int, m: Mutation<Location>, before: Option<Option<Bytes>>,
                                   applied: bool)
  {
    && o.index == index && Location(o.keyspace, o.key) == m.at && o.matched.None?
    && (!m.Increment? ==> o.beforeI64.None? && o.afterI64.None?)
    && (if !applied then o.before == o.after
        else (before.Some? ==> o.before == before.value) && AppendAppliedEvidence(o, m))
  }

  predicate AppendConflictEvidence(receipt: Receipt, b: BuiltAppend) {
    !receipt.applied && receipt.conflict.Some? && !receipt.conflict.value.kind.ConditionFailed? ==>
      var k := receipt.conflict.value.index;
      && k < b.sideCount && k < |b.mutations| && k < |receipt.mutations|
      && b.mutations[k].Increment?
      && CounterConflictEvidence(receipt.mutations[k], receipt.conflict.value.kind, b.mutations[k].delta)
  }

  function DemandedBefore(b: BuiltAppend, index: nat): Option<Option<Bytes>>
    requires |b.mutations| == b.sideCount + |b.writes| && index < |b.mutations|
  {
    if index < b.sideCount then None else Some(b.writes[index - b.sideCount].before)
  }

  predicate AppendValidates(receipt: Receipt, b: BuiltAppend)
    requires |b.mutations| == b.sideCount + |b.writes|
  {
    && |receipt.conditions| == |b.conditions| && |receipt.mutations| == |b.mutations|
    && (forall i :: 0 <= i < |b.conditions| ==> AppendConditionEvidence(receipt.conditions[i], i, b.conditions[i]))
    && (forall i :: 0 <= i < |b.mutations| ==>
         AppendMutationEvidence(receipt.mutations[i], i, b.mutations[i], DemandedBefore(b, i), receipt.applied))
    && AppendConflictEvidence(receipt, b)
  }

  // ---- What is built, item by item ----

  ghost predicate WellBuilt(b: BuiltAppend) {
    && |b.mutations| == b.sideCount + |b.writes|
    && (forall i :: 0 <= i < b.sideCount ==> !b.mutations[i].Unset?)
    && (forall i :: b.sideCount <= i < |b.mutations| ==>
         b.mutations[i] == Put(At(b.writes[i - b.sideCount].key), b.writes[i - b.sideCount].value))
  }

  /** Placed side mutations, followed by the writes. */
  lemma {:induction false} SidesThenWrites(sides: seq<Mutation<Location>>, ws: seq<InternalWrite>, i: nat)
    requires i < |sides| + |ws|
    ensures var all := sides + Puts(ws);
      if i < |sides| then all[i] == sides[i]
      else all[i] == Put(At(ws[i - |sides|].key), ws[i - |sides|].value)
  {
  }

  lemma {:induction false} AssembledSides(q: AppendRequest, head: StreamHead, ws: seq<InternalWrite>, n: nat)
    requires |ws| >= 3 && n == |q.sideMutations| && forall i :: 0 <= i < n ==> !q.sideMutations[i].Unset?
    ensures var ms := Assemble(q, head, ws).mutations; n <= |ms| && forall i :: 0 <= i < n ==> !ms[i].Unset?
  {
    var sides := PlaceMutations(Keyspace(q.namespace), q.sideMutations);
    forall i | 0 <= i < n
      ensures !(sides + Puts(ws))[i].Unset?
    {
      SidesThenWrites(sides, ws, i);
      assert sides[i] == Relocate(Keyspace(q.namespace), q.sideMutations[i]);
    }
  }

  lemma {:induction false} AssembledWrites(q: AppendRequest, head: StreamHead, ws: seq<InternalWrite>, n: nat)
    requires |ws| >= 3 && n == |q.sideMutations|
    ensures var ms := Assemble(q, head, ws).mutations;
      |ms| == n + |ws| && forall i :: n <= i < |ms| ==> ms[i] == Put(At(ws[i - n].key), ws[i - n].value)
  {
    var sides := PlaceMutations(Keyspace(q.namespace), q.sideMutations);
    forall i | n <= i < n + |ws|
      ensures (sides + Puts(ws))[i] == Put(At(ws[i - n].key), ws[i - n].value)
    {
      SidesThenWrites(sides, ws, i);
    }
  }

  lemma {:induction false} AssembledWell(q: AppendRequest, head: StreamHead, ws: seq<InternalWrite>)
    requires |ws| >= 3 && forall i :: 0 <= i < |q.sideMutations| ==> !q.sideMutations[i].Unset?
    ensures WellBuilt(Assemble(q, head, ws)) && Assemble(q, head, ws).mutations != []
  {
    AssembledSides(q, head, ws, |q.sideMutations|);
    AssembledWrites(q, head, ws, |q.sideMutations|);
  }

  lemma {:induction false} BuiltWell(r: Rendering, q: AppendRequest)
    requires Admissible(q)
    ensures WellBuilt(Built(r, q)) && Built(r, q).mutations != []
  {
    ExtendValid(q.stream, q.expected, q.revision, q.event);
    var e := Extend(q.stream, q.expected, q.revision, q.event).value;
    assert forall i :: 0 <= i < |q.sideMutations| ==> SideMutationForm(q.sideMutations[i]);
    AssembledWell(q, e.head, InternalWrites(r, q, e));
  }

  // ---- Agreement with the general validator ----

  lemma {:induction false} MutationEvidenceAgrees(o: Observation, index: int, m: Mutation<Location>,
                                                  before: Option<Option<Bytes>>, receipt: Receipt)
    requires !m.Unset?
    ensures AppendMutationEvidence(o, index, m, before, receipt.applied) ==>
      && (receipt.applied && before.Some? ==> o.before == before.value)
      && (receipt.applied ==> MutationEvidence(o, index, m, receipt))
    ensures (receipt.applied && before.Some? ==> o.before == before.value) && MutationEvidence(o, index, m, receipt) ==>
      AppendMutationEvidence(o, index, m, before, receipt.applied)
  {
    if m.Increment? && o.beforeI64.Some? && o.afterI64.Some? {
      RangeTestsAgree(o.beforeI64.value, m.delta, o.afterI64.value);
    }
  }

  /** What the append validator asks beyond the general one. */
  ghost predicate Stricter(receipt: Receipt, b: BuiltAppend)
    requires WellBuilt(b) && |receipt.mutations| == |b.mutations|
  {
    && (forall i :: 0 <= i < |receipt.conditions| ==> receipt.conditions[i].before == receipt.conditions[i].after)
    && (receipt.applied ==> forall i :: b.sideCount <= i < |b.mutations| ==>
          receipt.mutations[i].before == b.writes[i - b.sideCount].before)
  }

  lemma {:induction false} AppendMutationOneWay(receipt: Receipt, b: BuiltAppend, i: nat)
    requires WellBuilt(b) && AppendValidates(receipt, b) && i < |b.mutations|
    ensures MutationEvidence(receipt.mutations[i], i, b.mutations[i], receipt)
  {
    assert AppendMutationEvidence(receipt.mutations[i], i, b.mutations[i], DemandedBefore(b, i), receipt.applied);
    MutationEvidenceAgrees(receipt.mutations[i], i, b.mutations[i], DemandedBefore(b, i), receipt);
  }

  lemma {:induction false} AppendValidatesOneWay(receipt: Receipt, b: BuiltAppend)
    requires WellBuilt(b) && AppendValidates(receipt, b)
    ensures ReceiptValidates(receipt, b.conditions, b.mutations) && Stricter(receipt, b)
  {
    forall i | 0 <= i < |b.conditions|
      ensures ConditionEvidence(receipt.conditions[i], i, b.conditions[i])
      ensures receipt.conditions[i].before == receipt.conditions[i].after
    {
      assert AppendConditionEvidence(receipt.conditions[i], i, b.conditions[i]);
    }
    forall i | 0 <= i < |b.mutations|
      ensures MutationEvidence(receipt.mutations[i], i, b.mutations[i], receipt)
    {
      AppendMutationOneWay(receipt, b, i);
    }
    forall i | receipt.applied && b.sideCount <= i < |b.mutations|
      ensures receipt.mutations[i].before == b.writes[i - b.sideCount].before
    {
      assert AppendMutationEvidence(receipt.mutations[i], i, b.mutations[i], DemandedBefore(b, i), receipt.applied);
    }
  }

  lemma {:induction false} AppendValidatesOtherWay(receipt: Receipt, b: BuiltAppend)
    requires WellBuilt(b) && ReceiptValidates(receipt, b.conditions, b.mutations) && Stricter(receipt, b)
    requires ConflictDecodes(receipt)
    ensures AppendValidates(receipt, b)
  {
    forall i | 0 <= i < |b.conditions|
      ensures AppendConditionEvidence(receipt.conditions[i], i, b.conditions[i])
    {
      assert ConditionEvidence(receipt.conditions[i], i, b.conditions[i]);
    }
    forall i | 0 <= i < |b.mutations|
      ensures AppendMutationEvidence(receipt.mutations[i], i, b.mutations[i], DemandedBefore(b, i), receipt.applied)
    {
      assert MutationEvidence(receipt.mutations[i], i, b.mutations[i], receipt);
      MutationEvidenceAgrees(receipt.mutations[i], i, b.mutations[i], DemandedBefore(b, i), receipt);
    }
    if !receipt.applied && receipt.conflict.Some? && !receipt.conflict.value.kind.ConditionFailed? {
      var k := receipt.conflict.value.index;
      assert MutationEvidence(receipt.mutations[k], k, b.mutations[k], receipt);
    }
  }

  /**
   The append's own validator accepts exactly what the general one accepts, when also no
   condition shows a change and each internal record held what the append demands.
   */
  lemma {:induction false} AppendValidatorAgrees(receipt: Receipt, b: BuiltAppend)
    requires WellBuilt(b) && ConflictDecodes(receipt)
    ensures AppendValidates(receipt, b) <==>
      ReceiptValidates(receipt, b.conditions, b.mutations) && Stricter(receipt, b)
  {
    if AppendValidates(receipt, b) {
      AppendValidatesOneWay(receipt, b);
    } else if ReceiptValidates(receipt, b.conditions, b.mutations) && Stricter(receipt, b) {
      AppendValidatesOtherWay(receipt, b);
    }
  }

  // ---- The writes of one append do not collide ----

  lemma {:induction false} ExtensionHeights(q: AppendRequest)
    requires Admissible(q)
    ensures var e := Extend(q.stream, q.expected, q.revision, q.event);
      e.Some? && forall i :: 0 <= i < |e.value.created| ==> e.value.created[i].height == i
  {
    ExtendValid(q.stream, q.expected, q.revision, q.event);
    var peaks := if q.expected.None? then [] else q.expected.value.proof.value.peaks;
    var e := Extend(q.stream, q.expected, q.revision, q.event).value;
    var leaf := Leaf(q.stream, q.revision, e.content);
    var node := MerkleNode(0, q.revision, leaf);
    var appended := AppendLeaf(q.stream, peaks, q.revision, leaf);
    assert appended == Merge(q.stream, peaks, node, [node]) && e.created == appended.value.created;
    CreatedHeights(q.stream, peaks, node, [node]);
  }

  /** The records written by one append are all different. */
  lemma {:induction false} WritesDistinct(r: Rendering, q: AppendRequest, e: Extension)
    requires e.head.proof.Some? && (q.expected.Some? ==> q.expected.value.proof.Some?)
    requires forall i :: 0 <= i < |e.created| ==> e.created[i].height == i
    ensures var ws := InternalWrites(r, q, e);
      && (forall i :: 0 <= i < |ws| ==> ws[i].key.stream == q.stream)
      && (forall i, j :: 0 <= i < j < |ws| ==> ws[i].key != ws[j].key)
  {
  }

  lemma {:induction false} PutsDistinct(ws: seq<InternalWrite>)
    requires forall i :: 0 <= i < |ws| ==> |ws[i].key.stream| <= MAX_STREAM_BYTES
    requires forall i, j :: 0 <= i < j < |ws| ==> ws[i].key != ws[j].key
    ensures DistinctMutations(Puts(ws))
  {
    forall i, j | 0 <= i < j < |ws|
      ensures Puts(ws)[i].at != Puts(ws)[j].at
    {
      if At(ws[i].key) == At(ws[j].key) {
        KeyBytesInjective(ws[i].key, ws[j].key);
      }
    }
  }

  lemma {:induction false} PlacedDistinct(namespace: string, ms: seq<Mutation<Bytes>>)
    requires Distinct(ms, Requests.MutationKey)
    ensures DistinctMutations(PlaceMutations(Keyspace(namespace), ms))
    ensures forall i :: 0 <= i < |ms| ==> PlaceMutations(Keyspace(namespace), ms)[i].at.keyspace != INTERNAL_KEYSPACE
  {
    UserKeyspaceApart(namespace);
    assert forall i :: 0 <= i < |ms| ==> Requests.MutationKey(ms[i]) == ms[i].at;
  }

  lemma {:induction false} ConcatDistinct(a: seq<Mutation<Location>>, b: seq<Mutation<Location>>)
    requires DistinctMutations(a) && DistinctMutations(b)
    requires forall i :: 0 <= i < |a| ==> a[i].at.keyspace != INTERNAL_KEYSPACE
    requires forall i :: 0 <= i < |b| ==> b[i].at.keyspace == INTERNAL_KEYSPACE
    ensures DistinctMutations(a + b)
  {
    var all := a + b;
    forall i, j | 0 <= i < j < |all|
      ensures all[i].at != all[j].at
    {
      if i >= |a| {
        assert b[i - |a|].at != b[j - |a|].at;
      } else if j < |a| {
        assert a[i].at != a[j].at;
      }
    }
  }

  lemma {:induction false} AssembledDistinct(q: AppendRequest, head: StreamHead, ws: seq<InternalWrite>)
    requires |ws| >= 3 && DistinctMutations(Puts(ws)) && Distinct(q.sideMutations, Requests.MutationKey)
    ensures DistinctMutations(Assemble(q, head, ws).mutations)
  {
    PlacedDistinct(q.namespace, q.sideMutations);
    ConcatDistinct(PlaceMutations(Keyspace(q.namespace), q.sideMutations), Puts(ws));
  }

  lemma {:induction false} BuiltDistinct(r: Rendering, q: AppendRequest)
    requires Admissible(q)
    ensures DistinctMutations(Built(r, q).mutations)
  {
    ExtensionHeights(q);
    ExtendValid(q.stream, q.expected, q.revision, q.event);
    var e := Extend(q.stream, q.expected, q.revision, q.event).value;
    WritesDistinct(r, q, e);
    PutsDistinct(InternalWrites(r, q, e));
    AssembledDistinct(q, e.head, InternalWrites(r, q, e));
  }

  // ---- Every write is guarded by a condition ----

  /** The position of a write's guard among the internal conditions. */
  function GuardIndex(i: nat): nat {
    if i == 2 then 0 else if i < 2 then i + 1 else i
  }

  /** Every write has a condition that demands its before value. */
  ghost predicate WritesGuarded(b: BuiltAppend, sides: nat) {
    forall i :: 0 <= i < |b.writes| ==>
      var k := sides + GuardIndex(i);
      k < |b.conditions| && b.conditions[k] == Condition(At(b.writes[i].key), b.writes[i].before, Equal)
  }

  lemma {:induction false} AssembledGuarded(q: AppendRequest, head: StreamHead, ws: seq<InternalWrite>)
    requires |ws| >= 3
    ensures WritesGuarded(Assemble(q, head, ws), |q.sideConditions|)
  {
    forall i | 0 <= i < |ws|
      ensures Guards(ws)[GuardIndex(i)] == ws[i]
    {
    }
  }

  lemma {:induction false} BuiltGuarded(r: Rendering, q: AppendRequest)
    requires Admissible(q)
    ensures WritesGuarded(Built(r, q), |q.sideConditions|)
  {
    ExtendValid(q.stream, q.expected, q.revision, q.event);
    var e := Extend(q.stream, q.expected, q.revision, q.event).value;
    AssembledGuarded(q, e.head, InternalWrites(r, q, e));
  }

  /** When all conditions hold, every internal record holds the value that its write demands. */
  lemma {:induction false} GuardsHold(b: BuiltAppend, sides: nat, store: Store, i: nat)
    requires WritesGuarded(b, sides) && i < |b.writes| && FirstFailing(store, b.conditions) == |b.conditions|
    ensures Read(store, At(b.writes[i].key)) == b.writes[i].before
  {
    var c := b.conditions[sides + GuardIndex(i)];
    assert Holds(store, c);
    CompareIsOrder(Read(store, c.at), c.expected, None);
  }

  // ---- What an accepted receipt tells ----

  /** An internal record as the receipt shows it and as the store holds it before and after. */
  ghost predicate WriteTold(o: Observation, w: InternalWrite, before: Store, after: Store) {
    && Location(o.keyspace, o.key) == At(w.key)
    && o.before == w.before == Read(before, At(w.key))
    && o.after == Some(w.value) == Read(after, At(w.key))
  }

  lemma {:induction false} WriteIsTold(receipt: Receipt, b: BuiltAppend, i: nat, before: Store, after: Store)
    requires WellBuilt(b) && ReceiptValidates(receipt, b.conditions, b.mutations) && Stricter(receipt, b)
    requires receipt.applied && b.sideCount <= i < |b.mutations|
    requires Observed(receipt, before) && SameNow(receipt.mutations[i], b.mutations[i], Read(after, b.mutations[i].at))
    ensures WriteTold(receipt.mutations[i], b.writes[i - b.sideCount], before, after)
  {
    assert MutationEvidence(receipt.mutations[i], i, b.mutations[i], receipt);
  }

  /** The change that an append receipt reports, against what the reference does to the store. */
  ghost predicate ChangeTold(receipt: Receipt, b: BuiltAppend, store: Store)
    requires |b.mutations| == b.sideCount + |b.writes| == |receipt.mutations|
    requires (receipt.applied || receipt.conflict.Some?)
  {
    var outcome := Transact(store, b.conditions, b.mutations);
    && (receipt.applied <==> outcome.Applied?)
    && (receipt.applied ==>
         && (forall i :: b.sideCount <= i < |b.mutations| ==>
               WriteTold(receipt.mutations[i], b.writes[i - b.sideCount], store, outcome.store))
         && (forall i :: 0 <= i < b.sideCount ==>
               SameNow(receipt.mutations[i], b.mutations[i], Read(outcome.store, b.mutations[i].at))))
    && (!receipt.applied && receipt.conflict.value.kind.ConditionFailed? ==>
          outcome == Conflict(ConditionFailed, receipt.conflict.value.index))
    && (!receipt.applied && !receipt.conflict.value.kind.ConditionFailed? ==>
          receipt.conflict.value.index < b.sideCount)
  }

  lemma {:induction false} ReceiptTellsChange(receipt: Receipt, requestID: string, b: BuiltAppend, store: Store)
    requires WellBuilt(b) && DistinctMutations(b.mutations)
    requires ReceiptDecodes(receipt, requestID, APPEND_LIMITS) && AppendValidates(receipt, b)
    requires Observed(receipt, store)
    ensures ChangeTold(receipt, b, store)
  {
    AppendValidatesOneWay(receipt, b);
    assert Constructed(b.mutations);
    ReceiptTellsOutcome(receipt, requestID, APPEND_LIMITS, b.conditions, b.mutations, store);
    var outcome := Transact(store, b.conditions, b.mutations);
    forall i | receipt.applied && b.sideCount <= i < |b.mutations|
      ensures WriteTold(receipt.mutations[i], b.writes[i - b.sideCount], store, outcome.store)
    {
      WriteIsTold(receipt, b, i, store, outcome.store);
    }
  }

  /**
   An accepted receipt that observed a store tells what the append does to it: applied exactly
   when the reference applies it, with the before and after values of every record and every
   side key, and condition_failed with the reference's own index. No value it shows exceeds 16 MiB.
   */
  lemma {:induction false} AppendReceiptTellsChange(receipt: Receipt, r: Rendering, q: AppendRequest, store: Store)
    requires Admissible(q)
    requires ReceiptDecodes(receipt, q.requestID, APPEND_LIMITS) && AppendValidates(receipt, Built(r, q))
    requires Observed(receipt, store)
    ensures ChangeTold(receipt, Built(r, q), store)
    ensures forall i :: 0 <= i < |receipt.conditions| ==> Bounded(receipt.conditions[i], Limits(0x100_0000, true))
    ensures forall i :: 0 <= i < |receipt.mutations| ==> Bounded(receipt.mutations[i], Limits(0x100_0000, true))
  {
    BuiltWell(r, q);
    BuiltDistinct(r, q);
    ReceiptTellsChange(receipt, q.requestID, Built(r, q), store);
    AppendValidatesOneWay(receipt, Built(r, q));
    AcceptedInBounds(receipt, q.requestID, APPEND_LIMITS, Built(r, q).conditions, Built(r, q).mutations);
  }

  /** An applied honest receipt shows the demanded value of every internal record. */
  lemma {:induction false} HonestBefore(requestID: string, b: BuiltAppend, sides: nat, store: Store, revision: U64,
                                        i: nat)
    requires WellBuilt(b) && WritesGuarded(b, sides) && |b.conditions| < TWO64 && |b.mutations| < TWO64
    requires b.sideCount <= i < |b.mutations| && FirstFailing(store, b.conditions) == |b.conditions|
    ensures var receipt := HonestReceipt(store, requestID, b.conditions, b.mutations, revision);
      receipt.mutations[i].before == b.writes[i - b.sideCount].before
  {
    GuardsHold(b, sides, store, i - b.sideCount);
  }

  lemma {:induction false} HonestAppendStricter(requestID: string, b: BuiltAppend, sides: nat, store: Store,
                                                revision: U64)
    requires WellBuilt(b) && WritesGuarded(b, sides) && |b.conditions| < TWO64 && |b.mutations| < TWO64
    ensures Stricter(HonestReceipt(store, requestID, b.conditions, b.mutations, revision), b)
  {
    var receipt := HonestReceipt(store, requestID, b.conditions, b.mutations, revision);
    if receipt.applied {
      forall i | b.sideCount <= i < |b.mutations|
        ensures receipt.mutations[i].before == b.writes[i - b.sideCount].before
      {
        HonestBefore(requestID, b, sides, store, revision, i);
      }
    }
  }

  /** The honest receipt of an append, within the size limits, is accepted. */
  lemma {:induction false} HonestAppendAccepted(r: Rendering, q: AppendRequest, store: Store, revision: U64)
    requires Admissible(q) && revision > 0
    requires WithinLimits(store, Built(r, q).conditions, Built(r, q).mutations, APPEND_LIMITS)
    ensures var b := Built(r, q); var receipt := HonestReceipt(store, q.requestID, b.conditions, b.mutations, revision);
      ReceiptDecodes(receipt, q.requestID, APPEND_LIMITS) && AppendValidates(receipt, b)
  {
    var b := Built(r, q);
    BuiltWell(r, q);
    BuiltGuarded(r, q);
    HonestReceiptAccepted(store, q.requestID, b.conditions, b.mutations, revision, APPEND_LIMITS);
    HonestAppendStricter(q.requestID, b, |q.sideConditions|, store, revision);
    AppendValidatesOtherWay(HonestReceipt(store, q.requestID, b.conditions, b.mutations, revision), b);
  }
}
