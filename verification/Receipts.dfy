/** Receipts of conditional transactions: typed decoding, validation against the request, and what they prove. */
module Receipts {
  import opened Words
  import opened Transactions
  import opened Keys

  /** What a receipt may hold: the longest value, and whether the streams' own keyspace may appear. */
  datatype Limits = Limits(maxValueBytes: nat, allowInternal: bool)

  const REQUEST_LIMITS := Limits(MAX_VALUE_BYTES, false)

  const TRANSACTION_VERSION := 2
  const MAX_KEY_BYTES := 65_536
  const MAX_VALUE_BYTES := 0x10_0000

  datatype Observation = Observation(
    index: U64, keyspace: string, key: Bytes, before: Option<Bytes>, after: Option<Bytes>,
    matched: Option<bool>, beforeI64: Option<I64>, afterI64: Option<I64>)

  datatype ReceiptConflict = ReceiptConflict(kind: ConflictKind, index: U64)

  datatype Receipt = Receipt(
    version: nat, requestID: string, revision: U64, applied: bool, conflict: Option<ReceiptConflict>,
    conditions: seq<Observation>, mutations: seq<Observation>)

  // ---- Names ----

  /** The ASCII letters and digits, and three marks. */
  predicate NameChar(c: char): (ok: bool)
    ensures ok <==> var n := c as int;
      0x41 <= n <= 0x5A || 0x61 <= n <= 0x7A || 0x30 <= n <= 0x39 || n == 0x2E || n == 0x5F || n == 0x2D
  {
    'A' <= c <= 'Z' || 'a' <= c <= 'z' || '0' <= c <= '9' || c == '.' || c == '_' || c == '-'
  }

  predicate ValidNamespace(s: string) {
    1 <= |s| <= 64 && forall i :: 0 <= i < |s| ==> NameChar(s[i])
  }

  predicate ValidRequestID(s: string) {
    1 <= |s| <= 128 && forall i :: 0 <= i < |s| ==> NameChar(s[i]) || s[i] == ':'
  }

  function Keyspace(namespace: string): string {
    USER_PREFIX + namespace
  }

  predicate KnownKeyspace(keyspace: string, allowInternal: bool) {
    || (USER_PREFIX <= keyspace && ValidNamespace(keyspace[|USER_PREFIX|..]))
    || (allowInternal && keyspace == INTERNAL_KEYSPACE)
  }

  // ---- Decoding ----

  predicate ObservationDecodes(o: Observation, index: int, condition: bool, limits: Limits) {
    && o.index == index && KnownKeyspace(o.keyspace, limits.allowInternal) && |o.key| <= MAX_KEY_BYTES
    && (o.before.Some? ==> |o.before.value| <= limits.maxValueBytes)
    && (o.after.Some? ==> |o.after.value| <= limits.maxValueBytes)
    && o.matched.Some? == condition
    && o.beforeI64.Some? == o.afterI64.Some?
    && (o.beforeI64.Some? ==> BytesMatchI64(o.before, o.beforeI64.value) && BytesMatchI64(o.after, o.afterI64.value))
  }

  predicate ObservationsDecode(os: seq<Observation>, condition: bool, limits: Limits) {
    forall i :: 0 <= i < |os| ==> ObservationDecodes(os[i], i, condition, limits)
  }

  /** Index of the first observation that reports a failed condition, or their number. */
  function FirstRejected(os: seq<Observation>): (i: nat)
    ensures i <= |os|
    ensures forall j :: 0 <= j < i ==> os[j].matched != Some(false)
    ensures i < |os| ==> os[i].matched == Some(false)
  {
    if os == [] then 0 else if os[0].matched == Some(false) then 0 else 1 + FirstRejected(os[1..])
  }

  /** The scan that finds the first rejected observation while checking that conditions changed nothing. */
  method ScanConditions(os: seq<Observation>) returns (same: bool, firstRejected: int)
    ensures same <==> forall i :: 0 <= i < |os| ==> os[i].before == os[i].after
    ensures same ==> firstRejected == (if FirstRejected(os) < |os| then FirstRejected(os) else -1)
  {
    firstRejected := -1;
    for index := 0 to |os|
      invariant forall i :: 0 <= i < index ==> os[i].before == os[i].after
      invariant -1 <= firstRejected < index
      invariant firstRejected == -1 ==> forall i :: 0 <= i < index ==> os[i].matched != Some(false)
      invariant firstRejected >= 0 ==>
        os[firstRejected].matched == Some(false) && forall i :: 0 <= i < firstRejected ==> os[i].matched != Some(false)
    {
      if os[index].before != os[index].after {
        return false, firstRejected;
      }
      if firstRejected == -1 && os[index].matched == Some(false) {
        firstRejected := index;
      }
    }
    same := true;
  }

  predicate ConflictDecodes(receipt: Receipt) {
    receipt.conflict.Some? ==>
      var conflict := receipt.conflict.value;
      conflict.index < if conflict.kind.ConditionFailed? then |receipt.conditions| else |receipt.mutations|
  }

  /** Outcome, conflict and condition flags fit together. */
  predicate OutcomeDecodes(receipt: Receipt) {
    if receipt.applied then forall i :: 0 <= i < |receipt.conditions| ==> receipt.conditions[i].matched == Some(true)
    else
      && (forall i :: 0 <= i < |receipt.conditions| ==> receipt.conditions[i].before == receipt.conditions[i].after)
      && var first := FirstRejected(receipt.conditions);
         if first < |receipt.conditions| then
           && receipt.conflict.Some? && receipt.conflict.value.kind.ConditionFailed?
           && receipt.conflict.value.index == first
         else receipt.conflict.Some? ==> !receipt.conflict.value.kind.ConditionFailed?
  }

  /** The typed part of receipt decoding. */
  predicate ReceiptDecodes(receipt: Receipt, requestID: string, limits: Limits) {
    && receipt.version == TRANSACTION_VERSION
    && receipt.requestID == requestID && ValidRequestID(requestID)
    && receipt.revision != 0 && receipt.mutations != []
    && (receipt.applied <==> receipt.conflict.None?)
    && ConflictDecodes(receipt)
    && |receipt.conditions| < TWO64 && |receipt.mutations| < TWO64
    && ObservationsDecode(receipt.conditions, true, limits)
    && ObservationsDecode(receipt.mutations, false, limits)
    && OutcomeDecodes(receipt)
  }

  // ---- Validation against the request ----

  predicate ConditionEvidence(o: Observation, index: int, c: Condition<Location>) {
    && o.index == index && Location(o.keyspace, o.key) == c.at
    && o.matched.Some? && o.beforeI64.None? && o.afterI64.None?
    && o.matched.value == Matches(o.before, c.expected, c.operator)
  }

  /** A counter conflict names an increment that could not be carried out. */
  predicate CounterConflictEvidence(o: Observation, kind: ConflictKind, delta: I64) {
    match kind
    case ConditionFailed => true
    case CounterInvalid => o.before.Some? && |o.before.value| != 8 && o.beforeI64.None? && o.afterI64.None?
    case _ =>
      && o.beforeI64.Some? && o.afterI64.Some? && o.beforeI64 == o.afterI64
      && AddInt64(o.beforeI64.value, delta).1
      && (kind.CounterOverflow? == (delta > 0)) && (kind.CounterUnderflow? == (delta < 0))
  }

  /** The after value of an applied mutation. */
  predicate AppliedEvidence<K>(o: Observation, m: Mutation<K>) {
    match m
    case Put(_, value) => o.after == Some(value)
    case Delete(_) => o.after.None?
    case Increment(_, delta) =>
      && o.beforeI64.Some? && o.afterI64.Some?
      && BytesMatchI64(o.before, o.beforeI64.value) && BytesMatchI64(o.after, o.afterI64.value)
      && AddInt64(o.beforeI64.value, delta) == (o.afterI64.value, false)
    case Unset(_) => true
  }

  /** The receipt reports a counter conflict at this mutation. */
  predicate CounterConflictAt(receipt: Receipt, index: int) {
    && receipt.conflict.Some? && receipt.conflict.value.index == index
    && !receipt.conflict.value.kind.ConditionFailed?
  }

  predicate MutationEvidence(o: Observation, index: int, m: Mutation<Location>, receipt: Receipt) {
    && o.index == index && Location(o.keyspace, o.key) == m.at && o.matched.None?
    && (!m.Increment? ==> o.beforeI64.None? && o.afterI64.None?)
    && (if receipt.applied then AppliedEvidence(o, m)
        else
          && o.before == o.after
          && (CounterConflictAt(receipt, index) ==>
               m.Increment? && CounterConflictEvidence(o, receipt.conflict.value.kind, m.delta)))
  }

  predicate ReceiptValidates(receipt: Receipt, conditions: seq<Condition<Location>>, mutations: seq<Mutation<Location>>)
  {
    && |receipt.conditions| == |conditions| && |receipt.mutations| == |mutations|
    && (forall i :: 0 <= i < |conditions| ==> ConditionEvidence(receipt.conditions[i], i, conditions[i]))
    && (forall i :: 0 <= i < |mutations| ==> MutationEvidence(receipt.mutations[i], i, mutations[i], receipt))
  }

  // ---- What an accepted receipt proves ----

  /** The observed value meets the condition. */
  predicate ObservedMatch(o: Observation, c: Condition<Location>) {
    Matches(o.before, c.expected, c.operator)
  }

  /** The observed after value is what the reference does to the observed before value, counters by their number. */
  ghost predicate EffectObserved<K>(o: Observation, m: Mutation<K>) {
    var effect := EffectOf(o.before, m);
    && effect.NewValue?
    && (if m.Increment? then CounterValue(o.after) == CounterValue(effect.value) else o.after == effect.value)
  }

  lemma {:induction false} AppliedMutationSound<K>(o: Observation, m: Mutation<K>)
    requires AppliedEvidence(o, m) && !m.Unset?
    ensures EffectObserved(o, m)
    ensures m.Increment? ==> (o.after == EffectOf(o.before, m).value <==> o.after.Some?)
  {
    if m.Increment? {
      AddInt64Exact(o.beforeI64.value, m.delta);
      var sum := o.beforeI64.value + m.delta;
      I64RoundTrip(sum);
      if o.after.Some? {
        Pow256Values();
        BEOfFromBE(o.after.value);
      }
    }
  }

  /** The conflict's own increment fails in the reference with the reported kind. */
  lemma {:induction false} CounterConflictSound<K>(o: Observation, kind: ConflictKind, m: Mutation<K>)
    requires m.Increment? && !kind.ConditionFailed? && CounterConflictEvidence(o, kind, m.delta)
    requires o.beforeI64.Some? ==> BytesMatchI64(o.before, o.beforeI64.value)
    ensures EffectOf(o.before, m) == Fails(kind)
  {
    if o.beforeI64.Some? {
      AddInt64Exact(o.beforeI64.value, m.delta);
    }
  }

  ghost predicate Accepted(receipt: Receipt, requestID: string, limits: Limits, conditions: seq<Condition<Location>>,
                           mutations: seq<Mutation<Location>>)
  {
    ReceiptDecodes(receipt, requestID, limits) && ReceiptValidates(receipt, conditions, mutations)
  }

  /** An accepted applied receipt: every condition was true and every mutation had its reference effect. */
  lemma {:induction false} AppliedReceiptSound(receipt: Receipt, requestID: string, limits: Limits,
                                               conditions: seq<Condition<Location>>, mutations: seq<Mutation<Location>>)
    requires Accepted(receipt, requestID, limits, conditions, mutations) && receipt.applied && Constructed(mutations)
    ensures forall i :: 0 <= i < |conditions| ==>
      ObservedMatch(receipt.conditions[i], conditions[i])
    ensures forall i :: 0 <= i < |mutations| ==> EffectObserved(receipt.mutations[i], mutations[i])
  {
    forall i | 0 <= i < |conditions|
      ensures ObservedMatch(receipt.conditions[i], conditions[i])
    {
      assert ConditionEvidence(receipt.conditions[i], i, conditions[i]);
    }
    forall i | 0 <= i < |mutations|
      ensures EffectObserved(receipt.mutations[i], mutations[i])
    {
      assert MutationEvidence(receipt.mutations[i], i, mutations[i], receipt);
      AppliedMutationSound(receipt.mutations[i], mutations[i]);
    }
  }

  /**
   An accepted conflict changed nothing; it is `condition_failed` at the least failing index
   exactly when some condition fails on the observed values, and otherwise names an increment
   that the reference refuses with the same kind.
   */
  lemma {:induction false} ConflictReceiptSound(receipt: Receipt, requestID: string, limits: Limits,
                                                conditions: seq<Condition<Location>>,
                                                mutations: seq<Mutation<Location>>)
    requires Accepted(receipt, requestID, limits, conditions, mutations) && !receipt.applied
    ensures receipt.conflict.Some?
    ensures forall i :: 0 <= i < |conditions| ==> receipt.conditions[i].before == receipt.conditions[i].after
    ensures forall i :: 0 <= i < |mutations| ==> receipt.mutations[i].before == receipt.mutations[i].after
    ensures receipt.conflict.value.kind.ConditionFailed? <==>
      exists i :: 0 <= i < |conditions| && !ObservedMatch(receipt.conditions[i], conditions[i])
    ensures var k := receipt.conflict.value.index;
      if receipt.conflict.value.kind.ConditionFailed? then
        && k < |conditions| && !ObservedMatch(receipt.conditions[k], conditions[k])
        && forall i :: 0 <= i < k ==> ObservedMatch(receipt.conditions[i], conditions[i])
      else
        k < |mutations| && EffectOf(receipt.mutations[k].before, mutations[k]) == Fails(receipt.conflict.value.kind)
  {
    forall i | 0 <= i < |conditions|
      ensures receipt.conditions[i].matched
           == Some(ObservedMatch(receipt.conditions[i], conditions[i]))
    {
      assert ConditionEvidence(receipt.conditions[i], i, conditions[i]);
    }
    forall i | 0 <= i < |mutations|
      ensures receipt.mutations[i].before == receipt.mutations[i].after
    {
      assert MutationEvidence(receipt.mutations[i], i, mutations[i], receipt);
    }
    var k := receipt.conflict.value.index;
    var first := FirstRejected(receipt.conditions);
    if !receipt.conflict.value.kind.ConditionFailed? {
      assert MutationEvidence(receipt.mutations[k], k, mutations[k], receipt);
      assert ObservationDecodes(receipt.mutations[k], k, false, limits);
      CounterConflictSound(receipt.mutations[k], receipt.conflict.value.kind, mutations[k]);
    } else {
      assert receipt.conditions[first].matched == Some(false);
    }
  }

  /** A receipt that reports the increment of a counter from -1 to zero with an absent after value. */
  function AbsentZero(): Receipt {
    Receipt(TRANSACTION_VERSION, "r", 1, true, None, [],
            [Observation(0, Keyspace("n"), [1], Some(EncodeI64(-1)), None, None, Some(-1), Some(0))])
  }

  /** It is accepted, although the reference stores eight zero bytes. */
  lemma {:induction false} AbsentZeroAccepted()
    ensures var m := Increment(Location(Keyspace("n"), [1]), 1); var o := AbsentZero().mutations[0];
      && Accepted(AbsentZero(), "r", REQUEST_LIMITS, [], [m])
      && o.after == None && EffectOf(o.before, m) == NewValue(Some(EncodeI64(0)))
  {
    I64RoundTrip(-1);
    AddInt64Exact(-1, 1);
    assert Keyspace("n")[|USER_PREFIX|..] == "n" && ValidNamespace("n") && ValidRequestID("r");
    assert MutationEvidence(AbsentZero().mutations[0], 0, Increment(Location(Keyspace("n"), [1]), 1), AbsentZero());
  }

  // ---- Against a store ----

  /** The receipt observed the store as it was. */
  ghost predicate Observed(receipt: Receipt, store: Store) {
    && (forall i :: 0 <= i < |receipt.conditions| ==>
         var o := receipt.conditions[i]; o.before == Read(store, Location(o.keyspace, o.key)))
    && (forall i :: 0 <= i < |receipt.mutations| ==>
         var o := receipt.mutations[i]; o.before == Read(store, Location(o.keyspace, o.key)))
  }

  /** The reported after value is the value now stored, counters by their number. */
  predicate SameNow<K>(o: Observation, m: Mutation<K>, now: Option<Bytes>) {
    if m.Increment? then CounterValue(o.after) == CounterValue(now) else o.after == now
  }

  /**
   A receipt that observed a store tells what the reference transaction does to that store:
   applied exactly when the reference applies, with the same new values, and condition_failed
   with the reference's own index.
   */
  lemma {:induction false} ReceiptTellsOutcome(receipt: Receipt, requestID: string, limits: Limits,
                                               conditions: seq<Condition<Location>>, mutations: seq<Mutation<Location>>,
                                               store: Store)
    requires Accepted(receipt, requestID, limits, conditions, mutations) && Constructed(mutations)
    requires DistinctMutations(mutations)
    requires Observed(receipt, store)
    ensures var outcome := Transact(store, conditions, mutations);
      && (receipt.applied <==> outcome.Applied?)
      && (receipt.applied ==> forall i :: 0 <= i < |mutations| ==>
           SameNow(receipt.mutations[i], mutations[i], Read(outcome.store, mutations[i].at)))
      && (!receipt.applied && receipt.conflict.value.kind.ConditionFailed? ==>
            outcome == Conflict(ConditionFailed, receipt.conflict.value.index))
      && (!receipt.applied && !receipt.conflict.value.kind.ConditionFailed? ==>
           outcome.Conflict? && !outcome.kind.ConditionFailed? && outcome.index <= receipt.conflict.value.index)
  {
    ObservedValues(receipt, conditions, mutations, store);
    if receipt.applied {
      AppliedReceiptSound(receipt, requestID, limits, conditions, mutations);
      AppliedOutcome(receipt, conditions, mutations, store);
    } else {
      ConflictReceiptSound(receipt, requestID, limits, conditions, mutations);
      ConflictOutcome(receipt, conditions, mutations, store);
    }
  }

  /** The observed before values are those the reference reads. */
  lemma {:induction false} ObservedValues(receipt: Receipt, conditions: seq<Condition<Location>>,
                                          mutations: seq<Mutation<Location>>, store: Store)
    requires ReceiptValidates(receipt, conditions, mutations) && Observed(receipt, store)
    ensures forall i :: 0 <= i < |conditions| ==> receipt.conditions[i].before == Read(store, conditions[i].at)
    ensures forall i :: 0 <= i < |mutations| ==> receipt.mutations[i].before == Read(store, mutations[i].at)
  {
    forall i | 0 <= i < |conditions|
      ensures receipt.conditions[i].before == Read(store, conditions[i].at)
    {
      assert ConditionEvidence(receipt.conditions[i], i, conditions[i]);
    }
    forall i | 0 <= i < |mutations|
      ensures receipt.mutations[i].before == Read(store, mutations[i].at)
    {
      assert MutationEvidence(receipt.mutations[i], i, mutations[i], receipt);
    }
  }

  lemma {:induction false} AppliedOutcome(receipt: Receipt, conditions: seq<Condition<Location>>,
                                          mutations: seq<Mutation<Location>>, store: Store)
    requires |receipt.conditions| == |conditions| && |receipt.mutations| == |mutations| && DistinctMutations(mutations)
    requires forall i :: 0 <= i < |conditions| ==> receipt.conditions[i].before == Read(store, conditions[i].at)
    requires forall i :: 0 <= i < |mutations| ==> receipt.mutations[i].before == Read(store, mutations[i].at)
    requires forall i :: 0 <= i < |conditions| ==>
      ObservedMatch(receipt.conditions[i], conditions[i])
    requires forall i :: 0 <= i < |mutations| ==> EffectObserved(receipt.mutations[i], mutations[i])
    ensures var outcome := Transact(store, conditions, mutations);
      && outcome.Applied?
      && forall i :: 0 <= i < |mutations| ==>
           SameNow(receipt.mutations[i], mutations[i], Read(outcome.store, mutations[i].at))
  {
    assert forall i :: 0 <= i < |conditions| ==> Holds(store, conditions[i]);
    forall i | 0 <= i < |mutations|
      ensures EffectOf(Read(store, mutations[i].at), mutations[i])
           == EffectOf(receipt.mutations[i].before, mutations[i])
      ensures EffectOf(Read(store, mutations[i].at), mutations[i]).NewValue?
    {
      assert EffectObserved(receipt.mutations[i], mutations[i]);
    }
    assert FirstRefused(store, mutations) == |mutations|;
    ApplyAllReads(store, mutations);
    forall i | 0 <= i < |mutations|
      ensures SameNow(receipt.mutations[i], mutations[i], Read(ApplyAll(store, mutations), mutations[i].at))
    {
      assert EffectObserved(receipt.mutations[i], mutations[i]);
      assert EffectOf(Read(store, mutations[i].at), mutations[i])
          == NewValue(Read(ApplyAll(store, mutations), mutations[i].at));
    }
  }

  lemma {:induction false} ConflictOutcome(receipt: Receipt, conditions: seq<Condition<Location>>,
                                           mutations: seq<Mutation<Location>>, store: Store)
    requires |receipt.conditions| == |conditions| && |receipt.mutations| == |mutations| && receipt.conflict.Some?
    requires forall i :: 0 <= i < |conditions| ==> receipt.conditions[i].before == Read(store, conditions[i].at)
    requires forall i :: 0 <= i < |mutations| ==> receipt.mutations[i].before == Read(store, mutations[i].at)
    requires receipt.conflict.value.kind.ConditionFailed? <==>
      exists i :: 0 <= i < |conditions| && !ObservedMatch(receipt.conditions[i], conditions[i])
    requires var k := receipt.conflict.value.index;
      if receipt.conflict.value.kind.ConditionFailed? then
        && k < |conditions| && !ObservedMatch(receipt.conditions[k], conditions[k])
        && forall i :: 0 <= i < k ==> ObservedMatch(receipt.conditions[i], conditions[i])
      else
        k < |mutations| && EffectOf(receipt.mutations[k].before, mutations[k]) == Fails(receipt.conflict.value.kind)
    requires Constructed(mutations)
    ensures var outcome := Transact(store, conditions, mutations);
      && outcome.Conflict?
      && (if receipt.conflict.value.kind.ConditionFailed? then
            outcome == Conflict(ConditionFailed, receipt.conflict.value.index)
          else !outcome.kind.ConditionFailed? && outcome.index <= receipt.conflict.value.index)
  {
    var k := receipt.conflict.value.index;
    var c := FirstFailing(store, conditions);
    forall i | 0 <= i < |conditions|
      ensures Holds(store, conditions[i])
           == ObservedMatch(receipt.conditions[i], conditions[i])
    {
    }
    if receipt.conflict.value.kind.ConditionFailed? {
      assert !Holds(store, conditions[k]);
    } else {
      assert c == |conditions|;
      assert EffectOf(Read(store, mutations[k].at), mutations[k]).Fails?;
    }
  }

  // ---- Honest receipts ----

  function ConditionSeen(store: Store, c: Condition<Location>, index: U64): Observation {
    var before := Read(store, c.at);
    var matched := Matches(before, c.expected, c.operator);
    Observation(index, c.at.keyspace, c.at.key, before, before, Some(matched), None, None)
  }

  /** A mutation as the store reports it: its effect when applied, an unchanged value when not. */
  function MutationSeen(store: Store, m: Mutation<Location>, index: U64, applied: bool): Observation {
    var before := Read(store, m.at);
    var effect := EffectOf(before, m);
    var after := if applied && effect.NewValue? then effect.value else before;
    var i64 := m.Increment? && CounterValue(before).Some? && (applied ==> effect.NewValue?);
    Observation(index, m.at.keyspace, m.at.key, before, after, None,
                if i64 then CounterValue(before) else None, if i64 then CounterValue(after) else None)
  }

  function HonestReceipt(store: Store, requestID: string, conditions: seq<Condition<Location>>,
                         mutations: seq<Mutation<Location>>, revision: U64): (r: Receipt)
    requires |conditions| < TWO64 && |mutations| < TWO64
    ensures |r.conditions| == |conditions| && |r.mutations| == |mutations|
  {
    var outcome := Transact(store, conditions, mutations);
    Receipt(TRANSACTION_VERSION, requestID, revision, outcome.Applied?,
      if outcome.Applied? then None else Some(ReceiptConflict(outcome.kind, outcome.index)),
      seq(|conditions|, i requires 0 <= i < |conditions| => ConditionSeen(store, conditions[i], i)),
      seq(|mutations|, i requires 0 <= i < |mutations| => MutationSeen(store, mutations[i], i, outcome.Applied?)))
  }

  /** The stored value, if any, is one that a receipt may carry. */
  predicate FitsReceipt(store: Store, at: Location, limits: Limits) {
    at in store ==> |store[at]| <= limits.maxValueBytes
  }

  /** A location that a receipt may name, holding a value it may carry. */
  predicate SmallAt(store: Store, at: Location, limits: Limits) {
    KnownKeyspace(at.keyspace, limits.allowInternal) && |at.key| <= 65_536 && FitsReceipt(store, at, limits)
  }

  predicate SmallMutation(store: Store, m: Mutation<Location>, limits: Limits) {
    && SmallAt(store, m.at, limits)
    && (m.Put? ==> |m.value| <= limits.maxValueBytes) && (m.Increment? ==> 8 <= limits.maxValueBytes)
  }

  /** Keys and values within the decoder's limits. */
  ghost predicate WithinLimits(store: Store, conditions: seq<Condition<Location>>, mutations: seq<Mutation<Location>>,
                               limits: Limits)
  {
    && |conditions| < TWO64 && |mutations| < TWO64
    && (forall i :: 0 <= i < |conditions| ==> SmallAt(store, conditions[i].at, limits))
    && (forall i :: 0 <= i < |mutations| ==> SmallMutation(store, mutations[i], limits))
  }

  lemma {:induction false} KeyspaceKnown(namespace: string)
    requires ValidNamespace(namespace)
    ensures KnownKeyspace(Keyspace(namespace), false)
  {
    assert Keyspace(namespace)[|USER_PREFIX|..] == namespace;
  }

  lemma {:induction false} MutationSeenDecodes(store: Store, m: Mutation<Location>, index: U64, applied: bool,
                                               limits: Limits)
    requires SmallMutation(store, m, limits)
    ensures ObservationDecodes(MutationSeen(store, m, index, applied), index, false, limits)
  {
    var o := MutationSeen(store, m, index, applied);
    if o.beforeI64.Some? {
      BytesMatchIsDecoding(o.before, o.beforeI64.value);
      BytesMatchIsDecoding(o.after, o.afterI64.value);
    }
  }

  /** An increment seen through its counters. */
  lemma {:induction false} MutationSeenApplied(store: Store, m: Mutation<Location>, index: U64)
    requires EffectOf(Read(store, m.at), m).NewValue?
    ensures AppliedEvidence(MutationSeen(store, m, index, true), m)
  {
    var o := MutationSeen(store, m, index, true);
    if m.Increment? {
      var counter := CounterValue(o.before).value;
      I64RoundTrip(counter + m.delta);
      AddInt64Exact(counter, m.delta);
    }
  }

  lemma {:induction false} MutationSeenRefused(store: Store, m: Mutation<Location>, index: U64)
    requires m.Increment? && EffectOf(Read(store, m.at), m).Fails?
    ensures var o := MutationSeen(store, m, index, false);
      CounterConflictEvidence(o, EffectOf(o.before, m).kind, m.delta)
  {
    var o := MutationSeen(store, m, index, false);
    if o.beforeI64.Some? {
      AddInt64Exact(o.beforeI64.value, m.delta);
    }
  }

  /** Every honest receipt within the size limits is accepted. */
  lemma {:induction false} HonestReceiptAccepted(store: Store, requestID: string, conditions: seq<Condition<Location>>,
                                                 mutations: seq<Mutation<Location>>, revision: U64, limits: Limits)
    requires ValidRequestID(requestID) && revision > 0
    requires mutations != [] && Constructed(mutations)
    requires WithinLimits(store, conditions, mutations, limits)
    ensures Accepted(HonestReceipt(store, requestID, conditions, mutations, revision), requestID, limits,
                     conditions, mutations)
  {
    var receipt := HonestReceipt(store, requestID, conditions, mutations, revision);
    HonestConditions(store, requestID, conditions, mutations, revision, limits);
    HonestMutations(store, requestID, conditions, mutations, revision, limits);
    HonestOutcome(store, requestID, conditions, mutations, revision);
  }

  lemma {:induction false} HonestConditions(store: Store, requestID: string, conditions: seq<Condition<Location>>,
                                            mutations: seq<Mutation<Location>>, revision: U64, limits: Limits)
    requires WithinLimits(store, conditions, mutations, limits)
    ensures var receipt := HonestReceipt(store, requestID, conditions, mutations, revision);
      && ObservationsDecode(receipt.conditions, true, limits)
      && forall i :: 0 <= i < |conditions| ==> ConditionEvidence(receipt.conditions[i], i, conditions[i])
  {
    var receipt := HonestReceipt(store, requestID, conditions, mutations, revision);
    forall i | 0 <= i < |conditions|
      ensures receipt.conditions[i] == ConditionSeen(store, conditions[i], i)
    {
    }
  }

  /** One mutation of an honest receipt. */
  lemma {:induction false} HonestMutation(store: Store, m: Mutation<Location>, index: U64, receipt: Receipt)
    requires receipt.applied ==> EffectOf(Read(store, m.at), m).NewValue?
    requires !receipt.applied && CounterConflictAt(receipt, index) ==>
      m.Increment? && EffectOf(Read(store, m.at), m) == Fails(receipt.conflict.value.kind)
    ensures MutationEvidence(MutationSeen(store, m, index, receipt.applied), index, m, receipt)
  {
    if receipt.applied {
      MutationSeenApplied(store, m, index);
    } else if CounterConflictAt(receipt, index) {
      MutationSeenRefused(store, m, index);
    }
  }

  lemma {:induction false} HonestMutations(store: Store, requestID: string, conditions: seq<Condition<Location>>,
                                           mutations: seq<Mutation<Location>>, revision: U64, limits: Limits)
    requires Constructed(mutations) && WithinLimits(store, conditions, mutations, limits)
    ensures var receipt := HonestReceipt(store, requestID, conditions, mutations, revision);
      && ObservationsDecode(receipt.mutations, false, limits)
      && forall i :: 0 <= i < |mutations| ==> MutationEvidence(receipt.mutations[i], i, mutations[i], receipt)
  {
    var receipt := HonestReceipt(store, requestID, conditions, mutations, revision);
    forall i | 0 <= i < |mutations|
      ensures ObservationDecodes(receipt.mutations[i], i, false, limits)
      ensures MutationEvidence(receipt.mutations[i], i, mutations[i], receipt)
    {
      var m := mutations[i];
      assert receipt.applied ==> i < FirstRefused(store, mutations);
      MutationSeenDecodes(store, m, i, receipt.applied, limits);
      HonestMutation(store, m, i, receipt);
    }
  }

  lemma {:induction false} HonestOutcome(store: Store, requestID: string, conditions: seq<Condition<Location>>,
                                         mutations: seq<Mutation<Location>>, revision: U64)
    requires |conditions| < TWO64 && |mutations| < TWO64 && Constructed(mutations)
    ensures var receipt := HonestReceipt(store, requestID, conditions, mutations, revision);
      OutcomeDecodes(receipt) && ConflictDecodes(receipt)
  {
    var receipt := HonestReceipt(store, requestID, conditions, mutations, revision);
    forall i | 0 <= i < |conditions|
      ensures receipt.conditions[i].matched == Some(Holds(store, conditions[i]))
    {
      assert receipt.conditions[i] == ConditionSeen(store, conditions[i], i);
    }
    FirstsAgree(store, conditions, receipt.conditions);
    var c := FirstFailing(store, conditions);
    if c == |conditions| {
      RefusalKind(store, mutations);
    }
  }

  lemma {:induction false} FirstsAgree(store: Store, cs: seq<Condition<Location>>, os: seq<Observation>)
    requires |cs| == |os| && forall i :: 0 <= i < |os| ==> os[i].matched == Some(Holds(store, cs[i]))
    ensures FirstRejected(os) == FirstFailing(store, cs)
  {
    if cs != [] && Holds(store, cs[0]) {
      FirstsAgree(store, cs[1..], os[1..]);
    }
  }

  lemma {:induction false} RefusalKind(store: Store, ms: seq<Mutation<Location>>)
    ensures var m := FirstRefused(store, ms); m < |ms| ==> !EffectOf(Read(store, ms[m].at), ms[m]).kind.ConditionFailed?
  {
  }

  // ---- Accepted receipts are honest ----

  /** A condition's observation against the honest one; an applied receipt may report any after value for it. */
  predicate ConditionAgrees(o: Observation, honest: Observation, applied: bool) {
    o.(after := honest.after) == honest && (!applied ==> o == honest)
  }

  /**
   A mutation's observation against the honest one: an applied receipt may leave out a counter that became zero,
   a conflict may leave out the counter's numbers.
   */
  predicate MutationAgrees(o: Observation, honest: Observation, receipt: Receipt, index: int) {
    if receipt.applied then
      o.(after := honest.after) == honest && (o.after == honest.after || (o.after.None? && honest.afterI64 == Some(0)))
    else
      && (o == honest || o == honest.(beforeI64 := None, afterI64 := None))
      && (CounterConflictAt(receipt, index) ==> o == honest)
  }

  /** The conflict against the honest one: a failed condition is the first, a refused increment one at or behind it. */
  predicate ConflictAgrees(conflict: Option<ReceiptConflict>, honest: Option<ReceiptConflict>) {
    if conflict.Some? && honest.Some? && !conflict.value.kind.ConditionFailed? then
      !honest.value.kind.ConditionFailed? && honest.value.index <= conflict.value.index
    else conflict == honest
  }

  lemma {:induction false} ConditionIsHonest(o: Observation, index: U64, c: Condition<Location>, store: Store,
                                             applied: bool)
    requires ConditionEvidence(o, index, c) && o.before == Read(store, c.at) && (!applied ==> o.before == o.after)
    ensures ConditionAgrees(o, ConditionSeen(store, c, index), applied)
  {
  }

  lemma {:induction false} MutationIsHonest(o: Observation, index: U64, m: Mutation<Location>, store: Store,
                                            receipt: Receipt, limits: Limits)
    requires ObservationDecodes(o, index, false, limits) && MutationEvidence(o, index, m, receipt)
    requires o.before == Read(store, m.at) && !m.Unset?
    requires CounterConflictAt(receipt, index) ==> !receipt.applied
    ensures MutationAgrees(o, MutationSeen(store, m, index, receipt.applied), receipt, index)
  {
    if o.beforeI64.Some? {
      BytesMatchIsDecoding(o.before, o.beforeI64.value);
      BytesMatchIsDecoding(o.after, o.afterI64.value);
    }
    if receipt.applied {
      AppliedMutationSound(o, m);
      if m.Increment? {
        IncrementIsHonest(o, m, store);
      }
    }
  }

  lemma {:induction false} IncrementIsHonest(o: Observation, m: Mutation<Location>, store: Store)
    requires m.Increment? && AppliedEvidence(o, m) && o.before == Read(store, m.at)
    ensures EffectOf(o.before, m).NewValue? && o.beforeI64 == CounterValue(o.before)
    ensures o.afterI64 == CounterValue(EffectOf(o.before, m).value)
    ensures o.after.None? ==> o.afterI64 == Some(0)
  {
    AppliedMutationSound(o, m);
    BytesMatchIsDecoding(o.before, o.beforeI64.value);
    BytesMatchIsDecoding(o.after, o.afterI64.value);
  }

  /**
   An accepted receipt that observed a store is the honest receipt of that store, field by field,
   but for the four freedoms above.
   */
  lemma {:induction false} AcceptedIsHonest(receipt: Receipt, requestID: string, limits: Limits,
                                            conditions: seq<Condition<Location>>, mutations: seq<Mutation<Location>>,
                                            store: Store)
    requires Accepted(receipt, requestID, limits, conditions, mutations) && Constructed(mutations)
    requires DistinctMutations(mutations) && Observed(receipt, store)
    ensures |conditions| < TWO64 && |mutations| < TWO64 && mutations != [] && receipt.revision > 0
    ensures var honest := HonestReceipt(store, requestID, conditions, mutations, receipt.revision);
      && receipt == honest.(conflict := receipt.conflict, conditions := receipt.conditions, mutations := receipt.mutations)
      && ConflictAgrees(receipt.conflict, honest.conflict)
      && |receipt.conditions| == |honest.conditions| && |receipt.mutations| == |honest.mutations|
      && (forall i :: 0 <= i < |conditions| ==>
           ConditionAgrees(receipt.conditions[i], honest.conditions[i], receipt.applied))
      && (forall i :: 0 <= i < |mutations| ==>
           MutationAgrees(receipt.mutations[i], honest.mutations[i], receipt, i))
  {
    var honest := HonestReceipt(store, requestID, conditions, mutations, receipt.revision);
    ObservedValues(receipt, conditions, mutations, store);
    ReceiptTellsOutcome(receipt, requestID, limits, conditions, mutations, store);
    forall i | 0 <= i < |conditions|
      ensures ConditionAgrees(receipt.conditions[i], honest.conditions[i], receipt.applied)
    {
      assert ConditionEvidence(receipt.conditions[i], i, conditions[i]);
      ConditionIsHonest(receipt.conditions[i], i, conditions[i], store, receipt.applied);
    }
    forall i | 0 <= i < |mutations|
      ensures MutationAgrees(receipt.mutations[i], honest.mutations[i], receipt, i)
    {
      assert MutationEvidence(receipt.mutations[i], i, mutations[i], receipt);
      assert ObservationDecodes(receipt.mutations[i], i, false, limits);
      MutationIsHonest(receipt.mutations[i], i, mutations[i], store, receipt, limits);
    }
  }

  // ---- Bounds of accepted receipts ----

  /** The keyspaces a receipt may name, and request ids, letter by letter. */
  lemma {:induction false} NamesShow(keyspace: string, allowInternal: bool, requestID: string)
    ensures KnownKeyspace(keyspace, allowInternal) <==>
      || (allowInternal && keyspace == "__revision_stream_v1__")
      || (&& 22 <= |keyspace| <= 85 && keyspace[..21] == "__user_conditional__."
          && forall i :: 21 <= i < |keyspace| ==> NameChar(keyspace[i]))
    ensures ValidRequestID(requestID) <==>
      1 <= |requestID| <= 128 && forall i :: 0 <= i < |requestID| ==> NameChar(requestID[i]) || requestID[i] == ':'
  {
    if USER_PREFIX <= keyspace {
      var name := keyspace[21..];
      assert keyspace == USER_PREFIX + name;
      assert forall i :: 21 <= i < |keyspace| ==> keyspace[i] == name[i - 21];
      assert forall i :: 0 <= i < |name| ==> name[i] == keyspace[i + 21];
    }
  }

  /** The observation names a known keyspace and stays within the limits. */
  predicate Bounded(o: Observation, limits: Limits) {
    && KnownKeyspace(o.keyspace, limits.allowInternal) && |o.key| <= 65_536
    && (o.before.Some? ==> |o.before.value| <= limits.maxValueBytes)
    && (o.after.Some? ==> |o.after.value| <= limits.maxValueBytes)
  }

  lemma {:induction false} AcceptedInBounds(receipt: Receipt, requestID: string, limits: Limits,
                                            conditions: seq<Condition<Location>>, mutations: seq<Mutation<Location>>)
    requires Accepted(receipt, requestID, limits, conditions, mutations)
    ensures receipt.version == 2 && ValidRequestID(receipt.requestID)
    ensures forall i :: 0 <= i < |conditions| ==> Bounded(receipt.conditions[i], limits)
    ensures forall i :: 0 <= i < |mutations| ==> Bounded(receipt.mutations[i], limits)
  {
    forall i | 0 <= i < |conditions|
      ensures Bounded(receipt.conditions[i], limits)
    {
      assert ObservationDecodes(receipt.conditions[i], i, true, limits);
    }
    forall i | 0 <= i < |mutations|
      ensures Bounded(receipt.mutations[i], limits)
    {
      assert ObservationDecodes(receipt.mutations[i], i, false, limits);
    }
  }
}
