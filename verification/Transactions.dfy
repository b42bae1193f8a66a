/**
 Conditional transactions: the reference semantics (conditions in order, then put, delete or
 checked increment) and the byte comparisons and counter arithmetic both sides share.
 */
module Transactions {
  import opened Words

  datatype Operator =
    | Equal | NotEqual | LessThan | LessOrEqual | GreaterThan | GreaterOrEqual
    | UnknownOperator(text: string)

  /** A key inside a keyspace. */
  datatype Location = Location(keyspace: string, key: Bytes)

  /** A condition on a key; K is a plain key in a request and a location in the store. */
  datatype Condition<+K> = Condition(at: K, expected: Option<Bytes>, operator: Operator)

  /** `Unset` is a mutation value that no constructor made. */
  datatype Mutation<+K> =
    | Put(at: K, value: Bytes)
    | Delete(at: K)
    | Increment(at: K, delta: I64)
    | Unset(at: K)

  /** Every mutation came from a constructor. */
  predicate Constructed<K>(mutations: seq<Mutation<K>>) {
    forall i :: 0 <= i < |mutations| ==> !mutations[i].Unset?
  }

  type Store = map<Location, Bytes>

  function Read(store: Store, at: Location): Option<Bytes> {
    if at in store then Some(store[at]) else None
  }

  function Write(store: Store, at: Location, value: Option<Bytes>): (r: Store)
    ensures Read(r, at) == value
    ensures forall other :: other != at ==> Read(r, other) == Read(store, other)
  {
    if value.Some? then store[at := value.value] else store - {at}
  }

  // ---- Placing plain keys in a keyspace ----

  function Relocate(keyspace: string, m: Mutation<Bytes>): Mutation<Location> {
    match m
    case Put(key, value) => Put(Location(keyspace, key), value)
    case Delete(key) => Delete(Location(keyspace, key))
    case Increment(key, delta) => Increment(Location(keyspace, key), delta)
    case Unset(key) => Unset(Location(keyspace, key))
  }

  /** All conditions placed in one keyspace. */
  function PlaceConditions(keyspace: string, cs: seq<Condition<Bytes>>): (r: seq<Condition<Location>>)
    ensures |r| == |cs|
  {
    seq(|cs|, i requires 0 <= i < |cs| => Condition(Location(keyspace, cs[i].at), cs[i].expected, cs[i].operator))
  }

  function PlaceMutations(keyspace: string, ms: seq<Mutation<Bytes>>): (r: seq<Mutation<Location>>)
    ensures |r| == |ms|
  {
    seq(|ms|, i requires 0 <= i < |ms| => Relocate(keyspace, ms[i]))
  }

  // ---- Comparisons ----

  /** An absent value is below every present one; present values compare bytewise. */
  function CompareNullable(left: Option<Bytes>, right: Option<Bytes>): (c: int) {
    if left.None? then (if right.None? then 0 else -1)
    else if right.None? then 1
    else if LexLess(left.value, right.value) then -1
    else if left.value == right.value then 0
    else 1
  }

  predicate Matches(actual: Option<Bytes>, expected: Option<Bytes>, operator: Operator) {
    var c := CompareNullable(actual, expected);
    match operator
    case Equal => c == 0
    case NotEqual => c != 0
    case LessThan => c < 0
    case LessOrEqual => c <= 0
    case GreaterThan => c > 0
    case GreaterOrEqual => c >= 0
    case UnknownOperator(_) => false
  }

  /**
   The comparison is a total order on nullable byte strings, bytewise with absent below everything and
   apart from empty, and the six operators are its relations.
   */
  lemma {:induction false} CompareIsOrder(a: Option<Bytes>, b: Option<Bytes>, c: Option<Bytes>)
    ensures CompareNullable(a, b) == 0 <==> a == b
    ensures CompareNullable(a, b) == -CompareNullable(b, a)
    ensures CompareNullable(a, b) < 0 && CompareNullable(b, c) < 0 ==> CompareNullable(a, c) < 0
    ensures Matches(a, b, Equal) <==> a == b
    ensures Matches(a, b, NotEqual) <==> a != b
    ensures Matches(a, b, LessThan) <==> b.Some? && (a.None? || LexLess(a.value, b.value))
    ensures Matches(a, b, GreaterThan) <==> a.Some? && (b.None? || LexLess(b.value, a.value))
    ensures Matches(a, b, LessOrEqual) <==> !Matches(a, b, GreaterThan)
    ensures Matches(a, b, GreaterOrEqual) <==> !Matches(a, b, LessThan)
    ensures forall text :: !Matches(a, b, UnknownOperator(text))
  {
    if a.Some? && b.Some? {
      LexTotal(a.value, b.value);
      LexTotal(b.value, a.value);
      if c.Some? {
        LexTransitive(a.value, b.value, c.value);
      }
    }
  }

  lemma {:induction false} LexTransitive(a: Bytes, b: Bytes, c: Bytes)
    ensures LexLess(a, b) && LexLess(b, c) ==> LexLess(a, c)
    decreases |a|
  {
    if a != [] && b != [] && c != [] {
      LexTransitive(a[1..], b[1..], c[1..]);
    }
  }

  // ---- Counters ----

  function Wrap(x: int): I64 {
    Signed(x % TWO64)
  }

  /** Two's complement addition with the flag the source derives from the wrapped sum. */
  function AddInt64(left: I64, right: I64): (r: (I64, bool)) {
    var value := Wrap(left + right);
    (value, (right > 0 && value < left) || (right < 0 && value > left))
  }

  /** The flag is raised exactly when the true sum leaves the signed range; otherwise the sum is exact. */
  lemma {:induction false} AddInt64Exact(left: I64, right: I64)
    ensures AddInt64(left, right).1 <==> left + right < I64_MIN || left + right > I64_MAX
    ensures !AddInt64(left, right).1 ==> AddInt64(left, right).0 == left + right
  {
    var sum := left + right;
    if sum < I64_MIN {
      assert sum % TWO64 == sum + TWO64;
    } else if sum < 0 {
      assert sum % TWO64 == sum + TWO64;
    } else {
      assert sum % TWO64 == sum;
    }
  }

  function EncodeI64(x: I64): (b: Bytes)
    ensures |b| == 8
  {
    BE(Unsigned(x), 8)
  }

  function DecodeI64(b: Bytes): I64
    requires |b| == 8
  {
    Pow256Values();
    Signed(FromBE(b))
  }

  lemma {:induction false} I64RoundTrip(x: I64)
    ensures DecodeI64(EncodeI64(x)) == x
  {
    Pow256Values();
    BERoundTrip(Unsigned(x), 8);
    SignedUnsigned(x);
  }

  /** The number a counter holds: zero when absent, none when it is not eight bytes. */
  function CounterValue(value: Option<Bytes>): Option<I64> {
    if value.None? then Some(0) else if |value.value| == 8 then Some(DecodeI64(value.value)) else None
  }

  predicate BytesMatchI64(value: Option<Bytes>, expected: I64) {
    if value.None? then expected == 0 else |value.value| == 8 && DecodeI64(value.value) == expected
  }

  lemma {:induction false} BytesMatchIsDecoding(value: Option<Bytes>, expected: I64)
    ensures BytesMatchI64(value, expected) <==> CounterValue(value) == Some(expected)
  {
  }

  // ---- The reference transaction ----

  datatype ConflictKind = ConditionFailed | CounterInvalid | CounterOverflow | CounterUnderflow

  datatype Effect = NewValue(value: Option<Bytes>) | Fails(kind: ConflictKind)

  /** What one mutation does to the value it finds. */
  function EffectOf<K>(before: Option<Bytes>, m: Mutation<K>): Effect {
    match m
    case Put(_, value) => NewValue(Some(value))
    case Delete(_) => NewValue(None)
    case Increment(_, delta) =>
      var counter := CounterValue(before);
      if counter.None? then Fails(CounterInvalid)
      else if counter.value + delta > I64_MAX then Fails(CounterOverflow)
      else if counter.value + delta < I64_MIN then Fails(CounterUnderflow)
      else NewValue(Some(EncodeI64(counter.value + delta)))
    case Unset(_) => Fails(CounterInvalid)
  }

  predicate Holds(store: Store, c: Condition<Location>) {
    Matches(Read(store, c.at), c.expected, c.operator)
  }

  /** Index of the first condition that does not hold, or the number of conditions. */
  function FirstFailing(store: Store, conditions: seq<Condition<Location>>): (i: nat)
    ensures i <= |conditions|
    ensures forall j :: 0 <= j < i ==> Holds(store, conditions[j])
    ensures i < |conditions| ==> !Holds(store, conditions[i])
  {
    if conditions == [] then 0
    else if !Holds(store, conditions[0]) then 0
    else 1 + FirstFailing(store, conditions[1..])
  }

  function FirstRefused(store: Store, mutations: seq<Mutation<Location>>): (i: nat)
    ensures i <= |mutations|
    ensures forall j :: 0 <= j < i ==> EffectOf(Read(store, mutations[j].at), mutations[j]).NewValue?
    ensures i < |mutations| ==> EffectOf(Read(store, mutations[i].at), mutations[i]).Fails?
  {
    if mutations == [] then 0
    else if EffectOf(Read(store, mutations[0].at), mutations[0]).Fails? then 0
    else 1 + FirstRefused(store, mutations[1..])
  }

  /** All mutations applied one after another to the values of the store before the transaction. */
  function ApplyAll(store: Store, mutations: seq<Mutation<Location>>): (r: Store)
    requires FirstRefused(store, mutations) == |mutations|
    decreases |mutations|
  {
    if mutations == [] then store
    else
      var last := mutations[|mutations| - 1];
      RefusedPrefix(store, mutations);
      Write(ApplyAll(store, mutations[..|mutations| - 1]), last.at, EffectOf(Read(store, last.at), last).value)
  }

  lemma {:induction false} RefusedPrefix(store: Store, mutations: seq<Mutation<Location>>)
    requires mutations != [] && FirstRefused(store, mutations) == |mutations|
    ensures FirstRefused(store, mutations[..|mutations| - 1]) == |mutations| - 1
    ensures EffectOf(Read(store, mutations[|mutations| - 1].at), mutations[|mutations| - 1]).NewValue?
  {
    var front := mutations[..|mutations| - 1];
    assert forall j :: 0 <= j < |front| ==> front[j] == mutations[j];
  }

  datatype Outcome = Applied(store: Store) | Conflict(kind: ConflictKind, index: nat)

  /** Conditions first and in order; then every mutation or none. */
  function Transact(store: Store, conditions: seq<Condition<Location>>, mutations: seq<Mutation<Location>>): Outcome {
    var c := FirstFailing(store, conditions);
    if c < |conditions| then Conflict(ConditionFailed, c)
    else
      var m := FirstRefused(store, mutations);
      if m < |mutations| then Conflict(EffectOf(Read(store, mutations[m].at), mutations[m]).kind, m)
      else Applied(ApplyAll(store, mutations))
  }

  predicate DistinctMutations(mutations: seq<Mutation<Location>>) {
    forall i, j :: 0 <= i < j < |mutations| ==> mutations[i].at != mutations[j].at
  }

  /** The last mutation gives its own key its effect and no other key another value. */
  lemma {:induction false} LastApplied(store: Store, mutations: seq<Mutation<Location>>)
    requires mutations != [] && FirstRefused(store, mutations) == |mutations|
    ensures FirstRefused(store, mutations[..|mutations| - 1]) == |mutations| - 1
    ensures var front, last := mutations[..|mutations| - 1], mutations[|mutations| - 1];
      && EffectOf(Read(store, last.at), last) == NewValue(Read(ApplyAll(store, mutations), last.at))
      && forall at :: at != last.at ==> Read(ApplyAll(store, mutations), at) == Read(ApplyAll(store, front), at)
  {
    RefusedPrefix(store, mutations);
  }

  /** After an applied transaction each mutated key holds its effect and every other key is unchanged. */
  lemma {:induction false} ApplyAllReads(store: Store, mutations: seq<Mutation<Location>>)
    requires FirstRefused(store, mutations) == |mutations| && DistinctMutations(mutations)
    ensures forall i :: 0 <= i < |mutations| ==>
      EffectOf(Read(store, mutations[i].at), mutations[i])
      == NewValue(Read(ApplyAll(store, mutations), mutations[i].at))
    ensures forall at :: (forall i :: 0 <= i < |mutations| ==> mutations[i].at != at) ==>
      Read(ApplyAll(store, mutations), at) == Read(store, at)
    decreases |mutations|
  {
    if mutations == [] {
    } else {
      var front, last := mutations[..|mutations| - 1], mutations[|mutations| - 1];
      LastApplied(store, mutations);
      ApplyAllReads(store, front);
      forall i | 0 <= i < |mutations|
        ensures EffectOf(Read(store, mutations[i].at), mutations[i])
             == NewValue(Read(ApplyAll(store, mutations), mutations[i].at))
      {
        if i < |front| {
          assert front[i] == mutations[i];
        }
      }
      forall at | forall i :: 0 <= i < |mutations| ==> mutations[i].at != at
        ensures Read(ApplyAll(store, mutations), at) == Read(store, at)
      {
        assert forall i :: 0 <= i < |front| ==> front[i] == mutations[i];
      }
    }
  }
}
