/** Sealing a conditional request, its JSON text and the running estimate of the text's size. */
module Requests {
  import opened Words
  import opened Numerals
  import opened Transactions
  import opened Receipts
  import opened Sealing

  const MAX_ITEMS := 1_000_000
  const MAX_REQUEST_BYTES := 0x200_0000

  // ---- Byte arrays as JSON ----

  /** The array items written so far, with commas between them. */
  function ItemsJson(value: Bytes): string {
    if value == [] then ""
    else if |value| == 1 then Digits(value[0])
    else ItemsJson(value[..|value| - 1]) + "," + Digits(value[|value| - 1])
  }

  function ArrayJson(value: Bytes): string {
    "[" + ItemsJson(value) + "]"
  }

  lemma {:induction false} ItemsStep(value: Bytes, i: nat)
    requires i < |value|
    ensures ItemsJson(value[..i + 1]) == ItemsJson(value[..i]) + (if i == 0 then "" else ",") + Digits(value[i])
  {
    assert value[..i + 1][..i] == value[..i];
  }

  /** The marshaller's loop. */
  method MarshalBytes(value: Bytes) returns (buffer: string)
    ensures buffer == ArrayJson(value)
  {
    buffer := "[";
    for i := 0 to |value|
      invariant buffer == "[" + ItemsJson(value[..i])
    {
      if i != 0 {
        buffer := buffer + ",";
      }
      buffer := buffer + Digits(value[i]);
      ItemsStep(value, i);
    }
    assert value[..|value|] == value;
    buffer := buffer + "]";
  }

  lemma {:induction false} ByteDigits(b: Byte)
    ensures |Digits(b)| == if b < 10 then 1 else if b < 100 then 2 else 3
  {
    assert Pow10(1) == 10 && Pow10(2) == 100 && Pow10(3) == 1000;
    DigitsLength(b, 1);
    DigitsLength(b, 2);
    DigitsLength(b, 3);
  }

  /** Counting the size of the array text is exact. */
  method ByteArrayJsonSize(value: Bytes) returns (size: nat)
    ensures size == |ArrayJson(value)|
  {
    size := 2;
    for i := 0 to |value|
      invariant size == 2 + |ItemsJson(value[..i])|
    {
      if i != 0 {
        size := size + 1;
      }
      if value[i] < 10 {
        size := size + 1;
      } else if value[i] < 100 {
        size := size + 2;
      } else {
        size := size + 3;
      }
      ItemsStep(value, i);
      ByteDigits(value[i]);
    }
    assert value[..|value|] == value;
  }

  // ---- The wire request ----

  datatype WireCondition = WireCondition(key: Bytes, expected: Option<Bytes>, operator: string)

  datatype WireMutation = WireMutation(operation: string, key: Bytes, value: Option<Bytes>, delta: Option<string>)

  datatype WireRequest = WireRequest(
    version: nat, requestID: string, namespace: string, conditions: seq<WireCondition>, mutations: seq<WireMutation>)

  function OperatorText(operator: Operator): string {
    match operator
    case Equal => "eq"
    case NotEqual => "ne"
    case LessThan => "lt"
    case LessOrEqual => "le"
    case GreaterThan => "gt"
    case GreaterOrEqual => "ge"
    case UnknownOperator(text) => text
  }

  function FormatInt(x: int): string {
    if x < 0 then "-" + Digits(-x) else Digits(x)
  }

  function ToWireCondition(c: Condition<Bytes>): WireCondition {
    WireCondition(c.at, c.expected, OperatorText(c.operator))
  }

  function ToWireMutation(m: Mutation<Bytes>): WireMutation {
    match m
    case Put(key, value) => WireMutation("put", key, Some(value), None)
    case Delete(key) => WireMutation("delete", key, None, None)
    case Increment(key, delta) => WireMutation("increment", key, None, Some(FormatInt(delta)))
    case Unset(key) => WireMutation("", key, None, None)
  }

  function ToWireConditions(cs: seq<Condition<Bytes>>): seq<WireCondition> {
    if cs == [] then [] else ToWireConditions(cs[..|cs| - 1]) + [ToWireCondition(cs[|cs| - 1])]
  }

  function ToWireMutations(ms: seq<Mutation<Bytes>>): seq<WireMutation> {
    if ms == [] then [] else ToWireMutations(ms[..|ms| - 1]) + [ToWireMutation(ms[|ms| - 1])]
  }

  function ConditionJson(c: WireCondition): string {
    "{\"key\":" + ArrayJson(c.key)
    + ",\"expected\":" + (if c.expected.None? then "null" else ArrayJson(c.expected.value))
    + ",\"operator\":\"" + c.operator + "\"}"
  }

  /** Value and delta are left out when they are not set. */
  function MutationJson(m: WireMutation): string {
    "{\"op\":\"" + m.operation + "\",\"key\":" + ArrayJson(m.key)
    + (if m.value.None? then "" else ",\"value\":" + ArrayJson(m.value.value))
    + (if m.delta.None? then "" else ",\"delta\":\"" + m.delta.value + "\"") + "}"
  }

  function ConditionsJson(cs: seq<WireCondition>): string {
    if cs == [] then ""
    else if |cs| == 1 then ConditionJson(cs[0])
    else ConditionsJson(cs[..|cs| - 1]) + "," + ConditionJson(cs[|cs| - 1])
  }

  function MutationsJson(ms: seq<WireMutation>): string {
    if ms == [] then ""
    else if |ms| == 1 then MutationJson(ms[0])
    else MutationsJson(ms[..|ms| - 1]) + "," + MutationJson(ms[|ms| - 1])
  }

  /** The request as the wire carries it; the names hold no character that JSON escapes. */
  function RequestJson(r: WireRequest): string {
    "{\"version\":" + Digits(r.version)
    + ",\"request_id\":\"" + r.requestID
    + "\",\"namespace\":\"" + r.namespace
    + "\",\"conditions\":[" + ConditionsJson(r.conditions)
    + "],\"mutations\":[" + MutationsJson(r.mutations)
    + "]}"
  }

  // ---- What can be sealed ----

  predicate SealableCondition(c: Condition<Bytes>) {
    && 1 <= |c.at| <= 65_536 && !c.operator.UnknownOperator?
    && (c.expected.Some? ==> |c.expected.value| <= 0x10_0000)
  }

  predicate SealableMutation(m: Mutation<Bytes>) {
    1 <= |m.at| <= 65_536 && !m.Unset? && (m.Put? ==> |m.value| <= 0x10_0000)
  }

  /** The array bytes a condition adds to the estimate. */
  function ConditionArrays(c: Condition<Bytes>): nat {
    |ArrayJson(c.at)| + if c.expected.None? then 0 else |ArrayJson(c.expected.value)|
  }

  function MutationArrays(m: Mutation<Bytes>): nat {
    |ArrayJson(m.at)| + if m.Put? then |ArrayJson(m.value)| else 0
  }

  function FixedEstimate(namespace: string, requestID: string, items: nat): nat {
    1_024 + |namespace| + |requestID| + 512 * items
  }

  /** The estimate when every item has been added. */
  function Estimate(namespace: string, requestID: string, cs: seq<Condition<Bytes>>, ms: seq<Mutation<Bytes>>): nat {
    FixedEstimate(namespace, requestID, |cs| + |ms|) + Total(cs, ConditionArrays) + Total(ms, MutationArrays)
  }

  /** The requests that can be sealed, in numbers. */
  predicate Sealable(namespace: string, requestID: string, cs: seq<Condition<Bytes>>, ms: seq<Mutation<Bytes>>) {
    && ValidNamespace(namespace) && ValidRequestID(requestID)
    && |cs| <= 1_000_000 && 0 < |ms| <= 1_000_000
    && (forall i :: 0 <= i < |cs| ==> SealableCondition(cs[i]))
    && (forall i :: 0 <= i < |ms| ==> SealableMutation(ms[i]))
    && Distinct(cs, ConditionKey) && Distinct(ms, MutationKey)
    && Estimate(namespace, requestID, cs, ms) <= 0x200_0000
  }

  function ToWire(namespace: string, requestID: string, cs: seq<Condition<Bytes>>,
                  ms: seq<Mutation<Bytes>>): WireRequest
  {
    WireRequest(TRANSACTION_VERSION, requestID, namespace, ToWireConditions(cs), ToWireMutations(ms))
  }

  function ConditionKey(c: Condition<Bytes>): Bytes { c.at }

  function MutationKey(m: Mutation<Bytes>): Bytes { m.at }

  predicate ConditionsFit(cs: seq<Condition<Bytes>>, start: nat) {
    Fits(cs, start, SealableCondition, ConditionKey, ConditionArrays, MAX_REQUEST_BYTES)
  }

  predicate MutationsFit(ms: seq<Mutation<Bytes>>, start: nat) {
    Fits(ms, start, SealableMutation, MutationKey, MutationArrays, MAX_REQUEST_BYTES)
  }

  /** One condition: its own form, the running estimate, then the key set. */
  method SealCondition(condition: Condition<Bytes>, keys: set<Bytes>, start: nat)
    returns (wire: Option<WireCondition>, estimate: nat)
    ensures wire.Some? <==>
      Passes(condition, keys, start, SealableCondition, ConditionKey, ConditionArrays, MAX_REQUEST_BYTES)
    ensures wire.Some? ==> wire.value == ToWireCondition(condition) && estimate == start + ConditionArrays(condition)
  {
    estimate := start;
    if |condition.at| == 0 || |condition.at| > MAX_KEY_BYTES || condition.operator.UnknownOperator? {
      return None, estimate;
    }
    if condition.expected.Some? && |condition.expected.value| > MAX_VALUE_BYTES {
      return None, estimate;
    }
    var size := ByteArrayJsonSize(condition.at);
    estimate := estimate + size;
    if condition.expected.Some? {
      size := ByteArrayJsonSize(condition.expected.value);
      estimate := estimate + size;
    }
    if estimate > MAX_REQUEST_BYTES || condition.at in keys {
      return None, estimate;
    }
    wire := Some(WireCondition(condition.at, condition.expected, OperatorText(condition.operator)));
  }

  /** One mutation: its key, the key set, its own form, then the running estimate. */
  method SealMutation(mutation: Mutation<Bytes>, keys: set<Bytes>, start: nat)
    returns (wire: Option<WireMutation>, estimate: nat)
    ensures wire.Some? <==>
      Passes(mutation, keys, start, SealableMutation, MutationKey, MutationArrays, MAX_REQUEST_BYTES)
    ensures wire.Some? ==> wire.value == ToWireMutation(mutation) && estimate == start + MutationArrays(mutation)
  {
    estimate := start;
    if |mutation.at| == 0 || |mutation.at| > MAX_KEY_BYTES || mutation.at in keys {
      return None, estimate;
    }
    var item;
    match mutation {
      case Put(key, value) =>
        if |value| > MAX_VALUE_BYTES {
          return None, estimate;
        }
        item := WireMutation("put", key, Some(value), None);
      case Delete(key) =>
        item := WireMutation("delete", key, None, None);
      case Increment(key, delta) =>
        item := WireMutation("increment", key, None, Some(FormatInt(delta)));
      case Unset(_) =>
        return None, estimate;
    }
    var size := ByteArrayJsonSize(mutation.at);
    estimate := estimate + size;
    if mutation.Put? {
      size := ByteArrayJsonSize(mutation.value);
      estimate := estimate + size;
    }
    wire := if estimate > MAX_REQUEST_BYTES then None else Some(item);
  }

  /** The conditions are accepted exactly when each is in order, keys are distinct and the estimate fits. */
  method SealConditions(cs: seq<Condition<Bytes>>, start: nat) returns (wire: Option<seq<WireCondition>>, estimate: nat)
    ensures wire.Some? <==> ConditionsFit(cs, start)
    ensures wire.Some? ==> wire.value == ToWireConditions(cs) && estimate == start + Total(cs, ConditionArrays)
  {
    estimate := start;
    var request: seq<WireCondition> := [];
    var keys: set<Bytes> := {};
    for index := 0 to |cs|
      invariant ConditionsFit(cs[..index], start) && estimate == start + Total(cs[..index], ConditionArrays)
      invariant keys == KeysOf(cs[..index], ConditionKey) && request == ToWireConditions(cs[..index])
    {
      FitsStep(cs, index, start, SealableCondition, ConditionKey, ConditionArrays, MAX_REQUEST_BYTES);
      assert cs[..index + 1][..index] == cs[..index];
      var item;
      item, estimate := SealCondition(cs[index], keys, estimate);
      if item.None? {
        return None, estimate;
      }
      keys := keys + {cs[index].at};
      request := request + [item.value];
    }
    assert cs[..|cs|] == cs;
    wire := Some(request);
  }

  method SealMutations(ms: seq<Mutation<Bytes>>, start: nat) returns (wire: Option<seq<WireMutation>>, estimate: nat)
    ensures wire.Some? <==> MutationsFit(ms, start)
    ensures wire.Some? ==> wire.value == ToWireMutations(ms) && estimate == start + Total(ms, MutationArrays)
  {
    estimate := start;
    var request: seq<WireMutation> := [];
    var keys: set<Bytes> := {};
    for index := 0 to |ms|
      invariant MutationsFit(ms[..index], start) && estimate == start + Total(ms[..index], MutationArrays)
      invariant keys == KeysOf(ms[..index], MutationKey) && request == ToWireMutations(ms[..index])
    {
      FitsStep(ms, index, start, SealableMutation, MutationKey, MutationArrays, MAX_REQUEST_BYTES);
      assert ms[..index + 1][..index] == ms[..index];
      var item;
      item, estimate := SealMutation(ms[index], keys, estimate);
      if item.None? {
        return None, estimate;
      }
      keys := keys + {ms[index].at};
      request := request + [item.value];
    }
    assert ms[..|ms|] == ms;
    wire := Some(request);
  }

  /** Sealing accepts exactly the sealable requests and carries every field over. */
  method BuildRequest(namespace: string, requestID: string, cs: seq<Condition<Bytes>>, ms: seq<Mutation<Bytes>>)
    returns (r: Option<WireRequest>)
    ensures r.Some? <==> Sealable(namespace, requestID, cs, ms)
    ensures r.Some? ==> r.value == ToWire(namespace, requestID, cs, ms)
  {
    if !ValidNamespace(namespace) || !ValidRequestID(requestID) {
      return None;
    }
    if |cs| > MAX_ITEMS || |ms| == 0 || |ms| > MAX_ITEMS {
      return None;
    }
    var estimate := 1_024 + (|namespace| + |requestID|) + (|cs| + |ms|) * 512;
    if estimate > MAX_REQUEST_BYTES {
      return None;
    }
    var conditions, mutations;
    conditions, estimate := SealConditions(cs, estimate);
    if conditions.None? {
      return None;
    }
    mutations, estimate := SealMutations(ms, estimate);
    if mutations.None? {
      return None;
    }
    r := Some(WireRequest(TRANSACTION_VERSION, requestID, namespace, conditions.value, mutations.value));
  }

  // ---- The wire request says what was asked ----

  /** The decimal text of an integer: a minus sign exactly for the negative ones, then the digits of its size. */
  lemma {:induction false} FormatIntShows(x: int)
    ensures x < 0 ==> FormatInt(x) != "" && FormatInt(x)[0] == '-' && AllDigits(FormatInt(x)[1..])
                      && Number(FormatInt(x)[1..]) == -x
    ensures x >= 0 ==> AllDigits(FormatInt(x)) && Number(FormatInt(x)) == x
    ensures FormatInt(x) != "-0" && (FormatInt(x)[0] == '0' ==> FormatInt(x) == "0")
  {
    if x < 0 {
      NumberOfDigits(-x);
      assert FormatInt(x)[1..] == Digits(-x);
      assert "-0"[1..] == "0" && Number("0") == 0 by {
        assert "0"[..0] == "";
      }
    } else {
      NumberOfDigits(x);
      assert Digits(0) == "0";
    }
  }

  lemma {:induction false} FormatIntInjective(x: int, y: int)
    requires FormatInt(x) == FormatInt(y)
    ensures x == y
  {
    FormatIntShows(x);
    FormatIntShows(y);
    SignShows(x);
    SignShows(y);
  }

  lemma {:induction false} SignShows(x: int)
    ensures FormatInt(x) != "" && (FormatInt(x)[0] == '-' <==> x < 0)
  {
    assert x >= 0 ==> IsDigit(Digits(x)[0]);
  }

  lemma {:induction false} OperatorTextInjective(a: Operator, b: Operator)
    requires !a.UnknownOperator? && !b.UnknownOperator? && OperatorText(a) == OperatorText(b)
    ensures a == b
  {
    OperatorLetters(a);
    OperatorLetters(b);
  }

  lemma {:induction false} OperatorLetters(o: Operator)
    requires !o.UnknownOperator?
    ensures var s := OperatorText(o);
      && |s| == 2 && (s[0] == 'e' <==> o.Equal?) && (s[0] == 'n' <==> o.NotEqual?)
      && (s[0] == 'l' <==> o.LessThan? || o.LessOrEqual?) && (s[1] == 't' <==> o.LessThan? || o.GreaterThan?)
  {
  }

  lemma {:induction false} WireMutationInjective(a: Mutation<Bytes>, b: Mutation<Bytes>)
    requires !a.Unset? && !b.Unset? && ToWireMutation(a) == ToWireMutation(b)
    ensures a == b
  {
    assert "put"[0] == 'p' && "delete"[0] == 'd' && "increment"[0] == 'i';
    if a.Increment? && b.Increment? {
      FormatIntInjective(a.delta, b.delta);
    }
  }

  lemma {:induction false} WireConditionsInjective(a: seq<Condition<Bytes>>, b: seq<Condition<Bytes>>)
    requires forall i :: 0 <= i < |a| ==> !a[i].operator.UnknownOperator?
    requires forall i :: 0 <= i < |b| ==> !b[i].operator.UnknownOperator?
    requires ToWireConditions(a) == ToWireConditions(b)
    ensures a == b
    decreases |a|
  {
    ToWireConditionsAt(a);
    ToWireConditionsAt(b);
    forall i | 0 <= i < |a|
      ensures a[i] == b[i]
    {
      assert ToWireConditions(a)[i] == ToWireConditions(b)[i];
      OperatorTextInjective(a[i].operator, b[i].operator);
    }
  }

  lemma {:induction false} ToWireConditionsAt(cs: seq<Condition<Bytes>>)
    ensures |ToWireConditions(cs)| == |cs|
    ensures forall i :: 0 <= i < |cs| ==> ToWireConditions(cs)[i] == ToWireCondition(cs[i])
  {
    if cs != [] {
      ToWireConditionsAt(cs[..|cs| - 1]);
    }
  }

  lemma {:induction false} ToWireMutationsAt(ms: seq<Mutation<Bytes>>)
    ensures |ToWireMutations(ms)| == |ms|
    ensures forall i :: 0 <= i < |ms| ==> ToWireMutations(ms)[i] == ToWireMutation(ms[i])
  {
    if ms != [] {
      ToWireMutationsAt(ms[..|ms| - 1]);
    }
  }

  lemma {:induction false} WireMutationsInjective(a: seq<Mutation<Bytes>>, b: seq<Mutation<Bytes>>)
    requires forall i :: 0 <= i < |a| ==> !a[i].Unset?
    requires forall i :: 0 <= i < |b| ==> !b[i].Unset?
    requires ToWireMutations(a) == ToWireMutations(b)
    ensures a == b
  {
    ToWireMutationsAt(a);
    ToWireMutationsAt(b);
    forall i | 0 <= i < |a|
      ensures a[i] == b[i]
    {
      assert ToWireMutations(a)[i] == ToWireMutations(b)[i];
      WireMutationInjective(a[i], b[i]);
    }
  }

  /** Two sealed requests with the same wire form are the same request: nothing that was asked is lost. */
  lemma {:induction false} WireInjective(namespace: string, requestID: string, cs: seq<Condition<Bytes>>,
                                         ms: seq<Mutation<Bytes>>, namespace': string, requestID': string,
                                         cs': seq<Condition<Bytes>>, ms': seq<Mutation<Bytes>>)
    requires Sealable(namespace, requestID, cs, ms) && Sealable(namespace', requestID', cs', ms')
    requires ToWire(namespace, requestID, cs, ms) == ToWire(namespace', requestID', cs', ms')
    ensures namespace == namespace' && requestID == requestID' && cs == cs' && ms == ms'
  {
    WireConditionsInjective(cs, cs');
    WireMutationsInjective(ms, ms');
  }

  /** The words of the protocol: operators, operations, and which of value and delta an operation carries. */
  lemma {:induction false} WireWords(key: Bytes, value: Bytes, delta: I64)
    ensures OperatorText(Equal) == "eq" && OperatorText(NotEqual) == "ne" && OperatorText(LessThan) == "lt"
    ensures OperatorText(LessOrEqual) == "le" && OperatorText(GreaterThan) == "gt" && OperatorText(GreaterOrEqual) == "ge"
    ensures ToWireMutation(Put(key, value)) == WireMutation("put", key, Some(value), None)
    ensures ToWireMutation(Delete(key)) == WireMutation("delete", key, None, None)
    ensures ToWireMutation(Increment(key, -5)) == WireMutation("increment", key, None, Some("-5"))
    ensures TRANSACTION_VERSION == 2
  {
    assert "-" + Digits(5) == "-5";
  }

  // ---- The estimate bounds the text ----

  lemma {:induction false} DeltaLength(delta: I64)
    ensures |FormatInt(delta)| <= 20
  {
    assert Pow10(6) == 1_000_000;
    assert Pow10(12) == 1_000_000_000_000;
    assert Pow10(19) == 10_000_000_000_000_000_000;
    var size: nat := if delta < 0 then 0 - delta else delta;
    DigitsLength(size, 19);
  }

  lemma {:induction false} ConditionLength(c: Condition<Bytes>)
    requires !c.operator.UnknownOperator?
    ensures |ConditionJson(ToWireCondition(c))| <= 40 + ConditionArrays(c)
  {
    assert |OperatorText(c.operator)| == 2;
  }

  lemma {:induction false} MutationLength(m: Mutation<Bytes>)
    requires !m.Unset?
    ensures |MutationJson(ToWireMutation(m))| <= 64 + MutationArrays(m)
  {
    if m.Increment? {
      DeltaLength(m.delta);
    }
  }

  lemma {:induction false} ConditionsLength(cs: seq<Condition<Bytes>>)
    requires forall i :: 0 <= i < |cs| ==> SealableCondition(cs[i])
    ensures |ConditionsJson(ToWireConditions(cs))| <= 512 * |cs| + Total(cs, ConditionArrays)
  {
    if cs == [] {
    } else {
      var front, last := cs[..|cs| - 1], cs[|cs| - 1];
      ConditionsLength(front);
      ConditionLength(last);
      assert ToWireConditions(cs)[..|ToWireConditions(cs)| - 1] == ToWireConditions(front);
    }
  }

  lemma {:induction false} MutationsLength(ms: seq<Mutation<Bytes>>)
    requires forall i :: 0 <= i < |ms| ==> SealableMutation(ms[i])
    ensures |MutationsJson(ToWireMutations(ms))| <= 512 * |ms| + Total(ms, MutationArrays)
  {
    if ms == [] {
    } else {
      var front, last := ms[..|ms| - 1], ms[|ms| - 1];
      MutationsLength(front);
      MutationLength(last);
      assert ToWireMutations(ms)[..|ToWireMutations(ms)| - 1] == ToWireMutations(front);
    }
  }

  /** The JSON text of a sealed request is no longer than the estimate, hence within 32 MiB. */
  lemma {:induction false} EstimateBoundsText(namespace: string, requestID: string, cs: seq<Condition<Bytes>>,
                                              ms: seq<Mutation<Bytes>>)
    requires Sealable(namespace, requestID, cs, ms)
    ensures |RequestJson(ToWire(namespace, requestID, cs, ms))| <= Estimate(namespace, requestID, cs, ms)
    ensures Estimate(namespace, requestID, cs, ms) <= 0x200_0000
  {
    ConditionsLength(cs);
    MutationsLength(ms);
  }

  // ---- Receipts of sealed requests ----

  /** The honest receipt of a sealed request is accepted when the values it touches fit a receipt. */
  lemma {:induction false} SealedReceiptAccepted(store: Store, namespace: string, requestID: string,
                                                 cs: seq<Condition<Bytes>>, ms: seq<Mutation<Bytes>>, revision: U64)
    requires Sealable(namespace, requestID, cs, ms) && revision > 0
    requires forall i :: 0 <= i < |cs| ==> FitsReceipt(store, Location(Keyspace(namespace), cs[i].at), REQUEST_LIMITS)
    requires forall i :: 0 <= i < |ms| ==> FitsReceipt(store, Location(Keyspace(namespace), ms[i].at), REQUEST_LIMITS)
    ensures var placed, moved := PlaceConditions(Keyspace(namespace), cs), PlaceMutations(Keyspace(namespace), ms);
      Accepted(HonestReceipt(store, requestID, placed, moved, revision), requestID, REQUEST_LIMITS, placed, moved)
  {
    var placed, moved := PlaceConditions(Keyspace(namespace), cs), PlaceMutations(Keyspace(namespace), ms);
    KeyspaceKnown(namespace);
    forall i | 0 <= i < |placed|
      ensures SmallAt(store, placed[i].at, REQUEST_LIMITS)
    {
      assert SealableCondition(cs[i]);
    }
    forall i | 0 <= i < |moved|
      ensures SmallMutation(store, moved[i], REQUEST_LIMITS) && !moved[i].Unset?
    {
      assert SealableMutation(ms[i]);
    }
    HonestReceiptAccepted(store, requestID, placed, moved, revision, REQUEST_LIMITS);
  }
}
