/** The binary command of a transaction, whose hash identifies the request in its receipt. */
module Commands {
  import opened Words
  import opened Keys
  import opened Transactions
  import opened Receipts
  import opened Requests

  // "TLNCTX2".
  const COMMAND_MAGIC: Bytes := [0x54, 0x4C, 0x4E, 0x43, 0x54, 0x58, 0x32]

  predicate IsAscii(s: string) {
    forall i :: 0 <= i < |s| ==> s[i] < 128 as char
  }

  // The operators in the order of their codes.
  const OPERATORS := [Equal, NotEqual, LessThan, LessOrEqual, GreaterThan, GreaterOrEqual]

  function OperatorCode(operator: Operator): (code: Byte)
    ensures !operator.UnknownOperator? ==> code < 6 && OPERATORS[code] == operator
  {
    match operator
    case NotEqual => 1
    case LessThan => 2
    case LessOrEqual => 3
    case GreaterThan => 4
    case GreaterOrEqual => 5
    case _ => 0
  }

  // ---- The layout; each function writes its part in front of what follows ----

  /** A byte string with its length, before the rest. */
  function Block(value: Bytes, rest: Bytes): Bytes {
    LE(|value| % TWO32, 4) + (value + rest)
  }

  function PlaceCode(at: Location, rest: Bytes): Bytes {
    Block(TextBytes(at.keyspace), Block(at.key, rest))
  }

  /** The presence byte, and the expected value if there is one. */
  function ExpectedCode(expected: Option<Bytes>, end: Bytes): Bytes {
    if expected.None? then [0] + end else [1] + Block(expected.value, end)
  }

  function ConditionCode(c: Condition<Location>, rest: Bytes): Bytes {
    PlaceCode(c.at, ExpectedCode(c.expected, [OperatorCode(c.operator)] + rest))
  }

  function MutationCode(m: Mutation<Location>, rest: Bytes): Bytes {
    match m
    case Put(at, value) => [0] + PlaceCode(at, Block(value, rest))
    case Delete(at) => [1] + PlaceCode(at, rest)
    case Increment(at, delta) => [2] + PlaceCode(at, LE(Unsigned(delta), 8) + rest)
    case Unset(_) => rest
  }

  function ConditionCodes(cs: seq<Condition<Location>>, rest: Bytes): Bytes {
    if cs == [] then rest else ConditionCode(cs[0], ConditionCodes(cs[1..], rest))
  }

  function MutationCodes(ms: seq<Mutation<Location>>, rest: Bytes): Bytes {
    if ms == [] then rest else MutationCode(ms[0], MutationCodes(ms[1..], rest))
  }

  function MutationPart(ms: seq<Mutation<Location>>): Bytes {
    LE(|ms| % TWO32, 4) + MutationCodes(ms, [])
  }

  function Header(): Bytes {
    COMMAND_MAGIC + LE(TRANSACTION_VERSION, 2)
  }

  function Command(cs: seq<Condition<Location>>, ms: seq<Mutation<Location>>): Bytes {
    Header() + (LE(|cs| % TWO32, 4) + ConditionCodes(cs, MutationPart(ms)))
  }

  // ---- The encoders ----

  method WriteBytes(buffer: Bytes, value: Bytes, ghost rest: Bytes) returns (r: Bytes)
    ensures r + rest == buffer + Block(value, rest)
  {
    r := buffer + LE(|value| % TWO32, 4);
    r := r + value;
    assert r + rest == buffer + (LE(|value| % TWO32, 4) + (value + rest));
  }

  method WriteCondition(buffer: Bytes, keyspace: string, c: Condition<Bytes>, ghost rest: Bytes) returns (r: Bytes)
    ensures r + rest == buffer + ConditionCode(Condition(Location(keyspace, c.at), c.expected, c.operator), rest)
  {
    ghost var end := [OperatorCode(c.operator)] + rest;
    ghost var middle := ExpectedCode(c.expected, end);
    r := WriteBytes(buffer, TextBytes(keyspace), Block(c.at, middle));
    r := WriteBytes(r, c.at, middle);
    if c.expected.None? {
      Regroup(r, [0], end);
      r := r + [0];
    } else {
      Regroup(r, [1], Block(c.expected.value, end));
      r := r + [1];
      r := WriteBytes(r, c.expected.value, end);
    }
    Regroup(r, [OperatorCode(c.operator)], rest);
    r := r + [OperatorCode(c.operator)];
  }

  method WriteMutation(buffer: Bytes, keyspace: string, m: Mutation<Bytes>, ghost rest: Bytes) returns (r: Bytes)
    requires !m.Unset?
    ensures r + rest == buffer + MutationCode(Relocate(keyspace, m), rest)
  {
    ghost var tail := match m
      case Put(_, value) => Block(value, rest)
      case Increment(_, delta) => LE(Unsigned(delta), 8) + rest
      case _ => rest;
    var tag: Byte := if m.Put? then 0 else if m.Delete? then 1 else 2;
    Regroup(buffer, [tag], PlaceCode(Location(keyspace, m.at), tail));
    r := buffer + [tag];
    r := WriteBytes(r, TextBytes(keyspace), Block(m.at, tail));
    r := WriteBytes(r, m.at, tail);
    if m.Put? {
      r := WriteBytes(r, m.value, rest);
    } else if m.Increment? {
      Regroup(r, LE(Unsigned(m.delta), 8), rest);
      r := r + LE(Unsigned(m.delta), 8);
    }
  }

  lemma {:induction false} ConditionCodesFrom(cs: seq<Condition<Location>>, i: nat, rest: Bytes)
    requires i < |cs|
    ensures ConditionCodes(cs[i..], rest) == ConditionCode(cs[i], ConditionCodes(cs[i + 1..], rest))
  {
    assert cs[i..][1..] == cs[i + 1..];
  }

  lemma {:induction false} MutationCodesFrom(ms: seq<Mutation<Location>>, i: nat, rest: Bytes)
    requires i < |ms|
    ensures MutationCodes(ms[i..], rest) == MutationCode(ms[i], MutationCodes(ms[i + 1..], rest))
  {
    assert ms[i..][1..] == ms[i + 1..];
  }

  method WriteConditions(buffer: Bytes, keyspace: string, cs: seq<Condition<Bytes>>, ghost rest: Bytes)
    returns (r: Bytes)
    ensures r + rest == buffer + ConditionCodes(PlaceConditions(keyspace, cs), rest)
  {
    r := buffer;
    ghost var located := PlaceConditions(keyspace, cs);
    assert located[0..] == located;
    for i := 0 to |cs|
      invariant r + ConditionCodes(located[i..], rest) == buffer + ConditionCodes(located, rest)
    {
      r := WriteCondition(r, keyspace, cs[i], ConditionCodes(located[i + 1..], rest));
      ConditionCodesFrom(located, i, rest);
    }
  }

  method WriteMutations(buffer: Bytes, keyspace: string, ms: seq<Mutation<Bytes>>, ghost rest: Bytes)
    returns (r: Option<Bytes>)
    ensures r.Some? <==> Constructed(ms)
    ensures r.Some? ==> r.value + rest == buffer + MutationCodes(PlaceMutations(keyspace, ms), rest)
  {
    var written := buffer;
    ghost var moved := PlaceMutations(keyspace, ms);
    assert moved[0..] == moved;
    for i := 0 to |ms|
      invariant written + MutationCodes(moved[i..], rest) == buffer + MutationCodes(moved, rest)
      invariant forall j :: 0 <= j < i ==> !ms[j].Unset?
    {
      if ms[i].Unset? {
        return None;
      }
      written := WriteMutation(written, keyspace, ms[i], MutationCodes(moved[i + 1..], rest));
      MutationCodesFrom(moved, i, rest);
    }
    r := Some(written);
  }

  /** The encoder of a request in one keyspace. */
  method EncodeCommand(keyspace: string, cs: seq<Condition<Bytes>>, ms: seq<Mutation<Bytes>>) returns (r: Option<Bytes>)
    ensures r
         == if Constructed(ms) then Some(Command(PlaceConditions(keyspace, cs), PlaceMutations(keyspace, ms))) else None
  {
    ghost var located, moved := PlaceConditions(keyspace, cs), PlaceMutations(keyspace, ms);
    var buffer := Header() + LE(|cs| % TWO32, 4);
    Regroup(Header(), LE(|cs| % TWO32, 4), ConditionCodes(located, MutationPart(moved)));
    buffer := WriteConditions(buffer, keyspace, cs, MutationPart(moved));
    Regroup(buffer, LE(|ms| % TWO32, 4), MutationCodes(moved, []));
    buffer := buffer + LE(|ms| % TWO32, 4);
    r := WriteMutations(buffer, keyspace, ms, []);
    assert r.Some? ==> r.value + [] == r.value;
  }

  /** No field is longer than its length word can say. */
  predicate ShortPlace(at: Location) {
    |at.keyspace| < TWO32 && |at.key| < TWO32
  }

  predicate ShortCondition(c: Condition<Location>) {
    ShortPlace(c.at) && (c.expected.Some? ==> |c.expected.value| < TWO32)
  }

  predicate ShortMutation(m: Mutation<Location>) {
    ShortPlace(m.at) && (m.Put? ==> |m.value| < TWO32)
  }

  method WriteStreamConditions(buffer: Bytes, cs: seq<Condition<Location>>, ghost rest: Bytes)
    returns (r: Option<Bytes>)
    ensures r.Some? <==> forall i :: 0 <= i < |cs| ==> ShortCondition(cs[i])
    ensures r.Some? ==> r.value + rest == buffer + ConditionCodes(cs, rest)
  {
    var written := buffer;
    assert cs[0..] == cs;
    for i := 0 to |cs|
      invariant written + ConditionCodes(cs[i..], rest) == buffer + ConditionCodes(cs, rest)
      invariant forall j :: 0 <= j < i ==> ShortCondition(cs[j])
    {
      if !ShortCondition(cs[i]) {
        return None;
      }
      written := WriteCondition(written, cs[i].at.keyspace, Condition(cs[i].at.key, cs[i].expected, cs[i].operator),
                                ConditionCodes(cs[i + 1..], rest));
      ConditionCodesFrom(cs, i, rest);
    }
    r := Some(written);
  }

  method WriteStreamMutations(buffer: Bytes, ms: seq<Mutation<Location>>, ghost rest: Bytes) returns (r: Option<Bytes>)
    ensures r.Some? <==> Constructed(ms) && forall i :: 0 <= i < |ms| ==> ShortMutation(ms[i])
    ensures r.Some? ==> r.value + rest == buffer + MutationCodes(ms, rest)
  {
    var written := buffer;
    assert ms[0..] == ms;
    for i := 0 to |ms|
      invariant written + MutationCodes(ms[i..], rest) == buffer + MutationCodes(ms, rest)
      invariant forall j :: 0 <= j < i ==> !ms[j].Unset? && ShortMutation(ms[j])
    {
      if ms[i].Unset? || !ShortMutation(ms[i]) {
        return None;
      }
      written := WriteMutation(written, ms[i].at.keyspace, WithKey(ms[i]), MutationCodes(ms[i + 1..], rest));
      MutationCodesFrom(ms, i, rest);
    }
    r := Some(written);
  }

  /**
   The encoder of an append, whose items name their own keyspaces; overlong fields are an error.
   It is proved against the same layout, so it agrees with the other encoder on one keyspace.
   */
  method EncodeStreamCommand(cs: seq<Condition<Location>>, ms: seq<Mutation<Location>>) returns (r: Option<Bytes>)
    ensures r.Some? <==>
      && Constructed(ms) && (forall i :: 0 <= i < |cs| ==> ShortCondition(cs[i]))
      && (forall i :: 0 <= i < |ms| ==> ShortMutation(ms[i]))
    ensures r.Some? ==> r.value == Command(cs, ms)
  {
    var buffer := Header() + LE(|cs| % TWO32, 4);
    Regroup(Header(), LE(|cs| % TWO32, 4), ConditionCodes(cs, MutationPart(ms)));
    r := WriteStreamConditions(buffer, cs, MutationPart(ms));
    if r.Some? {
      buffer := r.value;
      Regroup(buffer, LE(|ms| % TWO32, 4), MutationCodes(ms, []));
      buffer := buffer + LE(|ms| % TWO32, 4);
      r := WriteStreamMutations(buffer, ms, []);
      assert r.Some? ==> r.value + [] == r.value;
    }
  }

  function WithKey(m: Mutation<Location>): (r: Mutation<Bytes>)
    ensures Relocate(m.at.keyspace, r) == m
  {
    match m
    case Put(at, value) => Put(at.key, value)
    case Delete(at) => Delete(at.key)
    case Increment(at, delta) => Increment(at.key, delta)
    case Unset(at) => Unset(at.key)
  }

  // ---- Injectivity ----

  lemma {:induction false} BlockSplit(v: Bytes, x: Bytes, w: Bytes, y: Bytes)
    requires |v| < TWO32 && |w| < TWO32 && Block(v, x) == Block(w, y)
    ensures v == w && x == y
  {
    CountSplit([], |v|, v + x, |w|, w + y);
    CutSame(v, x, w, y);
  }

  lemma {:induction false} HeadByte(a: Byte, x: Bytes, b: Byte, y: Bytes)
    requires [a] + x == [b] + y
    ensures a == b && x == y
  {
    assert ([a] + x)[0] == a && ([b] + y)[0] == b;
    CutSame([a], x, [b], y);
  }

  lemma {:induction false} TextSplit(a: string, b: string)
    requires IsAscii(a) && IsAscii(b) && TextBytes(a) == TextBytes(b)
    ensures a == b
  {
    assert |a| == |TextBytes(a)| == |TextBytes(b)| == |b|;
    forall i | 0 <= i < |a|
      ensures a[i] == b[i]
    {
      assert TextBytes(a)[i] == TextBytes(b)[i];
    }
  }

  predicate ClearPlace(at: Location) {
    IsAscii(at.keyspace) && ShortPlace(at)
  }

  predicate ClearCondition(c: Condition<Location>) {
    ClearPlace(c.at) && ShortCondition(c) && !c.operator.UnknownOperator?
  }

  predicate ClearMutation(m: Mutation<Location>) {
    ClearPlace(m.at) && ShortMutation(m) && !m.Unset?
  }

  lemma {:induction false} PlaceSplit(a: Location, x: Bytes, b: Location, y: Bytes)
    requires ClearPlace(a) && ClearPlace(b) && PlaceCode(a, x) == PlaceCode(b, y)
    ensures a == b && x == y
  {
    BlockSplit(TextBytes(a.keyspace), Block(a.key, x), TextBytes(b.keyspace), Block(b.key, y));
    TextSplit(a.keyspace, b.keyspace);
    BlockSplit(a.key, x, b.key, y);
  }

  /** An absent expectation and an empty one are kept apart by the presence byte. */
  lemma {:induction false} ExpectedSplit(a: Option<Bytes>, x: Bytes, b: Option<Bytes>, y: Bytes)
    requires (a.Some? ==> |a.value| < TWO32) && (b.Some? ==> |b.value| < TWO32)
    requires ExpectedCode(a, x) == ExpectedCode(b, y)
    ensures a == b && x == y
  {
    HeadByte(if a.None? then 0 else 1, if a.None? then x else Block(a.value, x), if b.None? then 0 else 1,
             if b.None? then y else Block(b.value, y));
    if a.Some? {
      BlockSplit(a.value, x, b.value, y);
    }
  }

  lemma {:induction false} ConditionSplit(c: Condition<Location>, x: Bytes, d: Condition<Location>, y: Bytes)
    requires ClearCondition(c) && ClearCondition(d) && ConditionCode(c, x) == ConditionCode(d, y)
    ensures c == d && x == y
  {
    var p, q := [OperatorCode(c.operator)] + x, [OperatorCode(d.operator)] + y;
    PlaceSplit(c.at, ExpectedCode(c.expected, p), d.at, ExpectedCode(d.expected, q));
    ExpectedSplit(c.expected, p, d.expected, q);
    HeadByte(OperatorCode(c.operator), x, OperatorCode(d.operator), y);
  }

  lemma {:induction false} MutationSplit(m: Mutation<Location>, x: Bytes, n: Mutation<Location>, y: Bytes)
    requires ClearMutation(m) && ClearMutation(n) && MutationCode(m, x) == MutationCode(n, y)
    ensures m == n && x == y
  {
    assert MutationCode(m, x)[0] == if m.Put? then 0 else if m.Delete? then 1 else 2;
    assert MutationCode(n, y)[0] == if n.Put? then 0 else if n.Delete? then 1 else 2;
    match m
    case Put(at, value) =>
      HeadByte(0, PlaceCode(at, Block(value, x)), 0, PlaceCode(n.at, Block(n.value, y)));
      PlaceSplit(at, Block(value, x), n.at, Block(n.value, y));
      BlockSplit(value, x, n.value, y);
    case Delete(at) =>
      HeadByte(1, PlaceCode(at, x), 1, PlaceCode(n.at, y));
      PlaceSplit(at, x, n.at, y);
    case Increment(at, delta) =>
      HeadByte(2, PlaceCode(at, LE(Unsigned(delta), 8) + x), 2, PlaceCode(n.at, LE(Unsigned(n.delta), 8) + y));
      PlaceSplit(at, LE(Unsigned(delta), 8) + x, n.at, LE(Unsigned(n.delta), 8) + y);
      Pow256Values();
      LESplit(Unsigned(delta), Unsigned(n.delta), 8, x, y);
      SignedUnsigned(delta);
      SignedUnsigned(n.delta);
  }

  lemma {:induction false} ConditionsSplit(cs: seq<Condition<Location>>, x: Bytes, ds: seq<Condition<Location>>,
                                           y: Bytes)
    requires |cs| == |ds| && ConditionCodes(cs, x) == ConditionCodes(ds, y)
    requires forall i :: 0 <= i < |cs| ==> ClearCondition(cs[i]) && ClearCondition(ds[i])
    ensures cs == ds && x == y
    decreases |cs|
  {
    if cs == [] {
    } else {
      ConditionSplit(cs[0], ConditionCodes(cs[1..], x), ds[0], ConditionCodes(ds[1..], y));
      ConditionsSplit(cs[1..], x, ds[1..], y);
      assert cs == [cs[0]] + cs[1..] && ds == [ds[0]] + ds[1..];
    }
  }

  lemma {:induction false} MutationsSplit(ms: seq<Mutation<Location>>, x: Bytes, ns: seq<Mutation<Location>>, y: Bytes)
    requires |ms| == |ns| && MutationCodes(ms, x) == MutationCodes(ns, y)
    requires forall i :: 0 <= i < |ms| ==> ClearMutation(ms[i]) && ClearMutation(ns[i])
    ensures ms == ns && x == y
    decreases |ms|
  {
    if ms == [] {
    } else {
      MutationSplit(ms[0], MutationCodes(ms[1..], x), ns[0], MutationCodes(ns[1..], y));
      MutationsSplit(ms[1..], x, ns[1..], y);
      assert ms == [ms[0]] + ms[1..] && ns == [ns[0]] + ns[1..];
    }
  }

  predicate Clear(cs: seq<Condition<Location>>, ms: seq<Mutation<Location>>) {
    && |cs| < TWO32 && |ms| < TWO32
    && (forall i :: 0 <= i < |cs| ==> ClearCondition(cs[i])) && (forall i :: 0 <= i < |ms| ==> ClearMutation(ms[i]))
  }

  /** Equal commands mean equal ordered conditions and equal ordered mutations, keyspaces included. */
  lemma {:induction false} CommandInjective(cs: seq<Condition<Location>>, ms: seq<Mutation<Location>>,
                                            ds: seq<Condition<Location>>, ns: seq<Mutation<Location>>)
    requires Clear(cs, ms) && Clear(ds, ns) && Command(cs, ms) == Command(ds, ns)
    ensures cs == ds && ms == ns
  {
    CountSplit(Header(), |cs|, ConditionCodes(cs, MutationPart(ms)), |ds|, ConditionCodes(ds, MutationPart(ns)));
    ConditionsSplit(cs, MutationPart(ms), ds, MutationPart(ns));
    CountSplit([], |ms|, MutationCodes(ms, []), |ns|, MutationCodes(ns, []));
    MutationsSplit(ms, [], ns, []);
  }

  /** The command of a sealed request: what its hash is taken of. */
  function RequestCommand(namespace: string, cs: seq<Condition<Bytes>>, ms: seq<Mutation<Bytes>>): Bytes {
    Command(PlaceConditions(Keyspace(namespace), cs), PlaceMutations(Keyspace(namespace), ms))
  }

  lemma {:induction false} SealedClear(namespace: string, requestID: string, cs: seq<Condition<Bytes>>,
                                       ms: seq<Mutation<Bytes>>)
    requires Sealable(namespace, requestID, cs, ms)
    ensures Clear(PlaceConditions(Keyspace(namespace), cs), PlaceMutations(Keyspace(namespace), ms))
  {
    AsciiKeyspace(namespace);
  }

  lemma {:induction false} AsciiKeyspace(namespace: string)
    requires ValidNamespace(namespace)
    ensures IsAscii(Keyspace(namespace)) && |Keyspace(namespace)| < TWO32
  {
    assert IsAscii(USER_PREFIX);
  }

  /** The whole builder, with the command whose hash identifies the request; it fails only on unsealable requests. */
  method BuildRequestCommand(namespace: string, requestID: string, cs: seq<Condition<Bytes>>, ms: seq<Mutation<Bytes>>)
    returns (wire: Option<WireRequest>, command: Bytes)
    ensures wire.Some? <==> Sealable(namespace, requestID, cs, ms)
    ensures wire.Some? ==> wire.value == ToWire(namespace, requestID, cs, ms)
    ensures wire.Some? ==> command == RequestCommand(namespace, cs, ms)
  {
    command := [];
    wire := BuildRequest(namespace, requestID, cs, ms);
    if wire.Some? {
      SealedClear(namespace, requestID, cs, ms);
      var encoded := EncodeCommand(Keyspace(namespace), cs, ms);
      if encoded.None? {
        return None, [];
      }
      command := encoded.value;
    }
  }

  /** Equal commands of two sealed requests mean the same namespace, conditions and mutations in the same order. */
  lemma {:induction false} SealedCommandInjective(
      namespace: string, requestID: string, cs: seq<Condition<Bytes>>, ms: seq<Mutation<Bytes>>,
      namespace': string, requestID': string, cs': seq<Condition<Bytes>>, ms': seq<Mutation<Bytes>>)
    requires Sealable(namespace, requestID, cs, ms) && Sealable(namespace', requestID', cs', ms')
    requires RequestCommand(namespace, cs, ms) == RequestCommand(namespace', cs', ms')
    ensures namespace == namespace' && cs == cs' && ms == ms'
  {
    var k, k' := Keyspace(namespace), Keyspace(namespace');
    SealedClear(namespace, requestID, cs, ms);
    SealedClear(namespace', requestID', cs', ms');
    CommandInjective(PlaceConditions(k, cs), PlaceMutations(k, ms), PlaceConditions(k', cs'), PlaceMutations(k', ms'));
    PlacedSame(k, cs, ms, k', cs', ms');
    CutSame(USER_PREFIX, namespace, USER_PREFIX, namespace');
  }

  lemma {:induction false} PlacedSame(k: string, cs: seq<Condition<Bytes>>, ms: seq<Mutation<Bytes>>, k': string,
                                      cs': seq<Condition<Bytes>>, ms': seq<Mutation<Bytes>>)
    requires PlaceConditions(k, cs) == PlaceConditions(k', cs') && PlaceMutations(k, ms) == PlaceMutations(k', ms')
    ensures cs == cs' && ms == ms' && (ms != [] ==> k == k')
  {
    assert |cs| == |PlaceConditions(k, cs)| == |cs'| && |ms| == |PlaceMutations(k, ms)| == |ms'|;
    if ms != [] {
      assert PlaceMutations(k, ms)[0] == PlaceMutations(k', ms')[0];
    }
    forall i | 0 <= i < |cs|
      ensures cs[i] == cs'[i]
    {
      assert PlaceConditions(k, cs)[i] == PlaceConditions(k', cs')[i];
    }
    forall i | 0 <= i < |ms|
      ensures ms[i] == ms'[i]
    {
      assert PlaceMutations(k, ms)[i] == PlaceMutations(k', ms')[i];
    }
  }

  /** Without a mutation nothing would bind the namespace: this is why sealing refuses an empty list. */
  lemma {:induction false} EmptyCommandsCollide(namespace: string, namespace': string)
    ensures RequestCommand(namespace, [], []) == RequestCommand(namespace', [], [])
  {
    assert PlaceConditions(Keyspace(namespace), []) == PlaceConditions(Keyspace(namespace'), []);
    assert PlaceMutations(Keyspace(namespace), []) == PlaceMutations(Keyspace(namespace'), []);
  }

  // ---- The layout, field after field ----

  /** A length in four bytes, then the string. */
  function Sized(value: Bytes): seq<Bytes> {
    [LE(|value| % TWO32, 4), value]
  }

  /** Keyspace, key, a presence byte with the expected value if there is one, and the operator's number. */
  function ConditionFields(c: Condition<Location>): seq<Bytes>
    requires !c.operator.UnknownOperator?
  {
    Sized(TextBytes(c.at.keyspace)) + Sized(c.at.key)
    + (if c.expected.None? then [[0]] else [[1]] + Sized(c.expected.value))
    + [[match c.operator
        case Equal => 0 case NotEqual => 1 case LessThan => 2 case LessOrEqual => 3 case GreaterThan => 4
        case GreaterOrEqual => 5]]
  }

  /** The kind, keyspace and key, and the value or the delta. */
  function MutationFields(m: Mutation<Location>): seq<Bytes>
    requires !m.Unset?
  {
    [[if m.Put? then 0 else if m.Delete? then 1 else 2]] + Sized(TextBytes(m.at.keyspace)) + Sized(m.at.key)
    + (if m.Put? then Sized(m.value) else if m.Delete? then [] else [LE(Unsigned(m.delta), 8)])
  }

  lemma {:induction false} ConcatCons(part: Bytes, parts: seq<Bytes>, rest: Bytes)
    ensures Concat([part] + parts) + rest == part + (Concat(parts) + rest)
  {
    assert ([part] + parts)[1..] == parts;
  }

  lemma {:induction false} ConcatSized(value: Bytes, parts: seq<Bytes>, rest: Bytes)
    ensures Concat(Sized(value) + parts) + rest == Block(value, Concat(parts) + rest)
  {
    var length := LE(|value| % TWO32, 4);
    assert Sized(value) + parts == [length] + ([value] + parts);
    ConcatCons(length, [value] + parts, rest);
    ConcatCons(value, parts, rest);
  }

  lemma {:induction false} ConditionLayout(c: Condition<Location>, rest: Bytes)
    requires !c.operator.UnknownOperator?
    ensures ConditionCode(c, rest) == Concat(ConditionFields(c)) + rest
  {
    var code := [OperatorCode(c.operator)];
    var last := if c.expected.None? then [[0]] + [code] else [[1]] + (Sized(c.expected.value) + [code]);
    assert ConditionFields(c) == Sized(TextBytes(c.at.keyspace)) + (Sized(c.at.key) + last);
    ConcatSized(TextBytes(c.at.keyspace), Sized(c.at.key) + last, rest);
    ConcatSized(c.at.key, last, rest);
    assert [code] + [] == [code] && Concat([]) + rest == rest;
    ConcatCons(code, [], rest);
    if c.expected.None? {
      ConcatCons([0], [code], rest);
    } else {
      ConcatCons([1], Sized(c.expected.value) + [code], rest);
      ConcatSized(c.expected.value, [code], rest);
    }
  }

  lemma {:induction false} MutationLayout(m: Mutation<Location>, rest: Bytes)
    requires !m.Unset?
    ensures MutationCode(m, rest) == Concat(MutationFields(m)) + rest
  {
    var kind: Bytes := [if m.Put? then 0 else if m.Delete? then 1 else 2];
    var last := if m.Put? then Sized(m.value) + [] else if m.Delete? then [] else [LE(Unsigned(m.delta), 8)] + [];
    assert MutationFields(m) == [kind] + (Sized(TextBytes(m.at.keyspace)) + (Sized(m.at.key) + last));
    ConcatCons(kind, Sized(TextBytes(m.at.keyspace)) + (Sized(m.at.key) + last), rest);
    ConcatSized(TextBytes(m.at.keyspace), Sized(m.at.key) + last, rest);
    ConcatSized(m.at.key, last, rest);
    assert Concat([]) + rest == rest;
    if m.Put? {
      ConcatSized(m.value, [], rest);
    } else if m.Increment? {
      ConcatCons(LE(Unsigned(m.delta), 8), [], rest);
    }
  }

  function AllConditions(cs: seq<Condition<Location>>): Bytes
    requires forall i :: 0 <= i < |cs| ==> !cs[i].operator.UnknownOperator?
  {
    if cs == [] then [] else Concat(ConditionFields(cs[0])) + AllConditions(cs[1..])
  }

  function AllMutations(ms: seq<Mutation<Location>>): Bytes
    requires forall i :: 0 <= i < |ms| ==> !ms[i].Unset?
  {
    if ms == [] then [] else Concat(MutationFields(ms[0])) + AllMutations(ms[1..])
  }

  lemma {:induction false} ConditionsLayout(cs: seq<Condition<Location>>, rest: Bytes)
    requires forall i :: 0 <= i < |cs| ==> !cs[i].operator.UnknownOperator?
    ensures ConditionCodes(cs, rest) == AllConditions(cs) + rest
    decreases |cs|
  {
    if cs == [] {
      assert [] + rest == rest;
    } else {
      ConditionsLayout(cs[1..], rest);
      ConditionLayout(cs[0], AllConditions(cs[1..]) + rest);
      Regroup(Concat(ConditionFields(cs[0])), AllConditions(cs[1..]), rest);
    }
  }

  lemma {:induction false} MutationsLayout(ms: seq<Mutation<Location>>, rest: Bytes)
    requires forall i :: 0 <= i < |ms| ==> !ms[i].Unset?
    ensures MutationCodes(ms, rest) == AllMutations(ms) + rest
    decreases |ms|
  {
    if ms == [] {
      assert [] + rest == rest;
    } else {
      MutationsLayout(ms[1..], rest);
      MutationLayout(ms[0], AllMutations(ms[1..]) + rest);
      Regroup(Concat(MutationFields(ms[0])), AllMutations(ms[1..]), rest);
    }
  }

  /** The whole command: magic, version 2 in two bytes, both lists behind their counts. */
  lemma {:induction false} CommandLayout(cs: seq<Condition<Location>>, ms: seq<Mutation<Location>>)
    requires forall i :: 0 <= i < |cs| ==> !cs[i].operator.UnknownOperator?
    requires forall i :: 0 <= i < |ms| ==> !ms[i].Unset?
    ensures Command(cs, ms)
         == TextBytes("TLNCTX2") + [2, 0]
            + (LE(|cs| % TWO32, 4) + (AllConditions(cs) + (LE(|ms| % TWO32, 4) + AllMutations(ms))))
  {
    ConditionsLayout(cs, MutationPart(ms));
    MutationsLayout(ms, []);
    assert AllMutations(ms) + [] == AllMutations(ms);
    HeaderLayout();
  }

  lemma {:induction false} HeaderLayout()
    ensures Header() == TextBytes("TLNCTX2") + [2, 0]
  {
    assert LE(2 / 0x100, 1) == [0] && LE(2, 2) == [2] + [0];
    assert COMMAND_MAGIC == TextBytes("TLNCTX2");
  }
}
