/** Building an append: its checks, its conditions and writes, and the validation of its receipt. */
module Appends {
  import opened Words
  import opened Digests
  import opened Keys
  import opened Merkle
  import opened Streams
  import opened Transactions
  import opened Receipts
  import opened Sealing
  import Requests
  import Preimages

  const MAX_PAYLOAD_BYTES := 0x10_0000
  const MAX_SIDE_ITEMS := 128
  const MAX_SIDE_BYTES := 0x40_0000
  const APPEND_LIMITS := Limits(0x100_0000, true)

  // ---- Stored values ----

  /** The 32 bytes that stand for each digest; any function may be used. */
  datatype Rendering = Rendering(digest: Digest -> Digest32, payload: PayloadDigest -> Digest32)

  /** A digest field as bytes; text that is not a digest reads as zeros. */
  function HexBytes(r: Rendering, hex: Hex<Digest>): Digest32 {
    if hex.Hex? then r.digest(hex.digest) else Preimages.ZERO_ROOT
  }

  function HeadRecordOf(r: Rendering, head: StreamHead): HeadRecord
    requires head.proof.Some?
  {
    var proof := head.proof.value;
    HeadRecord(head.revision, head.lastOccurredAt, HexBytes(r, head.root), HexBytes(r, proof.lastContent),
      HexBytes(r, proof.root),
      seq(|proof.peaks|, i requires 0 <= i < |proof.peaks| =>
        PeakRecord(proof.peaks[i].height, proof.peaks[i].start, HexBytes(r, proof.peaks[i].root))))
  }

  function HeadBytes(r: Rendering, head: StreamHead): Bytes
    requires head.proof.Some?
  {
    Concat(HeadFields(HeadRecordOf(r, head)))
  }

  function EventBytes(r: Rendering, event: Event, previousRoot: Digest, content: Digest, proofRoot: Digest,
                      root: Digest): Bytes
  {
    Concat(EventFields(EventRecord(event.occurredAt, r.digest(previousRoot), r.payload(OfPayload(event.payload)),
                                   r.digest(content), r.digest(proofRoot), r.digest(root), event.payload)))
  }

  // ---- The request ----

  datatype AppendRequest = AppendRequest(
    requestID: string, namespace: string, stream: Stream, expected: Option<StreamHead>, revision: U64, event: Event,
    sideConditions: seq<Condition<Bytes>>, sideMutations: seq<Mutation<Bytes>>)

  predicate SideConditionForm(c: Condition<Bytes>) {
    1 <= |c.at| <= 65_536 && !c.operator.UnknownOperator?
  }

  predicate SideMutationForm(m: Mutation<Bytes>) {
    1 <= |m.at| <= 65_536 && !m.Unset?
  }

  function SideConditionCost(keyspace: nat): Condition<Bytes> -> nat {
    (c: Condition<Bytes>) => keyspace + |c.at| + if c.expected.None? then 0 else |c.expected.value|
  }

  function SideMutationCost(keyspace: nat): Mutation<Bytes> -> nat {
    (m: Mutation<Bytes>) => keyspace + |m.at| + if m.Put? then |m.value| else 0
  }

  predicate SideConditionsFit(keyspace: nat, cs: seq<Condition<Bytes>>) {
    Fits(cs, 0, SideConditionForm, Requests.ConditionKey, SideConditionCost(keyspace), 0x40_0000)
  }

  predicate SideMutationsFit(keyspace: nat, ms: seq<Mutation<Bytes>>, start: nat) {
    Fits(ms, start, SideMutationForm, Requests.MutationKey, SideMutationCost(keyspace), 0x40_0000)
  }

  /** The requests that can be built, in numbers. */
  predicate Admissible(q: AppendRequest) {
    && ValidRequestID(q.requestID) && ValidNamespace(q.namespace)
    && 1 <= |q.stream| <= 1_024 && |q.event.payload| <= 0x10_0000
    && |q.sideConditions| <= 128 && |q.sideMutations| <= 128
    && Extendable(q.stream, q.expected, q.revision, q.event.occurredAt)
    && var k := |Keyspace(q.namespace)|;
       && SideConditionsFit(k, q.sideConditions)
       && SideMutationsFit(k, q.sideMutations, Total(q.sideConditions, SideConditionCost(k)))
  }

  // ---- What is built ----

  /** A write to one of the stream's own records, with the value that must be there before. */
  datatype InternalWrite = InternalWrite(key: RecordKey, before: Option<Bytes>, value: Bytes)

  function At(key: RecordKey): Location {
    Location(INTERNAL_KEYSPACE, KeyBytes(key))
  }

  function Checks(ws: seq<InternalWrite>): (cs: seq<Condition<Location>>)
    ensures |cs| == |ws|
  {
    seq(|ws|, i requires 0 <= i < |ws| => Condition(At(ws[i].key), ws[i].before, Equal))
  }

  function Puts(ws: seq<InternalWrite>): (ms: seq<Mutation<Location>>)
    ensures |ms| == |ws|
  {
    seq(|ws|, i requires 0 <= i < |ws| => Put(At(ws[i].key), ws[i].value))
  }

  function NodeWrites(r: Rendering, stream: Stream, nodes: seq<MerkleNode>): (ws: seq<InternalWrite>)
    ensures |ws| == |nodes|
  {
    seq(|nodes|, i requires 0 <= i < |nodes| =>
      InternalWrite(NodeKey(stream, nodes[i].height, nodes[i].start), None, r.digest(nodes[i].root)))
  }

  function EventWrite(r: Rendering, q: AppendRequest, e: Extension): InternalWrite {
    InternalWrite(EventKey(q.stream, q.revision), None,
                  EventBytes(r, q.event, e.previousRoot, e.content, e.proofRoot, e.root))
  }

  function TimeWrite(r: Rendering, q: AppendRequest, e: Extension): InternalWrite {
    InternalWrite(TimeKey(q.stream, q.event.occurredAt, q.revision), None, r.digest(e.root))
  }

  function HeadWrite(r: Rendering, q: AppendRequest, e: Extension): InternalWrite
    requires e.head.proof.Some? && (q.expected.Some? ==> q.expected.value.proof.Some?)
  {
    var before := if q.expected.None? then None else Some(HeadBytes(r, q.expected.value));
    InternalWrite(HeadKey(q.stream), before, HeadBytes(r, e.head))
  }

  datatype BuiltAppend = BuiltAppend(
    head: StreamHead, sideCount: nat, conditions: seq<Condition<Location>>, mutations: seq<Mutation<Location>>,
    writes: seq<InternalWrite>)

  /** The event, time and head records, then one record per completed node. */
  function InternalWrites(r: Rendering, q: AppendRequest, e: Extension): (ws: seq<InternalWrite>)
    requires e.head.proof.Some? && (q.expected.Some? ==> q.expected.value.proof.Some?)
    ensures |ws| == 3 + |e.created|
  {
    [EventWrite(r, q, e), TimeWrite(r, q, e), HeadWrite(r, q, e)] + NodeWrites(r, q.stream, e.created)
  }

  /** Conditions name the head first, then event, time and nodes. */
  function Guards(ws: seq<InternalWrite>): (gs: seq<InternalWrite>)
    requires |ws| >= 3
    ensures |gs| == |ws|
  {
    [ws[2], ws[0], ws[1]] + ws[3..]
  }

  function Assemble(q: AppendRequest, head: StreamHead, ws: seq<InternalWrite>): (b: BuiltAppend)
    requires |ws| >= 3
    ensures |b.mutations| == b.sideCount + |b.writes|
  {
    BuiltAppend(head, |q.sideMutations|,
      PlaceConditions(Keyspace(q.namespace), q.sideConditions) + Checks(Guards(ws)),
      PlaceMutations(Keyspace(q.namespace), q.sideMutations) + Puts(ws),
      ws)
  }

  /** What the append asks of the store: side items first, then the stream's own records. */
  function Built(r: Rendering, q: AppendRequest): (b: BuiltAppend)
    requires Admissible(q)
    ensures |b.mutations| == b.sideCount + |b.writes|
  {
    ExtendValid(q.stream, q.expected, q.revision, q.event);
    var e := Extend(q.stream, q.expected, q.revision, q.event).value;
    Assemble(q, e.head, InternalWrites(r, q, e))
  }

  // ---- The builder ----

  function Sum(values: seq<nat>): nat {
    if values == [] then 0 else values[0] + Sum(values[1..])
  }

  /** Adds sizes to the running total as long as they fit. */
  method AddSideBytes(total: nat, values: seq<nat>) returns (ok: bool, sum: nat)
    requires total <= MAX_SIDE_BYTES
    ensures ok <==> total + Sum(values) <= MAX_SIDE_BYTES
    ensures ok ==> sum == total + Sum(values)
  {
    sum := total;
    assert values[0..] == values;
    for i := 0 to |values|
      invariant sum <= MAX_SIDE_BYTES && sum + Sum(values[i..]) == total + Sum(values)
    {
      assert values[i..][1..] == values[i + 1..];
      if sum > MAX_SIDE_BYTES - values[i] {
        return false, sum;
      }
      sum := sum + values[i];
    }
    ok := true;
  }

  lemma {:induction false} SumOfThree(a: nat, b: nat, c: nat)
    ensures Sum([a, b, c]) == a + b + c && Sum([a, b]) == a + b
  {
    assert Sum([b]) == b && Sum([c]) == c;
    assert [b, c][1..] == [c] && [a, b][1..] == [b];
    assert [a, b, c][1..] == [b, c];
  }

  method BuildSideConditions(keyspace: string, cs: seq<Condition<Bytes>>)
    returns (ok: bool, total: nat, located: seq<Condition<Location>>)
    ensures ok <==> SideConditionsFit(|keyspace|, cs)
    ensures ok ==>
      && total == Total(cs, SideConditionCost(|keyspace|)) && total <= MAX_SIDE_BYTES
      && located == PlaceConditions(keyspace, cs)
  {
    total, located := 0, [];
    var keys: set<Bytes> := {};
    ghost var cost := SideConditionCost(|keyspace|);
    for index := 0 to |cs|
      invariant SideConditionsFit(|keyspace|, cs[..index]) && total == Total(cs[..index], cost)
      invariant total <= MAX_SIDE_BYTES
      invariant keys == KeysOf(cs[..index], Requests.ConditionKey)
      invariant located == PlaceConditions(keyspace, cs[..index])
    {
      FitsStep(cs, index, 0, SideConditionForm, Requests.ConditionKey, cost, MAX_SIDE_BYTES);
      var c := cs[index];
      if |c.at| == 0 || |c.at| > MAX_KEY_BYTES || c.operator.UnknownOperator? || c.at in keys {
        return false, total, located;
      }
      keys := keys + {c.at};
      var expected := if c.expected.None? then 0 else |c.expected.value|;
      SumOfThree(|keyspace|, |c.at|, expected);
      ok, total := AddSideBytes(total, [|keyspace|, |c.at|, expected]);
      if !ok {
        return false, total, located;
      }
      located := located + [Condition(Location(keyspace, c.at), c.expected, c.operator)];
    }
    assert cs[..|cs|] == cs;
    ok := true;
  }

  method BuildSideMutations(keyspace: string, ms: seq<Mutation<Bytes>>, start: nat)
    returns (ok: bool, located: seq<Mutation<Location>>)
    requires start <= MAX_SIDE_BYTES
    ensures ok <==> SideMutationsFit(|keyspace|, ms, start)
    ensures ok ==> located == PlaceMutations(keyspace, ms)
  {
    var total := start;
    located := [];
    var keys: set<Bytes> := {};
    ghost var cost := SideMutationCost(|keyspace|);
    for index := 0 to |ms|
      invariant SideMutationsFit(|keyspace|, ms[..index], start) && total == start + Total(ms[..index], cost)
      invariant total <= MAX_SIDE_BYTES
      invariant keys == KeysOf(ms[..index], Requests.MutationKey)
      invariant located == PlaceMutations(keyspace, ms[..index])
    {
      FitsStep(ms, index, start, SideMutationForm, Requests.MutationKey, cost, MAX_SIDE_BYTES);
      var m := ms[index];
      if |m.at| == 0 || |m.at| > MAX_KEY_BYTES || m.at in keys || m.Unset? {
        return false, located;
      }
      keys := keys + {m.at};
      SumOfThree(|keyspace|, |m.at|, if m.Put? then |m.value| else 0);
      if m.Put? {
        ok, total := AddSideBytes(total, [|keyspace|, |m.at|, |m.value|]);
      } else {
        ok, total := AddSideBytes(total, [|keyspace|, |m.at|]);
      }
      if !ok {
        return false, located;
      }
      located := located + [Relocate(keyspace, m)];
    }
    assert ms[..|ms|] == ms;
    ok := true;
  }

  /** One write per node that the append completes, after the writes already listed. */
  method AddNodes(r: Rendering, stream: Stream, nodes: seq<MerkleNode>, first: seq<InternalWrite>)
    returns (writes: seq<InternalWrite>)
    ensures writes == first + NodeWrites(r, stream, nodes)
  {
    writes := first;
    for i := 0 to |nodes|
      invariant writes == first + NodeWrites(r, stream, nodes)[..i]
    {
      var key := NodeKey(stream, nodes[i].height, nodes[i].start);
      writes := writes + [InternalWrite(key, None, r.digest(nodes[i].root))];
    }
  }

  /** Conditions and writes are built for exactly the admissible requests: the Merkle append cannot fail. */
  method BuildAppend(r: Rendering, q: AppendRequest) returns (built: Option<BuiltAppend>)
    ensures built.Some? <==> Admissible(q)
    ensures built.Some? ==> built.value == Built(r, q)
  {
    if !ValidRequestID(q.requestID) || !ValidNamespace(q.namespace)
       || |q.stream| == 0 || |q.stream| > MAX_STREAM_BYTES {
      return None;
    }
    if |q.event.payload| > MAX_PAYLOAD_BYTES || |q.sideConditions| > MAX_SIDE_ITEMS
       || |q.sideMutations| > MAX_SIDE_ITEMS {
      return None;
    }
    if !Extendable(q.stream, q.expected, q.revision, q.event.occurredAt) {
      return None;
    }
    var keyspace := Keyspace(q.namespace);
    var ok, total, conditions := BuildSideConditions(keyspace, q.sideConditions);
    if !ok {
      return None;
    }
    var mutations;
    ok, mutations := BuildSideMutations(keyspace, q.sideMutations, total);
    if !ok {
      return None;
    }
    ExtendValid(q.stream, q.expected, q.revision, q.event);
    var e := Extend(q.stream, q.expected, q.revision, q.event).value;
    var event, time, head := EventWrite(r, q, e), TimeWrite(r, q, e), HeadWrite(r, q, e);
    var checks := AddNodes(r, q.stream, e.created, [head, event, time]);
    var writes := AddNodes(r, q.stream, e.created, [event, time, head]);
    assert checks == Guards(writes);
    conditions, mutations := conditions + Checks(checks), mutations + Puts(writes);
    built := Some(BuiltAppend(e.head, |q.sideMutations|, conditions, mutations, writes));
  }
}
