/** The store invariant under a real hash function: what its hypothesis on digests asks of the hash. */
module HashedLedger {
  import opened Words
  import opened Digests
  import opened Keys
  import opened Merkle
  import opened Streams
  import opened Preimages
  import opened Appends
  import opened Ledger

  /** The 32 bytes of the digests that are not known to be hashes. */
  type Unknown = Digest -> Digest32

  /** Digests and payloads as the hash function gives them; digests of unknown origin are any bytes. */
  function RenderingOf(sha: Hash, unknown: Unknown): Rendering {
    Rendering((d: Digest) => if Opened(d) then Render(sha, d) else unknown(d),
              (p: PayloadDigest) => if p.OfPayload? then sha(p.payload) else ZERO_ROOT)
  }

  /** Every byte string hashed on the way to one of these digests. */
  ghost function HashedFor(sha: Hash, known: set<Digest>): set<Bytes> {
    set d, x | d in known && Opened(d) && x in Hashed(sha, d) :: x
  }

  /** The bytes of a digest of unknown origin are not those of another of these digests. */
  ghost predicate NamedOnce(sha: Hash, unknown: Unknown, known: set<Digest>) {
    var bytes := RenderingOf(sha, unknown).digest;
    forall d, e :: d in known && e in known && !Opened(d) && bytes(d) == bytes(e) ==> d == e
  }

  /** A hash without collisions among the strings hashed for some digests gives these digests distinct bytes. */
  lemma {:induction false} HashSeparates(sha: Hash, unknown: Unknown, known: set<Digest>)
    requires Separates(sha, HashedFor(sha, known)) && NamedOnce(sha, unknown, known)
    ensures Separated(RenderingOf(sha, unknown), known)
  {
    var hashed, r := HashedFor(sha, known), RenderingOf(sha, unknown);
    forall d, e | d in known && e in known && r.digest(d) == r.digest(e)
      ensures d == e
    {
      if Opened(d) && Opened(e) {
        assert Hashed(sha, d) <= hashed && Hashed(sha, e) <= hashed;
        RenderInjective(sha, d, e, hashed);
      }
    }
  }

  // ---- The root that an append makes is as well known as the root it expects ----

  ghost predicate PeaksOpened(peaks: seq<Peak>) {
    forall i :: 0 <= i < |peaks| ==> peaks[i].root.Hex? && Opened(peaks[i].root.digest)
  }

  /** A Merkle root is opened exactly when its peaks are. */
  lemma {:induction false} MerkleRootOpened(stream: Stream, leafCount: U64, peaks: seq<Peak>)
    requires |stream| <= MAX_STREAM_BYTES && MerkleRoot(stream, leafCount, peaks).Some?
    ensures Opened(MerkleRoot(stream, leafCount, peaks).value) <==> PeaksOpened(peaks)
  {
    var root := MerkleRoot(stream, leafCount, peaks).value;
    assert forall i :: 0 <= i < |peaks| ==> root.peaks[i].root == peaks[i].root.digest;
  }

  lemma {:induction false} MergeOpened(stream: Stream, peaks: seq<Peak>, node: MerkleNode, created: seq<MerkleNode>)
    requires |stream| <= MAX_STREAM_BYTES && node.height <= MAX_PROOF_DEPTH
    requires PeaksOpened(peaks) && Opened(node.root)
    ensures var r := Merge(stream, peaks, node, created); r.Some? ==> PeaksOpened(r.value.peaks)
    decreases |peaks|
  {
    if peaks != [] && peaks[|peaks| - 1].height == node.height && node.height < MAX_PROOF_DEPTH {
      var parent := Parent(stream, peaks[|peaks| - 1], node);
      MergeOpened(stream, peaks[..|peaks| - 1], parent, created + [parent]);
    }
  }

  /** A checked head with an opened root has opened peaks. */
  lemma {:induction false} HeadOpened(stream: Stream, head: StreamHead)
    requires |stream| <= MAX_STREAM_BYTES && ValidHead(stream, head) && Opened(head.root.digest)
    ensures PeaksOpened(head.proof.value.peaks)
  {
    MerkleRootOpened(stream, head.revision, head.proof.value.peaks);
  }

  /** The root that an append makes is opened when the root it expects is. */
  lemma {:induction false} NewRootOpened(q: AppendRequest)
    requires Admissible(q) && (q.expected.Some? ==> Opened(q.expected.value.root.digest))
    ensures Opened(NewRoot(q))
  {
    var previous := if q.expected.None? then Zero else q.expected.value.root.digest;
    var peaks := if q.expected.None? then [] else q.expected.value.proof.value.peaks;
    if q.expected.Some? {
      HeadOpened(q.stream, q.expected.value);
    }
    ExtendValid(q.stream, q.expected, q.revision, q.event);
    var content := Content(q.stream, previous, q.revision, q.event.occurredAt, OfPayload(q.event.payload));
    var node := MerkleNode(0, q.revision, Leaf(q.stream, q.revision, content));
    MergeOpened(q.stream, peaks, node, [node]);
    MerkleRootOpened(q.stream, q.revision, Merge(q.stream, peaks, node, [node]).value.peaks);
  }

  // ---- Whole runs ----

  ghost predicate AllAllowed(ops: seq<Operation>) {
    forall i :: 0 <= i < |ops| ==> Allowed(ops[i])
  }

  /** The root that an append expects, and the root that it makes. */
  ghost function RootsOf(op: Operation): set<Digest>
    requires Allowed(op)
  {
    if op.Transaction? then {}
    else if op.request.expected.None? then {NewRoot(op.request)}
    else {op.request.expected.value.root.digest, NewRoot(op.request)}
  }

  /** The roots that the appends of a run expect and make. */
  ghost function RootsOfRun(ops: seq<Operation>): set<Digest>
    requires AllAllowed(ops)
  {
    set i, d | 0 <= i < |ops| && d in RootsOf(ops[i]) :: d
  }

  /**
   The store invariant over all runs, for a real hash: the records match the histories unless two of
   the strings hashed for the head roots of the run collide, or one of them hashes to the zero root.
   An append may expect a head of any bytes; a root whose bytes are those of another root of the run
   is known by that name, so a root of unknown origin shares its bytes with none.
   */
  lemma {:induction false} AnyRunKeepsStep(sha: Hash, unknown: Unknown, ops: seq<Operation>)
    requires AllAllowed(ops)
    requires Separates(sha, HashedFor(sha, RootsOfRun(ops))) && NamedOnce(sha, unknown, RootsOfRun(ops))
    ensures var state := Run(RenderingOf(sha, unknown), ops);
      InStep(RenderingOf(sha, unknown), state.histories, state.store)
  {
    var known := RootsOfRun(ops);
    forall i | 0 <= i < |ops|
      ensures RootsKnown(ops[i], known)
    {
      assert RootsOf(ops[i]) <= known;
    }
    HashSeparates(sha, unknown, known);
    RunKeepsStep(RenderingOf(sha, unknown), ops, known);
  }

  ghost predicate ExpectsOpened(op: Operation)
    requires Allowed(op)
  {
    op.Append? && op.request.expected.Some? ==> Opened(op.request.expected.value.root.digest)
  }

  /** When every expected root is a hash of known strings, the hash alone decides. */
  lemma {:induction false} HashedRunKeepsStep(sha: Hash, unknown: Unknown, ops: seq<Operation>)
    requires AllAllowed(ops) && forall i :: 0 <= i < |ops| ==> ExpectsOpened(ops[i])
    requires Separates(sha, HashedFor(sha, RootsOfRun(ops)))
    ensures var state := Run(RenderingOf(sha, unknown), ops);
      InStep(RenderingOf(sha, unknown), state.histories, state.store)
  {
    forall i, d | 0 <= i < |ops| && d in RootsOf(ops[i])
      ensures Opened(d)
    {
      assert ExpectsOpened(ops[i]);
      NewRootOpened(ops[i].request);
    }
    AnyRunKeepsStep(sha, unknown, ops);
  }
}
