/**
 Relocating a local policy: the spans of its three locator values, the splice that replaces
 them, and the comparison that proves nothing else changed.
 */
module Relocation {
  import opened Words
  import opened StrictJson
  import opened JsonUnique

  /** A set of field names. The theorems hold for any; a policy has these eleven, three of them locators. */
  type Fields = set<string>

  const LOCATORS: Fields := {"library_path", "header_path", "build_manifest_path"}

  const FIELDS: Fields := LOCATORS + {
    "contract", "library_sha256", "header_sha256", "build_manifest_sha256", "expected_abi_profile",
    "expected_abi_version", "build_profile", "required_capabilities"}

  datatype Span = Span(field: string, start: int, end: int)

  // ---- The decoder's view: what precedes each value, its field, and its text ----

  datatype Segment = Segment(pre: Bytes, field: Option<string>, raw: Bytes)

  predicate IsLocator(ls: Fields, field: Option<string>) {
    field.Some? && field.value in ls
  }

  function BytesOf(segs: seq<Segment>, tail: Bytes): Bytes {
    if segs == [] then tail else segs[0].pre + (segs[0].raw + BytesOf(segs[1..], tail))
  }

  function FieldSet(segs: seq<Segment>, n: nat): set<string>
    requires n <= |segs|
  {
    set i | 0 <= i < n && segs[i].field.Some? :: segs[i].field.value
  }

  /** Every field is known, none repeats; all eleven are there when n is the whole. */
  predicate FieldsKnown(fs: Fields, segs: seq<Segment>, n: nat)
    requires n <= |segs|
  {
    && (forall i :: 0 <= i < n ==> segs[i].field.Some? && segs[i].field.value in fs)
    && (forall i, j :: 0 <= i < j < n ==> segs[i].field != segs[j].field)
  }

  predicate AllFields(fs: Fields, segs: seq<Segment>) {
    FieldsKnown(fs, segs, |segs|) && FieldSet(segs, |segs|) == fs
  }

  /** The spans of the locator values, when the first segment starts at this offset. */
  function SpansFrom(ls: Fields, segs: seq<Segment>, offset: nat): seq<Span> {
    if segs == [] then []
    else
      var start := offset + |segs[0].pre|;
      var end := start + |segs[0].raw|;
      (if IsLocator(ls, segs[0].field) then [Span(segs[0].field.value, start, end)] else [])
      + SpansFrom(ls, segs[1..], end)
  }

  function SpanOf(seg: Segment, offset: nat): Span
    requires seg.field.Some?
  {
    Span(seg.field.value, offset + |seg.pre|, offset + |seg.pre| + |seg.raw|)
  }

  lemma {:induction false} SpansStep(ls: Fields, segs: seq<Segment>, offset: nat)
    requires segs != []
    ensures var end := offset + |segs[0].pre| + |segs[0].raw|;
      var rest := SpansFrom(ls, segs[1..], end);
      SpansFrom(ls, segs, offset) == if IsLocator(ls, segs[0].field) then [SpanOf(segs[0], offset)] + rest else rest
  {
  }

  lemma {:induction false} FieldStep(fs: Fields, segs: seq<Segment>, n: nat)
    requires n < |segs| && FieldsKnown(fs, segs, n)
    ensures var f := segs[n].field;
      if f.Some? && f.value in fs && f.value !in FieldSet(segs, n)
      then FieldsKnown(fs, segs, n + 1) && FieldSet(segs, n + 1) == FieldSet(segs, n) + {f.value}
      else !FieldsKnown(fs, segs, |segs|)
  {
  }

  lemma {:induction false} SpansNext(ls: Fields, segs: seq<Segment>, i: nat, cursor: nat, spans: seq<Span>)
    requires i < |segs|
    ensures var seg := segs[i]; var end := cursor + |seg.pre| + |seg.raw|;
      spans + SpansFrom(ls, segs[i..], cursor)
      == (if IsLocator(ls, seg.field) then spans + [Span(seg.field.value, end - |seg.raw|, end)] else spans)
         + SpansFrom(ls, segs[i + 1..], end)
  {
    assert segs[i..][0] == segs[i] && segs[i..][1..] == segs[i + 1..];
  }

  lemma {:induction false} SubsetFull<T>(a: set<T>, b: set<T>)
    requires a <= b
    ensures |a| == |b| <==> a == b
  {
    assert b == a + (b - a);
  }

  /** Walks the members with the decoder's cursor; accepts exactly the objects with each field once. */
  method LocatorSpans(fs: Fields, ls: Fields, segs: seq<Segment>) returns (r: Option<seq<Span>>)
    ensures r.Some? <==> AllFields(fs, segs)
    ensures r.Some? ==> r.value == SpansFrom(ls, segs, 0)
  {
    var seen: set<string> := {};
    var spans: seq<Span> := [];
    var cursor: nat := 0;
    assert segs[0..] == segs;
    for i := 0 to |segs|
      invariant FieldsKnown(fs, segs, i) && seen == FieldSet(segs, i) && seen <= fs
      invariant spans + SpansFrom(ls, segs[i..], cursor) == SpansFrom(ls, segs, 0)
    {
      FieldStep(fs, segs, i);
      var seg := segs[i];
      if seg.field.None? || seg.field.value !in fs || seg.field.value in seen {
        return None;
      }
      seen := seen + {seg.field.value};
      SpansNext(ls, segs, i, cursor, spans);
      var end := cursor + |seg.pre| + |seg.raw|;
      if seg.field.value in ls {
        spans := spans + [Span(seg.field.value, end - |seg.raw|, end)];
      }
      cursor := end;
    }
    SubsetFull(seen, fs);
    r := if |seen| != |fs| then None else Some(spans);
  }

  method PolicyLocatorSpans(segs: seq<Segment>) returns (r: Option<seq<Span>>)
    ensures r.Some? <==>
      AllFields({"contract", "library_path", "library_sha256", "header_path", "header_sha256", "build_manifest_path",
                 "build_manifest_sha256", "expected_abi_profile", "expected_abi_version", "build_profile",
                 "required_capabilities"}, segs)
    ensures r.Some? ==> r.value == SpansFrom({"library_path", "header_path", "build_manifest_path"}, segs, 0)
  {
    r := LocatorSpans(FIELDS, LOCATORS, segs);
  }

  // ---- The splice ----

  type Tokens = string -> Bytes

  predicate Ordered(spans: seq<Span>, start: nat, length: nat) {
    if spans == [] then start <= length
    else start <= spans[0].start <= spans[0].end && Ordered(spans[1..], spans[0].end, length)
  }

  lemma {:induction false} OrderedBounds(spans: seq<Span>, start: nat, length: nat)
    requires Ordered(spans, start, length)
    ensures start <= length && (spans != [] ==> spans[0].end <= length)
    decreases |spans|
  {
    if spans == [] {
    } else {
      OrderedBounds(spans[1..], spans[0].end, length);
    }
  }

  function Splice(data: Bytes, spans: seq<Span>, start: nat, tokens: Tokens): Bytes
    requires Ordered(spans, start, |data|)
    decreases |spans|
  {
    OrderedBounds(spans, start, |data|);
    if spans == [] then data[start..]
    else data[start..spans[0].start] + (tokens(spans[0].field) + Splice(data, spans[1..], spans[0].end, tokens))
  }

  /** One round of the splice: the bytes up to the next span, its token, and the rest. */
  lemma {:induction false} SpliceNext(data: Bytes, spans: seq<Span>, i: nat, start: nat, tokens: Tokens)
    requires i < |spans| && Ordered(spans[i..], start, |data|)
    ensures start <= spans[i].start <= spans[i].end <= |data| && Ordered(spans[i + 1..], spans[i].end, |data|)
    ensures Splice(data, spans[i..], start, tokens)
         == data[start..spans[i].start]
            + (tokens(spans[i].field) + Splice(data, spans[i + 1..], spans[i].end, tokens))
  {
    OrderedBounds(spans[i..], start, |data|);
    assert spans[i..][0] == spans[i] && spans[i..][1..] == spans[i + 1..];
  }

  method ReplaceTokens(data: Bytes, spans: seq<Span>, tokens: Tokens) returns (output: Bytes)
    requires Ordered(spans, 0, |data|)
    ensures output == Splice(data, spans, 0, tokens)
  {
    output := [];
    var start: nat := 0;
    assert spans[0..] == spans;
    for i := 0 to |spans|
      invariant Ordered(spans[i..], start, |data|)
      invariant output + Splice(data, spans[i..], start, tokens) == Splice(data, spans, 0, tokens)
    {
      var span := spans[i];
      SpliceNext(data, spans, i, start, tokens);
      ghost var rest := Splice(data, spans[i + 1..], span.end, tokens);
      Regroup(output, data[start..span.start], tokens(span.field) + rest);
      output := output + data[start..span.start];
      Regroup(output, tokens(span.field), rest);
      output := output + tokens(span.field);
      start := span.end;
    }
    OrderedBounds([], start, |data|);
    output := output + data[start..];
  }

  /** The same segments with new locator texts. */
  function Substitute(ls: Fields, segs: seq<Segment>, tokens: Tokens): seq<Segment> {
    seq(|segs|, i requires 0 <= i < |segs| =>
      if IsLocator(ls, segs[i].field) then segs[i].(raw := tokens(segs[i].field.value)) else segs[i])
  }

  lemma {:induction false} SubstitutedBytes(ls: Fields, segs: seq<Segment>, tail: Bytes, tokens: Tokens)
    requires segs != []
    ensures Substitute(ls, segs, tokens)[1..] == Substitute(ls, segs[1..], tokens)
    ensures BytesOf(Substitute(ls, segs, tokens), tail) == segs[0].pre
      + ((if IsLocator(ls, segs[0].field) then tokens(segs[0].field.value) else segs[0].raw)
         + BytesOf(Substitute(ls, segs[1..], tokens), tail))
  {
    assert Substitute(ls, segs, tokens)[1..] == Substitute(ls, segs[1..], tokens);
  }

  lemma {:induction false} BytesLength(segs: seq<Segment>, tail: Bytes)
    requires segs != []
    ensures |BytesOf(segs, tail)| == |segs[0].pre| + |segs[0].raw| + |BytesOf(segs[1..], tail)|
  {
  }

  lemma {:induction false} SpansOrdered(ls: Fields, segs: seq<Segment>, tail: Bytes, start: nat, offset: nat,
                                        length: nat)
    requires start <= offset && length == offset + |BytesOf(segs, tail)|
    ensures Ordered(SpansFrom(ls, segs, offset), start, length)
    decreases |segs|
  {
    if segs == [] {
    } else {
      var end := offset + |segs[0].pre| + |segs[0].raw|;
      BytesLength(segs, tail);
      if IsLocator(ls, segs[0].field) {
        SpansOrdered(ls, segs[1..], tail, end, end, length);
        assert SpansFrom(ls, segs, offset)[1..] == SpansFrom(ls, segs[1..], end);
      } else {
        SpansOrdered(ls, segs[1..], tail, start, end, length);
        assert SpansFrom(ls, segs, offset) == SpansFrom(ls, segs[1..], end);
      }
    }
  }

  /** Splicing replaces the locator texts and copies every other byte. */
  lemma {:induction false} SpliceSubstitutes(ls: Fields, data: Bytes, segs: seq<Segment>, tail: Bytes, start: nat,
                                             offset: nat, tokens: Tokens)
    requires start <= offset <= |data| && data[offset..] == BytesOf(segs, tail)
    requires Ordered(SpansFrom(ls, segs, offset), start, |data|)
    ensures Splice(data, SpansFrom(ls, segs, offset), start, tokens)
         == data[start..offset] + BytesOf(Substitute(ls, segs, tokens), tail)
    decreases |segs|, 1
  {
    if segs == [] {
      assert data[start..] == data[start..offset] + data[offset..];
    } else {
      if IsLocator(ls, segs[0].field) {
        SpliceOverLocator(ls, data, segs, tail, start, offset, tokens);
      } else {
        SpliceOverPlain(ls, data, segs, tail, start, offset, tokens);
      }
    }
  }

  lemma {:induction false} SpliceOverLocator(ls: Fields, data: Bytes, segs: seq<Segment>, tail: Bytes, start: nat,
                                             offset: nat, tokens: Tokens)
    requires segs != [] && IsLocator(ls, segs[0].field)
    requires start <= offset <= |data| && data[offset..] == BytesOf(segs, tail)
    requires Ordered(SpansFrom(ls, segs, offset), start, |data|)
    ensures Splice(data, SpansFrom(ls, segs, offset), start, tokens)
         == data[start..offset] + BytesOf(Substitute(ls, segs, tokens), tail)
    decreases |segs|, 0
  {
    var end := offset + |segs[0].pre| + |segs[0].raw|;
    Cursor(data, offset, segs[0].pre, segs[0].raw, BytesOf(segs[1..], tail));
    SpansOrdered(ls, segs[1..], tail, end, end, |data|);
    SpliceSubstitutes(ls, data, segs[1..], tail, end, end, tokens);
    SpliceAtLocator(ls, data, segs, tail, start, offset, tokens);
  }

  lemma {:induction false} SpliceOverPlain(ls: Fields, data: Bytes, segs: seq<Segment>, tail: Bytes, start: nat,
                                           offset: nat, tokens: Tokens)
    requires segs != [] && !IsLocator(ls, segs[0].field)
    requires start <= offset <= |data| && data[offset..] == BytesOf(segs, tail)
    requires Ordered(SpansFrom(ls, segs, offset), start, |data|)
    ensures Splice(data, SpansFrom(ls, segs, offset), start, tokens)
         == data[start..offset] + BytesOf(Substitute(ls, segs, tokens), tail)
    decreases |segs|, 0
  {
    var end := offset + |segs[0].pre| + |segs[0].raw|;
    PlainStep(ls, data, segs, tail, start, offset);
    SpliceSubstitutes(ls, data, segs[1..], tail, start, end, tokens);
    SpliceElsewhere(ls, data, segs, tail, start, offset, tokens);
  }

  lemma {:induction false} PlainStep(ls: Fields, data: Bytes, segs: seq<Segment>, tail: Bytes, start: nat, offset: nat)
    requires segs != [] && start <= offset <= |data| && data[offset..] == BytesOf(segs, tail)
    ensures var middle := offset + |segs[0].pre|; var end := middle + |segs[0].raw|;
      && end <= |data| && data[offset..middle] == segs[0].pre && data[middle..end] == segs[0].raw
      && data[end..] == BytesOf(segs[1..], tail) && Ordered(SpansFrom(ls, segs[1..], end), start, |data|)
  {
    var end := offset + |segs[0].pre| + |segs[0].raw|;
    Cursor(data, offset, segs[0].pre, segs[0].raw, BytesOf(segs[1..], tail));
    SpansOrdered(ls, segs[1..], tail, start, end, |data|);
  }

  lemma {:induction false} SpliceElsewhere(ls: Fields, data: Bytes, segs: seq<Segment>, tail: Bytes, start: nat,
                                           offset: nat, tokens: Tokens)
    requires segs != [] && !IsLocator(ls, segs[0].field)
    requires start <= offset && Ordered(SpansFrom(ls, segs, offset), start, |data|)
    requires var middle := offset + |segs[0].pre|; var end := middle + |segs[0].raw|;
      && end <= |data| && data[offset..middle] == segs[0].pre && data[middle..end] == segs[0].raw
      && Ordered(SpansFrom(ls, segs[1..], end), start, |data|)
      && Splice(data, SpansFrom(ls, segs[1..], end), start, tokens)
         == data[start..end] + BytesOf(Substitute(ls, segs[1..], tokens), tail)
    ensures Splice(data, SpansFrom(ls, segs, offset), start, tokens)
         == data[start..offset] + BytesOf(Substitute(ls, segs, tokens), tail)
  {
    SpansStep(ls, segs, offset);
    SubstitutedBytes(ls, segs, tail, tokens);
    CopyOver(data, start, offset, segs[0].pre, segs[0].raw, BytesOf(Substitute(ls, segs[1..], tokens), tail));
  }

  lemma {:induction false} SpliceAtLocator(ls: Fields, data: Bytes, segs: seq<Segment>, tail: Bytes, start: nat,
                                           offset: nat, tokens: Tokens)
    requires segs != [] && IsLocator(ls, segs[0].field)
    requires start <= offset && Ordered(SpansFrom(ls, segs, offset), start, |data|)
    requires var end := offset + |segs[0].pre| + |segs[0].raw|;
      && end <= |data| && data[offset..offset + |segs[0].pre|] == segs[0].pre
      && Ordered(SpansFrom(ls, segs[1..], end), end, |data|)
      && Splice(data, SpansFrom(ls, segs[1..], end), end, tokens)
         == data[end..end] + BytesOf(Substitute(ls, segs[1..], tokens), tail)
    ensures Splice(data, SpansFrom(ls, segs, offset), start, tokens)
         == data[start..offset] + BytesOf(Substitute(ls, segs, tokens), tail)
  {
    var end := offset + |segs[0].pre| + |segs[0].raw|;
    SpansStep(ls, segs, offset);
    SubstitutedBytes(ls, segs, tail, tokens);
    SpliceLocator(data, SpanOf(segs[0], offset), SpansFrom(ls, segs[1..], end), start, offset, segs[0].pre, tokens,
                  BytesOf(Substitute(ls, segs[1..], tokens), tail));
  }

  /** At a locator the splice copies up to it and writes the token. */
  lemma {:induction false} SpliceLocator(data: Bytes, first: Span, rest: seq<Span>, start: nat, offset: nat, pre: Bytes,
                                         tokens: Tokens, more: Bytes)
    requires Ordered([first] + rest, start, |data|) && 0 <= first.end && Ordered(rest, first.end, |data|)
    requires first.start == offset + |pre| <= |data| && start <= offset && data[offset..offset + |pre|] == pre
    requires Splice(data, rest, first.end, tokens) == more
    ensures Splice(data, [first] + rest, start, tokens) == data[start..offset] + (pre + (tokens(first.field) + more))
  {
    var spans := [first] + rest;
    assert spans[0] == first && spans[1..] == rest;
    assert Splice(data, spans, start, tokens) == data[start..first.start] + (tokens(first.field) + more);
    JoinCut(data, start, offset, offset + |pre|, tokens(first.field) + more);
  }

  /** Elsewhere it copies on. */
  lemma {:induction false} CopyOver(data: Bytes, start: nat, offset: nat, pre: Bytes, raw: Bytes, more: Bytes)
    requires start <= offset && offset + |pre| + |raw| <= |data|
    requires data[offset..offset + |pre|] == pre && data[offset + |pre|..offset + |pre| + |raw|] == raw
    ensures data[start..offset + |pre| + |raw|] + more == data[start..offset] + (pre + (raw + more))
  {
    JoinCut(data, start, offset, offset + |pre|, raw + more);
    JoinCut(data, start, offset + |pre|, offset + |pre| + |raw|, more);
  }

  lemma {:induction false} Cursor(data: Bytes, offset: nat, pre: Bytes, raw: Bytes, rest: Bytes)
    requires offset <= |data| && data[offset..] == pre + (raw + rest)
    ensures var middle, end := offset + |pre|, offset + |pre| + |raw|;
      end <= |data| && data[offset..middle] == pre && data[middle..end] == raw && data[end..] == rest
  {
    var all := data[offset..];
    assert all[..|pre|] == pre && all[|pre|..|pre| + |raw|] == raw && all[|pre| + |raw|..] == rest;
  }

  lemma {:induction false} JoinCut(data: Bytes, a: nat, b: nat, c: nat, rest: Bytes)
    requires a <= b <= c <= |data|
    ensures data[a..c] + rest == data[a..b] + (data[b..c] + rest)
  {
    assert data[a..c] == data[a..b] + data[b..c];
  }

  // ---- The spans of the output ----

  /** Each span moved by what the earlier replacements added, with its own new length. */
  function Shifted(spans: seq<Span>, tokens: Tokens, delta: int): seq<Span> {
    if spans == [] then []
    else
      var s, size := spans[0], |tokens(spans[0].field)|;
      [Span(s.field, s.start + delta, s.start + delta + size)]
      + Shifted(spans[1..], tokens, delta + size - (s.end - s.start))
  }

  lemma {:induction false} SpansOfSubstituted(ls: Fields, segs: seq<Segment>, tokens: Tokens, moved: nat)
    requires segs != []
    ensures var seg := segs[0]; var start := moved + |seg.pre|;
      SpansFrom(ls, Substitute(ls, segs, tokens), moved) ==
      if IsLocator(ls, seg.field) then
        var end := start + |tokens(seg.field.value)|;
        [Span(seg.field.value, start, end)] + SpansFrom(ls, Substitute(ls, segs[1..], tokens), end)
      else SpansFrom(ls, Substitute(ls, segs[1..], tokens), start + |seg.raw|)
  {
    assert Substitute(ls, segs, tokens)[1..] == Substitute(ls, segs[1..], tokens);
  }

  lemma {:induction false} ShiftedCons(first: Span, spans: seq<Span>, tokens: Tokens, delta: int)
    ensures var size := |tokens(first.field)|;
      Shifted([first] + spans, tokens, delta)
      == [Span(first.field, first.start + delta, first.start + delta + size)]
         + Shifted(spans, tokens, delta + size - (first.end - first.start))
  {
    assert ([first] + spans)[1..] == spans;
  }

  lemma {:induction false} ShiftOverLocator(ls: Fields, segs: seq<Segment>, tokens: Tokens, offset: nat, moved: nat)
    requires segs != [] && IsLocator(ls, segs[0].field)
    requires var end := offset + |segs[0].pre| + |segs[0].raw|;
      var end' := moved + |segs[0].pre| + |tokens(segs[0].field.value)|;
      SpansFrom(ls, Substitute(ls, segs[1..], tokens), end')
      == Shifted(SpansFrom(ls, segs[1..], end), tokens, end' - end)
    ensures SpansFrom(ls, Substitute(ls, segs, tokens), moved)
         == Shifted(SpansFrom(ls, segs, offset), tokens, moved - offset)
  {
    SpansOfSubstituted(ls, segs, tokens, moved);
    SpansStep(ls, segs, offset);
    var end := offset + |segs[0].pre| + |segs[0].raw|;
    ShiftedCons(SpanOf(segs[0], offset), SpansFrom(ls, segs[1..], end), tokens, moved - offset);
  }

  lemma {:induction false} ShiftOverPlain(ls: Fields, segs: seq<Segment>, tokens: Tokens, offset: nat, moved: nat)
    requires segs != [] && !IsLocator(ls, segs[0].field)
    requires var size := |segs[0].pre| + |segs[0].raw|;
      SpansFrom(ls, Substitute(ls, segs[1..], tokens), moved + size)
      == Shifted(SpansFrom(ls, segs[1..], offset + size), tokens, moved - offset)
    ensures SpansFrom(ls, Substitute(ls, segs, tokens), moved)
         == Shifted(SpansFrom(ls, segs, offset), tokens, moved - offset)
  {
    SpansOfSubstituted(ls, segs, tokens, moved);
    SpansStep(ls, segs, offset);
  }

  /** The spans found in the spliced document are the old ones, shifted. */
  lemma {:induction false} SpansShift(ls: Fields, segs: seq<Segment>, tokens: Tokens, offset: nat, moved: nat)
    ensures SpansFrom(ls, Substitute(ls, segs, tokens), moved)
         == Shifted(SpansFrom(ls, segs, offset), tokens, moved - offset)
    decreases |segs|
  {
    if segs == [] {
    } else if IsLocator(ls, segs[0].field) {
      var pre := |segs[0].pre|;
      SpansShift(ls, segs[1..], tokens, offset + pre + |segs[0].raw|, moved + pre + |tokens(segs[0].field.value)|);
      ShiftOverLocator(ls, segs, tokens, offset, moved);
    } else {
      var size := |segs[0].pre| + |segs[0].raw|;
      SpansShift(ls, segs[1..], tokens, offset + size, moved + size);
      ShiftOverPlain(ls, segs, tokens, offset, moved);
    }
  }

  // ---- Documents ----

  /** The decoder's string token of a key. */
  type Names = seq<Piece> -> Option<string>

  /** A JSON object with at least one member, and the space around it. */
  datatype Document = Document(lead: Bytes, members: seq<Member>, trail: Bytes)

  predicate DocumentOk(d: Document) {
    Spaces(d.lead) && Spaces(d.trail) && d.members != [] && forall i :: 0 <= i < |d.members| ==> MemberOk(d.members[i])
  }

  function DocumentBytes(d: Document): Bytes {
    d.lead + ValueThen(Object([], d.members), d.trail)
  }

  function ValueText(v: Json): Bytes {
    ValueThen(v, [])
  }

  lemma {:induction false} ValueAppend(v: Json, rest: Bytes)
    ensures ValueThen(v, rest) == ValueText(v) + rest
    decreases v, 0
  {
    match v
    case Object(gap, members) =>
      if members == [] {
        assert gap + ([CLOSE_BRACE] + rest) == (gap + ([CLOSE_BRACE] + [])) + rest;
      } else {
        MembersAppend(members, rest);
      }
    case Array(gap, items) =>
      if items == [] {
        assert gap + ([CLOSE_BRACKET] + rest) == (gap + ([CLOSE_BRACKET] + [])) + rest;
      } else {
        ItemsAppend(items, rest);
      }
    case Text(pieces) =>
      BodyLonger(pieces, rest);
    case Scalar(text) =>
  }

  lemma {:induction false} ItemAppend(item: Item, x: Bytes, rest: Bytes)
    ensures ItemThen(item, x + rest) == ItemThen(item, x) + rest
    decreases item, 1
  {
    ValueAppend(item.value, item.after + (x + rest));
    ValueAppend(item.value, item.after + x);
    assert item.before + (ValueText(item.value) + (item.after + (x + rest)))
        == (item.before + (ValueText(item.value) + (item.after + x))) + rest;
  }

  lemma {:induction false} ItemsAppend(items: seq<Item>, rest: Bytes)
    requires items != []
    ensures ItemsThen(items, rest) == ItemsThen(items, []) + rest
    decreases items, 2
  {
    if |items| == 1 {
      assert [CLOSE_BRACKET] + rest == ([CLOSE_BRACKET] + []) + rest;
      ItemAppend(items[0], [CLOSE_BRACKET] + [], rest);
    } else {
      ItemsAppend(items[1..], rest);
      assert [COMMA] + ItemsThen(items[1..], rest) == ([COMMA] + ItemsThen(items[1..], [])) + rest;
      ItemAppend(items[0], [COMMA] + ItemsThen(items[1..], []), rest);
    }
  }

  lemma {:induction false} MemberAppend(m: Member, x: Bytes, rest: Bytes)
    ensures MemberThen(m, x + rest) == MemberThen(m, x) + rest
    decreases m, 1
  {
    ItemAppend(m.item, x, rest);
    var i := ItemThen(m.item, x);
    BodyLonger(m.key, m.between + ([COLON] + (i + rest)));
    BodyLonger(m.key, m.between + ([COLON] + i));
    var b := BodyThen(m.key, []);
    assert m.before + ([QUOTE] + (b + (m.between + ([COLON] + (i + rest)))))
        == (m.before + ([QUOTE] + (b + (m.between + ([COLON] + i))))) + rest;
  }

  lemma {:induction false} MembersAppend(members: seq<Member>, rest: Bytes)
    requires members != []
    ensures MembersThen(members, rest) == MembersThen(members, []) + rest
    decreases members, 2
  {
    if |members| == 1 {
      assert [CLOSE_BRACE] + rest == ([CLOSE_BRACE] + []) + rest;
      MemberAppend(members[0], [CLOSE_BRACE] + [], rest);
    } else {
      MembersAppend(members[1..], rest);
      assert [COMMA] + MembersThen(members[1..], rest) == ([COMMA] + MembersThen(members[1..], [])) + rest;
      MemberAppend(members[0], [COMMA] + MembersThen(members[1..], []), rest);
    }
  }

  // ---- From the tree to the decoder's view ----

  /** A member up to its value. */
  function KeyPart(m: Member): Bytes {
    m.before + ([QUOTE] + BodyThen(m.key, m.between + ([COLON] + m.item.before)))
  }

  function SegmentsFrom(names: Names, opening: Bytes, members: seq<Member>): seq<Segment>
    decreases |members|
  {
    if members == [] then []
    else
      var m := members[0];
      [Segment(opening + KeyPart(m), names(m.key), ValueText(m.item.value))]
      + SegmentsFrom(names, m.item.after + [COMMA], members[1..])
  }

  function TailOf(members: seq<Member>, trail: Bytes): Bytes
    requires members != []
  {
    members[|members| - 1].item.after + ([CLOSE_BRACE] + trail)
  }

  function Segments(names: Names, d: Document): seq<Segment> {
    SegmentsFrom(names, d.lead + [OPEN_BRACE], d.members)
  }

  lemma {:induction false} MemberSplits(m: Member, opening: Bytes, rest: Bytes)
    ensures opening + MemberThen(m, rest) == (opening + KeyPart(m)) + (ValueText(m.item.value) + (m.item.after + rest))
  {
    ValueAppend(m.item.value, m.item.after + rest);
    var text := ValueText(m.item.value) + (m.item.after + rest);
    BodyLonger(m.key, m.between + ([COLON] + (m.item.before + text)));
    BodyLonger(m.key, m.between + ([COLON] + m.item.before));
    var b := BodyThen(m.key, []);
    assert m.before + ([QUOTE] + (b + (m.between + ([COLON] + (m.item.before + text)))))
        == (m.before + ([QUOTE] + (b + (m.between + ([COLON] + m.item.before))))) + text;
  }

  lemma {:induction false} SegmentsPrint(names: Names, opening: Bytes, members: seq<Member>, trail: Bytes)
    requires members != []
    ensures BytesOf(SegmentsFrom(names, opening, members), TailOf(members, trail))
         == opening + MembersThen(members, trail)
    decreases |members|
  {
    var m := members[0];
    if |members| == 1 {
      MemberSplits(m, opening, [CLOSE_BRACE] + trail);
      assert SegmentsFrom(names, m.item.after + [COMMA], members[1..]) == [];
    } else {
      MemberSplits(m, opening, [COMMA] + MembersThen(members[1..], trail));
      SegmentsPrint(names, m.item.after + [COMMA], members[1..], trail);
      assert TailOf(members[1..], trail) == TailOf(members, trail);
      assert m.item.after + ([COMMA] + MembersThen(members[1..], trail))
          == (m.item.after + [COMMA]) + MembersThen(members[1..], trail);
    }
  }

  /** The decoder's view of a document is the document. */
  lemma {:induction false} DocumentIsSegments(names: Names, d: Document)
    requires DocumentOk(d)
    ensures DocumentBytes(d) == BytesOf(Segments(names, d), TailOf(d.members, d.trail))
  {
    SegmentsPrint(names, d.lead + [OPEN_BRACE], d.members, d.trail);
    assert d.lead + ([OPEN_BRACE] + MembersThen(d.members, d.trail))
        == (d.lead + [OPEN_BRACE]) + MembersThen(d.members, d.trail);
  }

  /** New locator values, as JSON strings. */
  type Strings = string -> seq<Piece>

  predicate StringsOk(ls: Fields, strings: Strings) {
    forall f :: f in ls ==> PiecesOk(strings(f))
  }

  function QuotedTokens(strings: Strings): Tokens {
    (f: string) => Quoted(strings(f))
  }

  function ReplaceMember(ls: Fields, names: Names, m: Member, strings: Strings): Member {
    if IsLocator(ls, names(m.key)) then m.(item := m.item.(value := Text(strings(names(m.key).value)))) else m
  }

  /** The document with other locator values. */
  function Replace(ls: Fields, names: Names, d: Document, strings: Strings): Document {
    d.(members := seq(|d.members|, i requires 0 <= i < |d.members| => ReplaceMember(ls, names, d.members[i], strings)))
  }

  lemma {:induction false} ReplaceOk(ls: Fields, names: Names, d: Document, strings: Strings)
    requires DocumentOk(d) && StringsOk(ls, strings)
    ensures DocumentOk(Replace(ls, names, d, strings))
  {
    forall i | 0 <= i < |d.members|
      ensures MemberOk(Replace(ls, names, d, strings).members[i])
    {
      var m := d.members[i];
      assert MemberOk(m) && ItemOk(m.item);
      if IsLocator(ls, names(m.key)) {
        assert Wellformed(Text(strings(names(m.key).value)));
        assert ItemOk(ReplaceMember(ls, names, m, strings).item);
      }
    }
  }

  lemma {:induction false} ReplacedSegments(ls: Fields, names: Names, opening: Bytes, members: seq<Member>,
                                            now: seq<Member>, strings: Strings)
    requires |members| == |now|
    requires forall i :: 0 <= i < |members| ==> now[i] == ReplaceMember(ls, names, members[i], strings)
    ensures SegmentsFrom(names, opening, now)
         == Substitute(ls, SegmentsFrom(names, opening, members), QuotedTokens(strings))
    decreases |members|
  {
    if members == [] {
    } else {
      var m := members[0];
      ReplacedSegments(ls, names, m.item.after + [COMMA], members[1..], now[1..], strings);
      SubstituteCons(ls, Segment(opening + KeyPart(m), names(m.key), ValueText(m.item.value)),
                     SegmentsFrom(names, m.item.after + [COMMA], members[1..]), QuotedTokens(strings));
      assert now[0] == ReplaceMember(ls, names, m, strings);
    }
  }

  lemma {:induction false} SubstituteCons(ls: Fields, first: Segment, rest: seq<Segment>, tokens: Tokens)
    ensures Substitute(ls, [first] + rest, tokens)
         == [if IsLocator(ls, first.field) then first.(raw := tokens(first.field.value)) else first]
            + Substitute(ls, rest, tokens)
  {
  }

  // ---- Relocation ----

  /** What the splice makes of a document at the spans found in it. */
  function Image(ls: Fields, names: Names, d: Document, strings: Strings): Bytes
    requires DocumentOk(d)
  {
    DocumentIsSegments(names, d);
    SpansOrdered(ls, Segments(names, d), TailOf(d.members, d.trail), 0, 0, |DocumentBytes(d)|);
    Splice(DocumentBytes(d), SpansFrom(ls, Segments(names, d), 0), 0, QuotedTokens(strings))
  }

  /** The splice at the found spans prints the document with the new locator values and nothing else changed. */
  lemma {:induction false} ImageIsReplace(ls: Fields, names: Names, d: Document, strings: Strings)
    requires DocumentOk(d) && StringsOk(ls, strings)
    ensures Image(ls, names, d, strings) == DocumentBytes(Replace(ls, names, d, strings))
    ensures Segments(names, Replace(ls, names, d, strings)) == Substitute(ls, Segments(names, d), QuotedTokens(strings))
  {
    ImageOfSegments(ls, names, d, strings);
    ReplacedDocument(ls, names, d, strings);
  }

  lemma {:induction false} ImageOfSegments(ls: Fields, names: Names, d: Document, strings: Strings)
    requires DocumentOk(d)
    ensures Image(ls, names, d, strings)
         == BytesOf(Substitute(ls, Segments(names, d), QuotedTokens(strings)), TailOf(d.members, d.trail))
  {
    var data, segs, tail := DocumentBytes(d), Segments(names, d), TailOf(d.members, d.trail);
    DocumentIsSegments(names, d);
    SpansOrdered(ls, segs, tail, 0, 0, |data|);
    assert data[0..] == data && data[0..0] == [];
    SpliceSubstitutes(ls, data, segs, tail, 0, 0, QuotedTokens(strings));
  }

  lemma {:induction false} ReplacedDocument(ls: Fields, names: Names, d: Document, strings: Strings)
    requires DocumentOk(d) && StringsOk(ls, strings)
    ensures var segs := Substitute(ls, Segments(names, d), QuotedTokens(strings));
      && Segments(names, Replace(ls, names, d, strings)) == segs
      && DocumentBytes(Replace(ls, names, d, strings)) == BytesOf(segs, TailOf(d.members, d.trail))
  {
    var now := Replace(ls, names, d, strings);
    ReplaceOk(ls, names, d, strings);
    ReplacedSegments(ls, names, d.lead + [OPEN_BRACE], d.members, now.members, strings);
    DocumentIsSegments(names, now);
    ReplacedTail(ls, names, d, strings);
  }

  lemma {:induction false} ReplacedTail(ls: Fields, names: Names, d: Document, strings: Strings)
    requires d.members != []
    ensures TailOf(Replace(ls, names, d, strings).members, d.trail) == TailOf(d.members, d.trail)
  {
    var last := |d.members| - 1;
    assert Replace(ls, names, d, strings).members[last] == ReplaceMember(ls, names, d.members[last], strings);
  }

  /** Two documents that agree in every byte outside their locator values. */
  ghost predicate OnlyLocatorsDiffer(ls: Fields, names: Names, d: Document, e: Document) {
    && d.lead == e.lead && d.trail == e.trail && |d.members| == |e.members|
    && forall i :: 0 <= i < |d.members| ==> MemberAgrees(ls, names, d.members[i], e.members[i])
  }

  predicate MemberAgrees(ls: Fields, names: Names, m: Member, n: Member) {
    && m.before == n.before && m.key == n.key && m.between == n.between && m.item.before == n.item.before
    && m.item.after == n.item.after
    && (!IsLocator(ls, names(m.key)) ==> m.item.value == n.item.value)
  }

  lemma {:induction false} DocumentUnique(d: Document, e: Document)
    requires DocumentOk(d) && DocumentOk(e) && DocumentBytes(d) == DocumentBytes(e)
    ensures d == e
  {
    SpacesUnique(d.lead, ValueThen(Object([], d.members), d.trail), e.lead, ValueThen(Object([], e.members), e.trail));
    ValueUnique(Object([], d.members), d.trail, Object([], e.members), e.trail);
  }

  /**
   The comparison of the marker images is exact: two documents have the same image if and only if
   they agree in every byte outside the locator values.
   */
  lemma {:induction false} RelocationExact(ls: Fields, names: Names, d: Document, e: Document, markers: Strings)
    requires DocumentOk(d) && DocumentOk(e) && StringsOk(ls, markers)
    ensures Image(ls, names, d, markers) == Image(ls, names, e, markers) <==> OnlyLocatorsDiffer(ls, names, d, e)
  {
    var x, y := Replace(ls, names, d, markers), Replace(ls, names, e, markers);
    ImageIsReplace(ls, names, d, markers);
    ImageIsReplace(ls, names, e, markers);
    ReplaceOk(ls, names, d, markers);
    ReplaceOk(ls, names, e, markers);
    if DocumentBytes(x) == DocumentBytes(y) {
      DocumentUnique(x, y);
      assert |d.members| == |x.members| == |e.members|;
      forall i | 0 <= i < |d.members|
        ensures MemberAgrees(ls, names, d.members[i], e.members[i])
      {
        assert x.members[i] == y.members[i];
      }
    } else if OnlyLocatorsDiffer(ls, names, d, e) {
      SameReplacement(ls, names, d, e, markers);
    }
  }

  lemma {:induction false} SameReplacement(ls: Fields, names: Names, d: Document, e: Document, strings: Strings)
    requires OnlyLocatorsDiffer(ls, names, d, e)
    ensures Replace(ls, names, d, strings) == Replace(ls, names, e, strings)
  {
    forall i | 0 <= i < |d.members|
      ensures ReplaceMember(ls, names, d.members[i], strings) == ReplaceMember(ls, names, e.members[i], strings)
    {
      assert MemberAgrees(ls, names, d.members[i], e.members[i]);
    }
  }

  /** The span finder sees the same fields after a substitution. */
  lemma {:induction false} FieldsStay(fs: Fields, ls: Fields, segs: seq<Segment>, tokens: Tokens)
    ensures AllFields(fs, Substitute(ls, segs, tokens)) <==> AllFields(fs, segs)
  {
    var now := Substitute(ls, segs, tokens);
    forall i | 0 <= i < |segs|
      ensures now[i].field == segs[i].field
    {
    }
    assert FieldSet(now, |now|) == FieldSet(segs, |segs|);
  }

  /**
   A derived policy always passes that comparison. The span finder accepts it exactly when it accepts
   the original, and finds the old spans, shifted.
   */
  lemma {:induction false} DerivedIsAccepted(fs: Fields, ls: Fields, names: Names, d: Document, destination: Strings,
                                             markers: Strings)
    requires DocumentOk(d) && StringsOk(ls, destination) && StringsOk(ls, markers)
    ensures var e := Replace(ls, names, d, destination);
      && DocumentOk(e) && DocumentBytes(e) == Image(ls, names, d, destination)
      && Image(ls, names, e, markers) == Image(ls, names, d, markers)
      && (AllFields(fs, Segments(names, e)) <==> AllFields(fs, Segments(names, d)))
      && SpansFrom(ls, Segments(names, e), 0)
         == Shifted(SpansFrom(ls, Segments(names, d), 0), QuotedTokens(destination), 0)
  {
    var e := Replace(ls, names, d, destination);
    ReplaceOk(ls, names, d, destination);
    ImageIsReplace(ls, names, d, destination);
    SpansShift(ls, Segments(names, d), QuotedTokens(destination), 0, 0);
    FieldsStay(fs, ls, Segments(names, d), QuotedTokens(destination));
    RelocationExact(ls, names, d, e, markers);
  }
}
