/** The one-pass scanner that rejects duplicate object keys and deep nesting in JSON text. */
module StrictJson {
  import opened Words

  const QUOTE: Byte := 0x22
  const BACKSLASH: Byte := 0x5C
  const COMMA: Byte := 0x2C
  const COLON: Byte := 0x3A
  const OPEN_BRACE: Byte := 0x7B
  const CLOSE_BRACE: Byte := 0x7D
  const OPEN_BRACKET: Byte := 0x5B
  const CLOSE_BRACKET: Byte := 0x5D
  const MAX_DEPTH := 128

  // ---- Concrete syntax, whitespace included (RFC 8259 sections 2 to 7) ----

  /** A byte of a string, or a backslash with the byte after it; the digits of \uXXXX are plain. */
  datatype Piece = Plain(byte: Byte) | Escape(byte: Byte)

  datatype Json =
    | Object(gap: Bytes, members: seq<Member>)
    | Array(gap: Bytes, items: seq<Item>)
    | Text(pieces: seq<Piece>)
    | Scalar(text: Bytes)

  /** A value with the whitespace around it. */
  datatype Item = Item(before: Bytes, value: Json, after: Bytes)

  datatype Member = Member(before: Bytes, key: seq<Piece>, between: Bytes, item: Item)

  predicate IsSpace(b: Byte) {
    b == 0x20 || b == 0x0A || b == 0x0D || b == 0x09
  }

  /** Spaces, line feeds, carriage returns and tabs. */
  predicate Spaces(s: Bytes) {
    forall i :: 0 <= i < |s| ==> s[i] == 0x20 || s[i] == 0x0A || s[i] == 0x0D || s[i] == 0x09
  }

  /** The bytes that end a number or a literal. */
  predicate Delimits(b: Byte) {
    IsSpace(b) || b == COMMA || b == CLOSE_BRACE || b == CLOSE_BRACKET
  }

  predicate Spaceless(s: Bytes) {
    forall i :: 0 <= i < |s| ==> s[i] != 0x20 && s[i] != 0x0A && s[i] != 0x0D && s[i] != 0x09
  }

  predicate PiecesOk(pieces: seq<Piece>) {
    forall i :: 0 <= i < |pieces| ==> (pieces[i].Plain? ==> pieces[i].byte != QUOTE && pieces[i].byte != BACKSLASH)
  }

  predicate ScalarOk(text: Bytes) {
    && text != [] && text[0] != OPEN_BRACE && text[0] != OPEN_BRACKET && text[0] != QUOTE && Spaceless(text)
    && forall i :: 0 <= i < |text| ==> text[i] != COMMA && text[i] != CLOSE_BRACE && text[i] != CLOSE_BRACKET
  }

  predicate ItemOk(item: Item)
    decreases item, 1
  {
    Spaces(item.before) && Spaces(item.after) && Wellformed(item.value)
  }

  predicate MemberOk(m: Member)
    decreases m, 1
  {
    Spaces(m.before) && Spaces(m.between) && PiecesOk(m.key) && ItemOk(m.item)
  }

  /** Every JSON text is the print of a wellformed tree; the gap is the space inside empty brackets. */
  predicate Wellformed(v: Json)
    decreases v, 0
  {
    match v
    case Object(gap, members) =>
      Spaces(gap) && (members != [] ==> gap == []) && forall i :: 0 <= i < |members| ==> MemberOk(members[i])
    case Array(gap, items) =>
      Spaces(gap) && (items != [] ==> gap == []) && forall i :: 0 <= i < |items| ==> ItemOk(items[i])
    case Text(pieces) => PiecesOk(pieces)
    case Scalar(text) => ScalarOk(text)
  }

  // ---- Printing in front of what follows ----

  /** The rest of a string after its opening quote. */
  function BodyThen(pieces: seq<Piece>, rest: Bytes): Bytes {
    if pieces == [] then [QUOTE] + rest
    else if pieces[0].Plain? then [pieces[0].byte] + BodyThen(pieces[1..], rest)
    else [BACKSLASH, pieces[0].byte] + BodyThen(pieces[1..], rest)
  }

  function ValueThen(v: Json, rest: Bytes): Bytes
    decreases v, 0
  {
    match v
    case Object(gap, members) =>
      [OPEN_BRACE] + (if members == [] then gap + ([CLOSE_BRACE] + rest) else MembersThen(members, rest))
    case Array(gap, items) =>
      [OPEN_BRACKET] + (if items == [] then gap + ([CLOSE_BRACKET] + rest) else ItemsThen(items, rest))
    case Text(pieces) => [QUOTE] + BodyThen(pieces, rest)
    case Scalar(text) => text + rest
  }

  function ItemThen(item: Item, rest: Bytes): Bytes
    decreases item, 1
  {
    item.before + ValueThen(item.value, item.after + rest)
  }

  function MemberThen(m: Member, rest: Bytes): Bytes
    decreases m, 1
  {
    m.before + ([QUOTE] + BodyThen(m.key, m.between + ([COLON] + ItemThen(m.item, rest))))
  }

  function MembersThen(members: seq<Member>, rest: Bytes): Bytes
    requires members != []
    decreases members, 2
  {
    MemberThen(members[0], if |members| == 1 then [CLOSE_BRACE] + rest else [COMMA] + MembersThen(members[1..], rest))
  }

  function ItemsThen(items: seq<Item>, rest: Bytes): Bytes
    requires items != []
    decreases items, 2
  {
    ItemThen(items[0], if |items| == 1 then [CLOSE_BRACKET] + rest else [COMMA] + ItemsThen(items[1..], rest))
  }

  // ---- What is accepted ----

  /** json.Unmarshal of a quoted string; the scanner calls it only for keys with escapes. */
  type Unmarshal = Bytes -> Option<Bytes>

  function Raw(pieces: seq<Piece>): Bytes {
    seq(|pieces|, i requires 0 <= i < |pieces| => pieces[i].byte)
  }

  predicate Escaped(pieces: seq<Piece>) {
    exists i :: 0 <= i < |pieces| && pieces[i].Escape?
  }

  function Quoted(pieces: seq<Piece>): Bytes {
    [QUOTE] + BodyThen(pieces, [])
  }

  function DecodedKey(unmarshal: Unmarshal, pieces: seq<Piece>): Option<Bytes> {
    if Escaped(pieces) then unmarshal(Quoted(pieces)) else Some(Raw(pieces))
  }

  /** The first n keys decode, and no two of them decode to the same. */
  predicate KeysDiffer(unmarshal: Unmarshal, members: seq<Member>, n: nat)
    requires n <= |members|
  {
    && (forall i :: 0 <= i < n ==> DecodedKey(unmarshal, members[i].key).Some?)
    && forall i, j :: 0 <= i < j < n ==> DecodedKey(unmarshal, members[i].key) != DecodedKey(unmarshal, members[j].key)
  }

  /** The first n decoded keys. */
  function KeySet(unmarshal: Unmarshal, members: seq<Member>, n: nat): set<Bytes>
    requires n <= |members|
  {
    set i | 0 <= i < n && DecodedKey(unmarshal, members[i].key).Some? :: DecodedKey(unmarshal, members[i].key).value
  }

  /** No object at any depth repeats a decoded key, and no value lies deeper than 128. */
  predicate Clean(unmarshal: Unmarshal, v: Json, depth: nat)
    decreases v
  {
    && depth <= MAX_DEPTH
    && match v
       case Object(_, members) =>
         KeysDiffer(unmarshal, members, |members|) && MembersClean(unmarshal, members, |members|, depth + 1)
       case Array(_, items) => ItemsClean(unmarshal, items, |items|, depth + 1)
       case _ => true
  }

  predicate MembersClean(unmarshal: Unmarshal, members: seq<Member>, n: nat, depth: nat)
    requires n <= |members|
    decreases members
  {
    forall i :: 0 <= i < n ==> Clean(unmarshal, members[i].item.value, depth)
  }

  predicate ItemsClean(unmarshal: Unmarshal, items: seq<Item>, n: nat, depth: nat)
    requires n <= |items|
    decreases items
  {
    forall i :: 0 <= i < n ==> Clean(unmarshal, items[i].value, depth)
  }

  // ---- Facts the scanner needs ----

  lemma {:induction false} TakeHead(data: Bytes, offset: nat, b: Byte, rest: Bytes)
    requires offset <= |data| && data[offset..] == [b] + rest
    ensures offset < |data| && data[offset] == b && data[offset + 1..] == rest
  {
    assert data[offset..][0] == b;
    assert data[offset + 1..] == data[offset..][1..];
  }

  lemma {:induction false} TakePrefix(data: Bytes, offset: nat, s: Bytes, rest: Bytes, k: nat)
    requires offset <= |data| && data[offset..] == s + rest && k <= |s|
    ensures offset + k <= |data| && data[offset + k..] == s[k..] + rest
    ensures k < |s| ==> offset + k < |data| && data[offset + k] == s[k]
    ensures k == |s| && rest != [] ==> offset + k < |data| && data[offset + k] == rest[0]
  {
    assert data[offset + k..] == data[offset..][k..];
    assert data[offset..][k..] == (s + rest)[k..] == s[k..] + rest;
    if k < |s| {
      assert data[offset..][k] == s[k];
    } else if rest != [] {
      assert data[offset..][k] == rest[0];
    }
  }

  /** A value starts with a byte that is no space and closes nothing. */
  lemma {:induction false} FirstByte(v: Json, rest: Bytes)
    requires Wellformed(v)
    ensures ValueThen(v, rest) != []
    ensures var b := ValueThen(v, rest)[0];
      && !Delimits(b) && (b == OPEN_BRACE <==> v.Object?) && (b == OPEN_BRACKET <==> v.Array?)
      && (b == QUOTE <==> v.Text?)
  {
  }

  lemma {:induction false} BodyLonger(pieces: seq<Piece>, rest: Bytes)
    ensures BodyThen(pieces, rest) == BodyThen(pieces, []) + rest
    decreases |pieces|
  {
    if pieces == [] {
      assert [] + rest == rest && [QUOTE] + [] == [QUOTE];
    } else {
      BodyLonger(pieces[1..], rest);
      var head := if pieces[0].Plain? then [pieces[0].byte] else [BACKSLASH, pieces[0].byte];
      Regroup(head, BodyThen(pieces[1..], []), rest);
    }
  }

  lemma {:induction false} KeyStep(unmarshal: Unmarshal, members: seq<Member>, n: nat)
    requires n < |members| && KeysDiffer(unmarshal, members, n)
    ensures var key := DecodedKey(unmarshal, members[n].key);
      && (key.Some? && key.value !in KeySet(unmarshal, members, n) ==>
           && KeysDiffer(unmarshal, members, n + 1)
           && KeySet(unmarshal, members, n + 1) == KeySet(unmarshal, members, n) + {key.value})
      && (key.None? || key.value in KeySet(unmarshal, members, n) ==> !KeysDiffer(unmarshal, members, |members|))
  {
  }

  lemma {:induction false} MemberStep(unmarshal: Unmarshal, members: seq<Member>, n: nat, depth: nat)
    requires n < |members| && MembersClean(unmarshal, members, n, depth)
    ensures if Clean(unmarshal, members[n].item.value, depth) then MembersClean(unmarshal, members, n + 1, depth)
      else !MembersClean(unmarshal, members, |members|, depth)
  {
  }

  lemma {:induction false} ItemStep(unmarshal: Unmarshal, items: seq<Item>, n: nat, depth: nat)
    requires n < |items| && ItemsClean(unmarshal, items, n, depth)
    ensures if Clean(unmarshal, items[n].value, depth) then ItemsClean(unmarshal, items, n + 1, depth)
      else !ItemsClean(unmarshal, items, |items|, depth)
  {
  }

  /** What follows member n of an object, or item n of an array. */
  function AfterMember(members: seq<Member>, n: nat, rest: Bytes): (after: Bytes)
    requires n < |members|
    ensures after != [] && after[0] == if n + 1 == |members| then CLOSE_BRACE else COMMA
  {
    if n + 1 == |members| then [CLOSE_BRACE] + rest else [COMMA] + MembersThen(members[n + 1..], rest)
  }

  function AfterItem(items: seq<Item>, n: nat, rest: Bytes): (after: Bytes)
    requires n < |items|
    ensures after != [] && after[0] == if n + 1 == |items| then CLOSE_BRACKET else COMMA
  {
    if n + 1 == |items| then [CLOSE_BRACKET] + rest else [COMMA] + ItemsThen(items[n + 1..], rest)
  }

  lemma {:induction false} MembersFrom(members: seq<Member>, n: nat, rest: Bytes)
    requires n < |members|
    ensures MembersThen(members[n..], rest) == MemberThen(members[n], AfterMember(members, n, rest))
  {
    assert members[n..][1..] == members[n + 1..];
  }

  lemma {:induction false} ItemsFrom(items: seq<Item>, n: nat, rest: Bytes)
    requires n < |items|
    ensures ItemsThen(items[n..], rest) == ItemThen(items[n], AfterItem(items, n, rest))
  {
    assert items[n..][1..] == items[n + 1..];
  }

  /** Reading on inside a string: the closing quote, a plain byte, or a backslash and one byte. */
  lemma {:induction false} NextPiece(data: Bytes, offset: nat, pieces: seq<Piece>, k: nat, rest: Bytes)
    requires k <= |pieces| && offset <= |data| && data[offset..] == BodyThen(pieces[k..], rest)
    ensures offset < |data|
    ensures k == |pieces| ==> data[offset] == QUOTE && data[offset + 1..] == rest
    ensures k < |pieces| && pieces[k].Plain? ==>
      data[offset] == pieces[k].byte && data[offset + 1..] == BodyThen(pieces[k + 1..], rest)
    ensures k < |pieces| && pieces[k].Escape? ==>
      data[offset] == BACKSLASH && offset + 2 <= |data| && data[offset + 2..] == BodyThen(pieces[k + 1..], rest)
  {
    if k == |pieces| {
      TakeHead(data, offset, QUOTE, rest);
    } else {
      assert pieces[k..][0] == pieces[k] && pieces[k..][1..] == pieces[k + 1..];
      var more := BodyThen(pieces[k + 1..], rest);
      if pieces[k].Plain? {
        TakeHead(data, offset, pieces[k].byte, more);
      } else {
        assert [BACKSLASH, pieces[k].byte] + more == [BACKSLASH] + ([pieces[k].byte] + more);
        TakeHead(data, offset, BACKSLASH, [pieces[k].byte] + more);
        TakeHead(data, offset + 1, pieces[k].byte, more);
      }
    }
  }

  lemma {:induction false} PlainBody(pieces: seq<Piece>)
    requires !Escaped(pieces)
    ensures BodyThen(pieces, []) == Raw(pieces) + [QUOTE]
    decreases |pieces|
  {
    if pieces == [] {
    } else {
      assert forall i :: 0 <= i < |pieces[1..]| ==> pieces[1..][i] == pieces[i + 1];
      PlainBody(pieces[1..]);
      assert Raw(pieces) == [pieces[0].byte] + Raw(pieces[1..]);
    }
  }

  /** The bytes between where a string starts and where reading stopped are the string. */
  lemma {:induction false} StringSpan(data: Bytes, start: nat, end: nat, pieces: seq<Piece>, rest: Bytes)
    requires start <= |data| && end <= |data| && data[start..] == [QUOTE] + BodyThen(pieces, rest)
    requires data[end..] == rest
    ensures start + 2 <= end && data[start..end] == Quoted(pieces)
    ensures !Escaped(pieces) ==> data[start + 1..end - 1] == Raw(pieces)
  {
    BodyLonger(pieces, rest);
    assert |data[start..]| == |data| - start && |data[end..]| == |data| - end;
    BodyEnds(pieces);
    assert data[start..end] == data[start..][..end - start] == ([QUOTE] + BodyThen(pieces, []) + rest)[..end - start];
    if !Escaped(pieces) {
      PlainBody(pieces);
      assert data[start + 1..end - 1] == data[start..end][1..end - start - 1];
    }
  }

  lemma {:induction false} BodyEnds(pieces: seq<Piece>)
    ensures |BodyThen(pieces, [])| >= 1
  {
  }

  function KeyThen(m: Member, rest: Bytes): Bytes {
    [QUOTE] + BodyThen(m.key, m.between + ([COLON] + ItemThen(m.item, rest)))
  }

  /** After an opening bracket: the gap, then either the closing bracket or the first value. */
  lemma {:induction false} OpenArray(v: Json, rest: Bytes) returns (gap: Bytes, inner: Bytes)
    requires v.Array? && Wellformed(v)
    ensures ValueThen(v, rest) == [OPEN_BRACKET] + (gap + inner) && Spaces(gap)
    ensures inner != [] && !IsSpace(inner[0]) && (inner[0] == CLOSE_BRACKET <==> v.items == [])
    ensures v.items == [] ==> inner == [CLOSE_BRACKET] + rest
    ensures v.items != [] ==> inner == ValueThen(v.items[0].value, v.items[0].after + AfterItem(v.items, 0, rest))
  {
    if v.items == [] {
      gap, inner := v.gap, [CLOSE_BRACKET] + rest;
    } else {
      assert ItemOk(v.items[0]);
      ItemsFrom(v.items, 0, rest);
      assert v.items[0..] == v.items;
      gap, inner := v.items[0].before, ValueThen(v.items[0].value, v.items[0].after + AfterItem(v.items, 0, rest));
      FirstByte(v.items[0].value, v.items[0].after + AfterItem(v.items, 0, rest));
    }
  }

  lemma {:induction false} OpenObject(v: Json, rest: Bytes) returns (gap: Bytes, inner: Bytes)
    requires v.Object? && Wellformed(v)
    ensures ValueThen(v, rest) == [OPEN_BRACE] + (gap + inner) && Spaces(gap)
    ensures inner != [] && !IsSpace(inner[0]) && (inner[0] == CLOSE_BRACE <==> v.members == [])
    ensures v.members == [] ==> inner == [CLOSE_BRACE] + rest
    ensures v.members != [] ==> inner == KeyThen(v.members[0], AfterMember(v.members, 0, rest))
  {
    if v.members == [] {
      gap, inner := v.gap, [CLOSE_BRACE] + rest;
    } else {
      assert MemberOk(v.members[0]);
      MembersFrom(v.members, 0, rest);
      assert v.members[0..] == v.members;
      gap, inner := v.members[0].before, KeyThen(v.members[0], AfterMember(v.members, 0, rest));
    }
  }

  /** Behind a comma: the space before the next key, and the key. */
  lemma {:induction false} NextMember(members: seq<Member>, n: nat, rest: Bytes)
    requires n < |members| && MemberOk(members[n])
    ensures var key := KeyThen(members[n], AfterMember(members, n, rest));
      && MembersThen(members[n..], rest) == members[n].before + key
      && Spaces(members[n].before) && key != [] && !IsSpace(key[0])
  {
    MembersFrom(members, n, rest);
  }

  // ---- The scanner ----

  predicate Ends(rest: Bytes) {
    rest == [] || Delimits(rest[0])
  }

  class Scanner {
    const data: Bytes
    const unmarshal: Unmarshal
    var offset: nat

    constructor (data: Bytes, unmarshal: Unmarshal)
      ensures this.data == data && this.unmarshal == unmarshal && At(data)
    {
      this.data := data;
      this.unmarshal := unmarshal;
      offset := 0;
    }

    /** The bytes still to be read. */
    ghost predicate At(rest: Bytes)
      reads this
    {
      offset <= |data| && data[offset..] == rest
    }

    method SkipSpace(ghost spaces: Bytes, ghost rest: Bytes)
      requires At(spaces + rest) && Spaces(spaces) && (rest == [] || !IsSpace(rest[0]))
      modifies this
      ensures At(rest) && (rest != [] ==> offset < |data| && data[offset] == rest[0])
    {
      ghost var start, k := offset, 0;
      TakePrefix(data, start, spaces, rest, 0);
      while offset < |data|
        invariant k <= |spaces| && offset == start + k && At(spaces[k..] + rest)
        decreases |data| - offset
      {
        TakePrefix(data, start, spaces, rest, k);
        if !IsSpace(data[offset]) {
          return;
        }
        offset := offset + 1;
        k := k + 1;
        TakePrefix(data, start, spaces, rest, k);
      }
    }

    /** Moves behind the closing quote. */
    method SkipString(ghost pieces: seq<Piece>, ghost rest: Bytes) returns (start: nat, end: nat, escaped: bool)
      requires At([QUOTE] + BodyThen(pieces, rest)) && PiecesOk(pieces)
      modifies this
      ensures At(rest) && start == old(offset) && end == offset
      ensures escaped <==> Escaped(pieces)
    {
      start := offset;
      escaped := false;
      TakeHead(data, offset, QUOTE, BodyThen(pieces, rest));
      offset := offset + 1;
      ghost var k := 0;
      while offset < |data|
        invariant k <= |pieces| && At(BodyThen(pieces[k..], rest))
        invariant escaped <==> exists i :: 0 <= i < k && pieces[i].Escape?
        decreases |pieces| - k
      {
        var ch := data[offset];
        NextPiece(data, offset, pieces, k, rest);
        offset := offset + 1;
        if ch == BACKSLASH {
          escaped := true;
          offset := offset + 1;
        } else if ch == QUOTE {
          return start, offset, escaped;
        }
        k := k + 1;
      }
      end := offset;
    }
  
    /** The decoded key; None when its escapes cannot be decoded. */
    method ReadKey(ghost pieces: seq<Piece>, ghost rest: Bytes) returns (key: Option<Bytes>)
      requires At([QUOTE] + BodyThen(pieces, rest)) && PiecesOk(pieces)
      modifies this
      ensures At(rest) && key == DecodedKey(unmarshal, pieces)
    {
      var start, end, escaped := SkipString(pieces, rest);
      StringSpan(data, start, end, pieces, rest);
      key := if escaped then unmarshal(data[start..end]) else Some(data[start + 1..end - 1]);
    }

    /** Steps over one byte. */
    method Next(ghost b: Byte, ghost rest: Bytes)
      requires At([b] + rest)
      modifies this
      ensures At(rest)
    {
      TakeHead(data, offset, b, rest);
      offset := offset + 1;
    }

    /** Steps over a closing byte or a comma. */
    method Close(close: Byte, ghost last: bool, ghost rest: Bytes, ghost more: Bytes) returns (closed: bool)
      requires At(if last then [close] + rest else [COMMA] + more) && close != COMMA
      modifies this
      ensures closed == last && At(if last then rest else more)
    {
      TakeHead(data, offset, if last then close else COMMA, if last then rest else more);
      closed := data[offset] == close;
      offset := offset + 1;
    }

    /**
     Visits one value. It never reads outside the data, stops exactly behind the value, and
     accepts exactly the clean values.
     */
    method Visit(depth: nat, ghost v: Json, ghost spaces: Bytes, ghost rest: Bytes) returns (ok: bool)
      requires Wellformed(v) && Spaces(spaces) && Ends(rest) && At(spaces + ValueThen(v, rest))
      modifies this
      ensures ok <==> Clean(unmarshal, v, depth)
      ensures ok ==> At(rest)
      decreases v, 1
    {
      if depth > MAX_DEPTH {
        return false;
      }
      FirstByte(v, rest);
      SkipSpace(spaces, ValueThen(v, rest));
      if data[offset] == OPEN_BRACE {
        ok := VisitObject(depth, v, rest);
      } else if data[offset] == OPEN_BRACKET {
        ok := VisitArray(depth, v, rest);
      } else if data[offset] == QUOTE {
        var _, _, _ := SkipString(v.pieces, rest);
        ok := true;
      } else {
        SkipScalar(v.text, rest);
        ok := true;
      }
    }

    method SkipScalar(ghost text: Bytes, ghost rest: Bytes)
      requires At(text + rest) && ScalarOk(text) && Ends(rest)
      modifies this
      ensures At(rest)
    {
      ghost var start, k := offset, 0;
      TakePrefix(data, start, text, rest, 0);
      while offset < |data|
        invariant k <= |text| && offset == start + k && At(text[k..] + rest)
        decreases |data| - offset
      {
        TakePrefix(data, start, text, rest, k);
        if Delimits(data[offset]) {
          return;
        }
        offset := offset + 1;
        k := k + 1;
        TakePrefix(data, start, text, rest, k);
      }
    }

    /** A value and the space behind it. */
    method VisitItem(depth: nat, ghost item: Item, ghost spaces: Bytes, ghost after: Bytes) returns (ok: bool)
      requires ItemOk(item) && Spaces(spaces) && At(spaces + ValueThen(item.value, item.after + after))
      requires after != [] && !IsSpace(after[0]) && Delimits(after[0])
      modifies this
      ensures ok <==> Clean(unmarshal, item.value, depth + 1)
      ensures ok ==> At(after) && offset < |data| && data[offset] == after[0]
      decreases item, 0
    {
      ok := Visit(depth + 1, item.value, spaces, item.after + after);
      if ok {
        SkipSpace(item.after, after);
      }
    }

    /** A key, its colon and its value. */
    method VisitMember(depth: nat, ghost m: Member, seen: set<Bytes>, ghost after: Bytes)
      returns (ok: bool, seen': set<Bytes>)
      requires MemberOk(m) && At(KeyThen(m, after))
      requires after != [] && !IsSpace(after[0]) && Delimits(after[0])
      modifies this
      ensures ok <==>
        var key := DecodedKey(unmarshal, m.key);
        key.Some? && key.value !in seen && Clean(unmarshal, m.item.value, depth + 1)
      ensures ok ==>
        seen' == seen + {DecodedKey(unmarshal, m.key).value} && At(after) && offset < |data| && data[offset] == after[0]
      decreases m, 0
    {
      var key := ReadKey(m.key, m.between + ([COLON] + ItemThen(m.item, after)));
      if key.None? || key.value in seen {
        return false, seen;
      }
      seen' := seen + {key.value};
      SkipSpace(m.between, [COLON] + ItemThen(m.item, after));
      Next(COLON, ItemThen(m.item, after));
      ok := VisitItem(depth, m.item, m.item.before, after);
    }

    method VisitArray(depth: nat, ghost v: Json, ghost rest: Bytes) returns (ok: bool)
      requires v.Array? && Wellformed(v) && depth <= MAX_DEPTH && At(ValueThen(v, rest))
      modifies this
      ensures ok <==> Clean(unmarshal, v, depth)
      ensures ok ==> At(rest)
      decreases v, 0
    {
      ghost var items := v.items;
      ghost var gap, inner := OpenArray(v, rest);
      Next(OPEN_BRACKET, gap + inner);
      SkipSpace(gap, inner);
      if data[offset] == CLOSE_BRACKET {
        Next(CLOSE_BRACKET, rest);
        return true;
      }
      ghost var n, spaces: Bytes := 0, [];
      assert spaces + inner == inner;
      while true
        invariant n < |items| && Spaces(spaces)
        invariant At(spaces + ValueThen(items[n].value, items[n].after + AfterItem(items, n, rest)))
        invariant ItemsClean(unmarshal, items, n, depth + 1)
        decreases |items| - n
      {
        assert ItemOk(items[n]);
        ItemStep(unmarshal, items, n, depth + 1);
        ok := VisitItem(depth, items[n], spaces, AfterItem(items, n, rest));
        if !ok {
          return false;
        }
        ghost var more := if n + 1 < |items| then ItemsThen(items[n + 1..], rest) else [];
        var closed := Close(CLOSE_BRACKET, n + 1 == |items|, rest, more);
        if closed {
          return true;
        }
        ItemsFrom(items, n + 1, rest);
        n := n + 1;
        spaces := items[n].before;
      }
    }

    method VisitObject(depth: nat, ghost v: Json, ghost rest: Bytes) returns (ok: bool)
      requires v.Object? && Wellformed(v) && depth <= MAX_DEPTH && At(ValueThen(v, rest))
      modifies this
      ensures ok <==> Clean(unmarshal, v, depth)
      ensures ok ==> At(rest)
      decreases v, 0
    {
      ghost var members := v.members;
      ghost var gap, inner := OpenObject(v, rest);
      Next(OPEN_BRACE, gap + inner);
      SkipSpace(gap, inner);
      if data[offset] == CLOSE_BRACE {
        Next(CLOSE_BRACE, rest);
        return true;
      }
      var seen: set<Bytes> := {};
      ghost var n := 0;
      while true
        invariant n < |members| && At(KeyThen(members[n], AfterMember(members, n, rest)))
        invariant KeysDiffer(unmarshal, members, n) && seen == KeySet(unmarshal, members, n)
        invariant MembersClean(unmarshal, members, n, depth + 1)
        decreases |members| - n
      {
        assert MemberOk(members[n]);
        KeyStep(unmarshal, members, n);
        MemberStep(unmarshal, members, n, depth + 1);
        ok, seen := VisitMember(depth, members[n], seen, AfterMember(members, n, rest));
        if !ok {
          return false;
        }
        ghost var more := if n + 1 < |members| then MembersThen(members[n + 1..], rest) else [];
        var closed := Close(CLOSE_BRACE, n + 1 == |members|, rest, more);
        if closed {
          return true;
        }
        NextMember(members, n + 1, rest);
        n := n + 1;
        SkipSpace(members[n].before, KeyThen(members[n], AfterMember(members, n, rest)));
      }
    }
  }

  /**
   The whole check. `valid` is the library's verdict on the syntax; a valid text is the print of
   a tree with space around it, and is accepted exactly when the tree is clean.
   */
  method RejectDuplicateKeys(data: Bytes, valid: bool, unmarshal: Unmarshal, ghost lead: Bytes, ghost v: Json,
                             ghost trail: Bytes)
    returns (ok: bool)
    requires valid ==> Wellformed(v) && Spaces(lead) && Spaces(trail) && data == lead + ValueThen(v, trail)
    ensures ok <==> valid && Clean(unmarshal, v, 0)
  {
    if !valid {
      return false;
    }
    var scanner := new Scanner(data, unmarshal);
    ok := scanner.Visit(0, v, lead, trail);
    if ok {
      assert trail + [] == trail;
      scanner.SkipSpace(trail, []);
      ok := scanner.offset == |data|;
    }
  }

  // ---- Clean, said of every node ----

  function Child(v: Json, i: nat): Option<Json> {
    match v
    case Object(_, members) => if i < |members| then Some(members[i].item.value) else None
    case Array(_, items) => if i < |items| then Some(items[i].value) else None
    case _ => None
  }

  /** The node reached by a path of member and item positions. */
  function NodeAt(v: Json, path: seq<nat>): Option<Json>
    decreases |path|
  {
    if path == [] then Some(v)
    else if Child(v, path[0]).None? then None
    else NodeAt(Child(v, path[0]).value, path[1..])
  }

  predicate NodeOk(unmarshal: Unmarshal, v: Json, depth: nat) {
    depth <= 128 && (v.Object? ==> KeysDiffer(unmarshal, v.members, |v.members|))
  }

  lemma {:induction false} CleanNode(unmarshal: Unmarshal, v: Json, depth: nat, path: seq<nat>)
    requires Clean(unmarshal, v, depth) && NodeAt(v, path).Some?
    ensures NodeOk(unmarshal, NodeAt(v, path).value, depth + |path|)
    decreases |path|
  {
    if path == [] {
    } else {
      var child := Child(v, path[0]).value;
      assert Clean(unmarshal, child, depth + 1);
      CleanNode(unmarshal, child, depth + 1, path[1..]);
    }
  }

  lemma {:induction false} Offender(unmarshal: Unmarshal, v: Json, depth: nat) returns (path: seq<nat>)
    requires !Clean(unmarshal, v, depth)
    ensures NodeAt(v, path).Some? && !NodeOk(unmarshal, NodeAt(v, path).value, depth + |path|)
    decreases v
  {
    if !NodeOk(unmarshal, v, depth) {
      path := [];
    } else {
      var i: nat :| Child(v, i).Some? && !Clean(unmarshal, Child(v, i).value, depth + 1) by {
        OffendingChild(unmarshal, v, depth);
      }
      var rest := Offender(unmarshal, Child(v, i).value, depth + 1);
      path := [i] + rest;
      assert path[1..] == rest;
    }
  }

  lemma {:induction false} OffendingChild(unmarshal: Unmarshal, v: Json, depth: nat)
    requires !Clean(unmarshal, v, depth) && NodeOk(unmarshal, v, depth)
    ensures exists i: nat :: Child(v, i).Some? && !Clean(unmarshal, Child(v, i).value, depth + 1)
  {
    match v
    case Object(_, members) =>
      var i :| 0 <= i < |members| && !Clean(unmarshal, members[i].item.value, depth + 1);
      assert Child(v, i) == Some(members[i].item.value);
    case Array(_, items) =>
      var i :| 0 <= i < |items| && !Clean(unmarshal, items[i].value, depth + 1);
      assert Child(v, i) == Some(items[i].value);
    case _ =>
  }

  /** A tree is clean exactly when every node of it lies within depth 128 and repeats no key. */
  lemma {:induction false} CleanEverywhere(unmarshal: Unmarshal, v: Json)
    ensures Clean(unmarshal, v, 0) <==>
      forall path: seq<nat> :: NodeAt(v, path).Some? ==> NodeOk(unmarshal, NodeAt(v, path).value, |path|)
  {
    if Clean(unmarshal, v, 0) {
      forall path: seq<nat> | NodeAt(v, path).Some?
        ensures NodeOk(unmarshal, NodeAt(v, path).value, |path|)
      {
        CleanNode(unmarshal, v, 0, path);
      }
    } else {
      var path := Offender(unmarshal, v, 0);
    }
  }
}
