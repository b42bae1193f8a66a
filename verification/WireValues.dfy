/** The binary, type-tagged encoding of values: one tag byte, then a payload whose form the tag decides. */
module WireValues {
  import opened Words
  import opened Numerals

  const MAX_VECTOR := 4096
  const MAX_WIRE_ITEMS := 0x10_0000
  const MAX_CELL_BYTES := 0x10_0000
  const MAX_TIME_NANOS := 86_399_999_999_999
  const MAX_PRECISION := 38
  const TWO127 := 0x8000_0000_0000_0000_0000_0000_0000_0000
  const TWO128 := 0x1_0000_0000_0000_0000_0000_0000_0000_0000

  type I32 = n: int | -0x8000_0000 <= n < 0x8000_0000
  type Raw16 = b: Bytes | |b| == 16 witness seq(16, _ => 0)

  /** Floats are their bit patterns; a decimal holds its coefficient as 16 stored bytes. */
  datatype Value =
    | Null
    | Integer(value: I64)
    | Float(bits: U64)
    | Text(bytes: Bytes)
    | Blob(bytes: Bytes)
    | Boolean(flag: bool)
    | Json(bytes: Bytes)
    | Vector(items: seq<U32>)
    | Timestamp(value: I64)
    | GeoPoint(latitude: U64, longitude: U64)
    | Date(day: I32)
    | Time(value: I64)
    | Decimal(raw: Raw16, scale: U8)

  /** Checks on payloads that other code makes: UTF-8, strict JSON, and coordinates in range. */
  datatype Checks = Checks(utf8: Bytes -> bool, strictJson: Bytes -> bool, onGlobe: (U64, U64) -> bool)

  /** Neither infinite nor not-a-number: the exponent is not all ones. */
  predicate Finite64(bits: U64) {
    bits / 0x10_0000_0000_0000 % 0x800 != 0x7FF
  }

  predicate Finite32(bits: U32) {
    bits / 0x80_0000 % 0x100 != 0xFF
  }

  /** Without its sign, a finite number is below the bits of infinity. */
  lemma {:induction false} FiniteIsBelowInfinity(bits: U64, small: U32)
    ensures Finite64(bits) <==> bits % 0x8000_0000_0000_0000 < 0x7FF0_0000_0000_0000
    ensures Finite32(small) <==> small % 0x8000_0000 < 0x7F80_0000
  {
    var q, r := bits / 0x10_0000_0000_0000, bits % 0x10_0000_0000_0000;
    assert bits % 0x8000_0000_0000_0000 == (q % 0x800) * 0x10_0000_0000_0000 + r;
    var s, t := small / 0x80_0000, small % 0x80_0000;
    assert small % 0x8000_0000 == (s % 0x100) * 0x80_0000 + t;
  }

  // ---- Signed 128-bit integers ----

  predicate InI128(x: int) {
    -TWO127 <= x < TWO127
  }

  function I128Bytes(x: int): Raw16
    requires InI128(x)
  {
    LE(if x < 0 then x + TWO128 else x, 16)
  }

  function I128Value(b: Raw16): (x: int)
  {
    FromLE(b) - if b[15] >= 0x80 then TWO128 else 0
  }

  lemma {:induction false} FromLESnoc(s: Bytes, b: Byte)
    ensures FromLE(s + [b]) == FromLE(s) + Pow256(|s|) * b
  {
    if s == [] {
      assert [b][1..] == [];
    } else {
      FromLESnoc(s[1..], b);
      assert (s + [b])[1..] == s[1..] + [b];
      assert 0x100 * (Pow256(|s| - 1) * b) == Pow256(|s|) * b;
    }
  }

  /** The top bit of the last byte decides the sign. */
  lemma {:induction false} TopBit(b: Raw16)
    ensures FromLE(b) < TWO128 && (b[15] >= 0x80 <==> FromLE(b) >= TWO127)
  {
    var low := b[..15];
    assert b == low + [b[15]];
    FromLESnoc(low, b[15]);
    Pow256Values();
    assert 0x100 * Pow256(15) == Pow256(16);
  }

  lemma {:induction false} I128RoundTrip(x: int)
    requires InI128(x)
    ensures I128Value(I128Bytes(x)) == x
  {
    var u := if x < 0 then x + TWO128 else x;
    Pow256Values();
    LERoundTrip(u, 16);
    TopBit(I128Bytes(x));
  }

  lemma {:induction false} I128BytesOfValue(b: Raw16)
    ensures InI128(I128Value(b)) && I128Bytes(I128Value(b)) == b
  {
    TopBit(b);
    LEOfFromLE(b);
  }

  lemma {:induction false} BEReversed(value: nat, width: nat, i: nat)
    requires i < width
    ensures BE(value, width)[width - 1 - i] == LE(value, width)[i]
  {
    if i == 0 {
    } else {
      BEReversed(value / 0x100, width - 1, i - 1);
    }
  }

  /** Filling big-endian bytes and turning them round. */
  method EncodeI128(x: int) returns (result: Raw16, ok: bool)
    ensures ok <==> InI128(x)
    ensures ok ==> result == I128Bytes(x)
  {
    if x < -TWO127 || x > TWO127 - 1 {
      return seq(16, _ => 0), false;
    }
    var unsigned := x;
    if unsigned < 0 {
      unsigned := unsigned + TWO128;
    }
    var bigEndian := BE(unsigned, 16);
    var turned := new Byte[16](_ => 0);
    for index := 0 to 16
      invariant forall i :: 0 <= i < index ==> turned[i] == bigEndian[15 - i]
    {
      turned[index] := bigEndian[16 - 1 - index];
    }
    forall i | 0 <= i < 16
      ensures turned[i] == LE(unsigned, 16)[i]
    {
      BEReversed(unsigned, 16, i);
    }
    return turned[..], true;
  }

  lemma {:induction false} FromBEReversed(s: Bytes, t: Bytes)
    requires |s| == |t| && forall i :: 0 <= i < |s| ==> t[|s| - 1 - i] == s[i]
    ensures FromBE(t) == FromLE(s)
  {
    if s == [] {
    } else {
      var n := |s|;
      assert t[n - 1] == s[0];
      assert forall i :: 0 <= i < n - 1 ==> t[..n - 1][n - 2 - i] == t[n - 1 - (i + 1)] == s[i + 1] == s[1..][i];
      FromBEReversed(s[1..], t[..n - 1]);
    }
  }

  method DecodeI128(value: Raw16) returns (x: int)
    ensures x == I128Value(value)
  {
    var bigEndian := new Byte[16](_ => 0);
    for index := 0 to 16
      invariant forall i :: 0 <= i < index ==> bigEndian[15 - i] == value[i]
    {
      bigEndian[16 - 1 - index] := value[index];
    }
    x := FromBE(bigEndian[..]);
    FromBEReversed(value, bigEndian[..]);
    if value[15] >= 0x80 {
      x := x - TWO128;
    }
  }

  function Abs(x: int): nat {
    if x < 0 then -x else x
  }

  function Precision(x: int): nat {
    |Digits(Abs(x))|
  }

  lemma {:induction false} Pow10Of38()
    ensures Pow10(38) == 100_000_000_000_000_000_000_000_000_000_000_000_000
  {
    assert Pow10(8) == 100_000_000;
    assert Pow10(16) == 10_000_000_000_000_000;
    assert Pow10(24) == 1_000_000_000_000_000_000_000_000;
    assert Pow10(32) == 100_000_000_000_000_000_000_000_000_000_000;
  }

  /** At most 38 digits means below 10^38, and such a coefficient always fits 128 bits. */
  lemma {:induction false} PrecisionFits(x: int)
    ensures Precision(x) <= 38 <==> Abs(x) < Pow10(38)
    ensures Precision(x) <= 38 ==> InI128(x)
  {
    DigitsLength(Abs(x), 38);
    Pow10Of38();
  }

  // ---- Encoding ----

  /** The length of the text, blob or JSON payload; other payloads are bounded by their form. */
  function PayloadLength(v: Value): nat {
    if v.Text? || v.Blob? || v.Json? then |v.bytes| else 0
  }

  predicate Encodable(ck: Checks, v: Value) {
    && PayloadLength(v) < TWO32
    && match v
       case Float(bits) => Finite64(bits)
       case Text(bytes) => ck.utf8(bytes)
       case Json(bytes) => ck.strictJson(bytes)
       case Vector(items) => 1 <= |items| <= 4_096 && forall i :: 0 <= i < |items| ==> Finite32(items[i])
       case GeoPoint(latitude, longitude) =>
         Finite64(latitude) && Finite64(longitude) && ck.onGlobe(latitude, longitude)
       case Time(value) => 0 <= value < 24 * 60 * 60 * 1_000_000_000
       case Decimal(raw, scale) => scale <= 38 && Precision(I128Value(raw)) <= 38
       case _ => true
  }

  function Tag(v: Value): Byte {
    match v
    case Null => 0
    case Integer(_) => 1
    case Float(_) => 2
    case Text(_) => 3
    case Blob(_) => 4
    case Boolean(_) => 5
    case Json(_) => 6
    case Vector(_) => 7
    case Timestamp(_) => 8
    case GeoPoint(_, _) => 9
    case Date(_) => 10
    case Time(_) => 11
    case Decimal(_, _) => 12
  }

  /** The day as an unsigned 32-bit word. */
  function DayWord(day: I32): U32 {
    if day < 0 then day + TWO32 else day
  }

  function FloatsThen(items: seq<U32>, rest: Bytes): Bytes {
    if items == [] then rest else LE(items[0], 4) + FloatsThen(items[1..], rest)
  }

  /** The payload in front of what follows it. */
  function PayloadThen(v: Value, rest: Bytes): Bytes {
    match v
    case Null => rest
    case Integer(value) => LE(Unsigned(value), 8) + rest
    case Timestamp(value) => LE(Unsigned(value), 8) + rest
    case Time(value) => LE(Unsigned(value), 8) + rest
    case Float(bits) => LE(bits, 8) + rest
    case Text(bytes) => LE(|bytes| % TWO32, 4) + (bytes + rest)
    case Blob(bytes) => LE(|bytes| % TWO32, 4) + (bytes + rest)
    case Json(bytes) => LE(|bytes| % TWO32, 4) + (bytes + rest)
    case Boolean(flag) => [if flag then 1 else 0] + rest
    case Vector(items) => LE(|items| % TWO32, 4) + FloatsThen(items, rest)
    case GeoPoint(latitude, longitude) => LE(latitude, 8) + (LE(longitude, 8) + rest)
    case Date(day) => LE(DayWord(day), 4) + rest
    case Decimal(raw, scale) => raw + ([scale] + rest)
  }

  function ValueThen(v: Value, rest: Bytes): Bytes {
    [Tag(v)] + PayloadThen(v, rest)
  }

  /** The bytes of an encoded value, by kind: the tag, and the payload in its place. */
  ghost predicate ShowsValue(b: Bytes, v: Value) {
    match v
    case Null => b == [0]
    case Integer(value) => ShowsWord(b, 1, Unsigned(value))
    case Float(bits) => ShowsWord(b, 2, bits)
    case Text(bytes) => ShowsBlock(b, 3, bytes)
    case Blob(bytes) => ShowsBlock(b, 4, bytes)
    case Boolean(flag) => b == [5, if flag then 1 else 0]
    case Json(bytes) => ShowsBlock(b, 6, bytes)
    case Vector(items) =>
      && |b| == 5 + 4 * |items| && b[0] == 7 && b[1..5] == LE(|items| % TWO32, 4)
      && forall i :: 0 <= i < |items| ==> b[5 + 4 * i..9 + 4 * i] == LE(items[i], 4)
    case Timestamp(value) => ShowsWord(b, 8, Unsigned(value))
    case GeoPoint(latitude, longitude) =>
      |b| == 17 && b[0] == 9 && b[1..9] == LE(latitude, 8) && b[9..] == LE(longitude, 8)
    case Date(day) => |b| == 5 && b[0] == 10 && b[1..] == LE(day % TWO32, 4)
    case Time(value) => ShowsWord(b, 11, Unsigned(value))
    case Decimal(raw, scale) => |b| == 18 && b[0] == 12 && b[1..17] == raw && b[17] == scale
  }

  ghost predicate ShowsWord(b: Bytes, tag: Byte, word: U64) {
    |b| == 9 && b[0] == tag && b[1..] == LE(word, 8)
  }

  ghost predicate ShowsBlock(b: Bytes, tag: Byte, bytes: Bytes) {
    |b| == 5 + |bytes| && b[0] == tag && b[1..5] == LE(|bytes| % TWO32, 4) && b[5..] == bytes
  }

  lemma {:induction false} ValueShows(v: Value)
    ensures ShowsValue(ValueThen(v, []), v)
  {
    if v.Integer? || v.Float? || v.Timestamp? || v.Time? {
      WordValueShows(v);
    } else if v.Text? || v.Blob? || v.Json? {
      BlockValueShows(v);
    } else if v.Vector? {
      VectorShows(v.items);
    } else if v.GeoPoint? || v.Decimal? {
      PairValueShows(v);
    } else {
      SmallValueShows(v);
    }
  }

  lemma {:induction false} WordValueShows(v: Value)
    requires v.Integer? || v.Float? || v.Timestamp? || v.Time?
    ensures ShowsValue(ValueThen(v, []), v)
  {
    WordShows(Tag(v), if v.Float? then v.bits else Unsigned(v.value));
  }

  lemma {:induction false} BlockValueShows(v: Value)
    requires v.Text? || v.Blob? || v.Json?
    ensures ShowsValue(ValueThen(v, []), v)
  {
    BlockShows(ValueThen(v, []), Tag(v), v.bytes);
  }

  lemma {:induction false} PairValueShows(v: Value)
    requires v.GeoPoint? || v.Decimal?
    ensures ShowsValue(ValueThen(v, []), v)
  {
    if v.GeoPoint? {
      PairShows(9, LE(v.latitude, 8), LE(v.longitude, 8));
    } else {
      PairShows(12, v.raw, [v.scale]);
    }
  }

  lemma {:induction false} SmallValueShows(v: Value)
    requires v.Null? || v.Boolean? || v.Date?
    ensures ShowsValue(ValueThen(v, []), v)
  {
    if v.Date? {
      PairShows(10, LE(DayWord(v.day), 4), []);
    }
  }

  lemma {:induction false} WordShows(tag: Byte, word: U64)
    ensures ShowsWord([tag] + (LE(word, 8) + []), tag, word)
  {
  }

  lemma {:induction false} PairShows(tag: Byte, first: Bytes, second: Bytes)
    ensures var b := [tag] + (first + (second + []));
      && |b| == 1 + |first| + |second| && b[0] == tag && b[1..1 + |first|] == first && b[1 + |first|..] == second
      && (|second| == 1 ==> b[1 + |first|] == second[0])
  {
  }

  lemma {:induction false} BlockShows(b: Bytes, tag: Byte, bytes: Bytes)
    requires b == [tag] + (LE(|bytes| % TWO32, 4) + (bytes + []))
    ensures ShowsBlock(b, tag, bytes)
  {
    assert bytes + [] == bytes;
    assert b == [tag] + LE(|bytes| % TWO32, 4) + bytes;
  }

  lemma {:induction false} VectorShows(items: seq<U32>)
    ensures ShowsValue(ValueThen(Vector(items), []), Vector(items))
  {
    var b, floats := ValueThen(Vector(items), []), FloatsThen(items, []);
    assert b == [7] + LE(|items| % TWO32, 4) + floats;
    FloatsLength(items);
    assert b[5..] == floats;
    forall i | 0 <= i < |items|
      ensures b[5 + 4 * i..9 + 4 * i] == LE(items[i], 4)
    {
      FloatAt(items, i);
      assert b[5 + 4 * i..9 + 4 * i] == floats[4 * i..4 * i + 4];
    }
  }

  lemma {:induction false} FloatsLength(items: seq<U32>)
    ensures |FloatsThen(items, [])| == 4 * |items|
  {
    if items != [] {
      FloatsLength(items[1..]);
    }
  }

  lemma {:induction false} FloatAt(items: seq<U32>, i: nat)
    requires i < |items|
    ensures |FloatsThen(items, [])| == 4 * |items| && FloatsThen(items, [])[4 * i..4 * i + 4] == LE(items[i], 4)
  {
    FloatsLength(items);
    FloatsLength(items[1..]);
    var all, more := FloatsThen(items, []), FloatsThen(items[1..], []);
    assert all == LE(items[0], 4) + more;
    if i > 0 {
      FloatAt(items[1..], i - 1);
      assert all[4 * i..4 * i + 4] == more[4 * (i - 1)..4 * (i - 1) + 4];
    }
  }

  // ---- Decoding a suffix of the wire ----

  datatype Read<+T> = Read(value: T, rest: Bytes)

  /** The closure `require`: the next n bytes, if they are there. */
  function Take(s: Bytes, n: nat): Option<Read<Bytes>> {
    if n <= |s| then Some(Read(s[..n], s[n..])) else None
  }

  function TakeWord(s: Bytes, width: nat): Option<Read<nat>> {
    if width <= |s| then Some(Read(FromLE(s[..width]), s[width..])) else None
  }

  /** A length word and that many bytes. */
  function TakeBlock(s: Bytes, maxCell: nat): Option<Read<Bytes>> {
    var length := TakeWord(s, 4);
    if length.None? || length.value.value > maxCell then None else Take(length.value.rest, length.value.value)
  }

  function TakeFloats(s: Bytes, n: nat): Option<Read<seq<U32>>>
    decreases n
  {
    if n == 0 then Some(Read([], s))
    else
      var first := TakeWord(s, 4);
      if first.None? then None
      else
        Pow256Values();
        if !Finite32(first.value.value) then None
        else
          var more := TakeFloats(first.value.rest, n - 1);
          if more.None? then None else Some(Read([first.value.value] + more.value.value, more.value.rest))
  }

  function DecodeVector(s: Bytes): Option<Read<Value>> {
    var dimension := TakeWord(s, 4);
    if dimension.None? then None
    else
      var n, t := dimension.value.value, dimension.value.rest;
      if n == 0 || n > MAX_VECTOR || n > |t| / 4 then None
      else
        var items := TakeFloats(t, n);
        if items.None? then None else Some(Read(Vector(items.value.value), items.value.rest))
  }

  function DecodeWord(ck: Checks, kind: Byte, s: Bytes): Option<Read<Value>> {
    var word := TakeWord(s, 8);
    if word.None? then None
    else
      Pow256Values();
      var u: U64, rest := word.value.value, word.value.rest;
      if kind == 1 then Some(Read(Integer(Signed(u)), rest))
      else if kind == 8 then Some(Read(Timestamp(Signed(u)), rest))
      else if kind == 11 then (if 0 <= Signed(u) <= MAX_TIME_NANOS then Some(Read(Time(Signed(u)), rest)) else None)
      else if Finite64(u) then Some(Read(Float(u), rest))
      else None
  }

  function DecodeBlock(ck: Checks, kind: Byte, s: Bytes, maxCell: nat): Option<Read<Value>> {
    var block := TakeBlock(s, maxCell);
    if block.None? then None
    else
      var bytes, rest := block.value.value, block.value.rest;
      if kind == 3 then (if ck.utf8(bytes) then Some(Read(Text(bytes), rest)) else None)
      else if kind == 6 then (if ck.strictJson(bytes) then Some(Read(Json(bytes), rest)) else None)
      else Some(Read(Blob(bytes), rest))
  }

  function DecodeGeoPoint(ck: Checks, s: Bytes): Option<Read<Value>> {
    var payload := Take(s, 16);
    if payload.None? then None
    else
      Pow256Values();
      var latitude: U64, longitude: U64 := FromLE(payload.value.value[..8]), FromLE(payload.value.value[8..]);
      if Finite64(latitude) && Finite64(longitude) && ck.onGlobe(latitude, longitude)
      then Some(Read(GeoPoint(latitude, longitude), payload.value.rest))
      else None
  }

  /** The constructor's check and storage form of a decimal. */
  function DecimalValue(coefficient: int, scale: U8): Option<Value> {
    if scale > MAX_PRECISION || Precision(coefficient) > MAX_PRECISION || !InI128(coefficient) then None
    else Some(Decimal(I128Bytes(coefficient), scale))
  }

  function DecodeDecimal(s: Bytes): Option<Read<Value>> {
    var payload := Take(s, 17);
    if payload.None? then None
    else
      var value := DecimalValue(I128Value(payload.value.value[..16]), payload.value.value[16]);
      if value.None? then None else Some(Read(value.value, payload.value.rest))
  }

  /** One value at the start of s; the limit on text, blob and JSON payloads is a parameter. */
  function DecodeValue(ck: Checks, s: Bytes, maxCell: nat): Option<Read<Value>> {
    if s == [] then None
    else
      var kind, t := s[0], s[1..];
      if kind == 0 then Some(Read(Null, t))
      else if kind in {1, 2, 8, 11} then DecodeWord(ck, kind, t)
      else if kind in {3, 4, 6} then DecodeBlock(ck, kind, t, maxCell)
      else if kind == 5 then
        (if t == [] || t[0] > 1 then None else Some(Read(Boolean(t[0] == 1), t[1..])))
      else if kind == 7 then DecodeVector(t)
      else if kind == 9 then DecodeGeoPoint(ck, t)
      else if kind == 10 then
        var word := TakeWord(t, 4);
        if word.None? then None
        else
          Pow256Values();
          var n := word.value.value;
          Some(Read(Date(if n >= 0x8000_0000 then n - TWO32 else n), word.value.rest))
      else if kind == 12 then DecodeDecimal(t)
      else None
  }

  // ---- Round trips, part by part ----

  lemma {:induction false} TakeOf(b: Bytes, rest: Bytes)
    ensures Take(b + rest, |b|) == Some(Read(b, rest))
  {
    assert (b + rest)[..|b|] == b && (b + rest)[|b|..] == rest;
  }

  lemma {:induction false} TakeWordOf(n: nat, width: nat, rest: Bytes)
    requires n < Pow256(width)
    ensures TakeWord(LE(n, width) + rest, width) == Some(Read(n, rest))
  {
    TakeOf(LE(n, width), rest);
    LERoundTrip(n, width);
  }

  lemma {:induction false} WordTaken(s: Bytes, width: nat)
    requires width <= |s|
    ensures var r := TakeWord(s, width).value; r.value < Pow256(width) && s == LE(r.value, width) + r.rest
  {
    LEOfFromLE(s[..width]);
    assert s == s[..width] + s[width..];
  }

  lemma {:induction false} TakeCountOf(n: nat, rest: Bytes)
    requires n < TWO32
    ensures TakeWord(LE(n % TWO32, 4) + rest, 4) == Some(Read(n, rest))
  {
    Pow256Values();
    TakeWordOf(n % TWO32, 4, rest);
  }

  lemma {:induction false} TakeBlockOf(bytes: Bytes, rest: Bytes, maxCell: nat)
    requires |bytes| < TWO32
    ensures TakeBlock(LE(|bytes| % TWO32, 4) + (bytes + rest), maxCell)
         == if |bytes| <= maxCell then Some(Read(bytes, rest)) else None
  {
    TakeCountOf(|bytes|, bytes + rest);
    TakeOf(bytes, rest);
  }

  lemma {:induction false} CountTaken(s: Bytes)
    requires |s| >= 4
    ensures var r := TakeWord(s, 4).value; r.value < TWO32 && s == LE(r.value % TWO32, 4) + r.rest
  {
    WordTaken(s, 4);
    Pow256Values();
    SmallMod(TakeWord(s, 4).value.value);
  }

  lemma {:induction false} SmallMod(n: nat)
    requires n < TWO32
    ensures n % TWO32 == n
  {
  }

  lemma {:induction false} BlockTaken(s: Bytes, maxCell: nat)
    requires TakeBlock(s, maxCell).Some?
    ensures var r := TakeBlock(s, maxCell).value;
      |r.value| < TWO32 && |r.value| <= maxCell && s == LE(|r.value| % TWO32, 4) + (r.value + r.rest)
  {
    CountTaken(s);
    var length := TakeWord(s, 4).value;
    assert length.rest == length.rest[..length.value] + length.rest[length.value..];
  }

  lemma {:induction false} TakeFloatsOf(items: seq<U32>, rest: Bytes)
    requires forall i :: 0 <= i < |items| ==> Finite32(items[i])
    ensures TakeFloats(FloatsThen(items, rest), |items|) == Some(Read(items, rest))
    ensures |FloatsThen(items, rest)| == 4 * |items| + |rest|
    decreases |items|
  {
    if items == [] {
    } else {
      Pow256Values();
      TakeWordOf(items[0], 4, FloatsThen(items[1..], rest));
      TakeFloatsOf(items[1..], rest);
      assert items == [items[0]] + items[1..];
    }
  }

  lemma {:induction false} FloatsTaken(s: Bytes, n: nat)
    requires TakeFloats(s, n).Some?
    ensures var r := TakeFloats(s, n).value;
      |r.value| == n && s == FloatsThen(r.value, r.rest) && forall i :: 0 <= i < n ==> Finite32(r.value[i])
    decreases n
  {
    if n == 0 {
    } else {
      Pow256Values();
      WordTaken(s, 4);
      FloatsTaken(TakeWord(s, 4).value.rest, n - 1);
    }
  }

  // ---- Round trips of values ----

  lemma {:induction false} TagFirst(v: Value, rest: Bytes)
    ensures ValueThen(v, rest) != [] && ValueThen(v, rest)[0] == Tag(v)
    ensures ValueThen(v, rest)[1..] == PayloadThen(v, rest)
  {
  }

  lemma {:induction false} WordValueOf(ck: Checks, v: Value, rest: Bytes)
    requires Encodable(ck, v) && (v.Integer? || v.Float? || v.Timestamp? || v.Time?)
    ensures DecodeWord(ck, Tag(v), PayloadThen(v, rest)) == Some(Read(v, rest))
  {
    Pow256Values();
    if v.Float? {
      TakeWordOf(v.bits, 8, rest);
    } else {
      TakeWordOf(Unsigned(v.value), 8, rest);
      SignedUnsigned(v.value);
    }
  }

  lemma {:induction false} GeoPointOf(ck: Checks, latitude: U64, longitude: U64, rest: Bytes)
    requires Encodable(ck, GeoPoint(latitude, longitude))
    ensures DecodeGeoPoint(ck, PayloadThen(GeoPoint(latitude, longitude), rest))
         == Some(Read(GeoPoint(latitude, longitude), rest))
  {
    var a, b := LE(latitude, 8), LE(longitude, 8);
    assert a + (b + rest) == (a + b) + rest;
    TakeOf(a + b, rest);
    assert (a + b)[..8] == a && (a + b)[8..] == b;
    Pow256Values();
    LERoundTrip(latitude, 8);
    LERoundTrip(longitude, 8);
  }

  lemma {:induction false} DecimalOf(ck: Checks, raw: Raw16, scale: U8, rest: Bytes)
    requires Encodable(ck, Decimal(raw, scale))
    ensures DecodeDecimal(PayloadThen(Decimal(raw, scale), rest)) == Some(Read(Decimal(raw, scale), rest))
  {
    assert raw + ([scale] + rest) == (raw + [scale]) + rest;
    TakeOf(raw + [scale], rest);
    assert (raw + [scale])[..16] == raw;
    I128BytesOfValue(raw);
  }

  lemma {:induction false} DateOf(day: I32, rest: Bytes)
    ensures TakeWord(PayloadThen(Date(day), rest), 4) == Some(Read(DayWord(day), rest))
  {
    Pow256Values();
    TakeWordOf(DayWord(day), 4, rest);
  }

  lemma {:induction false} VectorOf(ck: Checks, items: seq<U32>, rest: Bytes)
    requires Encodable(ck, Vector(items))
    ensures DecodeVector(PayloadThen(Vector(items), rest)) == Some(Read(Vector(items), rest))
  {
    TakeFloatsOf(items, rest);
    TakeCountOf(|items|, FloatsThen(items, rest));
  }

  /**
   Decoding an encoded value returns it and its exact end, exactly when its payload is within the
   decoder's limit; a longer one is encoded but not decoded.
   */
  lemma {:induction false} DecodeOfEncoded(ck: Checks, v: Value, rest: Bytes, maxCell: nat)
    requires Encodable(ck, v)
    ensures DecodeValue(ck, ValueThen(v, rest), maxCell)
         == if PayloadLength(v) <= maxCell then Some(Read(v, rest)) else None
  {
    if v.Integer? || v.Float? || v.Timestamp? || v.Time? {
      DecodeOfWord(ck, v, rest, maxCell);
    } else if v.Text? || v.Blob? || v.Json? {
      DecodeOfBlock(ck, v, rest, maxCell);
    } else if v.Date? || v.Decimal? {
      DecodeOfFixed(ck, v, rest, maxCell);
    } else {
      DecodeOfRest(ck, v, rest, maxCell);
    }
  }

  lemma {:induction false} DecodeOfWord(ck: Checks, v: Value, rest: Bytes, maxCell: nat)
    requires Encodable(ck, v) && (v.Integer? || v.Float? || v.Timestamp? || v.Time?)
    ensures DecodeValue(ck, ValueThen(v, rest), maxCell) == Some(Read(v, rest))
  {
    TagFirst(v, rest);
    WordValueOf(ck, v, rest);
  }

  lemma {:induction false} DecodeOfBlock(ck: Checks, v: Value, rest: Bytes, maxCell: nat)
    requires Encodable(ck, v) && (v.Text? || v.Blob? || v.Json?)
    ensures DecodeValue(ck, ValueThen(v, rest), maxCell) == if |v.bytes| <= maxCell then Some(Read(v, rest)) else None
  {
    TagFirst(v, rest);
    TakeBlockOf(v.bytes, rest, maxCell);
  }

  lemma {:induction false} DecodeOfRest(ck: Checks, v: Value, rest: Bytes, maxCell: nat)
    requires Encodable(ck, v)
    requires v.Null? || v.Boolean? || v.Vector? || v.GeoPoint?
    ensures DecodeValue(ck, ValueThen(v, rest), maxCell) == Some(Read(v, rest))
  {
    TagFirst(v, rest);
    match v
    case Null =>
    case Boolean(_) =>
    case Vector(items) => VectorOf(ck, items, rest);
    case GeoPoint(latitude, longitude) => GeoPointOf(ck, latitude, longitude, rest);
  }

  lemma {:induction false} DecodeOfFixed(ck: Checks, v: Value, rest: Bytes, maxCell: nat)
    requires Encodable(ck, v) && (v.Date? || v.Decimal?)
    ensures DecodeValue(ck, ValueThen(v, rest), maxCell) == Some(Read(v, rest))
  {
    TagFirst(v, rest);
    if v.Date? {
      DateOf(v.day, rest);
    } else {
      DecimalOf(ck, v.raw, v.scale, rest);
    }
  }

  /** A blob of one byte more than the decoder's limit: it is encoded, and not decoded. */
  lemma {:induction false} LongBlobRefused(ck: Checks, rest: Bytes)
    ensures var v := Blob(seq(0x10_0001, _ => 0));
      Encodable(ck, v) && DecodeValue(ck, ValueThen(v, rest), MAX_CELL_BYTES) == None
  {
    DecodeOfEncoded(ck, Blob(seq(MAX_CELL_BYTES + 1, _ => 0)), rest, MAX_CELL_BYTES);
  }

  /** A value was read from s, and s is its encoding followed by what was left. */
  ghost predicate Faithful(ck: Checks, s: Bytes, r: Read<Value>, maxCell: nat) {
    Encodable(ck, r.value) && PayloadLength(r.value) <= maxCell && s == ValueThen(r.value, r.rest)
  }

  lemma {:induction false} WordValueRead(ck: Checks, kind: Byte, t: Bytes, maxCell: nat)
    requires kind in {1, 2, 8, 11} && DecodeWord(ck, kind, t).Some?
    ensures Faithful(ck, [kind] + t, DecodeWord(ck, kind, t).value, maxCell)
  {
    Pow256Values();
    WordTaken(t, 8);
  }

  lemma {:induction false} BlockRead(ck: Checks, kind: Byte, t: Bytes, maxCell: nat)
    requires kind in {3, 4, 6} && DecodeBlock(ck, kind, t, maxCell).Some?
    ensures Faithful(ck, [kind] + t, DecodeBlock(ck, kind, t, maxCell).value, maxCell)
  {
    BlockTaken(t, maxCell);
  }

  lemma {:induction false} VectorRead(ck: Checks, t: Bytes, maxCell: nat)
    requires DecodeVector(t).Some?
    ensures Faithful(ck, [7] + t, DecodeVector(t).value, maxCell)
  {
    VectorTaken(t);
  }

  lemma {:induction false} VectorTaken(t: Bytes)
    requires DecodeVector(t).Some?
    ensures var r := DecodeVector(t).value;
      && r.value.Vector? && 1 <= |r.value.items| <= MAX_VECTOR
      && t == LE(|r.value.items| % TWO32, 4) + FloatsThen(r.value.items, r.rest)
      && forall i :: 0 <= i < |r.value.items| ==> Finite32(r.value.items[i])
  {
    CountTaken(t);
    var dimension := TakeWord(t, 4).value;
    FloatsTaken(dimension.rest, dimension.value);
  }

  lemma {:induction false} GeoPointRead(ck: Checks, t: Bytes, maxCell: nat)
    requires DecodeGeoPoint(ck, t).Some?
    ensures Faithful(ck, [9] + t, DecodeGeoPoint(ck, t).value, maxCell)
  {
    var payload := t[..16];
    assert t == payload[..8] + (payload[8..] + t[16..]);
    TwoWords(payload[..8], payload[8..], t[16..]);
  }

  lemma {:induction false} TwoWords(a: Bytes, b: Bytes, rest: Bytes)
    ensures LE(FromLE(a), |a|) + (LE(FromLE(b), |b|) + rest) == a + (b + rest)
  {
    LEOfFromLE(a);
    LEOfFromLE(b);
  }

  lemma {:induction false} DateRead(ck: Checks, t: Bytes, maxCell: nat)
    requires |t| >= 4
    ensures Faithful(ck, [10] + t, DecodeValue(ck, [10] + t, maxCell).value, maxCell)
  {
    assert ([10] + t)[1..] == t;
    Pow256Values();
    WordTaken(t, 4);
  }

  lemma {:induction false} DecimalRead(ck: Checks, t: Bytes, maxCell: nat)
    requires DecodeDecimal(t).Some?
    ensures Faithful(ck, [12] + t, DecodeDecimal(t).value, maxCell)
  {
    var raw: Raw16 := t[..17][..16];
    I128BytesOfValue(raw);
    assert t == raw + ([t[16]] + t[17..]);
  }

  /** Any accepted bytes are the encoding of the value they decode to. */
  lemma {:induction false} EncodeOfDecoded(ck: Checks, s: Bytes, maxCell: nat)
    requires DecodeValue(ck, s, maxCell).Some?
    ensures Faithful(ck, s, DecodeValue(ck, s, maxCell).value, maxCell)
  {
    var kind, t := s[0], s[1..];
    assert s == [kind] + t;
    if kind in {1, 2, 8, 11} {
      WordValueRead(ck, kind, t, maxCell);
    } else if kind in {3, 4, 6} {
      BlockRead(ck, kind, t, maxCell);
    } else if kind == 7 {
      VectorRead(ck, t, maxCell);
    } else if kind == 9 {
      GeoPointRead(ck, t, maxCell);
    } else if kind == 10 {
      DateRead(ck, t, maxCell);
    } else if kind == 12 {
      DecimalRead(ck, t, maxCell);
    } else if kind == 5 {
      assert t == [t[0]] + t[1..];
    }
  }
}
