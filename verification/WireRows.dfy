/** The buffers built and read with the value encoding: parameter lists and row sets. */
module WireRows {
  import opened Words
  import opened WireValues

  // ---- Appending values ----

  method AppendBlock(buffer: Bytes, value: Bytes, ghost rest: Bytes) returns (r: Option<Bytes>)
    ensures r.Some? <==> |value| < TWO32
    ensures r.Some? ==> r.value + rest == buffer + (LE(|value| % TWO32, 4) + (value + rest))
  {
    if |value| > 0xFFFF_FFFF {
      return None;
    }
    var written := buffer + LE(|value| % TWO32, 4);
    Regroup(buffer, LE(|value| % TWO32, 4), value + rest);
    Regroup(written, value, rest);
    return Some(written + value);
  }

  method AppendVector(buffer: Bytes, items: seq<U32>, ghost rest: Bytes) returns (r: Option<Bytes>)
    ensures r.Some? <==> 1 <= |items| <= MAX_VECTOR && forall i :: 0 <= i < |items| ==> Finite32(items[i])
    ensures r.Some? ==> r.value + rest == buffer + (LE(|items| % TWO32, 4) + FloatsThen(items, rest))
  {
    if |items| == 0 || |items| > MAX_VECTOR {
      return None;
    }
    Regroup(buffer, LE(|items| % TWO32, 4), FloatsThen(items, rest));
    var written := buffer + LE(|items| % TWO32, 4);
    ghost var start := written;
    assert items[0..] == items;
    for i := 0 to |items|
      invariant written + FloatsThen(items[i..], rest) == start + FloatsThen(items, rest)
      invariant forall j :: 0 <= j < i ==> Finite32(items[j])
    {
      if !Finite32(items[i]) {
        return None;
      }
      assert items[i..][1..] == items[i + 1..];
      Regroup(written, LE(items[i], 4), FloatsThen(items[i + 1..], rest));
      written := written + LE(items[i], 4);
    }
    return Some(written);
  }

  method AppendPart(buffer: Bytes, part: Bytes, ghost rest: Bytes) returns (r: Bytes)
    ensures r + rest == buffer + (part + rest)
  {
    r := buffer + part;
  }

  method AppendWord(ck: Checks, buffer: Bytes, v: Value, ghost rest: Bytes) returns (r: Option<Bytes>)
    requires v.Integer? || v.Timestamp? || v.Time? || v.Float? || v.Date?
    ensures r.Some? <==> Encodable(ck, v)
    ensures r.Some? ==> r.value + rest == buffer + PayloadThen(v, rest)
  {
    if v.Time? && (v.value < 0 || v.value > MAX_TIME_NANOS) {
      return None;
    }
    if v.Float? && !Finite64(v.bits) {
      return None;
    }
    var word := if v.Float? then LE(v.bits, 8) else if v.Date? then LE(DayWord(v.day), 4) else LE(Unsigned(v.value), 8);
    var written := AppendPart(buffer, word, rest);
    return Some(written);
  }

  method AppendPair(ck: Checks, buffer: Bytes, v: Value, ghost rest: Bytes) returns (r: Option<Bytes>)
    requires v.GeoPoint? || v.Decimal?
    ensures r.Some? <==> Encodable(ck, v)
    ensures r.Some? ==> r.value + rest == buffer + PayloadThen(v, rest)
  {
    var first, second;
    if v.GeoPoint? {
      if !Finite64(v.latitude) || !Finite64(v.longitude) || !ck.onGlobe(v.latitude, v.longitude) {
        return None;
      }
      first, second := LE(v.latitude, 8), LE(v.longitude, 8);
    } else {
      var coefficient := DecodeI128(v.raw);
      if v.scale > MAX_PRECISION || Precision(coefficient) > MAX_PRECISION {
        return None;
      }
      first, second := v.raw, [v.scale];
    }
    var written := AppendPart(buffer, first, second + rest);
    written := AppendPart(written, second, rest);
    return Some(written);
  }

  method AppendPayload(ck: Checks, buffer: Bytes, v: Value, ghost rest: Bytes) returns (r: Option<Bytes>)
    ensures r.Some? <==> Encodable(ck, v)
    ensures r.Some? ==> r.value + rest == buffer + PayloadThen(v, rest)
  {
    match v {
      case Null =>
        r := Some(buffer);
      case Text(bytes) =>
        if !ck.utf8(bytes) {
          return None;
        }
        r := AppendBlock(buffer, bytes, rest);
      case Blob(bytes) =>
        r := AppendBlock(buffer, bytes, rest);
      case Json(bytes) =>
        if !ck.strictJson(bytes) {
          return None;
        }
        r := AppendBlock(buffer, bytes, rest);
      case Boolean(flag) =>
        var written := AppendPart(buffer, [if flag then 1 else 0], rest);
        r := Some(written);
      case Vector(items) =>
        r := AppendVector(buffer, items, rest);
      case GeoPoint(_, _) =>
        r := AppendPair(ck, buffer, v, rest);
      case Decimal(_, _) =>
        r := AppendPair(ck, buffer, v, rest);
      case _ =>
        r := AppendWord(ck, buffer, v, rest);
    }
  }

  /** Appending succeeds exactly on encodable values and writes exactly their encoding. */
  method AppendValue(ck: Checks, buffer: Bytes, v: Value, ghost rest: Bytes) returns (r: Option<Bytes>)
    ensures r.Some? <==> Encodable(ck, v)
    ensures r.Some? ==> r.value + rest == buffer + ValueThen(v, rest)
  {
    Regroup(buffer, [Tag(v)], PayloadThen(v, rest));
    r := AppendPayload(ck, buffer + [Tag(v)], v, rest);
  }

  function ValuesThen(vs: seq<Value>, rest: Bytes): Bytes {
    if vs == [] then rest else ValueThen(vs[0], ValuesThen(vs[1..], rest))
  }

  function ParametersCode(params: seq<Value>): Bytes {
    LE(|params| % TWO32, 4) + ValuesThen(params, [])
  }

  predicate AllEncodable(ck: Checks, vs: seq<Value>) {
    forall i :: 0 <= i < |vs| ==> Encodable(ck, vs[i])
  }

  method EncodeParameters(ck: Checks, params: seq<Value>) returns (r: Option<Bytes>)
    ensures r.Some? <==> |params| < TWO32 && AllEncodable(ck, params)
    ensures r.Some? ==> r.value == ParametersCode(params)
  {
    if |params| > 0xFFFF_FFFF {
      return None;
    }
    var buffer := LE(|params| % TWO32, 4);
    assert params[0..] == params;
    for i := 0 to |params|
      invariant buffer + ValuesThen(params[i..], []) == ParametersCode(params)
      invariant forall j :: 0 <= j < i ==> Encodable(ck, params[j])
    {
      assert params[i..][1..] == params[i + 1..];
      r := AppendValue(ck, buffer, params[i], ValuesThen(params[i + 1..], []));
      if r.None? {
        return None;
      }
      buffer := r.value;
    }
    assert buffer + [] == buffer;
    return Some(buffer);
  }

  /** Encoded values followed by anything: equal bytes mean equal values. */
  lemma {:induction false} ValuesSplit(ck: Checks, vs: seq<Value>, x: Bytes, ws: seq<Value>, y: Bytes)
    requires AllEncodable(ck, vs) && AllEncodable(ck, ws) && |vs| == |ws| && ValuesThen(vs, x) == ValuesThen(ws, y)
    ensures vs == ws && x == y
    decreases |vs|
  {
    if vs == [] {
    } else {
      DecodeOfEncoded(ck, vs[0], ValuesThen(vs[1..], x), TWO32);
      DecodeOfEncoded(ck, ws[0], ValuesThen(ws[1..], y), TWO32);
      ValuesSplit(ck, vs[1..], x, ws[1..], y);
      assert vs == [vs[0]] + vs[1..] && ws == [ws[0]] + ws[1..];
    }
  }

  /** A parameter buffer determines its parameters. */
  lemma {:induction false} ParametersInjective(ck: Checks, a: seq<Value>, b: seq<Value>)
    requires AllEncodable(ck, a) && AllEncodable(ck, b) && |a| < TWO32 && |b| < TWO32
    requires ParametersCode(a) == ParametersCode(b)
    ensures a == b
  {
    CountSplit([], |a|, ValuesThen(a, []), |b|, ValuesThen(b, []));
    ValuesSplit(ck, a, [], b, []);
  }

  // ---- Reading values ----

  /** The next n bytes of the wire, and the position behind them. */
  method Require(wire: Bytes, position: nat, n: nat) returns (ok: bool, payload: Bytes, next: nat)
    requires position <= |wire|
    ensures ok <==> Take(wire[position..], n).Some?
    ensures ok ==> next <= |wire| && Take(wire[position..], n) == Some(Read(payload, wire[next..]))
    ensures !ok ==> next == position
  {
    if position > |wire| - n {
      return false, [], position;
    }
    assert wire[position..][..n] == wire[position..position + n] && wire[position..][n..] == wire[position + n..];
    return true, wire[position..position + n], position + n;
  }

  function FloatsFrom(done: seq<U32>, s: Bytes, n: nat): Option<Read<seq<U32>>> {
    var more := TakeFloats(s, n);
    if more.None? then None else Some(Read(done + more.value.value, more.value.rest))
  }

  method ReadFloats(wire: Bytes, position: nat, dimension: nat) returns (r: Option<seq<U32>>, next: nat)
    requires position <= |wire|
    ensures r.Some? <==> TakeFloats(wire[position..], dimension).Some?
    ensures r.Some? ==> next <= |wire| && TakeFloats(wire[position..], dimension) == Some(Read(r.value, wire[next..]))
  {
    var vector: seq<U32> := [];
    next := position;
    FloatsEnds(wire[position..], dimension);
    for index := 0 to dimension
      invariant next <= |wire|
      invariant FloatsFrom(vector, wire[next..], dimension - index) == TakeFloats(wire[position..], dimension)
    {
      var ok, payload, after := Require(wire, next, 4);
      if !ok {
        return None, next;
      }
      Pow256Values();
      var bits: U32 := FromLE(payload);
      if !Finite32(bits) {
        return None, next;
      }
      FloatsStep(vector, bits, wire[next..], wire[after..], dimension - index);
      vector := vector + [bits];
      next := after;
    }
    assert vector + [] == vector;
    r := Some(vector);
  }

  lemma {:induction false} FloatsEnds(s: Bytes, n: nat)
    ensures FloatsFrom([], s, n) == TakeFloats(s, n)
  {
    var more := TakeFloats(s, n);
    assert more.Some? ==> [] + more.value.value == more.value.value;
  }

  lemma {:induction false} FloatsStep(done: seq<U32>, bits: U32, s: Bytes, t: Bytes, n: nat)
    requires n > 0 && TakeWord(s, 4) == Some(Read(bits, t)) && Finite32(bits)
    ensures FloatsFrom(done, s, n) == FloatsFrom(done + [bits], t, n - 1)
  {
    var more := TakeFloats(t, n - 1);
    if more.Some? {
      assert done + ([bits] + more.value.value) == (done + [bits]) + more.value.value;
    }
  }

  /** The result of reading at a position agrees with decoding the suffix there. */
  ghost predicate Agrees(wire: Bytes, r: Option<Value>, next: nat, spec: Option<Read<Value>>) {
    && (r.Some? <==> spec.Some?)
    && (r.Some? ==> next <= |wire| && spec == Some(Read(r.value, wire[next..])))
  }

  method ReadWordValue(ck: Checks, wire: Bytes, kind: Byte, position: nat) returns (r: Option<Value>, next: nat)
    requires position <= |wire| && kind in {1, 2, 8, 11}
    ensures Agrees(wire, r, next, DecodeWord(ck, kind, wire[position..]))
  {
    var ok, payload, after := Require(wire, position, 8);
    next := after;
    if !ok {
      return None, next;
    }
    Pow256Values();
    var word: U64 := FromLE(payload);
    if kind == 1 {
      r := Some(Integer(Signed(word)));
    } else if kind == 8 {
      r := Some(Timestamp(Signed(word)));
    } else if kind == 11 {
      r := if Signed(word) < 0 || Signed(word) > MAX_TIME_NANOS then None else Some(Time(Signed(word)));
    } else {
      r := if !Finite64(word) then None else Some(Float(word));
    }
  }

  method ReadBlockValue(ck: Checks, wire: Bytes, kind: Byte, position: nat) returns (r: Option<Value>, next: nat)
    requires position <= |wire| && kind in {3, 4, 6}
    ensures Agrees(wire, r, next, DecodeBlock(ck, kind, wire[position..], MAX_CELL_BYTES))
  {
    var ok, payload, after := Require(wire, position, 4);
    next := after;
    if !ok {
      return None, next;
    }
    var length := FromLE(payload);
    if length > MAX_CELL_BYTES || length > |wire| - next {
      return None, next;
    }
    ok, payload, next := Require(wire, next, length);
    if !ok {
      return None, next;
    }
    if kind == 3 {
      r := if !ck.utf8(payload) then None else Some(Text(payload));
    } else if kind == 6 {
      r := if !ck.strictJson(payload) then None else Some(Json(payload));
    } else {
      r := Some(Blob(payload));
    }
  }

  method ReadVectorValue(wire: Bytes, position: nat) returns (r: Option<Value>, next: nat)
    requires position <= |wire|
    ensures Agrees(wire, r, next, DecodeVector(wire[position..]))
  {
    var ok, payload, after := Require(wire, position, 4);
    next := after;
    if !ok {
      return None, next;
    }
    var dimension := FromLE(payload);
    if dimension == 0 || dimension > MAX_VECTOR || dimension > (|wire| - next) / 4 {
      return None, next;
    }
    var items;
    items, next := ReadFloats(wire, next, dimension);
    r := if items.None? then None else Some(Vector(items.value));
  }

  method ReadGeoPoint(ck: Checks, wire: Bytes, position: nat) returns (r: Option<Value>, next: nat)
    requires position <= |wire|
    ensures Agrees(wire, r, next, DecodeGeoPoint(ck, wire[position..]))
  {
    var ok, payload, after := Require(wire, position, 16);
    next := after;
    if !ok {
      return None, next;
    }
    Pow256Values();
    var latitude: U64, longitude: U64 := FromLE(payload[..8]), FromLE(payload[8..]);
    var valid := Finite64(latitude) && Finite64(longitude) && ck.onGlobe(latitude, longitude);
    r := if valid then Some(GeoPoint(latitude, longitude)) else None;
  }

  method ReadDecimal(wire: Bytes, position: nat) returns (r: Option<Value>, next: nat)
    requires position <= |wire|
    ensures Agrees(wire, r, next, DecodeDecimal(wire[position..]))
  {
    var ok, payload, after := Require(wire, position, 17);
    next := after;
    if !ok {
      return None, next;
    }
    var coefficient := DecodeI128(payload[..16]);
    r := NewDecimal(coefficient, payload[16]);
  }

  /** The decimal constructor. Its last check never fails: 38 digits always fit 128 bits. */
  method NewDecimal(coefficient: int, scale: U8) returns (r: Option<Value>)
    ensures r == DecimalValue(coefficient, scale)
    ensures r.Some? <==> scale <= 38 && Precision(coefficient) <= 38
  {
    PrecisionFits(coefficient);
    if scale > MAX_PRECISION || Precision(coefficient) > MAX_PRECISION {
      return None;
    }
    var encoded, ok := EncodeI128(coefficient);
    r := if ok then Some(Decimal(encoded, scale)) else None;
  }

  /** Reads one value at a position of the wire. */
  method ReadValue(ck: Checks, wire: Bytes, position: nat) returns (r: Option<Value>, next: nat)
    requires position <= |wire|
    ensures Agrees(wire, r, next, DecodeValue(ck, wire[position..], MAX_CELL_BYTES))
  {
    next := position;
    if position >= |wire| {
      return None, next;
    }
    var kind := wire[position];
    next := next + 1;
    assert wire[position..][0] == kind && wire[position..][1..] == wire[next..];
    if kind == 0 {
      r := Some(Null);
    } else if kind in {1, 2, 8, 11} {
      r, next := ReadWordValue(ck, wire, kind, next);
    } else if kind in {3, 4, 6} {
      r, next := ReadBlockValue(ck, wire, kind, next);
    } else if kind == 5 {
      var ok, payload, after := Require(wire, next, 1);
      next := after;
      r := if !ok || payload[0] > 1 then None else Some(Boolean(payload[0] == 1));
    } else if kind == 7 {
      r, next := ReadVectorValue(wire, next);
    } else if kind == 9 {
      r, next := ReadGeoPoint(ck, wire, next);
    } else if kind == 10 {
      var ok, payload, after := Require(wire, next, 4);
      next := after;
      if !ok {
        return None, next;
      }
      Pow256Values();
      var word := FromLE(payload);
      r := Some(Date(if word >= 0x8000_0000 then word - TWO32 else word));
    } else if kind == 12 {
      r, next := ReadDecimal(wire, next);
    } else {
      r := None;
    }
  }

  // ---- Row sets ----

  /** n values and nothing behind them. */
  function DecodeCells(ck: Checks, s: Bytes, n: nat): Option<seq<Value>>
    decreases n
  {
    if n == 0 then (if s == [] then Some([]) else None)
    else
      var first := DecodeValue(ck, s, MAX_CELL_BYTES);
      if first.None? then None
      else
        var more := DecodeCells(ck, first.value.rest, n - 1);
        if more.None? then None else Some([first.value.value] + more.value)
  }

  predicate CellsOk(ck: Checks, cells: seq<Value>) {
    forall i :: 0 <= i < |cells| ==> Encodable(ck, cells[i]) && PayloadLength(cells[i]) <= 0x10_0000
  }

  lemma {:induction false} CellsDecode(ck: Checks, cells: seq<Value>)
    requires CellsOk(ck, cells)
    ensures DecodeCells(ck, ValuesThen(cells, []), |cells|) == Some(cells) && |cells| <= |ValuesThen(cells, [])|
    decreases |cells|
  {
    if cells == [] {
    } else {
      DecodeOfEncoded(ck, cells[0], ValuesThen(cells[1..], []), MAX_CELL_BYTES);
      CellsDecode(ck, cells[1..]);
      PayloadNotShorter(cells[0], ValuesThen(cells[1..], []));
      assert cells == [cells[0]] + cells[1..];
    }
  }

  lemma {:induction false} FloatsNotShorter(items: seq<U32>, rest: Bytes)
    ensures |FloatsThen(items, rest)| >= |rest|
    decreases |items|
  {
    if items == [] {
    } else {
      FloatsNotShorter(items[1..], rest);
    }
  }

  lemma {:induction false} PayloadNotShorter(v: Value, rest: Bytes)
    ensures |ValueThen(v, rest)| >= |rest| + 1
  {
    if v.Vector? {
      FloatsNotShorter(v.items, rest);
    }
  }

  lemma {:induction false} DecodedCells(ck: Checks, s: Bytes, n: nat)
    requires DecodeCells(ck, s, n).Some?
    ensures var cells := DecodeCells(ck, s, n).value; |cells| == n && CellsOk(ck, cells) && s == ValuesThen(cells, [])
    decreases n
  {
    if n == 0 {
    } else {
      EncodeOfDecoded(ck, s, MAX_CELL_BYTES);
      DecodedCells(ck, DecodeValue(ck, s, MAX_CELL_BYTES).value.rest, n - 1);
    }
  }

  function Flatten(rows: seq<seq<Value>>): seq<Value> {
    if rows == [] then [] else Flatten(rows[..|rows| - 1]) + rows[|rows| - 1]
  }

  function Columns(rows: seq<seq<Value>>): nat {
    if rows == [] then 0 else |rows[0]|
  }

  predicate Rectangular(rows: seq<seq<Value>>, columns: nat) {
    forall i :: 0 <= i < |rows| ==> |rows[i]| == columns
  }

  lemma {:induction false} FlattenLength(rows: seq<seq<Value>>, columns: nat)
    requires Rectangular(rows, columns)
    ensures |Flatten(rows)| == |rows| * columns
  {
    if rows == [] {
    } else {
      FlattenLength(rows[..|rows| - 1], columns);
      assert |rows| * columns == (|rows| - 1) * columns + columns;
    }
  }

  /** Rows of one width are determined by their cells. */
  lemma {:induction false} FlattenInjective(a: seq<seq<Value>>, b: seq<seq<Value>>, columns: nat)
    requires |a| == |b| && Rectangular(a, columns) && Rectangular(b, columns) && Flatten(a) == Flatten(b)
    ensures a == b
    decreases |a|
  {
    if a == [] {
    } else {
      var front, front' := a[..|a| - 1], b[..|b| - 1];
      FlattenLength(front, columns);
      FlattenLength(front', columns);
      CutSame(Flatten(front), a[|a| - 1], Flatten(front'), b[|b| - 1]);
      FlattenInjective(front, front', columns);
      assert a == front + [a[|a| - 1]] && b == front' + [b[|b| - 1]];
    }
  }

  /** The row sets that the decoder can return. */
  predicate RowsOk(ck: Checks, rows: seq<seq<Value>>) {
    && |rows| <= 0x10_0000 && Columns(rows) <= 0x10_0000 && |rows| * Columns(rows) <= 0x10_0000
    && Rectangular(rows, Columns(rows)) && CellsOk(ck, Flatten(rows))
  }

  function HeaderThen(rows: nat, columns: nat, rest: Bytes): Bytes {
    LE(rows % TWO32, 4) + (LE(columns % TWO32, 4) + rest)
  }

  function RowsCode(rows: seq<seq<Value>>): Bytes {
    HeaderThen(|rows|, Columns(rows), ValuesThen(Flatten(rows), []))
  }

  predicate Encodes(ck: Checks, wire: Bytes, rows: seq<seq<Value>>) {
    RowsOk(ck, rows) && wire == RowsCode(rows)
  }

  function CellsFrom(ck: Checks, done: seq<Value>, s: Bytes, n: nat): Option<seq<Value>> {
    var more := DecodeCells(ck, s, n);
    if more.None? then None else Some(done + more.value)
  }

  lemma {:induction false} CellsStep(ck: Checks, done: seq<Value>, s: Bytes, n: nat)
    requires n > 0
    ensures var first := DecodeValue(ck, s, MAX_CELL_BYTES);
      CellsFrom(ck, done, s, n)
      == if first.None? then None else CellsFrom(ck, done + [first.value.value], first.value.rest, n - 1)
  {
    var first := DecodeValue(ck, s, MAX_CELL_BYTES);
    if first.Some? {
      var more := DecodeCells(ck, first.value.rest, n - 1);
      assert more.Some? ==> done + ([first.value.value] + more.value) == (done + [first.value.value]) + more.value;
    }
  }

  /** The cells read so far, followed by `left` cells from the position on, are the whole. */
  ghost predicate Reading(ck: Checks, wire: Bytes, done: seq<Value>, position: nat, left: nat,
                          whole: Option<seq<Value>>)
  {
    position <= |wire| && CellsFrom(ck, done, wire[position..], left) == whole
  }

  method ReadCell(ck: Checks, wire: Bytes, position: nat, ghost done: seq<Value>, ghost left: nat,
                  ghost whole: Option<seq<Value>>)
    returns (value: Option<Value>, next: nat)
    requires Reading(ck, wire, done, position, left, whole) && left > 0
    ensures value.Some? ==> Reading(ck, wire, done + [value.value], next, left - 1, whole)
    ensures value.None? ==> whole.None?
  {
    CellsStep(ck, done, wire[position..], left);
    value, next := ReadValue(ck, wire, position);
  }

  /** One row of cells. */
  method ReadRow(ck: Checks, wire: Bytes, position: nat, columns: nat, ghost done: seq<Value>, ghost left: nat,
                 ghost whole: Option<seq<Value>>)
    returns (row: Option<seq<Value>>, next: nat)
    requires Reading(ck, wire, done, position, left, whole) && columns <= left
    ensures row.Some? ==> |row.value| == columns && Reading(ck, wire, done + row.value, next, left - columns, whole)
    ensures row.None? ==> whole.None?
  {
    var cells: seq<Value> := [];
    next := position;
    ghost var all := done;
    for i := 0 to columns
      invariant |cells| == i && all == done + cells && Reading(ck, wire, all, next, left - i, whole)
    {
      var value;
      value, next := ReadCell(ck, wire, next, all, left - i, whole);
      if value.None? {
        return None, next;
      }
      cells := cells + [value.value];
      all := all + [value.value];
    }
    row := Some(cells);
  }

  method ReadRows(ck: Checks, wire: Bytes, rowCount: nat, columnCount: nat) returns (r: Option<seq<seq<Value>>>)
    requires 8 <= |wire|
    ensures r.Some? <==> DecodeCells(ck, wire[8..], CellsOf(rowCount, columnCount)).Some?
    ensures r.Some? ==>
      && |r.value| == rowCount && Rectangular(r.value, columnCount)
      && Some(Flatten(r.value)) == DecodeCells(ck, wire[8..], CellsOf(rowCount, columnCount))
  {
    var position: nat := 8;
    var rows: seq<seq<Value>> := [];
    ghost var left, toRead := CellsOf(rowCount, columnCount), rowCount;
    ghost var whole := DecodeCells(ck, wire[8..], left);
    CellsStart(ck, wire[8..], left);
    for i := 0 to rowCount
      invariant |rows| == i && Rectangular(rows, columnCount) && toRead == rowCount - i
      invariant left == CellsOf(toRead, columnCount)
      invariant Reading(ck, wire, Flatten(rows), position, left, whole)
    {
      CellsOfNext(toRead, columnCount);
      var row;
      row, position := ReadRow(ck, wire, position, columnCount, Flatten(rows), left, whole);
      if row.None? {
        return None;
      }
      RowAdded(rows, row.value, columnCount);
      rows := rows + [row.value];
      toRead := toRead - 1;
      left := CellsOf(toRead, columnCount);
    }
    assert Flatten(rows) + [] == Flatten(rows);
    r := if position != |wire| then None else Some(rows);
  }

  lemma {:induction false} CellsStart(ck: Checks, s: Bytes, n: nat)
    ensures CellsFrom(ck, [], s, n) == DecodeCells(ck, s, n)
  {
    var more := DecodeCells(ck, s, n);
    assert more.Some? ==> [] + more.value == more.value;
  }

  /** The number of cells of so many rows. */
  ghost function CellsOf(rows: nat, columns: nat): nat {
    if rows == 0 then 0 else columns + CellsOf(rows - 1, columns)
  }

  lemma {:induction false} CellsOfNext(rows: nat, columns: nat)
    requires rows > 0
    ensures CellsOf(rows, columns) == columns + CellsOf(rows - 1, columns)
  {
  }

  lemma {:induction false} RowAdded(rows: seq<seq<Value>>, row: seq<Value>, columns: nat)
    requires Rectangular(rows, columns) && |row| == columns
    ensures Rectangular(rows + [row], columns) && Flatten(rows + [row]) == Flatten(rows) + row
  {
    assert (rows + [row])[..|rows|] == rows;
  }

  lemma {:induction false} CellsOfIs(rows: nat, columns: nat)
    ensures CellsOf(rows, columns) == rows * columns
  {
    if rows == 0 {
    } else {
      CellsOfIs(rows - 1, columns);
      assert rows * columns == columns + (rows - 1) * columns;
    }
  }

  /** The source's overflow-free form of the bound on the number of cells. */
  lemma {:induction false} CellBound(rows: nat, columns: nat)
    ensures rows > 0 ==> (columns > MAX_WIRE_ITEMS / rows <==> rows * columns > MAX_WIRE_ITEMS)
  {
    if rows > 0 {
      var q, m := MAX_WIRE_ITEMS / rows, MAX_WIRE_ITEMS % rows;
      assert MAX_WIRE_ITEMS == rows * q + m;
      if columns > q {
        assert rows * columns >= rows * (q + 1) == rows * q + rows;
      } else {
        assert rows * columns <= rows * q;
      }
    }
  }

  lemma {:induction false} HeaderRead(rows: nat, columns: nat, rest: Bytes, wire: Bytes)
    requires rows < TWO32 && columns < TWO32 && wire == HeaderThen(rows, columns, rest)
    ensures |wire| >= 8 && FromLE(wire[..4]) == rows && FromLE(wire[4..8]) == columns && wire[8..] == rest
  {
    var a, b := LE(rows % TWO32, 4), LE(columns % TWO32, 4);
    assert wire[..4] == a && wire[4..8] == b;
    Pow256Values();
    LERoundTrip(rows % TWO32, 4);
    LERoundTrip(columns % TWO32, 4);
  }

  lemma {:induction false} HeaderIs(wire: Bytes)
    requires |wire| >= 8
    ensures var rows, columns := FromLE(wire[..4]), FromLE(wire[4..8]);
      rows < TWO32 && columns < TWO32 && wire == HeaderThen(rows, columns, wire[8..])
  {
    CountTaken(wire);
    CountTaken(wire[4..]);
    assert wire[4..][..4] == wire[4..8] && wire[4..][4..] == wire[8..];
  }

  ghost predicate HeaderFits(ck: Checks, wire: Bytes, rows: seq<seq<Value>>) {
    && |wire| >= 8 && FromLE(wire[..4]) == |rows| && FromLE(wire[4..8]) == Columns(rows)
    && |rows| * Columns(rows) <= |wire| - 8
    && DecodeCells(ck, wire[8..], |rows| * Columns(rows)) == Some(Flatten(rows))
  }

  lemma {:induction false} WireOfRows(ck: Checks, rows: seq<seq<Value>>, wire: Bytes)
    requires Encodes(ck, wire, rows)
    ensures HeaderFits(ck, wire, rows)
  {
    HeaderRead(|rows|, Columns(rows), ValuesThen(Flatten(rows), []), wire);
    FlattenLength(rows, Columns(rows));
    CellsDecode(ck, Flatten(rows));
  }

  lemma {:induction false} RowsOfWire(ck: Checks, wire: Bytes, rows: seq<seq<Value>>, columns: nat, cells: nat)
    requires |wire| >= 8 && FromLE(wire[..4]) == |rows| && FromLE(wire[4..8]) == columns && Rectangular(rows, columns)
    requires cells == |rows| * columns <= MAX_WIRE_ITEMS
    requires |rows| <= MAX_WIRE_ITEMS && columns <= MAX_WIRE_ITEMS && (rows == [] ==> columns == 0)
    requires DecodeCells(ck, wire[8..], cells) == Some(Flatten(rows))
    ensures Encodes(ck, wire, rows)
  {
    DecodedCells(ck, wire[8..], cells);
    HeaderIs(wire);
  }

  /**
   Row sets: accepted bytes are exactly the encodings of the row sets within the limits, and the
   rows returned are the ones encoded; all bytes are consumed.
   */
  method DecodeRows(ck: Checks, wire: Bytes) returns (r: Option<seq<seq<Value>>>)
    ensures r.Some? ==> Encodes(ck, wire, r.value) && |r.value| * Columns(r.value) <= |wire| - 8
    ensures forall rows :: Encodes(ck, wire, rows) ==> r == Some(rows)
  {
    forall rows | Encodes(ck, wire, rows)
      ensures HeaderFits(ck, wire, rows)
    {
      WireOfRows(ck, rows, wire);
    }
    if |wire| < 8 {
      return None;
    }
    var rowCount, columnCount := FromLE(wire[..4]), FromLE(wire[4..8]);
    var cellCount := rowCount * columnCount;
    CellBound(rowCount, columnCount);
    if rowCount > MAX_WIRE_ITEMS || columnCount > MAX_WIRE_ITEMS
       || (rowCount != 0 && columnCount > MAX_WIRE_ITEMS / rowCount) || cellCount > |wire| - 8 {
      return None;
    }
    if rowCount == 0 && columnCount != 0 {
      return None;
    }
    CellsOfIs(rowCount, columnCount);
    r := ReadRows(ck, wire, rowCount, columnCount);
    if r.Some? {
      RowsOfWire(ck, wire, r.value, columnCount, cellCount);
      forall rows | Encodes(ck, wire, rows)
        ensures r == Some(rows)
      {
        FlattenInjective(rows, r.value, columnCount);
      }
    }
  }
}
