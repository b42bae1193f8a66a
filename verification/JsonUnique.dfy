/** The concrete syntax is unambiguous: a JSON text is the print of exactly one tree. */
module JsonUnique {
  import opened Words
  import opened StrictJson

  predicate StartsVisible(s: Bytes) {
    s == [] || !IsSpace(s[0])
  }

  lemma {:induction false} Overlap(a: Bytes, x: Bytes, b: Bytes, y: Bytes)
    requires a + x == b + y
    ensures |a| < |b| ==> x != [] && x[0] == b[|a|]
  {
    if |a| < |b| {
      assert (b + y)[|a|] == b[|a|];
      assert |a + x| == |b + y|;
      assert (a + x)[|a|] == x[0];
    }
  }

  /** Space followed by something visible ends where the visible part starts. */
  lemma {:induction false} SpacesUnique(a: Bytes, x: Bytes, b: Bytes, y: Bytes)
    requires Spaces(a) && Spaces(b) && StartsVisible(x) && StartsVisible(y) && a + x == b + y
    ensures a == b && x == y
  {
    RunsEnd(a, x, b, y);
    RunsEnd(b, y, a, x);
    CutSame(a, x, b, y);
  }

  lemma {:induction false} RunsEnd(a: Bytes, x: Bytes, b: Bytes, y: Bytes)
    requires Spaces(a) && Spaces(b) && StartsVisible(x) && StartsVisible(y) && a + x == b + y
    ensures |a| >= |b|
  {
    Overlap(a, x, b, y);
  }

  /** A scalar ends at the first delimiter. */
  lemma {:induction false} ScalarEnd(a: Bytes, x: Bytes, b: Bytes, y: Bytes)
    requires ScalarOk(a) && ScalarOk(b) && Ends(x) && Ends(y) && a + x == b + y
    ensures |a| >= |b|
  {
    Overlap(a, x, b, y);
  }

  lemma {:induction false} BodyUnique(p: seq<Piece>, x: Bytes, q: seq<Piece>, y: Bytes)
    requires PiecesOk(p) && PiecesOk(q) && BodyThen(p, x) == BodyThen(q, y)
    ensures p == q && x == y
    decreases |p|
  {
    assert BodyThen(p, x)[0] == if p == [] then QUOTE else if p[0].Plain? then p[0].byte else BACKSLASH;
    assert BodyThen(q, y)[0] == if q == [] then QUOTE else if q[0].Plain? then q[0].byte else BACKSLASH;
    if p == [] {
      CutSame([QUOTE], x, [QUOTE], y);
    } else {
      var i, j := BodyThen(p[1..], x), BodyThen(q[1..], y);
      if p[0].Plain? {
        CutSame([p[0].byte], i, [q[0].byte], j);
      } else {
        assert ([BACKSLASH, p[0].byte] + i)[1] == p[0].byte && ([BACKSLASH, q[0].byte] + j)[1] == q[0].byte;
        CutSame([BACKSLASH, p[0].byte], i, [BACKSLASH, q[0].byte], j);
      }
      BodyUnique(p[1..], x, q[1..], y);
      assert p == [p[0]] + p[1..] && q == [q[0]] + q[1..];
    }
  }

  /** Two values in front of anything that ends a value: equal bytes mean equal values and equal rests. */
  lemma {:induction false} ValueUnique(v: Json, x: Bytes, w: Json, y: Bytes)
    requires Wellformed(v) && Wellformed(w) && Ends(x) && Ends(y) && ValueThen(v, x) == ValueThen(w, y)
    ensures v == w && x == y
    decreases v, 0
  {
    FirstByte(v, x);
    FirstByte(w, y);
    match v
    case Scalar(text) =>
      ScalarEnd(text, x, w.text, y);
      ScalarEnd(w.text, y, text, x);
      CutSame(text, x, w.text, y);
    case Text(pieces) =>
      CutSame([QUOTE], BodyThen(pieces, x), [QUOTE], BodyThen(w.pieces, y));
      BodyUnique(pieces, x, w.pieces, y);
    case Array(_, _) =>
      ArrayUnique(v, x, w, y);
    case Object(_, _) =>
      ObjectUnique(v, x, w, y);
  }

  lemma {:induction false} ArrayUnique(v: Json, x: Bytes, w: Json, y: Bytes)
    requires v.Array? && w.Array? && Wellformed(v) && Wellformed(w) && ValueThen(v, x) == ValueThen(w, y)
    ensures v == w && x == y
    decreases v.items, 2
  {
    var gap, inner := OpenArray(v, x);
    var gap', inner' := OpenArray(w, y);
    CutSame([OPEN_BRACKET], gap + inner, [OPEN_BRACKET], gap' + inner');
    SpacesUnique(gap, inner, gap', inner');
    if v.items == [] {
      CutSame([CLOSE_BRACKET], x, [CLOSE_BRACKET], y);
      CutSame([OPEN_BRACKET], v.gap + ([CLOSE_BRACKET] + x), [OPEN_BRACKET], w.gap + ([CLOSE_BRACKET] + y));
      SpacesUnique(v.gap, [CLOSE_BRACKET] + x, w.gap, [CLOSE_BRACKET] + y);
    } else {
      CutSame([OPEN_BRACKET], ItemsThen(v.items, x), [OPEN_BRACKET], ItemsThen(w.items, y));
      ItemsUnique(v.items, x, w.items, y);
    }
  }

  lemma {:induction false} SameSequence<T>(a: seq<T>, b: seq<T>)
    requires a != [] && b != [] && a[0] == b[0] && a[1..] == b[1..]
    ensures a == b
  {
    assert a == [a[0]] + a[1..] && b == [b[0]] + b[1..];
  }

  /** One item, in front of a comma or a closing byte. */
  lemma {:induction false} ItemUnique(a: Item, x: Bytes, b: Item, y: Bytes)
    requires ItemOk(a) && ItemOk(b) && x != [] && y != [] && ItemThen(a, x) == ItemThen(b, y)
    requires Delimits(x[0]) && Delimits(y[0]) && !IsSpace(x[0]) && !IsSpace(y[0])
    ensures a == b && x == y
    decreases a, 1
  {
    FirstByte(a.value, a.after + x);
    FirstByte(b.value, b.after + y);
    SpacesUnique(a.before, ValueThen(a.value, a.after + x), b.before, ValueThen(b.value, b.after + y));
    ValueUnique(a.value, a.after + x, b.value, b.after + y);
    SpacesUnique(a.after, x, b.after, y);
  }

  lemma {:induction false} ItemsUnique(a: seq<Item>, x: Bytes, b: seq<Item>, y: Bytes)
    requires a != [] && b != [] && ItemsThen(a, x) == ItemsThen(b, y)
    requires (forall i :: 0 <= i < |a| ==> ItemOk(a[i])) && (forall i :: 0 <= i < |b| ==> ItemOk(b[i]))
    ensures a == b && x == y
    decreases a, 1
  {
    var p := if |a| == 1 then [CLOSE_BRACKET] + x else [COMMA] + ItemsThen(a[1..], x);
    var q := if |b| == 1 then [CLOSE_BRACKET] + y else [COMMA] + ItemsThen(b[1..], y);
    ItemUnique(a[0], p, b[0], q);
    assert p[0] == (if |a| == 1 then CLOSE_BRACKET else COMMA) && q[0] == (if |b| == 1 then CLOSE_BRACKET else COMMA);
    if |a| == 1 {
      CutSame([CLOSE_BRACKET], x, [CLOSE_BRACKET], y);
    } else {
      CutSame([COMMA], ItemsThen(a[1..], x), [COMMA], ItemsThen(b[1..], y));
      ItemsUnique(a[1..], x, b[1..], y);
    }
    SameSequence(a, b);
  }

  lemma {:induction false} MemberUnique(a: Member, x: Bytes, b: Member, y: Bytes)
    requires MemberOk(a) && MemberOk(b) && x != [] && y != [] && MemberThen(a, x) == MemberThen(b, y)
    requires Delimits(x[0]) && Delimits(y[0]) && !IsSpace(x[0]) && !IsSpace(y[0])
    ensures a == b && x == y
    decreases a, 1
  {
    var i, j := [COLON] + ItemThen(a.item, x), [COLON] + ItemThen(b.item, y);
    SpacesUnique(a.before, [QUOTE] + BodyThen(a.key, a.between + i), b.before,
                 [QUOTE] + BodyThen(b.key, b.between + j));
    CutSame([QUOTE], BodyThen(a.key, a.between + i), [QUOTE], BodyThen(b.key, b.between + j));
    BodyUnique(a.key, a.between + i, b.key, b.between + j);
    SpacesUnique(a.between, i, b.between, j);
    CutSame([COLON], ItemThen(a.item, x), [COLON], ItemThen(b.item, y));
    ItemUnique(a.item, x, b.item, y);
  }

  lemma {:induction false} MembersUnique(a: seq<Member>, x: Bytes, b: seq<Member>, y: Bytes)
    requires a != [] && b != [] && MembersThen(a, x) == MembersThen(b, y)
    requires (forall i :: 0 <= i < |a| ==> MemberOk(a[i])) && (forall i :: 0 <= i < |b| ==> MemberOk(b[i]))
    ensures a == b && x == y
    decreases a, 1
  {
    var p := if |a| == 1 then [CLOSE_BRACE] + x else [COMMA] + MembersThen(a[1..], x);
    var q := if |b| == 1 then [CLOSE_BRACE] + y else [COMMA] + MembersThen(b[1..], y);
    MemberUnique(a[0], p, b[0], q);
    assert p[0] == (if |a| == 1 then CLOSE_BRACE else COMMA) && q[0] == (if |b| == 1 then CLOSE_BRACE else COMMA);
    if |a| == 1 {
      CutSame([CLOSE_BRACE], x, [CLOSE_BRACE], y);
    } else {
      CutSame([COMMA], MembersThen(a[1..], x), [COMMA], MembersThen(b[1..], y));
      MembersUnique(a[1..], x, b[1..], y);
    }
    SameSequence(a, b);
  }

  lemma {:induction false} ObjectUnique(v: Json, x: Bytes, w: Json, y: Bytes)
    requires v.Object? && w.Object? && Wellformed(v) && Wellformed(w) && ValueThen(v, x) == ValueThen(w, y)
    ensures v == w && x == y
    decreases v.members, 2
  {
    var gap, inner := OpenObject(v, x);
    var gap', inner' := OpenObject(w, y);
    CutSame([OPEN_BRACE], gap + inner, [OPEN_BRACE], gap' + inner');
    SpacesUnique(gap, inner, gap', inner');
    if v.members == [] {
      CutSame([CLOSE_BRACE], x, [CLOSE_BRACE], y);
      CutSame([OPEN_BRACE], v.gap + ([CLOSE_BRACE] + x), [OPEN_BRACE], w.gap + ([CLOSE_BRACE] + y));
      SpacesUnique(v.gap, [CLOSE_BRACE] + x, w.gap, [CLOSE_BRACE] + y);
    } else {
      CutSame([OPEN_BRACE], MembersThen(v.members, x), [OPEN_BRACE], MembersThen(w.members, y));
      MembersUnique(v.members, x, w.members, y);
    }
  }
}
