/**
 The text of a sealed request is JSON: the print of one tree, free of duplicate keys, and the tree
 gives the request back.
 */
module RequestTexts {
  import opened Words
  import opened Numerals
  import opened Transactions
  import opened Receipts
  import opened StrictJson
  import opened Requests
  import JsonUnique

  // ---- The tree of a request ----

  function Letters(s: string): seq<Piece> {
    seq(|s|, i requires 0 <= i < |s| => Plain(TextBytes(s)[i]))
  }

  function NumberValue(n: nat): Json {
    Scalar(TextBytes(Digits(n)))
  }

  function TextValue(s: string): Json {
    Json.Text(Letters(s))
  }

  function Tight(v: Json): Item {
    Item([], v, [])
  }

  function ArrayValue(bytes: Bytes): Json {
    Array([], seq(|bytes|, i requires 0 <= i < |bytes| => Tight(NumberValue(bytes[i]))))
  }

  function Field(name: string, v: Json): Member {
    Member([], Letters(name), [], Tight(v))
  }

  function ConditionTree(c: WireCondition): Json {
    Object([], [Field("key", ArrayValue(c.key)), Field("expected", ExpectedValue(c)),
                Field("operator", TextValue(c.operator))])
  }

  function MutationTree(m: WireMutation): Json {
    Object([], [Field("op", TextValue(m.operation)), Field("key", ArrayValue(m.key))]
               + (if m.value.None? then [] else [Field("value", ArrayValue(m.value.value))])
               + (if m.delta.None? then [] else [Field("delta", TextValue(m.delta.value))]))
  }

  function RequestTree(r: WireRequest): Json {
    Object([], [
      Field("version", NumberValue(r.version)),
      Field("request_id", TextValue(r.requestID)),
      Field("namespace", TextValue(r.namespace)),
      Field("conditions", ConditionsTree(r.conditions)),
      Field("mutations", MutationsTree(r.mutations))])
  }

  // ---- Printing ----

  /** The tree prints as this text, whatever follows it. */
  ghost predicate Prints(v: Json, text: string) {
    forall rest: Bytes :: ValueThen(v, rest) == TextBytes(text) + rest
  }

  lemma {:induction false} TextBytesAppend(a: string, b: string)
    ensures TextBytes(a + b) == TextBytes(a) + TextBytes(b)
  {
  }

  lemma {:induction false} LettersPrint(s: string, rest: Bytes)
    ensures BodyThen(Letters(s), rest) == TextBytes(s) + ([QUOTE] + rest)
    decreases |s|
  {
    if s == "" {
      assert TextBytes(s) + ([QUOTE] + rest) == [QUOTE] + rest;
    } else {
      LettersPrint(s[1..], rest);
      assert TextBytes(s) == [TextBytes(s)[0]] + TextBytes(s[1..]);
      assert forall i :: 0 <= i < |s| - 1 ==> Letters(s)[i + 1] == Plain(TextBytes(s[1..])[i]);
      assert Letters(s)[1..] == Letters(s[1..]);
    }
  }

  lemma {:induction false} TextPrints(s: string)
    ensures Prints(TextValue(s), "\"" + s + "\"")
  {
    forall rest: Bytes
      ensures ValueThen(TextValue(s), rest) == TextBytes("\"" + s + "\"") + rest
    {
      LettersPrint(s, rest);
      TextBytesAppend("\"", s);
      TextBytesAppend("\"" + s, "\"");
      assert TextBytes("\"") == [QUOTE];
      assert [QUOTE] + (TextBytes(s) + ([QUOTE] + rest)) == ([QUOTE] + TextBytes(s) + [QUOTE]) + rest;
    }
  }

  /** Texts with commas between them. */
  function Joined(texts: seq<string>): string {
    if texts == [] then "" else if |texts| == 1 then texts[0] else texts[0] + "," + Joined(texts[1..])
  }

  lemma {:induction false} JoinedSnoc(texts: seq<string>, last: string)
    requires texts != []
    ensures Joined(texts + [last]) == Joined(texts) + "," + last
    decreases |texts|
  {
    var all := texts + [last];
    assert all[1..] == texts[1..] + [last];
    if |texts| == 1 {
      assert all[1..] == [last];
    } else {
      JoinedSnoc(texts[1..], last);
      assert texts[0] + "," + (Joined(texts[1..]) + "," + last) == (texts[0] + "," + Joined(texts[1..])) + "," + last;
    }
  }

  lemma {:induction false} TightPrints(v: Json, text: string, rest: Bytes)
    requires Prints(v, text)
    ensures ItemThen(Tight(v), rest) == TextBytes(text) + rest
  {
    assert [] + rest == rest && [] + ValueThen(v, rest) == ValueThen(v, rest);
  }

  lemma {:induction false} FieldPrints(name: string, v: Json, text: string, rest: Bytes)
    requires Prints(v, text)
    ensures MemberThen(Field(name, v), rest) == TextBytes("\"" + name + "\":" + text) + rest
  {
    var tail := [COLON] + ItemThen(Tight(v), rest);
    TightPrints(v, text, rest);
    LettersPrint(name, [] + tail);
    assert [] + tail == tail;
    FieldText(name, text);
    Nested([QUOTE], TextBytes(name), [QUOTE], [COLON], TextBytes(text), rest);
  }

  lemma {:induction false} Nested(a: Bytes, b: Bytes, c: Bytes, d: Bytes, e: Bytes, rest: Bytes)
    ensures a + (b + (c + (d + (e + rest)))) == a + b + c + d + e + rest
  {
  }

  lemma {:induction false} FieldText(name: string, text: string)
    ensures TextBytes("\"" + name + "\":" + text) == [QUOTE] + TextBytes(name) + [QUOTE] + [COLON] + TextBytes(text)
  {
    TextBytesAppend("\"", name);
    TextBytesAppend("\"" + name, "\":");
    TextBytesAppend("\"" + name + "\":", text);
    assert TextBytes("\"") == [QUOTE] && TextBytes("\":") == [QUOTE] + [COLON];
  }

  /** Each member prints as its text. */
  ghost predicate MembersPrint(members: seq<Member>, texts: seq<string>) {
    && |members| == |texts|
    && forall i, rest: Bytes :: 0 <= i < |members| ==> MemberThen(members[i], rest) == TextBytes(texts[i]) + rest
  }

  lemma {:induction false} CommaText(a: string, b: string)
    ensures TextBytes(a + "," + b) == TextBytes(a) + [COMMA] + TextBytes(b)
  {
    TextBytesAppend(a, ",");
    TextBytesAppend(a + ",", b);
    assert TextBytes(",") == [COMMA];
  }

  lemma {:induction false} AllMembersPrint(members: seq<Member>, texts: seq<string>, rest: Bytes)
    requires members != [] && MembersPrint(members, texts)
    ensures MembersThen(members, rest) == TextBytes(Joined(texts)) + ([CLOSE_BRACE] + rest)
    decreases |members|
  {
    if |members| > 1 {
      var more := MembersThen(members[1..], rest);
      AllMembersPrint(members[1..], texts[1..], rest);
      CommaText(texts[0], Joined(texts[1..]));
      assert TextBytes(texts[0]) + ([COMMA] + (TextBytes(Joined(texts[1..])) + ([CLOSE_BRACE] + rest)))
          == TextBytes(texts[0]) + [COMMA] + TextBytes(Joined(texts[1..])) + ([CLOSE_BRACE] + rest);
    }
  }

  lemma {:induction false} ObjectPrints(members: seq<Member>, texts: seq<string>)
    requires members != [] && MembersPrint(members, texts)
    ensures Prints(Object([], members), "{" + Joined(texts) + "}")
  {
    forall rest: Bytes
      ensures ValueThen(Object([], members), rest) == TextBytes("{" + Joined(texts) + "}") + rest
    {
      AllMembersPrint(members, texts, rest);
      BracketText("{", Joined(texts), "}");
      assert TextBytes("{") == [OPEN_BRACE] && TextBytes("}") == [CLOSE_BRACE];
      assert [OPEN_BRACE] + (TextBytes(Joined(texts)) + ([CLOSE_BRACE] + rest))
          == [OPEN_BRACE] + TextBytes(Joined(texts)) + [CLOSE_BRACE] + rest;
    }
  }

  lemma {:induction false} BracketText(open: string, inner: string, close: string)
    ensures TextBytes(open + inner + close) == TextBytes(open) + TextBytes(inner) + TextBytes(close)
  {
    TextBytesAppend(open, inner);
    TextBytesAppend(open + inner, close);
  }

  ghost predicate ItemsPrint(items: seq<Item>, texts: seq<string>) {
    && |items| == |texts|
    && forall i, rest: Bytes :: 0 <= i < |items| ==> ItemThen(items[i], rest) == TextBytes(texts[i]) + rest
  }

  lemma {:induction false} AllItemsPrint(items: seq<Item>, texts: seq<string>, rest: Bytes)
    requires items != [] && ItemsPrint(items, texts)
    ensures ItemsThen(items, rest) == TextBytes(Joined(texts)) + ([CLOSE_BRACKET] + rest)
    decreases |items|
  {
    if |items| > 1 {
      AllItemsPrint(items[1..], texts[1..], rest);
      CommaText(texts[0], Joined(texts[1..]));
      assert TextBytes(texts[0]) + ([COMMA] + (TextBytes(Joined(texts[1..])) + ([CLOSE_BRACKET] + rest)))
          == TextBytes(texts[0]) + [COMMA] + TextBytes(Joined(texts[1..])) + ([CLOSE_BRACKET] + rest);
    }
  }

  lemma {:induction false} ArrayPrints(items: seq<Item>, texts: seq<string>)
    requires ItemsPrint(items, texts)
    ensures Prints(Array([], items), "[" + Joined(texts) + "]")
  {
    forall rest: Bytes
      ensures ValueThen(Array([], items), rest) == TextBytes("[" + Joined(texts) + "]") + rest
    {
      BracketText("[", Joined(texts), "]");
      assert TextBytes("[") == [OPEN_BRACKET] && TextBytes("]") == [CLOSE_BRACKET];
      if items == [] {
        assert TextBytes(Joined(texts)) == [];
        assert [] + ([CLOSE_BRACKET] + rest) == [CLOSE_BRACKET] + rest;
      } else {
        AllItemsPrint(items, texts, rest);
      }
      assert [OPEN_BRACKET] + (TextBytes(Joined(texts)) + ([CLOSE_BRACKET] + rest))
          == [OPEN_BRACKET] + TextBytes(Joined(texts)) + [CLOSE_BRACKET] + rest;
    }
  }

  // ---- The parts of a request ----

  function DigitTexts(bytes: Bytes): seq<string> {
    seq(|bytes|, i requires 0 <= i < |bytes| => Digits(bytes[i]))
  }

  lemma {:induction false} ItemsJsonJoined(bytes: Bytes)
    ensures ItemsJson(bytes) == Joined(DigitTexts(bytes))
    decreases |bytes|
  {
    if |bytes| > 1 {
      var front := bytes[..|bytes| - 1];
      ItemsJsonJoined(front);
      JoinedSnoc(DigitTexts(front), Digits(bytes[|bytes| - 1]));
      assert DigitTexts(bytes) == DigitTexts(front) + [Digits(bytes[|bytes| - 1])];
    }
  }

  lemma {:induction false} ScalarPrints(text: string)
    ensures Prints(Scalar(TextBytes(text)), text)
  {
  }

  lemma {:induction false} BytesPrint(bytes: Bytes)
    ensures Prints(ArrayValue(bytes), ArrayJson(bytes))
  {
    var items, texts := ArrayValue(bytes).items, DigitTexts(bytes);
    forall i, rest: Bytes | 0 <= i < |items|
      ensures ItemThen(items[i], rest) == TextBytes(texts[i]) + rest
    {
      ScalarPrints(Digits(bytes[i]));
      TightPrints(NumberValue(bytes[i]), Digits(bytes[i]), rest);
    }
    ArrayPrints(items, texts);
    ItemsJsonJoined(bytes);
  }

  function FieldJson(name: string, text: string): string {
    "\"" + name + "\":" + text
  }

  /** The members of an object print, with commas between them, as this text. */
  ghost predicate Said(members: seq<Member>, text: string) {
    members != [] && exists texts :: MembersPrint(members, texts) && Joined(texts) == text
  }

  lemma {:induction false} SaidFirst(name: string, v: Json, text: string)
    requires Prints(v, text)
    ensures Said([Field(name, v)], FieldJson(name, text))
  {
    var members, texts := [Field(name, v)], [FieldJson(name, text)];
    forall rest: Bytes
      ensures MemberThen(members[0], rest) == TextBytes(texts[0]) + rest
    {
      FieldPrints(name, v, text, rest);
    }
    assert MembersPrint(members, texts) && Joined(texts) == FieldJson(name, text);
  }

  lemma {:induction false} SaidNext(members: seq<Member>, text: string, name: string, v: Json, value: string)
    requires Said(members, text) && Prints(v, value)
    ensures Said(members + [Field(name, v)], text + "," + FieldJson(name, value))
  {
    var texts :| MembersPrint(members, texts) && Joined(texts) == text;
    var all, said := members + [Field(name, v)], texts + [FieldJson(name, value)];
    forall i, rest: Bytes | 0 <= i < |all|
      ensures MemberThen(all[i], rest) == TextBytes(said[i]) + rest
    {
      if i < |members| {
        assert all[i] == members[i] && said[i] == texts[i];
      } else {
        FieldPrints(name, v, value, rest);
      }
    }
    JoinedSnoc(texts, FieldJson(name, value));
    assert MembersPrint(all, said) && Joined(said) == text + "," + FieldJson(name, value);
  }

  lemma {:induction false} SaidAll(members: seq<Member>, text: string)
    requires Said(members, text)
    ensures Prints(Object([], members), "{" + text + "}")
  {
    var texts :| MembersPrint(members, texts) && Joined(texts) == text;
    ObjectPrints(members, texts);
  }

  function ExpectedValue(c: WireCondition): Json {
    if c.expected.None? then Scalar(TextBytes("null")) else ArrayValue(c.expected.value)
  }

  function ExpectedJson(c: WireCondition): string {
    if c.expected.None? then "null" else ArrayJson(c.expected.value)
  }

  function InQuotes(s: string): string {
    "\"" + s + "\""
  }

  lemma {:induction false} ConditionPrints(c: WireCondition)
    ensures Prints(ConditionTree(c), ConditionJson(c))
  {
    BytesPrint(c.key);
    if c.expected.None? {
      ScalarPrints("null");
    } else {
      BytesPrint(c.expected.value);
    }
    TextPrints(c.operator);
    var m1, t1 := [Field("key", ArrayValue(c.key))], FieldJson("key", ArrayJson(c.key));
    SaidFirst("key", ArrayValue(c.key), ArrayJson(c.key));
    SaidNext(m1, t1, "expected", ExpectedValue(c), ExpectedJson(c));
    var m2, t2 := m1 + [Field("expected", ExpectedValue(c))], t1 + "," + FieldJson("expected", ExpectedJson(c));
    SaidNext(m2, t2, "operator", TextValue(c.operator), InQuotes(c.operator));
    var m3, t3 :=
      m2 + [Field("operator", TextValue(c.operator))], t2 + "," + FieldJson("operator", InQuotes(c.operator));
    SaidAll(m3, t3);
    assert ConditionTree(c) == Object([], m3);
    ConditionText(ArrayJson(c.key), ExpectedJson(c), c.operator);
  }

  lemma {:induction false} ConditionText(key: string, expected: string, operator: string)
    ensures "{" + (FieldJson("key", key) + "," + FieldJson("expected", expected) + ","
                   + FieldJson("operator", InQuotes(operator))) + "}"
         == "{\"key\":" + key + ",\"expected\":" + expected + ",\"operator\":\"" + operator + "\"}"
  {
  }

  function ValuePart(m: WireMutation): (part: (seq<Member>, string)) {
    if m.value.None? then ([], "")
    else ([Field("value", ArrayValue(m.value.value))], "," + FieldJson("value", ArrayJson(m.value.value)))
  }

  function DeltaPart(m: WireMutation): (part: (seq<Member>, string)) {
    if m.delta.None? then ([], "")
    else ([Field("delta", TextValue(m.delta.value))], "," + FieldJson("delta", InQuotes(m.delta.value)))
  }

  lemma {:induction false} SaidMore(members: seq<Member>, text: string, m: WireMutation)
    requires Said(members, text)
    ensures Said(members + ValuePart(m).0 + DeltaPart(m).0, text + ValuePart(m).1 + DeltaPart(m).1)
  {
    var more, said := members + ValuePart(m).0, text + ValuePart(m).1;
    if m.value.Some? {
      BytesPrint(m.value.value);
      SaidNext(members, text, "value", ArrayValue(m.value.value), ArrayJson(m.value.value));
      assert said == text + "," + FieldJson("value", ArrayJson(m.value.value));
    } else {
      assert more == members && said == text;
    }
    if m.delta.Some? {
      TextPrints(m.delta.value);
      SaidNext(more, said, "delta", TextValue(m.delta.value), InQuotes(m.delta.value));
      assert said + DeltaPart(m).1 == said + "," + FieldJson("delta", InQuotes(m.delta.value));
    } else {
      assert more + DeltaPart(m).0 == more && said + DeltaPart(m).1 == said;
    }
  }

  lemma {:induction false} MutationPrints(m: WireMutation)
    ensures Prints(MutationTree(m), MutationJson(m))
  {
    BytesPrint(m.key);
    TextPrints(m.operation);
    var m1, t1 := [Field("op", TextValue(m.operation))], FieldJson("op", InQuotes(m.operation));
    SaidFirst("op", TextValue(m.operation), InQuotes(m.operation));
    SaidNext(m1, t1, "key", ArrayValue(m.key), ArrayJson(m.key));
    var m2, t2 := m1 + [Field("key", ArrayValue(m.key))], t1 + "," + FieldJson("key", ArrayJson(m.key));
    SaidMore(m2, t2, m);
    var m3, t3 := m2 + ValuePart(m).0 + DeltaPart(m).0, t2 + ValuePart(m).1 + DeltaPart(m).1;
    SaidAll(m3, t3);
    assert m2 == [Field("op", TextValue(m.operation)), Field("key", ArrayValue(m.key))];
    assert MutationTree(m) == Object([], m3);
    MutationText(m);
  }

  lemma {:induction false} MutationText(m: WireMutation)
    ensures "{" + (FieldJson("op", InQuotes(m.operation)) + "," + FieldJson("key", ArrayJson(m.key))
                   + ValuePart(m).1 + DeltaPart(m).1) + "}"
         == MutationJson(m)
  {
    var value, delta := ValuePart(m).1, DeltaPart(m).1;
    Wrapped(FieldJson("op", InQuotes(m.operation)) + "," + FieldJson("key", ArrayJson(m.key)), value, delta);
    MutationStart(m.operation, ArrayJson(m.key), value + delta + "}");
    MutationParts(m);
  }

  lemma {:induction false} Wrapped(start: string, a: string, b: string)
    ensures "{" + (start + a + b) + "}" == "{" + start + (a + b + "}")
  {
  }

  lemma {:induction false} MutationStart(operation: string, key: string, rest: string)
    ensures "{" + (FieldJson("op", InQuotes(operation)) + "," + FieldJson("key", key)) + rest
         == "{\"op\":\"" + operation + "\",\"key\":" + key + rest
  {
    assert FieldJson("op", InQuotes(operation)) == "\"op\":\"" + operation + "\"";
    assert "," + FieldJson("key", key) == ",\"key\":" + key;
    assert "{" + (("\"op\":\"" + operation + "\"") + "," + FieldJson("key", key))
        == "{\"op\":\"" + operation + "\"" + (",\"key\":" + key);
  }

  lemma {:induction false} ValueText(value: string)
    ensures "," + FieldJson("value", value) == ",\"value\":" + value
  {
  }

  lemma {:induction false} DeltaText(delta: string)
    ensures "," + FieldJson("delta", InQuotes(delta)) == ",\"delta\":\"" + delta + "\""
  {
  }

  lemma {:induction false} Tail(start: string, a: string, b: string)
    ensures start + a + b + "}" == start + (a + b + "}")
  {
  }

  lemma {:induction false} MutationParts(m: WireMutation)
    ensures MutationJson(m)
         == "{\"op\":\"" + m.operation + "\",\"key\":" + ArrayJson(m.key) + (ValuePart(m).1 + DeltaPart(m).1 + "}")
  {
    if m.value.Some? {
      ValueText(ArrayJson(m.value.value));
    }
    if m.delta.Some? {
      DeltaText(m.delta.value);
    }
    Tail("{\"op\":\"" + m.operation + "\",\"key\":" + ArrayJson(m.key), ValuePart(m).1, DeltaPart(m).1);
  }

  // ---- Lists of conditions and mutations ----

  function Texts<T>(f: T -> string, xs: seq<T>): (texts: seq<string>)
    ensures |texts| == |xs|
  {
    seq(|xs|, i requires 0 <= i < |xs| => f(xs[i]))
  }

  /** The way the request text is put together: the front, a comma, the last. */
  function Appended<T>(f: T -> string, xs: seq<T>): string {
    if xs == [] then "" else if |xs| == 1 then f(xs[0]) else Appended(f, xs[..|xs| - 1]) + "," + f(xs[|xs| - 1])
  }

  lemma {:induction false} AppendedIsJoined<T>(f: T -> string, xs: seq<T>)
    ensures Appended(f, xs) == Joined(Texts(f, xs))
    decreases |xs|
  {
    if |xs| > 1 {
      var front := xs[..|xs| - 1];
      AppendedIsJoined(f, front);
      JoinedSnoc(Texts(f, front), f(xs[|xs| - 1]));
      assert Texts(f, xs) == Texts(f, front) + [f(xs[|xs| - 1])];
    }
  }

  lemma {:induction false} ConditionsAppended(cs: seq<WireCondition>)
    ensures ConditionsJson(cs) == Appended(ConditionJson, cs)
    decreases |cs|
  {
    if |cs| > 1 {
      ConditionsAppended(cs[..|cs| - 1]);
    }
  }

  lemma {:induction false} MutationsAppended(ms: seq<WireMutation>)
    ensures MutationsJson(ms) == Appended(MutationJson, ms)
    decreases |ms|
  {
    if |ms| > 1 {
      MutationsAppended(ms[..|ms| - 1]);
    }
  }

  function ConditionsTree(cs: seq<WireCondition>): Json {
    Array([], seq(|cs|, i requires 0 <= i < |cs| => Tight(ConditionTree(cs[i]))))
  }

  function MutationsTree(ms: seq<WireMutation>): Json {
    Array([], seq(|ms|, i requires 0 <= i < |ms| => Tight(MutationTree(ms[i]))))
  }

  lemma {:induction false} ConditionsPrint(cs: seq<WireCondition>)
    ensures Prints(ConditionsTree(cs), "[" + ConditionsJson(cs) + "]")
  {
    var items, texts := ConditionsTree(cs).items, Texts(ConditionJson, cs);
    forall i, rest: Bytes | 0 <= i < |items|
      ensures ItemThen(items[i], rest) == TextBytes(texts[i]) + rest
    {
      ConditionPrints(cs[i]);
      TightPrints(ConditionTree(cs[i]), ConditionJson(cs[i]), rest);
    }
    ArrayPrints(items, texts);
    ConditionsAppended(cs);
    AppendedIsJoined(ConditionJson, cs);
  }

  lemma {:induction false} MutationsPrint(ms: seq<WireMutation>)
    ensures Prints(MutationsTree(ms), "[" + MutationsJson(ms) + "]")
  {
    var items, texts := MutationsTree(ms).items, Texts(MutationJson, ms);
    forall i, rest: Bytes | 0 <= i < |items|
      ensures ItemThen(items[i], rest) == TextBytes(texts[i]) + rest
    {
      MutationPrints(ms[i]);
      TightPrints(MutationTree(ms[i]), MutationJson(ms[i]), rest);
    }
    ArrayPrints(items, texts);
    MutationsAppended(ms);
    AppendedIsJoined(MutationJson, ms);
  }

  // ---- The whole text ----

  /** The request text is the print of the request's tree. */
  lemma {:induction false} RequestPrints(r: WireRequest)
    ensures Prints(RequestTree(r), RequestJson(r))
  {
    var version, conditions, mutations := Digits(r.version), ConditionsJson(r.conditions), MutationsJson(r.mutations);
    ScalarPrints(version);
    TextPrints(r.requestID);
    TextPrints(r.namespace);
    ConditionsPrint(r.conditions);
    MutationsPrint(r.mutations);
    var m1, t1 := [Field("version", NumberValue(r.version))], FieldJson("version", version);
    SaidFirst("version", NumberValue(r.version), version);
    SaidNext(m1, t1, "request_id", TextValue(r.requestID), InQuotes(r.requestID));
    var m2, t2 :=
      m1 + [Field("request_id", TextValue(r.requestID))], t1 + "," + FieldJson("request_id", InQuotes(r.requestID));
    SaidNext(m2, t2, "namespace", TextValue(r.namespace), InQuotes(r.namespace));
    var m3, t3 :=
      m2 + [Field("namespace", TextValue(r.namespace))], t2 + "," + FieldJson("namespace", InQuotes(r.namespace));
    SaidNext(m3, t3, "conditions", ConditionsTree(r.conditions), "[" + conditions + "]");
    var m4, t4 := m3 + [Field("conditions", ConditionsTree(r.conditions))],
                  t3 + "," + FieldJson("conditions", "[" + conditions + "]");
    SaidNext(m4, t4, "mutations", MutationsTree(r.mutations), "[" + mutations + "]");
    var m5, t5 := m4 + [Field("mutations", MutationsTree(r.mutations))],
                  t4 + "," + FieldJson("mutations", "[" + mutations + "]");
    SaidAll(m5, t5);
    assert RequestTree(r) == Object([], m5);
    RequestNames(version, r.requestID, r.namespace);
    RequestLists(t3, conditions, mutations);
    RequestText(r, t3);
  }

  /** A further text field, its comma and its opening marks drawn together. */
  lemma {:induction false} QuotedNext(text: string, name: string, lead: string, value: string)
    requires lead == ",\"" + name + "\":\""
    ensures text + "," + FieldJson(name, InQuotes(value)) == text + lead + value + "\""
  {
    assert "," + ("\"" + name + "\":" + ("\"" + value + "\"")) == (",\"" + name + "\":\"") + value + "\"";
    assert text + "," + FieldJson(name, InQuotes(value)) == text + ("," + FieldJson(name, InQuotes(value)));
    assert text + (lead + value + "\"") == text + lead + value + "\"";
  }

  lemma {:induction false} Drawn(text: string, mark: string, lead: string, both: string)
    requires mark + lead == both
    ensures text + mark + lead == text + both
  {
  }

  lemma {:induction false} RequestNames(version: string, id: string, namespace: string)
    ensures FieldJson("version", version) + "," + FieldJson("request_id", InQuotes(id)) + ","
            + FieldJson("namespace", InQuotes(namespace))
         == "\"version\":" + version + ",\"request_id\":\"" + id + "\",\"namespace\":\"" + namespace + "\""
  {
    var t1 := "\"version\":" + version;
    assert FieldJson("version", version) == t1;
    QuotedNext(t1, "request_id", ",\"request_id\":\"", id);
    var t2 := t1 + ",\"request_id\":\"" + id;
    QuotedNext(t2 + "\"", "namespace", ",\"namespace\":\"", namespace);
    Drawn(t2, "\"", ",\"namespace\":\"", "\",\"namespace\":\"");
  }

  lemma {:induction false} RequestLists(names: string, conditions: string, mutations: string)
    ensures "{" + (names + "," + FieldJson("conditions", "[" + conditions + "]") + ","
                   + FieldJson("mutations", "[" + mutations + "]")) + "}"
         == "{" + names + ",\"conditions\":[" + conditions + "],\"mutations\":[" + mutations + "]}"
  {
  }

  lemma {:induction false} RequestText(r: WireRequest, names: string)
    requires names == "\"version\":" + Digits(r.version) + ",\"request_id\":\"" + r.requestID
                      + "\",\"namespace\":\"" + r.namespace + "\""
    ensures RequestJson(r)
         == "{" + names + ",\"conditions\":[" + ConditionsJson(r.conditions) + "],\"mutations\":["
            + MutationsJson(r.mutations) + "]}"
  {
    var start := "\"version\":" + Digits(r.version) + ",\"request_id\":\"" + r.requestID
                 + "\",\"namespace\":\"" + r.namespace;
    assert "{" + (start + "\"") + ",\"conditions\":[" == "{" + start + "\",\"conditions\":[";
    assert "{\"version\":" + Digits(r.version) + ",\"request_id\":\"" + r.requestID
           + "\",\"namespace\":\"" + r.namespace == "{" + start;
  }

  // ---- Wellformed and clean ----

  /** Text that JSON writes as it stands. */
  predicate Safe(s: string) {
    forall i :: 0 <= i < |s| ==> s[i] as int < 0x80 && s[i] != '"' && s[i] != '\\'
  }

  ghost predicate SafeMutation(m: WireMutation) {
    Safe(m.operation) && (m.delta.Some? ==> Safe(m.delta.value))
  }

  ghost predicate SafeRequest(r: WireRequest) {
    && Safe(r.requestID) && Safe(r.namespace)
    && (forall i :: 0 <= i < |r.conditions| ==> Safe(r.conditions[i].operator))
    && (forall i :: 0 <= i < |r.mutations| ==> SafeMutation(r.mutations[i]))
  }

  lemma {:induction false} NameSafe(s: string)
    requires forall i :: 0 <= i < |s| ==> NameChar(s[i]) || s[i] == ':'
    ensures Safe(s)
  {
  }

  lemma {:induction false} OperatorSafe(o: Operator)
    requires !o.UnknownOperator?
    ensures Safe(OperatorText(o))
  {
  }

  lemma {:induction false} MutationSafe(m: Mutation<Bytes>)
    requires !m.Unset?
    ensures SafeMutation(ToWireMutation(m))
  {
    if m.Increment? {
      FormatIntSafe(m.delta);
    }
  }

  lemma {:induction false} SealedSafe(namespace: string, requestID: string, cs: seq<Condition<Bytes>>,
                                      ms: seq<Mutation<Bytes>>)
    requires Sealable(namespace, requestID, cs, ms)
    ensures SafeRequest(ToWire(namespace, requestID, cs, ms))
  {
    var r := ToWire(namespace, requestID, cs, ms);
    NameSafe(namespace);
    NameSafe(requestID);
    ToWireConditionsAt(cs);
    ToWireMutationsAt(ms);
    forall i | 0 <= i < |r.conditions|
      ensures Safe(r.conditions[i].operator)
    {
      OperatorSafe(cs[i].operator);
    }
    forall i | 0 <= i < |r.mutations|
      ensures SafeMutation(r.mutations[i])
    {
      MutationSafe(ms[i]);
    }
  }

  lemma {:induction false} FormatIntSafe(x: int)
    ensures Safe(FormatInt(x))
  {
    assert forall s :: AllDigits(s) ==> Safe(s);
  }

  lemma {:induction false} LettersOk(s: string)
    requires Safe(s)
    ensures PiecesOk(Letters(s))
  {
    forall i | 0 <= i < |s|
      ensures Letters(s)[i].byte != QUOTE && Letters(s)[i].byte != BACKSLASH
    {
      assert s[i] != '"' && s[i] != '\\';
      assert TextBytes(s)[i] == s[i] as int;
    }
  }

  lemma {:induction false} NumberOk(n: nat)
    ensures Wellformed(NumberValue(n))
  {
    var s := Digits(n);
    assert IsDigit(s[0]);
    forall i | 0 <= i < |s|
      ensures 0x30 <= TextBytes(s)[i] <= 0x39
    {
      assert IsDigit(s[i]);
    }
  }

  lemma {:induction false} ArrayOk(bytes: Bytes)
    ensures Wellformed(ArrayValue(bytes))
  {
    var items := ArrayValue(bytes).items;
    forall i | 0 <= i < |items|
      ensures ItemOk(items[i])
    {
      NumberOk(bytes[i]);
    }
  }

  lemma {:induction false} FieldOk(name: string, v: Json)
    requires Safe(name) && Wellformed(v)
    ensures MemberOk(Field(name, v))
  {
    LettersOk(name);
  }

  lemma {:induction false} ConditionOk(c: WireCondition)
    requires Safe(c.operator)
    ensures Wellformed(ConditionTree(c))
  {
    ArrayOk(c.key);
    if c.expected.None? {
      assert ScalarOk(TextBytes("null"));
    } else {
      ArrayOk(c.expected.value);
    }
    LettersOk(c.operator);
    FieldOk("key", ArrayValue(c.key));
    FieldOk("expected", ExpectedValue(c));
    FieldOk("operator", TextValue(c.operator));
  }

  lemma {:induction false} MutationOk(m: WireMutation)
    requires SafeMutation(m)
    ensures Wellformed(MutationTree(m))
  {
    ArrayOk(m.key);
    LettersOk(m.operation);
    FieldOk("op", TextValue(m.operation));
    FieldOk("key", ArrayValue(m.key));
    if m.value.Some? {
      ArrayOk(m.value.value);
      FieldOk("value", ArrayValue(m.value.value));
    }
    if m.delta.Some? {
      LettersOk(m.delta.value);
      FieldOk("delta", TextValue(m.delta.value));
    }
  }

  lemma {:induction false} ListOk(v: Json)
    requires v.Array? && v.gap == [] && forall i :: 0 <= i < |v.items| ==> ItemOk(v.items[i])
    ensures Wellformed(v)
  {
  }

  lemma {:induction false} RequestOk(r: WireRequest)
    requires SafeRequest(r)
    ensures Wellformed(RequestTree(r))
  {
    NumberOk(r.version);
    LettersOk(r.requestID);
    LettersOk(r.namespace);
    forall i | 0 <= i < |r.conditions|
      ensures ItemOk(Tight(ConditionTree(r.conditions[i])))
    {
      ConditionOk(r.conditions[i]);
    }
    forall i | 0 <= i < |r.mutations|
      ensures ItemOk(Tight(MutationTree(r.mutations[i])))
    {
      MutationOk(r.mutations[i]);
    }
    ListOk(ConditionsTree(r.conditions));
    ListOk(MutationsTree(r.mutations));
    FieldOk("version", NumberValue(r.version));
    FieldOk("request_id", TextValue(r.requestID));
    FieldOk("namespace", TextValue(r.namespace));
    FieldOk("conditions", ConditionsTree(r.conditions));
    FieldOk("mutations", MutationsTree(r.mutations));
  }

  /** A key without escapes. */
  ghost predicate PlainKey(m: Member) {
    m.key != [] && !Escaped(m.key)
  }

  ghost function FirstByte(m: Member): int
    requires PlainKey(m)
  {
    assert !m.key[0].Escape?;
    m.key[0].byte
  }

  lemma {:induction false} FieldKey(name: string, v: Json)
    requires name != "" && name[0] as int < 0x100
    ensures PlainKey(Field(name, v)) && FirstByte(Field(name, v)) == name[0] as int
  {
    var key := Field(name, v).key;
    assert forall i :: 0 <= i < |key| ==> key[i].Plain?;
    assert key[0].byte == TextBytes(name)[0];
  }

  /** Plain keys with different first bytes are different keys. */
  lemma {:induction false} FirstLetters(unmarshal: Unmarshal, members: seq<Member>)
    requires forall i :: 0 <= i < |members| ==> PlainKey(members[i])
    requires forall i, j :: 0 <= i < j < |members| ==> FirstByte(members[i]) != FirstByte(members[j])
    ensures KeysDiffer(unmarshal, members, |members|)
  {
    forall i, j | 0 <= i < j < |members|
      ensures DecodedKey(unmarshal, members[i].key) != DecodedKey(unmarshal, members[j].key)
    {
      assert Raw(members[i].key)[0] != Raw(members[j].key)[0];
    }
  }

  lemma {:induction false} ArrayClean(unmarshal: Unmarshal, bytes: Bytes, depth: nat)
    requires depth < 127
    ensures Clean(unmarshal, ArrayValue(bytes), depth)
  {
  }

  lemma {:induction false} ConditionClean(unmarshal: Unmarshal, c: WireCondition, depth: nat)
    requires depth < 126
    ensures Clean(unmarshal, ConditionTree(c), depth)
  {
    FieldKey("key", ArrayValue(c.key));
    FieldKey("expected", ExpectedValue(c));
    FieldKey("operator", TextValue(c.operator));
    FirstLetters(unmarshal, ConditionTree(c).members);
    ArrayClean(unmarshal, c.key, depth + 1);
    if c.expected.Some? {
      ArrayClean(unmarshal, c.expected.value, depth + 1);
    }
  }

  lemma {:induction false} MutationClean(unmarshal: Unmarshal, m: WireMutation, depth: nat)
    requires depth < 126
    ensures Clean(unmarshal, MutationTree(m), depth)
  {
    MutationKeys(unmarshal, m);
    ArrayClean(unmarshal, m.key, depth + 1);
    if m.value.Some? {
      ArrayClean(unmarshal, m.value.value, depth + 1);
    }
  }

  lemma {:induction false} MutationKeys(unmarshal: Unmarshal, m: WireMutation)
    ensures var members := MutationTree(m).members; KeysDiffer(unmarshal, members, |members|)
  {
    FieldKey("op", TextValue(m.operation));
    FieldKey("key", ArrayValue(m.key));
    if m.value.Some? {
      FieldKey("value", ArrayValue(m.value.value));
    }
    if m.delta.Some? {
      FieldKey("delta", TextValue(m.delta.value));
    }
    FirstLetters(unmarshal, MutationTree(m).members);
  }

  lemma {:induction false} RequestKeys(unmarshal: Unmarshal, r: WireRequest)
    ensures var members := RequestTree(r).members; KeysDiffer(unmarshal, members, |members|)
  {
    FieldKey("version", NumberValue(r.version));
    FieldKey("request_id", TextValue(r.requestID));
    FieldKey("namespace", TextValue(r.namespace));
    FieldKey("conditions", ConditionsTree(r.conditions));
    FieldKey("mutations", MutationsTree(r.mutations));
    FirstLetters(unmarshal, RequestTree(r).members);
  }

  lemma {:induction false} RequestClean(unmarshal: Unmarshal, r: WireRequest)
    ensures Clean(unmarshal, RequestTree(r), 0)
  {
    RequestKeys(unmarshal, r);
    forall i | 0 <= i < |r.conditions|
      ensures Clean(unmarshal, ConditionTree(r.conditions[i]), 2)
    {
      ConditionClean(unmarshal, r.conditions[i], 2);
    }
    forall i | 0 <= i < |r.mutations|
      ensures Clean(unmarshal, MutationTree(r.mutations[i]), 2)
    {
      MutationClean(unmarshal, r.mutations[i], 2);
    }
    ListClean(unmarshal, ConditionsTree(r.conditions));
    ListClean(unmarshal, MutationsTree(r.mutations));
    FieldsClean(unmarshal, RequestTree(r));
  }

  lemma {:induction false} ListClean(unmarshal: Unmarshal, v: Json)
    requires v.Array? && forall i :: 0 <= i < |v.items| ==> Clean(unmarshal, v.items[i].value, 2)
    ensures Clean(unmarshal, v, 1)
  {
  }

  lemma {:induction false} FieldsClean(unmarshal: Unmarshal, v: Json)
    requires v.Object? && KeysDiffer(unmarshal, v.members, |v.members|)
    requires forall i :: 0 <= i < |v.members| ==> Clean(unmarshal, v.members[i].item.value, 1)
    ensures Clean(unmarshal, v, 0)
  {
  }

  /**
   The text of every sealed request is JSON that the strict scanner accepts: the print of the
   request's tree, in which no object repeats a key.
   */
  lemma {:induction false} SealedTextIsStrict(unmarshal: Unmarshal, namespace: string, requestID: string,
                                              cs: seq<Condition<Bytes>>, ms: seq<Mutation<Bytes>>)
    requires Sealable(namespace, requestID, cs, ms)
    ensures var r := ToWire(namespace, requestID, cs, ms);
      && TextBytes(RequestJson(r)) == ValueThen(RequestTree(r), [])
      && Wellformed(RequestTree(r)) && Clean(unmarshal, RequestTree(r), 0)
  {
    var r := ToWire(namespace, requestID, cs, ms);
    RequestPrints(r);
    assert TextBytes(RequestJson(r)) + [] == TextBytes(RequestJson(r));
    SealedSafe(namespace, requestID, cs, ms);
    RequestOk(r);
    RequestClean(unmarshal, r);
  }

  // ---- The text gives the request back ----

  lemma {:induction false} SafeInjective(a: string, b: string)
    requires Safe(a) && Safe(b) && TextBytes(a) == TextBytes(b)
    ensures a == b
  {
    assert |a| == |b|;
    forall i | 0 <= i < |a|
      ensures a[i] == b[i]
    {
      assert TextBytes(a)[i] == a[i] as int && TextBytes(b)[i] == b[i] as int;
    }
  }

  lemma {:induction false} TextValueInjective(a: string, b: string)
    requires Safe(a) && Safe(b) && TextValue(a) == TextValue(b)
    ensures a == b
  {
    assert |a| == |Letters(a)| == |Letters(b)| == |b|;
    forall i | 0 <= i < |a|
      ensures TextBytes(a)[i] == TextBytes(b)[i]
    {
      assert Letters(a)[i] == Letters(b)[i];
    }
    SafeInjective(a, b);
  }

  lemma {:induction false} NumberValueInjective(a: nat, b: nat)
    requires NumberValue(a) == NumberValue(b)
    ensures a == b
  {
    assert forall s :: AllDigits(s) ==> Safe(s);
    SafeInjective(Digits(a), Digits(b));
    NumberOfDigits(a);
    NumberOfDigits(b);
  }

  lemma {:induction false} ArrayValueInjective(a: Bytes, b: Bytes)
    requires ArrayValue(a) == ArrayValue(b)
    ensures a == b
  {
    var x, y := ArrayValue(a).items, ArrayValue(b).items;
    assert |a| == |x| == |y| == |b|;
    forall i | 0 <= i < |a|
      ensures a[i] == b[i]
    {
      assert x[i] == y[i];
      NumberValueInjective(a[i], b[i]);
    }
  }

  lemma {:induction false} ConditionTreeInjective(a: WireCondition, b: WireCondition)
    requires Safe(a.operator) && Safe(b.operator) && ConditionTree(a) == ConditionTree(b)
    ensures a == b
  {
    var x, y := ConditionTree(a).members, ConditionTree(b).members;
    assert x[0] == y[0] && x[1] == y[1] && x[2] == y[2];
    ArrayValueInjective(a.key, b.key);
    assert ExpectedValue(a) == ExpectedValue(b);
    if a.expected.Some? {
      ArrayValueInjective(a.expected.value, b.expected.value);
    }
    TextValueInjective(a.operator, b.operator);
  }

  lemma {:induction false} MutationTreeInjective(a: WireMutation, b: WireMutation)
    requires SafeMutation(a) && SafeMutation(b) && MutationTree(a) == MutationTree(b)
    ensures a == b
  {
    var x, y := MutationTree(a).members, MutationTree(b).members;
    assert x[0] == y[0] && x[1] == y[1];
    TextValueInjective(a.operation, b.operation);
    ArrayValueInjective(a.key, b.key);
    SecondParts(a, x);
    SecondParts(b, y);
    if a.value.Some? {
      ArrayValueInjective(a.value.value, b.value.value);
    }
    if a.delta.Some? {
      TextValueInjective(a.delta.value, b.delta.value);
    }
  }

  /** Where value and delta stand in the tree, when they are there. */
  lemma {:induction false} SecondParts(m: WireMutation, x: seq<Member>)
    requires x == MutationTree(m).members
    ensures m.value.Some? <==> |x| > 2 && x[2].item.value.Array?
    ensures m.value.Some? ==> x[2].item.value == ArrayValue(m.value.value)
    ensures m.delta.Some? <==> |x| > 2 && x[|x| - 1].item.value.Text?
    ensures m.delta.Some? ==> x[|x| - 1].item.value == TextValue(m.delta.value)
  {
  }

  lemma {:induction false} RequestTreeInjective(a: WireRequest, b: WireRequest)
    requires SafeRequest(a) && SafeRequest(b) && RequestTree(a) == RequestTree(b)
    ensures a == b
  {
    var x, y := RequestTree(a).members, RequestTree(b).members;
    assert x[0] == y[0] && x[1] == y[1] && x[2] == y[2] && x[3] == y[3] && x[4] == y[4];
    NumberValueInjective(a.version, b.version);
    TextValueInjective(a.requestID, b.requestID);
    TextValueInjective(a.namespace, b.namespace);
    ConditionListInjective(a.conditions, b.conditions);
    MutationListInjective(a.mutations, b.mutations);
  }

  lemma {:induction false} ConditionListInjective(a: seq<WireCondition>, b: seq<WireCondition>)
    requires (forall i :: 0 <= i < |a| ==> Safe(a[i].operator)) && (forall i :: 0 <= i < |b| ==> Safe(b[i].operator))
    requires ConditionsTree(a) == ConditionsTree(b)
    ensures a == b
  {
    var x, y := ConditionsTree(a).items, ConditionsTree(b).items;
    assert |a| == |x| == |y| == |b|;
    forall i | 0 <= i < |a|
      ensures a[i] == b[i]
    {
      assert x[i] == y[i];
      ConditionTreeInjective(a[i], b[i]);
    }
  }

  lemma {:induction false} MutationListInjective(a: seq<WireMutation>, b: seq<WireMutation>)
    requires (forall i :: 0 <= i < |a| ==> SafeMutation(a[i])) && (forall i :: 0 <= i < |b| ==> SafeMutation(b[i]))
    requires MutationsTree(a) == MutationsTree(b)
    ensures a == b
  {
    var x, y := MutationsTree(a).items, MutationsTree(b).items;
    assert |a| == |x| == |y| == |b|;
    forall i | 0 <= i < |a|
      ensures a[i] == b[i]
    {
      assert x[i] == y[i];
      MutationTreeInjective(a[i], b[i]);
    }
  }

  /** Two sealed requests with the same text are the same request. */
  lemma {:induction false} SealedTextInjective(namespace: string, requestID: string, cs: seq<Condition<Bytes>>,
                                               ms: seq<Mutation<Bytes>>, namespace': string, requestID': string,
                                               cs': seq<Condition<Bytes>>, ms': seq<Mutation<Bytes>>)
    requires Sealable(namespace, requestID, cs, ms) && Sealable(namespace', requestID', cs', ms')
    requires RequestJson(ToWire(namespace, requestID, cs, ms)) == RequestJson(ToWire(namespace', requestID', cs', ms'))
    ensures namespace == namespace' && requestID == requestID' && cs == cs' && ms == ms'
  {
    var a, b := ToWire(namespace, requestID, cs, ms), ToWire(namespace', requestID', cs', ms');
    SealedTextIsStrict(_ => None, namespace, requestID, cs, ms);
    SealedTextIsStrict(_ => None, namespace', requestID', cs', ms');
    JsonUnique.ValueUnique(RequestTree(a), [], RequestTree(b), []);
    SealedSafe(namespace, requestID, cs, ms);
    SealedSafe(namespace', requestID', cs', ms');
    RequestTreeInjective(a, b);
    WireInjective(namespace, requestID, cs, ms, namespace', requestID', cs', ms');
  }
}
