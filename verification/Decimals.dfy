/** Exact decimals: printing and parsing, in the implementations that must agree. */
module Decimals {
  import opened Words
  import opened Numerals
  import opened WireValues

  datatype Fixed = Fixed(coefficient: int, scale: nat)

  /** What may be built: at most 38 digits and a scale of at most 38. */
  predicate Exact(d: Fixed) {
    Precision(d.coefficient) <= 38 && d.scale <= 38
  }

  lemma {:induction false} ExactIsBelow(d: Fixed)
    ensures Exact(d) <==> Abs(d.coefficient) < Pow10(38) && d.scale <= 38
  {
    PrecisionFits(d.coefficient);
  }

  /** The constructor takes exactly the coefficients below 10^38 with a scale of at most 38, unchanged. */
  method NewDecimal(coefficient: int, scale: U8) returns (d: Option<Fixed>)
    ensures d.Some? <==> Abs(coefficient) < Pow10(38) && scale <= 38
    ensures d.Some? ==> d.value == Fixed(coefficient, scale) && Exact(d.value)
  {
    ExactIsBelow(Fixed(coefficient, scale));
    if scale > MAX_PRECISION || Precision(coefficient) > MAX_PRECISION {
      return None;
    }
    return Some(Fixed(coefficient, scale));
  }

  // ---- Printing ----

  function Zeros(n: nat): (s: string)
    ensures |s| == n && AllDigits(s)
  {
    seq(n, _ => '0')
  }

  /** Enough leading zeros for one digit before the point. */
  function Padded(digits: string, scale: nat): string {
    if scale >= |digits| then Zeros(scale + 1 - |digits|) + digits else digits
  }

  function Pointed(digits: string, scale: nat): string
    requires |digits| > scale
  {
    if scale == 0 then digits else digits[..|digits| - scale] + "." + digits[|digits| - scale..]
  }

  /** The fixed-point text: no exponent, exactly `scale` digits behind the point. */
  function FixedText(coefficient: int, scale: nat): string {
    (if coefficient < 0 then "-" else "") + Pointed(Padded(Digits(Abs(coefficient)), scale), scale)
  }

  /** Padding and then splitting, as the SQL parameters and the framework adapter print. */
  method FormatDecimal(coefficient: int, scale: U8) returns (text: string)
    ensures text == FixedText(coefficient, scale)
  {
    var negative := coefficient < 0;
    var digits := Digits(Abs(coefficient));
    if scale >= |digits| {
      digits := Zeros(scale + 1 - |digits|) + digits;
    }
    if scale > 0 {
      var index := |digits| - scale;
      digits := digits[..index] + "." + digits[index..];
    }
    if negative {
      return "-" + digits;
    }
    return digits;
  }

  lemma {:induction false} PaddedSplit(digits: string, scale: nat)
    requires 0 < |digits| <= scale
    ensures Padded(digits, scale)[..|Padded(digits, scale)| - scale] == "0"
    ensures Padded(digits, scale)[|Padded(digits, scale)| - scale..] == Zeros(scale - |digits|) + digits
  {
    var padded := Padded(digits, scale);
    assert padded == ["0"[0]] + (Zeros(scale - |digits|) + digits);
  }

  /** Writing piece by piece into a builder, as the server protocol prints. */
  method Text(d: Fixed) returns (builder: string)
    ensures builder == FixedText(d.coefficient, d.scale)
  {
    var digits := Digits(Abs(d.coefficient));
    builder := "";
    if d.coefficient < 0 {
      builder := builder + "-";
    }
    if d.scale == 0 {
      builder := builder + digits;
      return;
    }
    if |digits| <= d.scale {
      PaddedSplit(digits, d.scale);
      builder := builder + "0.";
      builder := builder + Zeros(d.scale - |digits|);
      builder := builder + digits;
      return;
    }
    var split := |digits| - d.scale;
    builder := builder + digits[..split];
    builder := builder + ".";
    builder := builder + digits[split..];
  }

  // ---- Literals ----

  /** A literal's body cut at its first point. */
  datatype Parts = Parts(whole: string, fraction: string, point: bool)

  function Cut(body: string): Parts {
    if body == [] then Parts([], [], false)
    else
      var p, c := Cut(body[..|body| - 1]), body[|body| - 1];
      if p.point then Parts(p.whole, p.fraction + [c], true)
      else if c == '.' then Parts(p.whole, [], true)
      else Parts(p.whole + [c], [], false)
  }

  function Joined(p: Parts): string {
    p.whole + (if p.point then "." + p.fraction else "")
  }

  predicate NoPoint(s: string) {
    forall i :: 0 <= i < |s| ==> s[i] != '.'
  }

  predicate Shaped(p: Parts) {
    NoPoint(p.whole) && (!p.point ==> p.fraction == [])
  }

  /** The cut splits a body into a part without a point, and a point and a rest. */
  lemma {:induction false} CutIsSplit(body: string)
    ensures Shaped(Cut(body)) && Joined(Cut(body)) == body
  {
    if body == [] {
    } else {
      CutIsSplit(body[..|body| - 1]);
      assert body == body[..|body| - 1] + [body[|body| - 1]];
    }
  }

  lemma {:induction false} CutSnoc(body: string, c: char)
    ensures var p := Cut(body);
      Cut(body + [c]) == if p.point then Parts(p.whole, p.fraction + [c], true)
                         else if c == '.' then Parts(p.whole, [], true) else Parts(p.whole + [c], [], false)
  {
    assert (body + [c])[..|body|] == body;
  }

  lemma {:induction false} CutWhole(whole: string)
    requires NoPoint(whole)
    ensures Cut(whole) == Parts(whole, [], false)
  {
    if whole == [] {
    } else {
      var front := whole[..|whole| - 1];
      assert whole == front + [whole[|whole| - 1]];
      assert forall i :: 0 <= i < |front| ==> front[i] == whole[i];
      CutWhole(front);
    }
  }

  lemma {:induction false} CutFraction(whole: string, fraction: string)
    requires NoPoint(whole)
    ensures Cut(whole + "." + fraction) == Parts(whole, fraction, true)
  {
    if fraction == [] {
      CutWhole(whole);
      CutSnoc(whole, '.');
      assert whole + "." + fraction == whole + ['.'];
    } else {
      var front, last := fraction[..|fraction| - 1], fraction[|fraction| - 1];
      CutFraction(whole, front);
      CutSnoc(whole + "." + front, last);
      assert fraction == front + [last] && whole + "." + fraction == (whole + "." + front) + [last];
    }
  }

  /** And there is no other way to split it so. */
  lemma {:induction false} CutOfJoined(p: Parts)
    requires Shaped(p)
    ensures Cut(Joined(p)) == p
  {
    if p.point {
      CutFraction(p.whole, p.fraction);
      assert Joined(p) == p.whole + "." + p.fraction;
    } else {
      CutWhole(p.whole);
      assert Joined(p) == p.whole;
    }
  }

  /** Digits with at most one point, and at least one digit. */
  predicate GoodParts(p: Parts) {
    AllDigits(p.whole) && AllDigits(p.fraction) && p.whole + p.fraction != []
  }

  predicate IsSpace(c: char) {
    || '\t' <= c <= '\r' || c == ' ' || c == '\U{85}' || c == '\U{A0}' || c == '\U{1680}'
    || '\U{2000}' <= c <= '\U{200A}'
    || c == '\U{2028}' || c == '\U{2029}' || c == '\U{202F}' || c == '\U{205F}' || c == '\U{3000}'
  }

  /** strings.TrimSpace changes the text. */
  predicate SpacedOut(text: string) {
    text != [] && (IsSpace(text[0]) || IsSpace(text[|text| - 1]))
  }

  function TrimZeros(s: string): string {
    if s != [] && s[0] == '0' then TrimZeros(s[1..]) else s
  }

  predicate Negative(text: string) {
    text != [] && text[0] == '-'
  }

  /** What is left of a literal behind its sign. */
  function Body(text: string): string {
    if text != [] && (text[0] == '-' || text[0] == '+') then text[1..] else text
  }

  /** The value of a literal whose digits are in order. */
  function ValueOf(negative: bool, p: Parts): Fixed
    requires GoodParts(p)
  {
    var n: int := Number(p.whole + p.fraction);
    Fixed(if negative then -n else n, |p.fraction|)
  }

  /** What parsing means: a good literal within precision and scale. */
  function Parsed(text: string): Option<Fixed> {
    var p := Cut(Body(text));
    if GoodParts(p) && Exact(ValueOf(Negative(text), p)) then Some(ValueOf(Negative(text), p)) else None
  }

  // ---- The scanner of the server protocol ----

  datatype Scanned = Scanned(digits: string, negative: bool, fractionDigits: nat)

  method ScanBody(body: string) returns (ok: bool, digits: string, fractionDigits: nat)
    ensures ok <==> GoodParts(Cut(body))
    ensures ok ==> digits == Cut(body).whole + Cut(body).fraction && fractionDigits == |Cut(body).fraction|
  {
    digits, fractionDigits := "", 0;
    var seenPoint := false;
    for index := 0 to |body|
      invariant var p := Cut(body[..index]);
        && AllDigits(p.whole) && AllDigits(p.fraction) && seenPoint == p.point
        && digits == p.whole + p.fraction && fractionDigits == |p.fraction| && (!p.point ==> p.fraction == [])
    {
      var character := body[index];
      assert body[..index + 1][..index] == body[..index];
      if '0' <= character <= '9' {
        digits := digits + [character];
        if seenPoint {
          fractionDigits := fractionDigits + 1;
        }
      } else if character == '.' && !seenPoint {
        seenPoint := true;
      } else {
        NotAllDigits(Cut(body[..index]).whole, character);
        NotAllDigits(Cut(body[..index]).fraction, character);
        BadPrefix(body, index + 1);
        return false, digits, fractionDigits;
      }
    }
    assert body[..|body|] == body;
    ok := digits != "";
  }

  lemma {:induction false} DigitsOfBoth(a: string, b: string)
    ensures AllDigits(a + b) <==> AllDigits(a) && AllDigits(b)
  {
    if AllDigits(a + b) {
      assert forall i :: 0 <= i < |a| ==> a[i] == (a + b)[i];
      assert forall i :: 0 <= i < |b| ==> b[i] == (a + b)[|a| + i];
    }
  }

  lemma {:induction false} NotAllDigits(s: string, c: char)
    requires !IsDigit(c)
    ensures !AllDigits(s + [c])
  {
    assert (s + [c])[|s|] == c;
  }

  /** A bad character stays in its part. */
  lemma {:induction false} BadPrefix(body: string, i: nat)
    requires i <= |body|
    ensures Cut(body[..i]).whole <= Cut(body).whole && Cut(body[..i]).fraction <= Cut(body).fraction
    ensures GoodParts(Cut(body)) ==> AllDigits(Cut(body[..i]).whole) && AllDigits(Cut(body[..i]).fraction)
    decreases |body|
  {
    if i == |body| {
      assert body[..i] == body;
    } else {
      BadPrefix(body[..|body| - 1], i);
      assert body[..|body| - 1][..i] == body[..i];
    }
  }

  method ScanDecimalLiteral(text: string) returns (r: Option<Scanned>)
    requires text != []
    ensures r.Some? <==> GoodParts(Cut(Body(text)))
    ensures r.Some? ==>
      var p := Cut(Body(text)); r.value == Scanned(p.whole + p.fraction, Negative(text), |p.fraction|)
  {
    var body, negative := text, false;
    if body[0] == '-' {
      negative := true;
      body := body[1..];
    } else if body[0] == '+' {
      body := body[1..];
    }
    if body == "" {
      return None;
    }
    var ok, digits, fractionDigits := ScanBody(body);
    r := if ok then Some(Scanned(digits, negative, fractionDigits)) else None;
  }

  lemma {:induction false} TrimmedNumber(s: string)
    requires AllDigits(s)
    ensures AllDigits(TrimZeros(s)) && Number(TrimZeros(s)) == Number(s)
    ensures |TrimZeros(s)| <= MAX_PRECISION <==> Precision(Number(s)) <= MAX_PRECISION
    decreases |s|
  {
    if s != [] && s[0] == '0' {
      TrimmedNumber(s[1..]);
      assert s == "0" + s[1..];
      NumberLeadingZero(s[1..]);
    } else if s != [] {
      DigitsOfNumber(s);
    }
  }

  /** No good literal begins or ends with a space. */
  lemma {:induction false} GoodNotSpaced(text: string)
    requires text != [] && GoodParts(Cut(Body(text)))
    ensures !SpacedOut(text)
  {
    var body := Body(text);
    CutIsSplit(body);
    var p := Cut(body);
    assert forall i :: 0 <= i < |p.whole| ==> IsDigit(p.whole[i]);
    assert forall i :: 0 <= i < |p.fraction| ==> IsDigit(p.fraction[i]);
    assert forall i :: 0 <= i < |body| ==> IsDigit(body[i]) || body[i] == '.';
    assert body != [] && text[|text| - 1] == body[|body| - 1];
  }

  /** The server protocol's parser. */
  method ParseDecimal(text: string) returns (r: Option<Fixed>)
    ensures r == Parsed(text)
  {
    if text == "" || SpacedOut(text) {
      if text != "" && GoodParts(Cut(Body(text))) {
        GoodNotSpaced(text);
      }
      return None;
    }
    var scanned := ScanDecimalLiteral(text);
    if scanned.None? || scanned.value.fractionDigits > MAX_PRECISION {
      return None;
    }
    var trimmed := TrimZeros(scanned.value.digits);
    TrimmedNumber(scanned.value.digits);
    if |trimmed| > MAX_PRECISION {
      return None;
    }
    var coefficient: int := 0;
    if trimmed != "" {
      coefficient := Number(trimmed);
    }
    if scanned.value.negative {
      coefficient := -coefficient;
    }
    r := Some(Fixed(coefficient, scanned.value.fractionDigits));
  }

  // ---- The parser of SQL parameters ----

  /** It wants a digit before the point and knows no plus sign. */
  predicate Narrow(literal: string) {
    literal != [] && literal[0] != '+' && Cut(Body(literal)).whole != []
  }

  method AllDigitsCheck(digits: string) returns (ok: bool)
    ensures ok <==> AllDigits(digits)
  {
    for i := 0 to |digits|
      invariant AllDigits(digits[..i])
    {
      if digits[i] < '0' || digits[i] > '9' {
        return false;
      }
      assert digits[..i + 1] == digits[..i] + [digits[i]];
    }
    assert digits[..|digits|] == digits;
    ok := true;
  }

  /** strings.Split gives more than two parts exactly when the rest behind the first point has another. */
  method DecimalFromText(literal: string) returns (r: Option<Fixed>)
    ensures r == if Narrow(literal) then Parsed(literal) else None
  {
    if literal == "" {
      return None;
    }
    var digits := literal;
    if digits[0] == '-' {
      digits := digits[1..];
    }
    var parts := Cut(digits);
    CutIsSplit(digits);
    assert literal[0] != '+' ==> digits == Body(literal);
    if !NoPoint(parts.fraction) || |parts.whole| == 0 {
      return None;
    }
    assert parts.whole[0] == digits[0] && (literal[0] == '+' ==> !AllDigits(parts.whole));
    var scale := 0;
    if parts.point {
      scale := |parts.fraction|;
      digits := parts.whole + parts.fraction;
    }
    assert digits == parts.whole + parts.fraction && |parts.fraction| == scale;
    DigitsOfBoth(parts.whole, parts.fraction);
    if scale > MAX_PRECISION {
      return None;
    }
    var ok := AllDigitsCheck(digits);
    if !ok {
      return None;
    }
    var coefficient: int := Number(digits);
    if literal[0] == '-' {
      coefficient := -coefficient;
    }
    r := if Exact(Fixed(coefficient, scale)) then Some(Fixed(coefficient, scale)) else None;
  }

  // ---- Round trips ----

  lemma {:induction false} NumberOfZeros(n: nat, s: string)
    requires AllDigits(s)
    ensures AllDigits(Zeros(n) + s) && Number(Zeros(n) + s) == Number(s)
  {
    if n == 0 {
      assert Zeros(0) + s == s;
    } else {
      NumberOfZeros(n - 1, s);
      assert Zeros(n) + s == "0" + (Zeros(n - 1) + s);
      NumberLeadingZero(Zeros(n - 1) + s);
    }
  }

  /** The printed digits write the coefficient, whatever padding they got. */
  lemma {:induction false} PaddedNumber(n: nat, scale: nat)
    ensures var d := Padded(Digits(n), scale); |d| > scale && AllDigits(d) && Number(d) == n
  {
    NumberOfDigits(n);
    if scale >= |Digits(n)| {
      NumberOfZeros(scale + 1 - |Digits(n)|, Digits(n));
    }
  }

  /** The text of a decimal cut again: a nonempty whole part, and exactly `scale` digits behind the point. */
  lemma {:induction false} TextCuts(digits: string, scale: nat)
    requires AllDigits(digits) && |digits| > scale
    ensures var p := Cut(Pointed(digits, scale));
      GoodParts(p) && p.whole != [] && |p.fraction| == scale && p.whole + p.fraction == digits
  {
    var whole, fraction := digits[..|digits| - scale], digits[|digits| - scale..];
    assert whole + fraction == digits;
    DigitsOfBoth(whole, fraction);
    assert NoPoint(whole);
    if scale > 0 {
      CutFraction(whole, fraction);
    } else {
      assert whole == digits && fraction == [];
      CutWhole(whole);
    }
  }

  lemma {:induction false} BodyOfText(coefficient: int, scale: nat)
    ensures var text := FixedText(coefficient, scale); var d := Padded(Digits(Abs(coefficient)), scale);
      && |d| > scale && Body(text) == Pointed(d, scale)
      && (Negative(text) <==> coefficient < 0) && text != [] && text[0] != '+'
  {
    PaddedNumber(Abs(coefficient), scale);
    var d := Padded(Digits(Abs(coefficient)), scale);
    assert IsDigit(d[0]) && Pointed(d, scale)[0] == d[0];
  }

  /** Parsing the text of an exact decimal gives that decimal back, in both parsers. */
  lemma {:induction false} TextRoundTrip(coefficient: int, scale: nat)
    requires Exact(Fixed(coefficient, scale))
    ensures Parsed(FixedText(coefficient, scale)) == Some(Fixed(coefficient, scale))
    ensures Narrow(FixedText(coefficient, scale))
  {
    BodyOfText(coefficient, scale);
    PaddedNumber(Abs(coefficient), scale);
    TextCuts(Padded(Digits(Abs(coefficient)), scale), scale);
  }

  /** The narrower parser leaves out exactly the plus sign and the bare point. */
  lemma {:induction false} ParsersDiffer()
    ensures Parsed("+1") == Some(Fixed(1, 0)) && !Narrow("+1")
    ensures Parsed(".5") == Some(Fixed(5, 1)) && !Narrow(".5")
  {
    CutOfJoined(Parts("1", "", false));
    assert Joined(Parts("1", "", false)) == "1" && Body("+1") == "1";
    CutOfJoined(Parts("", "5", true));
    assert Joined(Parts("", "5", true)) == ".5" && Body(".5") == ".5";
    assert "1"[..0] == "" && "5"[..0] == "" && "" + "5" == "5" && "1" + "" == "1";
    assert Number("1") == 1 && Number("5") == 5;
  }

  /** Both take a point with nothing behind it. */
  lemma {:induction false} TrailingPoint()
    ensures Parsed("5.") == Some(Fixed(5, 0)) && Narrow("5.")
  {
    CutOfJoined(Parts("5", "", true));
    assert Joined(Parts("5", "", true)) == "5." && Body("5.") == "5.";
    assert "5"[..0] == "" && "5" + "" == "5";
    assert Number("5") == 5;
  }
}
