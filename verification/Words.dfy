/** Machine words, bytes and the fixed-width integer encodings shared by every module. */
module Words {

  type Byte = b: int | 0 <= b < 0x100
  type Bytes = seq<Byte>
  type U8 = n: int | 0 <= n < 0x100
  type U32 = n: int | 0 <= n < 0x1_0000_0000
  type U64 = n: int | 0 <= n < 0x1_0000_0000_0000_0000
  type I64 = n: int | -0x8000_0000_0000_0000 <= n < 0x8000_0000_0000_0000

  const U64_MAX: U64 := 0xFFFF_FFFF_FFFF_FFFF
  const I64_MAX: I64 := 0x7FFF_FFFF_FFFF_FFFF
  const I64_MIN: I64 := -0x8000_0000_0000_0000
  const TWO32: int := 0x1_0000_0000
  const TWO64: int := 0x1_0000_0000_0000_0000

  datatype Option<+T> = None | Some(value: T)

  /** The conversion uint64(x) of a signed word. */
  function Unsigned(x: I64): (u: U64)
    ensures u % TWO64 == x % TWO64
  {
    if x < 0 then x + TWO64 else x
  }

  /** The conversion int64(u) of an unsigned word. */
  function Signed(u: U64): (x: I64)
    ensures Unsigned(x) == u
  {
    if u > I64_MAX then u - TWO64 else u
  }

  lemma {:induction false} SignedUnsigned(x: I64)
    ensures Signed(Unsigned(x)) == x
  {
  }

  /** 2^n, the value of `uint64(1) << n` for n below 64. */
  function Pow2(n: nat): (p: nat)
    ensures p >= 1
  {
    if n == 0 then 1 else 2 * Pow2(n - 1)
  }

  lemma {:induction false} Pow2Monotonic(a: nat, b: nat)
    requires a <= b
    ensures Pow2(a) <= Pow2(b)
    decreases b - a
  {
    if a < b {
      Pow2Monotonic(a, b - 1);
    }
  }

  lemma {:induction false} Pow2At63()
    ensures Pow2(63) == 0x8000_0000_0000_0000 && Pow2(64) == TWO64
  {
    assert Pow2(8) == 0x100;
    assert Pow2(16) == 0x1_0000;
    assert Pow2(24) == 0x100_0000;
    assert Pow2(32) == 0x1_0000_0000;
    assert Pow2(40) == 0x100_0000_0000;
    assert Pow2(48) == 0x1_0000_0000_0000;
    assert Pow2(56) == 0x100_0000_0000_0000;
    assert Pow2(63) == 0x8000_0000_0000_0000;
  }

  /** n >> h on unsigned words. */
  function Shr(n: nat, h: nat): (q: nat) {
    if h == 0 then n else Shr(n, h - 1) / 2
  }

  /** n << h without a bound on the result. */
  function Shl(n: nat, h: nat): (p: nat) {
    if h == 0 then n else 2 * Shl(n, h - 1)
  }

  /** The bits of n below position h. */
  function LowBits(n: nat, h: nat): (r: nat)
    ensures r < Pow2(h)
  {
    if h == 0 then 0 else LowBits(n, h - 1) + (if Shr(n, h - 1) % 2 == 1 then Pow2(h - 1) else 0)
  }

  lemma {:induction false} ShlOfBit(q: nat, b: nat, h: nat)
    requires b < 2
    ensures Shl(2 * q + b, h) == Shl(q, h + 1) + (if b == 1 then Pow2(h) else 0)
    decreases h
  {
    if h == 0 {
    } else {
      ShlOfBit(q, b, h - 1);
    }
  }

  /** Clearing the low bits with a shift down and up. */
  lemma {:induction false} ShiftDownUp(n: nat, h: nat)
    ensures Shl(Shr(n, h), h) + LowBits(n, h) == n
  {
    if h == 0 {
    } else {
      ShiftDownUp(n, h - 1);
      ShlOfBit(Shr(n, h), Shr(n, h - 1) % 2, h - 1);
    }
  }

  lemma {:induction false} ShlZero(h: nat)
    ensures Shl(0, h) == 0
  {
    if h == 0 {
    } else {
      ShlZero(h - 1);
    }
  }

  lemma {:induction false} ShlLower(q: nat, h: nat)
    requires q > 0
    ensures Shl(q, h) >= Pow2(h)
  {
    if h == 0 {
    } else {
      ShlLower(q, h - 1);
    }
  }

  /** A number below 2^h has no bits from position h up. */
  lemma {:induction false} ShrBelow(n: nat, h: nat)
    requires n < Pow2(h)
    ensures Shr(n, h) == 0 && LowBits(n, h) == n
  {
    ShiftDownUp(n, h);
    if Shr(n, h) > 0 {
      ShlLower(Shr(n, h), h);
    }
    ShlZero(h);
  }

  /** 256^n, the number of values of an n-byte field. */
  function Pow256(n: nat): (p: nat)
    ensures p >= 1
  {
    if n == 0 then 1 else 0x100 * Pow256(n - 1)
  }

  lemma {:induction false} Pow256Values()
    ensures Pow256(2) == 0x1_0000
    ensures Pow256(4) == 0x1_0000_0000
    ensures Pow256(8) == TWO64
    ensures Pow256(16) == 0x1_0000_0000_0000_0000_0000_0000_0000_0000
  {
    assert Pow256(4) == 0x1_0000_0000;
    assert Pow256(8) == TWO64;
    assert Pow256(12) == 0x1_0000_0000_0000_0000_0000_0000;
  }

  /** Big-endian bytes of `value` in a field of `width` bytes. */
  function BE(value: nat, width: nat): (s: Bytes)
    ensures |s| == width
  {
    if width == 0 then [] else BE(value / 0x100, width - 1) + [value % 0x100]
  }

  /** Little-endian bytes of `value` in a field of `width` bytes. */
  function LE(value: nat, width: nat): (s: Bytes)
    ensures |s| == width
  {
    if width == 0 then [] else [value % 0x100] + LE(value / 0x100, width - 1)
  }

  function FromBE(s: Bytes): (value: nat)
    ensures value < Pow256(|s|)
  {
    if s == [] then 0 else FromBE(s[..|s| - 1]) * 0x100 + s[|s| - 1]
  }

  function FromLE(s: Bytes): (value: nat)
    ensures value < Pow256(|s|)
  {
    if s == [] then 0 else s[0] + 0x100 * FromLE(s[1..])
  }

  lemma {:induction false} FromBESnoc(front: Bytes, last: Byte)
    ensures FromBE(front + [last]) == FromBE(front) * 0x100 + last
  {
    assert (front + [last])[..|front|] == front;
  }

  lemma {:induction false} BERoundTrip(value: nat, width: nat)
    requires value < Pow256(width)
    ensures FromBE(BE(value, width)) == value
  {
    if width == 0 {
    } else {
      BERoundTrip(value / 0x100, width - 1);
      FromBESnoc(BE(value / 0x100, width - 1), value % 0x100);
    }
  }

  lemma {:induction false} LERoundTrip(value: nat, width: nat)
    requires value < Pow256(width)
    ensures FromLE(LE(value, width)) == value
  {
    if width == 0 {
    } else {
      assert value / 0x100 < Pow256(width - 1);
      LERoundTrip(value / 0x100, width - 1);
      assert LE(value, width)[1..] == LE(value / 0x100, width - 1);
    }
  }

  lemma {:induction false} LastByte(q: nat, b: Byte)
    ensures (q * 0x100 + b) / 0x100 == q && (q * 0x100 + b) % 0x100 == b
  {
  }

  lemma {:induction false} BEOfFromBE(s: Bytes)
    ensures BE(FromBE(s), |s|) == s
  {
    if s == [] {
    } else {
      var front, last := s[..|s| - 1], s[|s| - 1];
      BEOfFromBE(front);
      LastByte(FromBE(front), last);
      assert s == front + [last];
    }
  }

  lemma {:induction false} LEOfFromLE(s: Bytes)
    ensures LE(FromLE(s), |s|) == s
  {
    if s == [] {
    } else {
      LEOfFromLE(s[1..]);
      LastByte(FromLE(s[1..]), s[0]);
      assert s == [s[0]] + s[1..];
    }
  }

  /** The bytes of ASCII text. */
  function TextBytes(s: string): (b: Bytes)
    ensures |b| == |s|
  {
    seq(|s|, i requires 0 <= i < |s| => s[i] as int % 0x100)
  }

  /** Two fields of the same width followed by anything: equal bytes mean equal fields and equal rests. */
  lemma {:induction false} BESplit(a: nat, b: nat, width: nat, x: Bytes, y: Bytes)
    requires a < Pow256(width) && b < Pow256(width)
    requires BE(a, width) + x == BE(b, width) + y
    ensures a == b && x == y
  {
    CutSame(BE(a, width), x, BE(b, width), y);
    BERoundTrip(a, width);
    BERoundTrip(b, width);
  }

  lemma {:induction false} LESplit(a: nat, b: nat, width: nat, x: Bytes, y: Bytes)
    requires a < Pow256(width) && b < Pow256(width)
    requires LE(a, width) + x == LE(b, width) + y
    ensures a == b && x == y
  {
    CutSame(LE(a, width), x, LE(b, width), y);
    LERoundTrip(a, width);
    LERoundTrip(b, width);
  }

  lemma {:induction false} CutSame<T>(a: seq<T>, x: seq<T>, b: seq<T>, y: seq<T>)
    requires |a| == |b| && a + x == b + y
    ensures a == b && x == y
  {
    assert a == (a + x)[..|a|] && b == (b + y)[..|b|];
    assert x == (a + x)[|a|..] && y == (b + y)[|b|..];
  }

  /** Fields written one after another. */
  function Concat(parts: seq<Bytes>): Bytes {
    if parts == [] then [] else parts[0] + Concat(parts[1..])
  }

  /** Where field i begins when the fields are written one after another. */
  function Offset(parts: seq<Bytes>, i: nat): nat
    requires i <= |parts|
  {
    if i == 0 then 0 else Offset(parts, i - 1) + |parts[i - 1]|
  }

  lemma {:induction false} ConcatFrom(parts: seq<Bytes>, i: nat)
    requires i <= |parts|
    ensures Offset(parts, i) <= |Concat(parts)| && Concat(parts)[Offset(parts, i)..] == Concat(parts[i..])
  {
    if i == 0 {
      assert parts[0..] == parts;
    } else {
      ConcatFrom(parts, i - 1);
      var from := Concat(parts[i - 1..]);
      assert parts[i - 1..][0] == parts[i - 1] && parts[i - 1..][1..] == parts[i..];
      assert from == parts[i - 1] + Concat(parts[i..]);
      assert Concat(parts)[Offset(parts, i)..] == from[|parts[i - 1]|..];
    }
  }

  /** Field i stands in b at this place. */
  ghost predicate FieldAt(b: Bytes, parts: seq<Bytes>, i: nat, from: nat)
    requires i < |parts|
  {
    from + |parts[i]| <= |b| && b[from..from + |parts[i]|] == parts[i]
  }

  /** Every field stands at its offset. */
  lemma {:induction false} ConcatShows(parts: seq<Bytes>, i: nat)
    requires i < |parts|
    ensures FieldAt(Concat(parts), parts, i, Offset(parts, i))
    ensures i + 1 == |parts| ==> Offset(parts, i) + |parts[i]| == |Concat(parts)|
  {
    ConcatFrom(parts, i);
    ConcatFrom(parts, i + 1);
    assert parts[i..][0] == parts[i] && parts[i..][1..] == parts[i + 1..];
    assert Concat(parts)[Offset(parts, i)..Offset(parts, i + 1)] == Concat(parts[i..])[..|parts[i]|];
  }

  /** Byte i of a little-endian field, counted from its low end, and the same byte of a big-endian field. */
  lemma {:induction false} ByteAt(value: nat, width: nat, i: nat)
    requires i < width
    ensures LE(value, width)[i] == Shifted(value, i) % 0x100
    ensures BE(value, width)[width - 1 - i] == Shifted(value, i) % 0x100
    decreases i
  {
    if i > 0 {
      ByteAt(value / 0x100, width - 1, i - 1);
      ShiftedFirst(value, i);
    }
  }

  /** value / 256^i. */
  function Shifted(value: nat, i: nat): nat {
    if i == 0 then value else Shifted(value, i - 1) / 0x100
  }

  lemma {:induction false} ShiftedFirst(value: nat, i: nat)
    requires i > 0
    ensures Shifted(value, i) == Shifted(value / 0x100, i - 1)
  {
    if i > 1 {
      ShiftedFirst(value, i - 1);
    }
  }

  lemma {:induction false} ConcatBound(parts: seq<Bytes>, bound: nat)
    requires forall i :: 0 <= i < |parts| ==> |parts[i]| <= bound
    ensures |Concat(parts)| <= |parts| * bound
  {
    if parts == [] {
    } else {
      ConcatBound(parts[1..], bound);
      assert |parts| * bound == bound + |parts[1..]| * bound;
    }
  }

  /** Fields of the same widths, the last one of any width: equal bytes mean equal fields. */
  lemma {:induction false} ConcatCut(a: seq<Bytes>, b: seq<Bytes>)
    requires |a| == |b| && Concat(a) == Concat(b)
    requires forall i :: 0 <= i < |a| - 1 ==> |a[i]| == |b[i]|
    ensures a == b
    decreases |a|
  {
    if |a| == 1 {
      assert Concat(a[1..]) == [] && Concat(b[1..]) == [];
      assert Concat(a) == a[0] && Concat(b) == b[0];
      assert a == [a[0]] && b == [b[0]];
    } else if |a| > 1 {
      CutSame(a[0], Concat(a[1..]), b[0], Concat(b[1..]));
      ConcatCut(a[1..], b[1..]);
      assert a == [a[0]] + a[1..] && b == [b[0]] + b[1..];
    }
  }

  lemma {:induction false} Regroup(buffer: Bytes, part: Bytes, rest: Bytes)
    ensures (buffer + part) + rest == buffer + (part + rest)
  {
  }

  lemma {:induction false} CountSplit(front: Bytes, m: nat, x: Bytes, n: nat, y: Bytes)
    requires m < TWO32 && n < TWO32
    requires front + (LE(m % TWO32, 4) + x) == front + (LE(n % TWO32, 4) + y)
    ensures m == n && x == y
  {
    Pow256Values();
    WideSplit(front, m % TWO32, x, n % TWO32, y, 4);
  }

  lemma {:induction false} WideSplit(front: Bytes, m: nat, x: Bytes, n: nat, y: Bytes, width: nat)
    requires m < Pow256(width) && n < Pow256(width) && front + (LE(m, width) + x) == front + (LE(n, width) + y)
    ensures m == n && x == y
  {
    CutSame(front, LE(m, width) + x, front, LE(n, width) + y);
    LESplit(m, n, width, x, y);
  }

  /** bytes.Compare(a, b) < 0. */
  predicate LexLess(a: Bytes, b: Bytes)
    decreases |a|
  {
    b != [] && (a == [] || a[0] < b[0] || (a[0] == b[0] && LexLess(a[1..], b[1..])))
  }

  lemma {:induction false} LexCommonPrefix(p: Bytes, a: Bytes, b: Bytes)
    ensures LexLess(p + a, p + b) == LexLess(a, b)
  {
    if p == [] {
      assert p + a == a && p + b == b;
    } else {
      assert (p + a)[1..] == p[1..] + a && (p + b)[1..] == p[1..] + b;
      LexCommonPrefix(p[1..], a, b);
    }
  }

  /** Comparing equal-length strings: the first parts decide unless they are equal. */
  lemma {:induction false} LexAppend(a: Bytes, b: Bytes, x: Bytes, y: Bytes)
    requires |a| == |b|
    ensures LexLess(a + x, b + y) == (LexLess(a, b) || (a == b && LexLess(x, y)))
  {
    if a == [] {
      assert a + x == x && b + y == y;
    } else {
      assert (a + x)[1..] == a[1..] + x && (b + y)[1..] == b[1..] + y;
      LexAppend(a[1..], b[1..], x, y);
      assert a == [a[0]] + a[1..] && b == [b[0]] + b[1..];
    }
  }

  /** Big-endian fields compare as the numbers they hold. */
  lemma {:induction false} BEOrder(a: nat, b: nat, width: nat)
    requires a < Pow256(width) && b < Pow256(width)
    ensures LexLess(BE(a, width), BE(b, width)) == (a < b)
  {
    if width == 0 {
    } else {
      var p, q := a / 0x100, b / 0x100;
      BEOrder(p, q, width - 1);
      LexAppend(BE(p, width - 1), BE(q, width - 1), [a % 0x100], [b % 0x100]);
      BERoundTrip(p, width - 1);
      BERoundTrip(q, width - 1);
    }
  }

  lemma {:induction false} LexTotal(a: Bytes, b: Bytes)
    ensures LexLess(a, b) || a == b || LexLess(b, a)
    ensures !(LexLess(a, b) && LexLess(b, a))
    ensures !LexLess(a, a)
    decreases |a|
  {
    if a != [] && b != [] {
      LexTotal(a[1..], b[1..]);
      assert a == [a[0]] + a[1..] && b == [b[0]] + b[1..];
    }
    if a != [] && b == [] {
      assert LexLess(b, a);
    }
    LexIrreflexive(a);
  }

  lemma {:induction false} LexIrreflexive(a: Bytes)
    ensures !LexLess(a, a)
  {
    if a == [] {
    } else {
      LexIrreflexive(a[1..]);
    }
  }
}
