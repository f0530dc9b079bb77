/** Fixed-width integers in either byte order, and Go strings seen as byte strings. */
module Bytes {
  type byte = b: int | 0 <= b < 256

  const TWO_TO_16 := 0x1_0000
  const TWO_TO_32 := 0x1_0000_0000
  const TWO_TO_63 := 0x8000_0000_0000_0000
  const TWO_TO_64 := 0x1_0000_0000_0000_0000

  type u16 = v: int | 0 <= v < TWO_TO_16
  type u32 = v: int | 0 <= v < TWO_TO_32
  type u64 = v: int | 0 <= v < TWO_TO_64

  datatype ByteOrder = LittleEndian | BigEndian

  datatype Option<+T> = None | Some(value: T)

  /** A Go string: a sequence of bytes, each written as the character of that code. */
  type GoString = s: string | IsByteString(s) witness ""

  predicate IsByteString(s: string) {
    forall i :: 0 <= i < |s| ==> s[i] as int < 256
  }

  function BytesOf(s: GoString): (b: seq<byte>)
    ensures |b| == |s|
    ensures forall i :: 0 <= i < |s| ==> b[i] == s[i] as int
  {
    seq(|s|, i requires 0 <= i < |s| => s[i] as int)
  }

  function Text(b: seq<byte>): (s: GoString)
    ensures |s| == |b|
    ensures forall i :: 0 <= i < |b| ==> s[i] == b[i] as char
  {
    seq(|b|, i requires 0 <= i < |b| => b[i] as char)
  }

  /** The C string held by `s`: everything before its first NUL. */
  function UntilNul(s: GoString): (r: GoString)
    ensures r <= s
    ensures '\0' !in r
    ensures r == s || s[|r|] == '\0'
  {
    if s == "" || s[0] == '\0' then ""
    else [s[0]] + UntilNul(s[1..])
  }

  lemma {:induction false} UntilNulWhole(s: GoString)
    ensures UntilNul(s) == s <==> '\0' !in s
  {
    var r := UntilNul(s);
    if r != s {
      assert s[|r|] in s;
    }
  }

  function Zeros(n: nat): (z: seq<byte>)
    ensures |z| == n
    ensures forall i :: 0 <= i < n ==> z[i] == 0
  {
    seq(n, _ => 0)
  }

  function Pow256(n: nat): (p: nat)
    ensures p > 0
  {
    if n == 0 then 1 else 256 * Pow256(n - 1)
  }

  lemma Pow256Values()
    ensures Pow256(2) == TWO_TO_16
    ensures Pow256(4) == TWO_TO_32
    ensures Pow256(8) == TWO_TO_64
  {
    assert Pow256(1) == 256;
    assert Pow256(3) == 0x100_0000;
    assert Pow256(5) == 0x100_0000_0000;
    assert Pow256(6) == 0x1_0000_0000_0000;
    assert Pow256(7) == 0x100_0000_0000_0000;
  }

  /** The `width` low-order bytes of `v`, least significant first. */
  function Le(width: nat, v: nat): (b: seq<byte>)
    ensures |b| == width
  {
    if width == 0 then [] else [v % 256] + Le(width - 1, v / 256)
  }

  function LeValue(b: seq<byte>): (v: nat)
    ensures v < Pow256(|b|)
  {
    if b == [] then 0 else b[0] + 256 * LeValue(b[1..])
  }

  lemma {:induction false} LeRoundTrip(width: nat, v: nat)
    requires v < Pow256(width)
    ensures LeValue(Le(width, v)) == v
  {
    if width > 0 {
      assert Le(width, v)[1..] == Le(width - 1, v / 256);
      LeRoundTrip(width - 1, v / 256);
    }
  }

  /** Four bytes whose upper half is nonzero denote at least 65536. */
  lemma LeValueUpperHalf(b: seq<byte>)
    requires |b| == 4
    requires b[2] != 0 || b[3] != 0
    ensures LeValue(b) >= TWO_TO_16
  {
    assert b[1..][1..] == b[2..] && b[2..][1..] == b[3..];
    assert LeValue(b[2..]) == b[2] as int + 256 * LeValue(b[3..]);
    assert LeValue(b[3..]) >= b[3] as int;
  }

  function Reversed(b: seq<byte>): (r: seq<byte>)
    ensures |r| == |b|
  {
    seq(|b|, i requires 0 <= i < |b| => b[|b| - 1 - i])
  }

  lemma ReversedTwice(b: seq<byte>)
    ensures Reversed(Reversed(b)) == b
  {
  }

  function Put(order: ByteOrder, width: nat, v: nat): (b: seq<byte>)
    ensures |b| == width
  {
    if order.LittleEndian? then Le(width, v) else Reversed(Le(width, v))
  }

  function Get(order: ByteOrder, b: seq<byte>): (v: nat)
    ensures v < Pow256(|b|)
  {
    if order.LittleEndian? then LeValue(b) else LeValue(Reversed(b))
  }

  lemma GetPut(order: ByteOrder, width: nat, v: nat)
    requires v < Pow256(width)
    ensures Get(order, Put(order, width, v)) == v
  {
    LeRoundTrip(width, v);
    ReversedTwice(Le(width, v));
    hide Le, LeValue, Pow256, Reversed;
  }

  lemma {:induction false} LeValueSnoc(b: seq<byte>, a: byte)
    ensures LeValue(b + [a]) == LeValue(b) + a * Pow256(|b|)
  {
    if b == [] {
      assert [a][1..] == [];
    } else {
      assert (b + [a])[1..] == b[1..] + [a];
      LeValueSnoc(b[1..], a);
      Regroup(a, Pow256(|b| - 1));
    }
  }

  lemma Regroup(a: nat, p: nat)
    ensures 256 * (a * p) == a * (256 * p)
  {
  }

  /** The first byte is the least significant one in little-endian order and the most significant one in
      big-endian order. */
  lemma GetCons(a: byte, b: seq<byte>)
    ensures Get(LittleEndian, [a] + b) == a + 256 * Get(LittleEndian, b)
    ensures Get(BigEndian, [a] + b) == a * Pow256(|b|) + Get(BigEndian, b)
  {
    hide Pow256;
    assert ([a] + b)[1..] == b;
    assert Reversed([a] + b) == Reversed(b) + [a];
    LeValueSnoc(Reversed(b), a);
  }

  /** The number with these four digits to the base 256, least significant first. */
  function Digits4(a: byte, b: byte, c: byte, d: byte): nat {
    a + 0x100 * b + 0x1_0000 * c + 0x100_0000 * d
  }

  /** Four bytes in either order, digit by digit. */
  lemma Get4(b: seq<byte>)
    requires |b| == 4
    ensures Get(LittleEndian, b) == Digits4(b[0], b[1], b[2], b[3])
    ensures Get(BigEndian, b) == Digits4(b[3], b[2], b[1], b[0])
  {
    LeValue4(b);
    LeValue4(Reversed(b));
  }

  lemma LeValue4(b: seq<byte>)
    requires |b| == 4
    ensures LeValue(b) == Digits4(b[0], b[1], b[2], b[3])
  {
    assert b[1..][1..] == b[2..] && b[2..][1..] == b[3..] && b[3..][1..] == [];
    assert LeValue(b[3..]) == b[3];
    assert LeValue(b[2..]) == b[2] + 256 * LeValue(b[3..]);
    assert LeValue(b[1..]) == b[1] + 256 * LeValue(b[2..]);
  }

  /** Eight bytes in either order: two halves of four digits each. */
  lemma Get8(b: seq<byte>)
    requires |b| == 8
    ensures Get(LittleEndian, b) ==
            Digits4(b[0], b[1], b[2], b[3]) + 0x1_0000_0000 * Digits4(b[4], b[5], b[6], b[7])
    ensures Get(BigEndian, b) ==
            Digits4(b[7], b[6], b[5], b[4]) + 0x1_0000_0000 * Digits4(b[3], b[2], b[1], b[0])
  {
    LeValue8(b);
    LeValue8(Reversed(b));
  }

  lemma LeValue8(b: seq<byte>)
    requires |b| == 8
    ensures LeValue(b) == Digits4(b[0], b[1], b[2], b[3]) + 0x1_0000_0000 * Digits4(b[4], b[5], b[6], b[7])
  {
    LeValue4(b[4..]);
    assert b[1..][1..] == b[2..] && b[2..][1..] == b[3..] && b[3..][1..] == b[4..];
    assert LeValue(b[3..]) == b[3] + 256 * LeValue(b[4..]);
    assert LeValue(b[2..]) == b[2] + 256 * LeValue(b[3..]);
    assert LeValue(b[1..]) == b[1] + 256 * LeValue(b[2..]);
  }

  /** Go's `v & mask != 0` for a mask with a single bit. */
  predicate HasBit(v: nat, mask: nat)
    requires mask > 0
  {
    (v / mask) % 2 == 1
  }

  /** A bit is set when it is in what remains after the higher bits are taken away. */
  lemma HasBitExact(v: nat, mask: nat)
    requires mask > 0
    ensures HasBit(v, mask) <==> v % (2 * mask) >= mask
  {
    hide HasBit;
    var d := 2 * mask;
    DivMod(v, d);
    Doubled(mask, v / d);
    BitOf(v, mask, v / d, v % d);
  }

  lemma DivMod(v: nat, d: nat)
    requires d > 0
    ensures v / d >= 0 && 0 <= v % d < d && v == d * (v / d) + v % d
  {
  }

  lemma Doubled(m: nat, q: nat)
    ensures 2 * m * q == m * (2 * q) && m * (2 * q + 1) == m * (2 * q) + m
  {
  }

  lemma BitOf(v: nat, mask: nat, q: nat, r: nat)
    requires mask > 0 && r < 2 * mask && v == mask * (2 * q) + r
    ensures HasBit(v, mask) <==> r >= mask
  {
    Doubled(mask, q);
    if r >= mask {
      QuotientOf(v, mask, 2 * q + 1, r - mask);
    } else {
      QuotientOf(v, mask, 2 * q, r);
    }
  }

  lemma AtLeastOnce(d: nat, k: int)
    ensures k >= 1 ==> d * k >= d
  {
  }

  lemma QuotientOf(v: nat, d: nat, q: nat, r: nat)
    requires r < d && v == d * q + r
    ensures v / d == q
  {
    var k := v / d - q;
    AtLeastOnce(d, k);
    AtLeastOnce(d, -k);
    assert d * k == r - v % d;
  }

  /** Two's-complement reading of a 64-bit word, as Go's `int64(v)`. */
  function ToI64(v: u64): (i: int)
    ensures -TWO_TO_63 <= i < TWO_TO_63
  {
    if v < TWO_TO_63 then v else v - TWO_TO_64
  }

  /** It is the number in the signed range that is congruent to the word. */
  lemma ToI64Exact(v: u64, i: int)
    requires -TWO_TO_63 <= i < TWO_TO_63
    ensures i == ToI64(v) <==> i % 0x1_0000_0000_0000_0000 == v
  {
  }

  /** `b` rounded up to a multiple of eight bytes with zeros. */
  function Pad8(b: seq<byte>): (p: seq<byte>)
    ensures |p| == Align8(|b|)
    ensures b <= p
  {
    b + Zeros(Align8(|b|) - |b|)
  }

  function Align8(n: nat): (a: nat)
    ensures n <= a < n + 8
    ensures a % 8 == 0
  {
    (n + 7) / 8 * 8
  }
}
