/**
  What the other modules share: bytes, optional values, the exclusive-or that the stream cipher is
  built on, and the characters of identifiers.
 */
module Bytes {
  newtype byte = x: int | 0 <= x < 256

  datatype Option<+T> = None | Some(value: T)

  const TWO_64: nat := 0x1_0000_0000_0000_0000

  /** The characters of a namespace, by code: `_`, `-`, `.`, lower-case letters and digits. */
  predicate NamespaceCode(c: int)
  {
    c == 95 || c == 45 || 97 <= c <= 122 || 48 <= c <= 57 || c == 46
  }

  /** Bitwise exclusive-or of the low `width` bits of two numbers. */
  function XorBits(a: nat, b: nat, width: nat): (r: nat)
  {
    if width == 0 then 0
    else (if a % 2 == b % 2 then 0 else 1) + 2 * XorBits(a / 2, b / 2, width - 1)
  }

  function Pow2(n: nat): (r: nat)
    ensures r > 0
  {
    if n == 0 then 1 else 2 * Pow2(n - 1)
  }

  lemma {:induction false} XorBitsFits(a: nat, b: nat, width: nat)
    ensures XorBits(a, b, width) < Pow2(width)
  {
    if width != 0 {
      XorBitsFits(a / 2, b / 2, width - 1);
    }
  }

  lemma {:induction false} XorBitsCancels(a: nat, b: nat, width: nat)
    requires a < Pow2(width)
    ensures XorBits(XorBits(a, b, width), b, width) == a
  {
    if width != 0 {
      XorBitsCancels(a / 2, b / 2, width - 1);
      var tail := XorBits(a / 2, b / 2, width - 1);
      var x := XorBits(a, b, width);
      assert x / 2 == tail && x % 2 == (if a % 2 == b % 2 then 0 else 1);
      assert (x % 2 == b % 2) <==> a % 2 == 0;
    }
  }

  function Xor(a: byte, b: byte): (r: byte)
  {
    XorBitsFits(a as nat, b as nat, 8);
    assert Pow2(8) == 256;
    XorBits(a as nat, b as nat, 8) as byte
  }

  /** Bit `i` of a number. */
  function Bit(n: nat, i: nat): (b: nat)
    ensures b <= 1
  {
    n / Pow2(i) % 2
  }

  lemma HalvesFirst(n: nat, p: nat)
    requires p > 0
    ensures n / (2 * p) == n / 2 / p
  {
    var q, r := n / 2 / p, n / 2 % p;
    assert n / 2 == q * p + r;
    assert n == q * (2 * p) + (2 * r + n % 2) && 2 * r + n % 2 < 2 * p;
    QuotientIsUnique(n, 2 * p, q, 2 * r + n % 2);
  }

  lemma QuotientIsUnique(n: nat, d: nat, q: nat, r: nat)
    requires r < d && n == q * d + r
    ensures n / d == q
  {
    var e: int := n / d - q;
    assert e * d == r - n % d;
    assert (e > 0 ==> e * d >= d) && (e < 0 ==> e * d + d <= 0);
  }

  lemma BitOfHalf(n: nat, i: nat)
    ensures Bit(n, i + 1) == Bit(n / 2, i) && Bit(n, 0) == n % 2
  {
    assert Pow2(i + 1) == 2 * Pow2(i);
    HalvesFirst(n, Pow2(i));
    assert Pow2(0) == 1;
  }

  lemma XorBitsStep(a: nat, b: nat, width: nat)
    requires width > 0
    ensures var x := XorBits(a, b, width);
            x / 2 == XorBits(a / 2, b / 2, width - 1) && x % 2 == (a % 2 + b % 2) % 2
  {
    var tail := XorBits(a / 2, b / 2, width - 1);
    LowBit(if a % 2 == b % 2 then 0 else 1, tail);
  }

  lemma LowBit(bit: nat, tail: nat)
    requires bit <= 1
    ensures (bit + 2 * tail) / 2 == tail && (bit + 2 * tail) % 2 == bit
  {
  }

  lemma {:induction false} XorBitsBitwise(a: nat, b: nat, width: nat, i: nat)
    requires i < width
    ensures Bit(XorBits(a, b, width), i) == (Bit(a, i) + Bit(b, i)) % 2
  {
    var x := XorBits(a, b, width);
    XorBitsStep(a, b, width);
    hide XorBits, Bit;
    if i == 0 {
      BitOfHalf(a, 0);
      BitOfHalf(b, 0);
      BitOfHalf(x, 0);
    } else {
      BitOfHalf(a, i - 1);
      BitOfHalf(b, i - 1);
      BitOfHalf(x, i - 1);
      XorBitsBitwise(a / 2, b / 2, width - 1, i - 1);
    }
  }

  /** Exclusive-or, bit by bit: a bit of the result is set exactly when it is set in one of the two. */
  lemma XorBitwise(a: byte, b: byte, i: nat)
    requires i < 8
    ensures Bit(Xor(a, b) as nat, i) == (Bit(a as nat, i) + Bit(b as nat, i)) % 2
  {
    XorBitsBitwise(a as nat, b as nat, 8, i);
  }

  /** Applying the same mask twice gives the byte back. */
  lemma XorCancels(a: byte, k: byte)
    ensures Xor(Xor(a, k), k) == a
  {
    assert Pow2(8) == 256;
    XorBitsCancels(a as nat, k as nat, 8);
  }

  /** Concatenation of a list of byte strings, in list order. */
  function Concat(parts: seq<seq<byte>>): (r: seq<byte>)
  {
    if parts == [] then [] else parts[0] + Concat(parts[1..])
  }

  lemma {:induction false} ConcatAppend(parts: seq<seq<byte>>, last: seq<byte>)
    ensures Concat(parts + [last]) == Concat(parts) + last
  {
    if parts == [] {
      assert parts + [last] == [last];
      assert Concat([last]) == last + Concat([]);
    } else {
      assert (parts + [last])[1..] == parts[1..] + [last];
      ConcatAppend(parts[1..], last);
    }
  }

  lemma {:induction false} ConcatSplit(a: seq<seq<byte>>, b: seq<seq<byte>>)
    ensures Concat(a + b) == Concat(a) + Concat(b)
  {
    if a == [] {
      assert a + b == b;
    } else {
      assert (a + b)[1..] == a[1..] + b;
      ConcatSplit(a[1..], b);
    }
  }
}
