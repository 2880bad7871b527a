/**
  The server hash: a signed big-endian byte string printed in base 16, as Java's
  `new BigInteger(bytes).toString(16)` prints it.
 */
module SignedHex {
  import opened Bytes

  const DIGITS: string := "0123456789abcdef"

  // ----- Numbers -----

  function Pow256(n: nat): (p: nat)
    ensures p > 0
  {
    if n == 0 then 1 else 256 * Pow256(n - 1)
  }

  /** The unsigned big-endian value. */
  function BeValue(bytes: seq<byte>): (v: nat)
  {
    if bytes == [] then 0 else BeValue(bytes[..|bytes| - 1]) * 256 + bytes[|bytes| - 1] as nat
  }

  /** The two's-complement big-endian value; no bytes are zero. */
  function TwosComplement(bytes: seq<byte>): (v: int)
  {
    BeValue(bytes) - if bytes != [] && bytes[0] >= 128 then Pow256(|bytes|) else 0
  }

  predicate IsDigit(c: char)
  {
    '0' <= c <= '9' || 'a' <= c <= 'f'
  }

  function DigitValue(c: char): (v: nat)
    requires IsDigit(c)
    ensures v < 16
  {
    if c <= '9' then c as int - '0' as int else c as int - 'a' as int + 10
  }

  predicate AllDigits(s: string)
  {
    forall i | 0 <= i < |s| :: IsDigit(s[i])
  }

  function HexValue(s: string): (v: nat)
    requires AllDigits(s)
  {
    if s == [] then 0 else HexValue(s[..|s| - 1]) * 16 + DigitValue(s[|s| - 1])
  }

  /** The number that a printed string denotes. */
  function Denotes(s: string): (v: int)
    requires Canonical(s)
  {
    if s[0] == '-' then -(HexValue(s[1..]) as int) else HexValue(s)
  }

  /** Nonempty lower-case digits without a leading zero. */
  predicate Magnitude(s: string)
  {
    s != [] && AllDigits(s) && s[0] != '0'
  }

  /** `0`, or a magnitude, or a minus sign and a magnitude. */
  predicate Canonical(s: string)
  {
    s == "0" || Magnitude(s) || (s != [] && s[0] == '-' && Magnitude(s[1..]))
  }

  // ----- Printing -----

  function HexByte(b: byte): (s: string)
    ensures |s| == 2 && AllDigits(s) && HexValue(s) == b as nat
  {
    var s := [DIGITS[b as nat / 16], DIGITS[b as nat % 16]];
    assert forall d | 0 <= d < 16 :: IsDigit(DIGITS[d]) && DigitValue(DIGITS[d]) == d;
    assert s[..1] == [s[0]] && s[..1][..0] == [];
    assert HexValue(s[..1]) == b as nat / 16;
    s
  }

  function HexEncode(bytes: seq<byte>): (s: string)
    ensures AllDigits(s)
  {
    if bytes == [] then [] else HexEncode(bytes[..|bytes| - 1]) + HexByte(bytes[|bytes| - 1])
  }

  function TrimZeros(s: string): (t: string)
  {
    if s != [] && s[0] == '0' then TrimZeros(s[1..]) else s
  }

  lemma HexValueAppend2(s: string, t: string)
    requires AllDigits(s) && AllDigits(t) && |t| == 2
    ensures AllDigits(s + t) && HexValue(s + t) == HexValue(s) * 256 + HexValue(t)
  {
    var u := s + t;
    var u1 := u[..|u| - 1];
    assert u1[..|u1| - 1] == s && u1[|u1| - 1] == t[0] && u[|u| - 1] == t[1];
    assert t[..1] == [t[0]] && t[..1][..0] == [];
    assert HexValue(t[..1]) == DigitValue(t[0]);
  }

  lemma {:induction false} HexEncodeValue(bytes: seq<byte>)
    ensures HexValue(HexEncode(bytes)) == BeValue(bytes)
  {
    if bytes != [] {
      HexEncodeValue(bytes[..|bytes| - 1]);
      HexValueAppend2(HexEncode(bytes[..|bytes| - 1]), HexByte(bytes[|bytes| - 1]));
    }
  }

  lemma {:induction false} LeadingZero(s: string)
    requires s != [] && AllDigits(s) && s[0] == '0'
    ensures HexValue(s) == HexValue(s[1..])
  {
    if |s| == 1 {
      assert s == "0" && s[..0] == [];
    } else {
      var n := |s| - 1;
      LeadingZero(s[..n]);
      assert s[..n][1..] == s[1..][..n - 1];
    }
  }

  lemma {:induction false} TrimKeepsValue(s: string)
    requires AllDigits(s)
    ensures var t := TrimZeros(s);
            AllDigits(t) && HexValue(t) == HexValue(s) && (t == [] || Magnitude(t))
  {
    if s != [] && s[0] == '0' {
      LeadingZero(s);
      TrimKeepsValue(s[1..]);
    }
  }

  lemma {:induction false} MagnitudeIsPositive(s: string)
    requires Magnitude(s)
    ensures HexValue(s) > 0
  {
    if |s| == 1 {
      assert s[..0] == [];
    } else {
      MagnitudeIsPositive(s[..|s| - 1]);
    }
  }

  // ----- Negation by two's complement -----

  lemma {:induction false} BeValueOfTop(bytes: seq<byte>)
    requires bytes != []
    ensures BeValue(bytes) >= bytes[0] as nat * Pow256(|bytes| - 1)
  {
    if |bytes| == 1 {
      assert bytes[..0] == [];
    } else {
      var n := |bytes| - 1;
      BeValueOfTop(bytes[..n]);
      var p := Pow256(n - 1);
      assert Pow256(n) == 256 * p;
      assert bytes[0] as nat * (256 * p) == (bytes[0] as nat * p) * 256;
    }
  }

  lemma {:induction false} ComplementValue(bytes: seq<byte>, flipped: seq<byte>)
    requires |flipped| == |bytes| && forall i | 0 <= i < |bytes| :: flipped[i] == 255 - bytes[i]
    ensures BeValue(flipped) + BeValue(bytes) + 1 == Pow256(|bytes|)
  {
    if bytes != [] {
      ComplementValue(bytes[..|bytes| - 1], flipped[..|bytes| - 1]);
    }
  }

  /** Adding one at a byte's place, where there is room for it. */
  lemma {:induction false} AddWithoutCarry(s: seq<byte>, i: nat)
    requires i < |s| && s[i] != 255
    ensures BeValue(s[i := s[i] + 1]) == BeValue(s) + Pow256(|s| - 1 - i)
  {
    var n := |s| - 1;
    var t := s[i := s[i] + 1];
    if i == n {
      assert t[..n] == s[..n];
    } else {
      assert t[..n] == s[..n][i := s[i] + 1];
      AddWithoutCarry(s[..n], i);
    }
  }

  /** Adding one to a full byte leaves zero, and one to add at the next place. */
  lemma {:induction false} AddWithCarry(s: seq<byte>, i: nat)
    requires i < |s| && s[i] == 255
    ensures BeValue(s[i := 0]) + Pow256(|s| - i) == BeValue(s) + Pow256(|s| - 1 - i)
  {
    var n := |s| - 1;
    var t := s[i := 0];
    if i == n {
      assert t[..n] == s[..n];
      assert Pow256(1) == 256 * Pow256(0);
    } else {
      assert t[..n] == s[..n][i := 0];
      AddWithCarry(s[..n], i);
      assert Pow256(|s| - i) == 256 * Pow256(n - i);
    }
  }

  /**
    Adds one to a big-endian array, from the last byte up, stopping where there is no carry. The
    caller knows that the sum fits, so the carry never runs off the top.
   */
  method Increment(magnitude: array<byte>)
    requires BeValue(magnitude[..]) + 1 < Pow256(magnitude.Length)
    modifies magnitude
    ensures BeValue(magnitude[..]) == old(BeValue(magnitude[..])) + 1
  {
    assert Pow256(0) == 1;
    hide BeValue, Pow256;
    var n := magnitude.Length;
    var i := n;
    while i > 0
      invariant 0 <= i <= n
      invariant BeValue(magnitude[..]) + Pow256(n - i) == old(BeValue(magnitude[..])) + 1
    {
      i := i - 1;
      ghost var before := magnitude[..];
      var carry := magnitude[i] == 255;
      var result: byte := if carry then 0 else magnitude[i] + 1;
      if carry {
        AddWithCarry(before, i);
      } else {
        AddWithoutCarry(before, i);
      }
      magnitude[i] := result;
      assert magnitude[..] == before[i := result];
      if !carry {
        return;
      }
    }
  }

  /** `hex::encode` and `trim_start_matches('0')`. */
  method PrintTrimmed(bytes: seq<byte>) returns (t: string)
    ensures AllDigits(t) && HexValue(t) == BeValue(bytes) && (t == [] || Magnitude(t))
  {
    var hex := HexEncode(bytes);
    HexEncodeValue(bytes);
    TrimKeepsValue(hex);
    t := TrimZeros(hex);
  }

  lemma ProductIsPositive(a: nat, b: nat)
    requires a > 0 && b > 0
    ensures a * b > 0
  {
  }

  lemma FlippedLeavesRoom(bytes: seq<byte>, flipped: seq<byte>)
    requires bytes != [] && bytes[0] >= 128
    requires |flipped| == |bytes| && forall i | 0 <= i < |bytes| :: flipped[i] == 255 - bytes[i]
    ensures BeValue(flipped) + 1 == Pow256(|bytes|) - BeValue(bytes)
    ensures 0 < BeValue(flipped) + 1 < Pow256(|bytes|)
  {
    hide BeValue, Pow256;
    ComplementValue(bytes, flipped);
    BeValueOfTop(bytes);
    ProductIsPositive(bytes[0] as nat, Pow256(|bytes| - 1));
  }

  /**
    For bytes of any length, the printed string denotes exactly the two's-complement value, in
    canonical form: a minus sign only for negatives, and no leading zeros.
   */
  method SignedBytesBeToHex(bytes: seq<byte>) returns (s: string)
    ensures Canonical(s)
    ensures Denotes(s) == TwosComplement(bytes)
  {
    assert HexValue("0") == 0 by {
      assert "0"[..0] == [];
    }
    assert HexValue([]) == 0;
    assert BeValue([]) == 0;
    hide HexValue, BeValue, Pow256;
    if bytes == [] {
      return "0";
    }
    if bytes[0] >= 128 {
      var magnitude := new byte[|bytes|](i requires 0 <= i < |bytes| => 255 - bytes[i]);
      FlippedLeavesRoom(bytes, magnitude[..]);
      Increment(magnitude);
      var trimmed := PrintTrimmed(magnitude[..]);
      s := ['-'] + trimmed;
      assert s[1..] == trimmed;
    } else {
      var trimmed := PrintTrimmed(bytes);
      s := if trimmed == [] then "0" else trimmed;
    }
  }

  // ----- The form is unique -----

  lemma {:induction false} MagnitudeIsUnique(a: string, b: string)
    requires AllDigits(a) && AllDigits(b) && (a == [] || Magnitude(a)) && (b == [] || Magnitude(b))
    requires HexValue(a) == HexValue(b)
    ensures a == b
  {
    if a == [] {
      if b != [] {
        MagnitudeIsPositive(b);
      }
    } else if b == [] {
      MagnitudeIsPositive(a);
    } else {
      var m, n := |a| - 1, |b| - 1;
      SameDigits(HexValue(a[..m]), DigitValue(a[m]), HexValue(b[..n]), DigitValue(b[n]));
      MagnitudeIsUnique(a[..m], b[..n]);
      assert a == a[..m] + [a[m]] && b == b[..n] + [b[n]];
    }
  }

  lemma SameDigits(x: nat, d: nat, y: nat, e: nat)
    requires d < 16 && e < 16 && x * 16 + d == y * 16 + e
    ensures x == y && d == e
  {
  }

  /** Two canonical strings that denote the same number are the same string. */
  lemma CanonicalIsUnique(a: string, b: string)
    requires Canonical(a) && Canonical(b) && Denotes(a) == Denotes(b)
    ensures a == b
  {
    assert "0"[..0] == [];
    assert HexValue("0") == 0;
    if Magnitude(a) { MagnitudeIsPositive(a); }
    if Magnitude(b) { MagnitudeIsPositive(b); }
    if a[0] == '-' { MagnitudeIsPositive(a[1..]); }
    if b[0] == '-' { MagnitudeIsPositive(b[1..]); }
    if a[0] == '-' {
      MagnitudeIsUnique(a[1..], b[1..]);
      assert a == ['-'] + a[1..] && b == ['-'] + b[1..];
    } else if a != "0" {
      MagnitudeIsUnique(a, b);
    }
  }
}
