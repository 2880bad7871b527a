/**
  Variable-length integers: little-endian groups of seven bits, a set top bit meaning that another
  group follows. Values are `i32`; the codec works on their `u32` bit patterns.
 */
module VarInts {
  import opened Bytes

  const TWO_31: int := 0x8000_0000
  const TWO_32: int := 0x1_0000_0000

  const MAX_SIZE: nat := 5

  predicate IsI32(v: int)
  {
    -TWO_31 <= v < TWO_31
  }

  /** `v as u32`. */
  function AsU32(v: int): (u: nat)
    requires IsI32(v)
    ensures u < TWO_32
  {
    if v < 0 then v + TWO_32 else v
  }

  /** `n as i32` for any unsigned source width: wraps modulo 2^32. */
  function AsI32(n: nat): (v: int)
    ensures IsI32(v)
  {
    var u := n % TWO_32;
    if u < TWO_31 then u else u - TWO_32
  }

  /** `v as usize` on a 64-bit machine: sign-extends. */
  function AsUsize(v: int): (u: nat)
    requires IsI32(v)
  {
    if v < 0 then v + TWO_64 else v
  }

  /** 32 minus `leading_zeros`. */
  function BitLength(u: nat): (n: nat)
  {
    if u == 0 then 0 else 1 + BitLength(u / 2)
  }

  /** `VarInt::written_size`. */
  function WrittenSize(v: int): (n: nat)
    requires IsI32(v)
    ensures n >= 1
  {
    if v == 0 then 1 else (BitLength(AsU32(v)) - 1) / 7 + 1
  }

  function WriteU32(u: nat): (out: seq<byte>)
    requires u < TWO_32
    ensures out != []
  {
    if u < 128 then [u as byte] else [(u % 128 + 128) as byte] + WriteU32(u / 128)
  }

  function Write(v: int): (out: seq<byte>)
    requires IsI32(v)
    ensures out != []
  {
    WriteU32(AsU32(v))
  }

  method WriteTo(v: int, prefix: seq<byte>) returns (out: seq<byte>)
    requires IsI32(v)
    ensures out == prefix + Write(v)
  {
    out := prefix;
    var val := AsU32(v);
    while true
      invariant 0 <= val < TWO_32
      invariant out + WriteU32(val) == prefix + Write(v)
      decreases val
    {
      var b := val % 128;
      var next := val / 128;
      if next == 0 {
        return out + [b as byte];
      }
      assert out + [(b + 128) as byte] + WriteU32(next) == out + WriteU32(val);
      out := out + [(b + 128) as byte];
      val := next;
    }
  }

  /** What a read finds: a value and the bytes it used, the end of the input, or a sixth group. */
  datatype Reading = Value(v: int, used: nat) | Truncated | TooLong

  /** The place value of group `i`. */
  function Place(i: nat): (p: nat)
    requires i <= 4
  {
    match i
    case 0 => 1
    case 1 => 128
    case 2 => 16384
    case 3 => 2097152
    case _ => 268435456
  }

  /** `(byte & 0x7F) << (i * 7)` in 32 bits: the fifth group keeps its low four bits only. */
  function Group(b: byte, i: nat): (g: nat)
    requires i <= 4
  {
    (b as nat % 128) % (if i == 4 then 16 else 128) * Place(i)
  }

  /** Groups `i` onwards; the bits read so far lie below group `i`, so `|=` adds. */
  function ReadGroups(bytes: seq<byte>, i: nat, acc: nat): (r: Reading)
    requires i <= 5
    ensures r.Value? ==> IsI32(r.v) && i < r.used <= 5 && r.used - i <= |bytes|
    decreases 5 - i
  {
    if i == 5 then TooLong
    else if bytes == [] then Truncated
    else
      var val := acc + Group(bytes[0], i);
      if bytes[0] < 128 then Value(AsI32(val), i + 1) else ReadGroups(bytes[1..], i + 1, val)
  }

  function Read(bytes: seq<byte>): (r: Reading)
    ensures r.Value? ==> IsI32(r.v) && 1 <= r.used <= 5 && r.used <= |bytes|
  {
    ReadGroups(bytes, 0, 0)
  }

  method ReadFrom(bytes: seq<byte>) returns (r: Reading)
    ensures r == Read(bytes)
  {
    var val: nat := 0;
    for i := 0 to MAX_SIZE
      invariant i <= |bytes|
      invariant ReadGroups(bytes[i..], i, val) == Read(bytes)
    {
      if i == |bytes| {
        return Truncated;
      }
      assert bytes[i..][1..] == bytes[i + 1..];
      val := val + Group(bytes[i], i);
      if bytes[i] < 128 {
        return Value(AsI32(val), i + 1);
      }
    }
    return TooLong;
  }

  // ----- Size -----

  lemma BitLengthOfGroup(u: nat)
    requires u >= 128
    ensures BitLength(u) == 7 + BitLength(u / 128)
  {
    var a := u / 2; var b := a / 2; var c := b / 2; var d := c / 2; var e := d / 2; var f := e / 2;
    assert f / 2 == u / 128;
    assert BitLength(a) == 1 + BitLength(b) && BitLength(b) == 1 + BitLength(c);
    assert BitLength(c) == 1 + BitLength(d) && BitLength(d) == 1 + BitLength(e);
    assert BitLength(e) == 1 + BitLength(f) && BitLength(f) == 1 + BitLength(f / 2);
  }

  lemma BitLengthBelowGroup(u: nat)
    requires 0 < u < 128
    ensures 1 <= BitLength(u) <= 7
  {
    var a := u / 2; var b := a / 2; var c := b / 2; var d := c / 2; var e := d / 2; var f := e / 2;
    assert f / 2 == 0 && BitLength(f) <= 1 && BitLength(e) <= 2 && BitLength(d) <= 3;
    assert BitLength(c) <= 4 && BitLength(b) <= 5 && BitLength(a) <= 6;
  }

  lemma {:induction false} WriteU32Length(u: nat)
    requires 0 < u < TWO_32
    ensures BitLength(u) >= 1 && |WriteU32(u)| == (BitLength(u) - 1) / 7 + 1
  {
    if u < 128 {
      BitLengthBelowGroup(u);
    } else {
      BitLengthOfGroup(u);
      WriteU32Length(u / 128);
    }
  }

  /** `written_size` is exactly the number of bytes that `write` produces, for every `i32`. */
  lemma WrittenSizeIsLength(v: int)
    requires IsI32(v)
    ensures |Write(v)| == WrittenSize(v) <= MAX_SIZE
  {
    if v != 0 {
      WriteU32Length(AsU32(v));
    }
    WriteU32Bound(AsU32(v), 5);
  }

  lemma {:induction false} WriteU32Bound(u: nat, n: nat)
    requires 1 <= n <= 5 && u < TWO_32 && (n <= 4 ==> u < Place(n))
    ensures |WriteU32(u)| <= n
  {
    if u >= 128 {
      WriteU32Bound(u / 128, n - 1);
    }
  }

  /** Sizes at the limits that framing relies on. */
  lemma SmallSizes(n: nat)
    requires n < 268435456
    ensures WrittenSize(n) <= 4
    ensures n < 2097152 ==> WrittenSize(n) <= 3
    ensures n < 128 ==> WrittenSize(n) == 1
    ensures |Write(n)| == WrittenSize(n)
  {
    WrittenSizeIsLength(n);
    WriteU32Bound(n, 4);
    if n < 2097152 {
      WriteU32Bound(n, 3);
    }
  }

  // ----- Round trip -----

  // Reading back from each of the five groups, the last first.

  lemma GroupStep(u: nat, i: nat, acc: nat, rest: seq<byte>)
    requires i <= 4 && u < TWO_32
    ensures u < 128 ==>
              && |WriteU32(u)| == 1
              && ReadGroups(WriteU32(u) + rest, i, acc) == Value(AsI32(acc + Group(u as byte, i)), i + 1)
    ensures u >= 128 ==>
              && |WriteU32(u)| == 1 + |WriteU32(u / 128)|
              && ReadGroups(WriteU32(u) + rest, i, acc)
              == ReadGroups(WriteU32(u / 128) + rest, i + 1, acc + Group((u % 128 + 128) as byte, i))
  {
    hide Group;
    var bytes := WriteU32(u) + rest;
    if u >= 128 {
      assert bytes[0] == (u % 128 + 128) as byte && bytes[1..] == WriteU32(u / 128) + rest;
    } else {
      assert bytes[0] == u as byte;
    }
  }

  lemma ReadFifthGroup(u: nat, acc: nat, rest: seq<byte>)
    requires u < 16
    ensures ReadGroups(WriteU32(u) + rest, 4, acc) == Value(AsI32(acc + u * 268435456), 4 + |WriteU32(u)|)
  {
    hide ReadGroups, WriteU32, AsI32;
    GroupStep(u, 4, acc, rest);
  }

  lemma ReadFourthGroup(u: nat, acc: nat, rest: seq<byte>)
    requires u < 2048
    ensures ReadGroups(WriteU32(u) + rest, 3, acc) == Value(AsI32(acc + u * 2097152), 3 + |WriteU32(u)|)
  {
    hide ReadGroups, WriteU32, AsI32;
    GroupStep(u, 3, acc, rest);
    if u >= 128 {
      ReadFifthGroup(u / 128, acc + u % 128 * 2097152, rest);
    }
  }

  lemma ReadThirdGroup(u: nat, acc: nat, rest: seq<byte>)
    requires u < 262144
    ensures ReadGroups(WriteU32(u) + rest, 2, acc) == Value(AsI32(acc + u * 16384), 2 + |WriteU32(u)|)
  {
    hide ReadGroups, WriteU32, AsI32;
    GroupStep(u, 2, acc, rest);
    if u >= 128 {
      ReadFourthGroup(u / 128, acc + u % 128 * 16384, rest);
    }
  }

  lemma ReadSecondGroup(u: nat, acc: nat, rest: seq<byte>)
    requires u < 33554432
    ensures ReadGroups(WriteU32(u) + rest, 1, acc) == Value(AsI32(acc + u * 128), 1 + |WriteU32(u)|)
  {
    hide ReadGroups, WriteU32, AsI32;
    GroupStep(u, 1, acc, rest);
    if u >= 128 {
      ReadThirdGroup(u / 128, acc + u % 128 * 128, rest);
    }
  }

  lemma ReadFirstGroup(u: nat, acc: nat, rest: seq<byte>)
    requires u < TWO_32
    ensures ReadGroups(WriteU32(u) + rest, 0, acc) == Value(AsI32(acc + u * 1), 0 + |WriteU32(u)|)
  {
    hide ReadGroups, WriteU32, AsI32;
    GroupStep(u, 0, acc, rest);
    if u >= 128 {
      ReadSecondGroup(u / 128, acc + u % 128 * 1, rest);
    }
  }

  lemma LowGroupFits(low: nat, p: nat, acc: nat)
    requires low < 128 && acc < p
    ensures acc + low * p < 128 * p
  {
    assert low * p <= 127 * p;
  }

  /** Reading what was written gives the value back, whatever follows it. */
  lemma ReadInvertsWrite(v: int, rest: seq<byte>)
    requires IsI32(v)
    ensures Read(Write(v) + rest) == Value(v, |Write(v)|)
  {
    hide WriteU32, ReadGroups;
    ReadFirstGroup(AsU32(v), 0, rest);
  }

  /** A cut-off encoding is never mistaken for a value. */
  lemma {:induction false} CutWriteIsTruncated(u: nat, n: nat, i: nat, acc: nat)
    requires u < TWO_32 && n < |WriteU32(u)| && i + |WriteU32(u)| <= 5
    ensures ReadGroups(WriteU32(u)[..n], i, acc) == Truncated
    decreases n
  {
    var cut := WriteU32(u)[..n];
    if n > 0 {
      assert u >= 128;
      assert cut[0] >= 128;
      assert cut[1..] == WriteU32(u / 128)[..n - 1];
      CutWriteIsTruncated(u / 128, n - 1, i + 1, acc + Group(cut[0], i));
    }
  }

  lemma GroupFits(b: byte, i: nat, acc: nat)
    requires i < 4 && acc < Place(i)
    ensures acc + Group(b, i) < Place(i + 1) <= 268435456
  {
    LowGroupFits(b as nat % 128, Place(i), acc);
  }

  lemma {:induction false} ReadGroupsBound(bytes: seq<byte>, i: nat, acc: nat)
    requires i <= 4 && acc < Place(i) && ReadGroups(bytes, i, acc).Value?
    ensures var r := ReadGroups(bytes, i, acc); r.used <= 4 ==> 0 <= r.v < Place(r.used)
    decreases 5 - i
  {
    if i < 4 {
      var val := acc + Group(bytes[0], i);
      GroupFits(bytes[0], i, acc);
      assert ReadGroups(bytes, i, acc) ==
             if bytes[0] < 128 then Value(AsI32(val), i + 1) else ReadGroups(bytes[1..], i + 1, val);
      hide ReadGroups, Place, Group;
      if bytes[0] >= 128 {
        ReadGroupsBound(bytes[1..], i + 1, val);
      } else {
        assert val < TWO_31;
      }
    }
  }

  /** A value never needs more bytes than were read for it, even when the encoding was not minimal. */
  lemma ReadUsesAtLeastWrittenSize(bytes: seq<byte>)
    requires Read(bytes).Value?
    ensures WrittenSize(Read(bytes).v) <= Read(bytes).used <= |bytes|
  {
    var r := Read(bytes);
    ReadGroupsBound(bytes, 0, 0);
    WrittenSizeIsLength(r.v);
    if r.used <= 4 {
      WriteU32Bound(r.v, r.used);
    }
  }

  // ----- What the bytes mean -----

  /** The number that seven-bit groups stand for, the least significant first. */
  function GroupsValue(bytes: seq<byte>): (v: nat)
  {
    if bytes == [] then 0 else bytes[0] as nat % 128 + 128 * GroupsValue(bytes[1..])
  }

  /** Every byte says that another one follows. */
  predicate AllGoOn(bytes: seq<byte>)
  {
    forall i | 0 <= i < |bytes| :: bytes[i] >= 128
  }

  /** A written number: all bytes but the last go on, the groups are its digits, and no group is wasted. */
  lemma {:induction false} WriteIsSevenBitGroups(u: nat)
    requires u < TWO_32
    ensures var w := WriteU32(u);
            && AllGoOn(w[..|w| - 1]) && w[|w| - 1] < 128
            && GroupsValue(w) == u
            && (|w| > 1 ==> w[|w| - 1] != 0)
  {
    if u >= 128 {
      WriteIsSevenBitGroups(u / 128);
      var w, tail := WriteU32(u), WriteU32(u / 128);
      assert w[1..] == tail && w[|w| - 1] == tail[|tail| - 1];
      assert forall i | 1 <= i < |w| - 1 :: w[i] == tail[..|tail| - 1][i - 1];
    } else {
      assert WriteU32(u)[1..] == [];
    }
  }

  lemma Mod32(a: int, b: int, k: int)
    requires a - b == k * TWO_32
    ensures a % TWO_32 == b % TWO_32
  {
  }

  lemma GroupMeans(b: byte, i: nat, tail: nat, acc: nat)
    requires i <= 4
    ensures (acc + Group(b, i)) % TWO_32 == (acc + Place(i) * (b as nat % 128)) % TWO_32
    ensures i < 4 ==> Place(i + 1) * tail == Place(i) * (128 * tail)
    ensures Place(4) * (128 * tail) % TWO_32 == 0
  {
    var g := b as nat % 128;
    if i == 4 {
      Mod32(acc + Place(4) * g, acc + Group(b, 4), g / 16);
    }
    Mod32(Place(4) * (128 * tail), 0, 8 * tail);
  }

  /** One byte read, and the rest. */
  lemma ReadOne(bytes: seq<byte>, i: nat, acc: nat)
    requires i < 5 && bytes != []
    ensures ReadGroups(bytes, i, acc) ==
            if bytes[0] < 128 then Value(AsI32(acc + Group(bytes[0], i)), i + 1)
            else ReadGroups(bytes[1..], i + 1, acc + Group(bytes[0], i))
  {
  }

  /** How many bytes at the front go on. */
  function Lead(bytes: seq<byte>): (n: nat)
    ensures n <= |bytes|
  {
    if bytes == [] || bytes[0] < 128 then 0 else 1 + Lead(bytes[1..])
  }

  lemma {:induction false} LeadMeans(bytes: seq<byte>)
    ensures AllGoOn(bytes[..Lead(bytes)])
    ensures Lead(bytes) < |bytes| ==> bytes[Lead(bytes)] < 128
  {
    if bytes != [] && bytes[0] >= 128 {
      LeadMeans(bytes[1..]);
      var n := Lead(bytes[1..]);
      assert bytes[..n + 1] == [bytes[0]] + bytes[1..][..n];
    }
  }

  lemma {:induction false} ReadGroupsFlags(bytes: seq<byte>, i: nat, acc: nat)
    requires i <= 5
    ensures var r, n := ReadGroups(bytes, i, acc), Lead(bytes);
            && (r.TooLong? <==> n >= 5 - i)
            && (r.Truncated? <==> n < 5 - i && n == |bytes|)
            && (r.Value? ==> r.used == i + n + 1)
    decreases 5 - i
  {
    if i < 5 && bytes != [] {
      ReadOne(bytes, i, acc);
      if bytes[0] >= 128 {
        var val := acc + Group(bytes[0], i);
        hide ReadGroups, Group;
        ReadGroupsFlags(bytes[1..], i + 1, val);
      }
    }
  }

  /** The value of what was read, group by group. */
  lemma {:induction false} ReadGroupsValue(bytes: seq<byte>, i: nat, acc: nat)
    requires i <= 4 && ReadGroups(bytes, i, acc).Value?
    ensures var r := ReadGroups(bytes, i, acc);
            r.v % TWO_32 == (acc + Place(i) * GroupsValue(bytes[..r.used - i])) % TWO_32
    decreases 5 - i
  {
    ReadOne(bytes, i, acc);
    var b := bytes[0];
    var val := acc + Group(b, i);
    if b < 128 {
      GroupMeans(b, i, 0, acc);
      assert bytes[..1][1..] == [];
    } else {
      var r := ReadGroups(bytes[1..], i + 1, val);
      hide ReadGroups, Group;
      var n := r.used - i;
      assert bytes[..n][0] == b && bytes[..n][1..] == bytes[1..][..n - 1];
      var rest := GroupsValue(bytes[1..][..n - 1]);
      assert GroupsValue(bytes[..n]) == b as nat % 128 + 128 * rest;
      hide Place, GroupsValue;
      ReadGroupsValue(bytes[1..], i + 1, val);
      GroupMeans(b, i, rest, acc + Place(i) * (128 * rest));
      Distribute(Place(i), b as nat % 128, 128 * rest);
    }
  }

  lemma Distribute(p: nat, a: nat, b: nat)
    ensures p * (a + b) == p * a + p * b
  {
  }

  lemma {:induction false} LeadOfAll(bytes: seq<byte>, n: nat)
    requires n <= |bytes| && AllGoOn(bytes[..n])
    ensures Lead(bytes) >= n
  {
    if n > 0 {
      assert bytes[0] == bytes[..n][0];
      assert bytes[1..][..n - 1] == bytes[..n][1..];
      LeadOfAll(bytes[1..], n - 1);
    }
  }

  /**
    Reading, said of the bytes alone: at most five are looked at; the value is that of their groups
    modulo 2^32, so that bits of a fifth group beyond the number are dropped.
   */
  lemma ReadMeans(bytes: seq<byte>)
    ensures var r := Read(bytes);
            && (r.TooLong? <==> |bytes| >= 5 && AllGoOn(bytes[..5]))
            && (r.Truncated? <==> |bytes| < 5 && AllGoOn(bytes))
            && (r.Value? ==>
                  && AllGoOn(bytes[..r.used - 1]) && bytes[r.used - 1] < 128
                  && r.v % TWO_32 == GroupsValue(bytes[..r.used]) % TWO_32)
  {
    ReadGroupsFlags(bytes, 0, 0);
    LeadMeans(bytes);
    var n := Lead(bytes);
    assert n >= 5 ==> bytes[..5] == bytes[..n][..5];
    assert bytes[..|bytes|] == bytes;
    if AllGoOn(bytes) {
      LeadOfAll(bytes, |bytes|);
    }
    if |bytes| >= 5 && AllGoOn(bytes[..5]) {
      LeadOfAll(bytes, 5);
    }
    hide Lead;
    if Read(bytes).Value? {
      ReadGroupsValue(bytes, 0, 0);
    }
  }
}
