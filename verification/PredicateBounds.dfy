/**
  Integer and double bounds of item predicates. Doubles are 64-bit patterns, ordered as Java's
  `Double.compare` orders them.
 */
module PredicateBounds {
  import opened Bytes

  const TWO_52: int := 0x10_0000_0000_0000
  const TWO_63: int := 0x8000_0000_0000_0000
  const INFINITY: int := 0x7FF0_0000_0000_0000
  const JAVA_NAN: int := 0x7FF8_0000_0000_0000

  type Bits = b: int | 0 <= b < TWO_64

  datatype Ordering = Less | Equal | Greater

  // ----- IEEE 754 -----

  function Magnitude(b: Bits): (m: nat)
    ensures m < TWO_63
  {
    if b >= TWO_63 then b - TWO_63 else b
  }

  predicate IsNaN(b: Bits)
  {
    Magnitude(b) > INFINITY
  }

  /**
    The size of a number in units of 2^-1074, from its exponent and fraction fields. Infinity gets
    the size that the formula gives it, which is beyond every finite one.
   */
  function Units(m: nat): (u: nat)
  {
    var e, f := m / TWO_52, m % TWO_52;
    if e == 0 then f else (TWO_52 + f) * Pow2(e - 1)
  }

  function Number(b: Bits): (v: int)
  {
    if b >= TWO_63 then -(Units(Magnitude(b)) as int) else Units(Magnitude(b))
  }

  /** `<` on doubles: false whenever a NaN is involved. */
  predicate FloatLess(a: Bits, b: Bits)
  {
    !IsNaN(a) && !IsNaN(b) && Number(a) < Number(b)
  }

  // ----- Java's order -----

  /** `java_double_bits`: the pattern as an `i64`, with one pattern for all NaNs. */
  function JavaBits(b: Bits): (v: int)
  {
    if IsNaN(b) then JAVA_NAN else if b >= TWO_63 then b - TWO_64 else b
  }

  predicate JavaEquals(a: Bits, b: Bits)
  {
    JavaBits(a) == JavaBits(b)
  }

  function CompareInts(a: int, b: int): (r: Ordering)
  {
    if a < b then Less else if a > b then Greater else Equal
  }

  function JavaCompare(a: Bits, b: Bits): (r: Ordering)
  {
    if FloatLess(a, b) then Less
    else if FloatLess(b, a) then Greater
    else CompareInts(JavaBits(a), JavaBits(b))
  }

  /** A place on one line: negatives by falling size, then -0, +0, positives, infinity, NaN. */
  function Rank(b: Bits): (r: int)
  {
    if IsNaN(b) then TWO_63 else if b >= TWO_63 then -(Magnitude(b) as int) - 1 else Magnitude(b)
  }

  lemma {:induction false} Pow2Grows(a: nat, b: nat)
    requires a <= b
    ensures Pow2(a) <= Pow2(b)
    decreases b - a
  {
    if a < b {
      Pow2Grows(a + 1, b);
    }
  }

  lemma Scale(x: nat, y: nat, p: nat)
    requires x < y && p > 0
    ensures x * p < y * p
  {
  }

  lemma ScaleUp(x: nat, p: nat, q: nat)
    requires p <= q
    ensures x * p <= x * q
  {
  }

  /** Everything with exponent field `e` stays below the least number with a higher one. */
  lemma UnitsBelow(m: nat, e: nat)
    requires m / TWO_52 == e
    ensures Units(m) < TWO_52 * Pow2(e)
    ensures e > 0 ==> TWO_52 * Pow2(e - 1) <= Units(m)
  {
    var f := m % TWO_52;
    if e > 0 {
      var p := Pow2(e - 1);
      Scale(TWO_52 + f, 2 * TWO_52, p);
      assert (2 * TWO_52) * p == TWO_52 * (2 * p);
      assert (TWO_52 + f) * p == TWO_52 * p + f * p;
    }
  }

  /** Larger patterns are larger numbers. */
  lemma UnitsGrow(a: nat, b: nat)
    requires a < b
    ensures Units(a) < Units(b)
  {
    var d, e := a / TWO_52, b / TWO_52;
    if d == e {
      assert a % TWO_52 < b % TWO_52;
      if e > 0 {
        Scale(TWO_52 + a % TWO_52, TWO_52 + b % TWO_52, Pow2(e - 1));
      }
    } else {
      hide Units;
      assert d < e;
      UnitsBelow(a, d);
      UnitsBelow(b, e);
      Pow2Grows(d, e - 1);
      ScaleUp(TWO_52, Pow2(d), Pow2(e - 1));
    }
  }

  lemma NumbersFollowRanks(a: Bits, b: Bits)
    requires !IsNaN(a) && !IsNaN(b)
    ensures Number(a) < Number(b) ==> Rank(a) < Rank(b)
    ensures Number(a) == Number(b) ==> (Rank(a) < Rank(b) <==> JavaBits(a) < JavaBits(b))
    ensures Number(a) == Number(b) ==> (Rank(a) == Rank(b) <==> JavaBits(a) == JavaBits(b))
  {
    assert Units(0) == 0;
    hide Units;
    var x, y := Magnitude(a), Magnitude(b);
    if x > 0 { UnitsGrow(0, x); }
    if y > 0 { UnitsGrow(0, y); }
    if x < y { UnitsGrow(x, y); }
    if y < x { UnitsGrow(y, x); }
  }

  /** On all bit patterns, the comparison is the comparison of ranks. */
  lemma CompareIsRankOrder(a: Bits, b: Bits)
    ensures JavaCompare(a, b) == CompareInts(Rank(a), Rank(b))
  {
    hide Number;
    if !IsNaN(a) && !IsNaN(b) {
      NumbersFollowRanks(a, b);
      NumbersFollowRanks(b, a);
    }
  }

  /**
    So it is a total preorder whose equivalence is `java_double_equals`, with NaN above everything
    and -0 below +0.
   */
  lemma CompareIsTotalPreorder(a: Bits, b: Bits, c: Bits)
    ensures JavaCompare(a, a) == Equal
    ensures JavaCompare(a, b) == Less <==> JavaCompare(b, a) == Greater
    ensures JavaCompare(a, b) != Greater && JavaCompare(b, c) != Greater ==> JavaCompare(a, c) != Greater
    ensures JavaCompare(a, b) == Equal <==> JavaEquals(a, b)
    ensures IsNaN(a) && !IsNaN(b) ==> JavaCompare(a, b) == Greater
    ensures JavaCompare(TWO_63, 0) == Less && Number(TWO_63) == Number(0)
  {
    hide Number, JavaCompare;
    CompareIsRankOrder(a, a);
    CompareIsRankOrder(a, b);
    CompareIsRankOrder(b, a);
    CompareIsRankOrder(b, c);
    CompareIsRankOrder(a, c);
    CompareIsRankOrder(TWO_63, 0);
    ZerosAreEqualNumbers();
  }

  lemma ZerosAreEqualNumbers()
    ensures Number(TWO_63) == Number(0)
  {
    assert Units(0) == 0;
  }

  // ----- Tags -----

  datatype Tag =
    | Byte(b: int) | Short(s: int) | Int(i: int) | Long(l: int) | Float(f: nat) | Double(d: Bits)
    | CompoundTag(fields: map<string, Tag>) | OtherTag

  /** `v as i32` for a 64-bit integer: wraps modulo 2^32. */
  function WrapI32(v: int): (r: int)
  {
    var u := v % 0x1_0000_0000;
    if u < 0x8000_0000 then u else u - 0x1_0000_0000
  }

  /** The conversions of floating-point numbers; which numbers they give does not matter here. */
  datatype Casts = Casts(
    floatToInt: nat -> int, doubleToInt: Bits -> int,
    intToDouble: int -> Bits, longToDouble: int -> Bits, floatToDouble: nat -> Bits)

  function CodecI32(k: Casts, t: Tag): (r: Option<int>)
  {
    match t
    case Byte(v) => Some(v)
    case Short(v) => Some(v)
    case Int(v) => Some(v)
    case Long(v) => Some(WrapI32(v))
    case Float(v) => Some(k.floatToInt(v))
    case Double(v) => Some(k.doubleToInt(v))
    case _ => None
  }

  function CodecF64(k: Casts, t: Tag): (r: Option<Bits>)
  {
    match t
    case Byte(v) => Some(k.intToDouble(v))
    case Short(v) => Some(k.intToDouble(v))
    case Int(v) => Some(k.intToDouble(v))
    case Long(v) => Some(k.longToDouble(v))
    case Float(v) => Some(k.floatToDouble(v))
    case Double(v) => Some(v)
    case _ => None
  }

  /** `decode_optional`: outer `None` is a failure, inner `None` an absent field. */
  function DecodeOptional<T>(fields: map<string, Tag>, key: string, decode: Tag -> Option<T>): (r: Option<Option<T>>)
  {
    if key !in fields then Some(None)
    else var v := decode(fields[key]); if v.Some? then Some(v) else None
  }

  // ----- Bounds -----

  datatype Range<T> = Range(min: Option<T>, max: Option<T>)

  predicate IntOrdered(r: Range<int>)
  {
    r.min.Some? && r.max.Some? ==> r.min.value <= r.max.value
  }

  predicate DoubleOrdered(r: Range<Bits>)
  {
    r.min.Some? && r.max.Some? ==> Rank(r.min.value) <= Rank(r.max.value)
  }

  function NewInt(min: Option<int>, max: Option<int>): (r: Option<Range<int>>)
    ensures r == if IntOrdered(Range(min, max)) then Some(Range(min, max)) else None
  {
    if min.Some? && max.Some? && min.value > max.value then None else Some(Range(min, max))
  }

  function NewDouble(min: Option<Bits>, max: Option<Bits>): (r: Option<Range<Bits>>)
    ensures r == if DoubleOrdered(Range(min, max)) then Some(Range(min, max)) else None
  {
    if min.Some? && max.Some? then
      CompareIsRankOrder(min.value, max.value);
      if JavaCompare(min.value, max.value) == Greater then None else Some(Range(min, max))
    else Some(Range(min, max))
  }

  function IntFromNbt(k: Casts, t: Tag): (r: Option<Range<int>>)
    ensures r.Some? ==> IntOrdered(r.value)
  {
    var v := CodecI32(k, t);
    if v.Some? then Some(Range(v, v))
    else if !t.CompoundTag? then None
    else
      var min := DecodeOptional(t.fields, "min", x => CodecI32(k, x));
      var max := DecodeOptional(t.fields, "max", x => CodecI32(k, x));
      if min.None? || max.None? then None else NewInt(min.value, max.value)
  }

  function DoubleFromNbt(k: Casts, t: Tag): (r: Option<Range<Bits>>)
    ensures r.Some? ==> DoubleOrdered(r.value)
  {
    var v := CodecF64(k, t);
    if v.Some? then Some(Range(v, v))
    else if !t.CompoundTag? then None
    else
      var min := DecodeOptional(t.fields, "min", x => CodecF64(k, x));
      var max := DecodeOptional(t.fields, "max", x => CodecF64(k, x));
      if min.None? || max.None? then None else NewDouble(min.value, max.value)
  }

  function Fields<T>(r: Range<T>, tag: T -> Tag): (m: map<string, Tag>)
  {
    var lower := if r.min.Some? then map["min" := tag(r.min.value)] else map[];
    if r.max.Some? then lower["max" := tag(r.max.value)] else lower
  }

  function IntAsNbt(r: Range<int>): (t: Tag)
  {
    if r.min.Some? && r.max.Some? && r.min.value == r.max.value then Int(r.min.value)
    else CompoundTag(Fields(r, v => Int(v)))
  }

  function DoubleAsNbt(r: Range<Bits>): (t: Tag)
  {
    if r.min.Some? && r.max.Some? && JavaEquals(r.min.value, r.max.value) then Double(r.min.value)
    else CompoundTag(Fields(r, (v: Bits) => Double(v)))
  }

  lemma FieldsAreFound<T>(r: Range<T>, tag: T -> Tag)
    ensures var m := Fields(r, tag);
            && ("min" in m <==> r.min.Some?) && (r.min.Some? ==> m["min"] == tag(r.min.value))
            && ("max" in m <==> r.max.Some?) && (r.max.Some? ==> m["max"] == tag(r.max.value))
  {
    assert "min"[1] != "max"[1];
  }

  /** Integer bounds come back from NBT as they were, in the scalar form and in the compound form. */
  lemma IntRoundTrip(k: Casts, r: Range<int>)
    requires IntOrdered(r)
    ensures IntFromNbt(k, IntAsNbt(r)) == Some(r)
  {
    FieldsAreFound(r, v => Int(v));
  }

  predicate SameDouble(a: Option<Bits>, b: Option<Bits>)
  {
    if a.Some? && b.Some? then JavaEquals(a.value, b.value) else a == b
  }

  /**
    Double bounds come back equal in Java's sense, and bit for bit except for two NaNs of different
    patterns, which collapse into the first.
   */
  lemma DoubleRoundTrip(k: Casts, r: Range<Bits>)
    requires DoubleOrdered(r)
    ensures var back := DoubleFromNbt(k, DoubleAsNbt(r));
            && back.Some?
            && SameDouble(back.value.min, r.min) && SameDouble(back.value.max, r.max)
            && (back.value == r <==>
                !(r.min.Some? && r.max.Some? && IsNaN(r.min.value) && IsNaN(r.max.value) && r.min.value != r.max.value))
  {
    hide Rank, JavaCompare;
    FieldsAreFound(r, (v: Bits) => Double(v));
  }

  // ----- What decodes to what -----

  /** Whole numbers are read from every integer tag as they are; a long is cut down to 32 bits. */
  lemma IntegersAreReadExactly(k: Casts, v: int)
    ensures CodecI32(k, Byte(v)) == CodecI32(k, Short(v)) == CodecI32(k, Int(v)) == Some(v)
    ensures var r := CodecI32(k, Long(v));
            r.Some? && -0x8000_0000 <= r.value < 0x8000_0000 && (r.value - v) % 0x1_0000_0000 == 0
    ensures -0x8000_0000 <= v < 0x8000_0000 ==> CodecI32(k, Long(v)) == Some(v)
  {
  }

  predicate Numeric(t: Tag)
  {
    !t.CompoundTag? && !t.OtherTag?
  }

  /** Numbers are what numeric tags hold, and nothing else is one. */
  lemma OnlyNumbersAreRead(k: Casts, t: Tag)
    ensures CodecI32(k, t).Some? <==> Numeric(t)
    ensures CodecF64(k, t).Some? <==> Numeric(t)
    ensures t.Double? ==> CodecF64(k, t) == Some(t.d)
  {
  }

  /** The number in a field, if the field is there. */
  function Field<T>(fields: map<string, Tag>, key: string, decode: Tag -> Option<T>): (r: Option<T>)
  {
    if key in fields then decode(fields[key]) else None
  }

  /** Both fields are numbers where they are there at all. */
  predicate FieldsAreNumbers(fields: map<string, Tag>)
  {
    && ("min" in fields ==> Numeric(fields["min"]))
    && ("max" in fields ==> Numeric(fields["max"]))
  }

  /** A number is a range of one; a compound is the range of its two fields, if they are numbers and in order. */
  lemma IntBoundsAreReadExactly(k: Casts, t: Tag)
    ensures Numeric(t) ==> IntFromNbt(k, t) == Some(Range(CodecI32(k, t), CodecI32(k, t)))
    ensures t == OtherTag ==> IntFromNbt(k, t) == None
    ensures t.CompoundTag? ==>
              var read := (x: Tag) => CodecI32(k, x);
              var range := Range(Field(t.fields, "min", read), Field(t.fields, "max", read));
              IntFromNbt(k, t) == if FieldsAreNumbers(t.fields) && IntOrdered(range) then Some(range) else None
  {
  }

  lemma DoubleBoundsAreReadExactly(k: Casts, t: Tag)
    ensures Numeric(t) ==> DoubleFromNbt(k, t) == Some(Range(CodecF64(k, t), CodecF64(k, t)))
    ensures t == OtherTag ==> DoubleFromNbt(k, t) == None
    ensures t.CompoundTag? ==>
              var read := (x: Tag) => CodecF64(k, x);
              var range := Range(Field(t.fields, "min", read), Field(t.fields, "max", read));
              DoubleFromNbt(k, t) == if FieldsAreNumbers(t.fields) && DoubleOrdered(range) then Some(range) else None
  {
    hide Rank, JavaCompare;
  }

  /** What is written: the one number of a range of one, otherwise the fields of the ends that there are. */
  lemma BoundsAreWrittenExactly(r: Range<int>)
    ensures var t := IntAsNbt(r);
            if r.min.Some? && r.max == r.min then t == Int(r.min.value)
            else
              && t.CompoundTag?
              && t.fields.Keys == (if r.min.Some? then {"min"} else {}) + (if r.max.Some? then {"max"} else {})
              && (r.min.Some? ==> t.fields["min"] == Int(r.min.value))
              && (r.max.Some? ==> t.fields["max"] == Int(r.max.value))
  {
    FieldsAreFound(r, v => Int(v));
  }

  /** The same for doubles, a range of one being one whose ends are equal in Java's sense. */
  lemma DoubleBoundsAreWrittenExactly(r: Range<Bits>)
    ensures var t := DoubleAsNbt(r);
            if r.min.Some? && r.max.Some? && JavaCompare(r.min.value, r.max.value) == Equal
            then t == Double(r.min.value)
            else
              && t.CompoundTag?
              && t.fields.Keys == (if r.min.Some? then {"min"} else {}) + (if r.max.Some? then {"max"} else {})
              && (r.min.Some? ==> t.fields["min"] == Double(r.min.value))
              && (r.max.Some? ==> t.fields["max"] == Double(r.max.value))
  {
    FieldsAreFound(r, (v: Bits) => Double(v));
    if r.min.Some? && r.max.Some? {
      CompareIsTotalPreorder(r.min.value, r.max.value, r.min.value);
    }
    hide JavaCompare, JavaBits;
  }

  // ----- What a pattern is worth -----

  /**
    The layout of a double: patterns below 2^52 count up one by one; above, the number doubles with
    each step of the exponent, and the fraction divides that step evenly.
   */
  lemma UnitsFollowTheLayout(e: nat, f: nat)
    requires f < TWO_52
    ensures Units(f) == f
    ensures Units(TWO_52 + f) == TWO_52 + f
    ensures e > 0 ==> Units((e + 1) * TWO_52 + f) == 2 * Units(e * TWO_52 + f)
    ensures e > 0 && f > 0 ==> Units(e * TWO_52 + f) - Units(e * TWO_52 + (f - 1)) == Pow2(e - 1)
  {
    FieldsOf(0, f);
    FieldsOf(1, f);
    if e > 0 {
      FieldsOf(e, f);
      FieldsOf(e + 1, f);
      assert Pow2(e) == 2 * Pow2(e - 1);
      var a, p := TWO_52 + f, Pow2(e - 1);
      assert a * (2 * p) == 2 * (a * p);
      if f > 0 {
        FieldsOf(e, f - 1);
        assert a * p - (a - 1) * p == p;
      }
    }
  }

  lemma FieldsOf(e: nat, f: nat)
    requires f < TWO_52
    ensures (e * TWO_52 + f) / TWO_52 == e && (e * TWO_52 + f) % TWO_52 == f
  {
  }
}
