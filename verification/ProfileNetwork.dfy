/**
  The network codec of resolvable profiles. A read takes the bytes at the cursor and gives the value
  with the bytes behind it; a write gives the bytes that it appends, or fails.
 */
module ProfileNetwork {
  import opened Bytes
  import opened ProfileProperties
  import opened Profiles
  import VarInts

  datatype Reading<+T> = Got(value: T, rest: seq<byte>) | Failed

  // ----- Fields -----

  function WriteBool(b: bool): (r: seq<byte>)
  {
    [if b then 1 else 0]
  }

  function ReadBool(data: seq<byte>): (r: Reading<bool>)
  {
    if data == [] then Failed else Got(data[0] != 0, data[1..])
  }

  function ReadUuid(data: seq<byte>): (r: Reading<Uuid>)
  {
    if |data| < 16 then Failed else Got(data[..16], data[16..])
  }

  /** A length-prefixed string of at most `bound` bytes. */
  function ReadPrefixed(data: seq<byte>, bound: nat): (r: Reading<Text>)
    ensures r.Got? ==> ValidUtf8(r.value) && |r.value| <= bound
  {
    match VarInts.Read(data)
    case Value(v, used) =>
      var len := VarInts.AsUsize(v);
      var rest := data[used..];
      if len > bound || |rest| < len || !ValidUtf8(rest[..len]) then Failed else Got(rest[..len], rest[len..])
    case _ => Failed
  }

  function WritePrefixed(t: Text): (r: Option<seq<byte>>)
  {
    if |t| > WRITE_BOUND then None else Some(VarInts.Write(|t|) + t)
  }

  /** `write_string`: checked against its own limit, then against the write bound. */
  function WriteText(t: Text, max: nat): (r: Option<seq<byte>>)
  {
    if Bounded(t, max) then WritePrefixed(t) else None
  }

  function ReadText(data: seq<byte>, max: nat): (r: Reading<Text>)
    ensures r.Got? ==> ValidUtf8(r.value) && Bounded(r.value, max)
  {
    var r := ReadPrefixed(data, 3 * max);
    if r.Got? && Bounded(r.value, max) then r else Failed
  }

  function WriteId(id: Identifier): (r: Option<seq<byte>>)
  {
    WritePrefixed(IdText(id))
  }

  function ReadId(data: seq<byte>): (r: Reading<Identifier>)
    ensures r.Got? ==> ValidId(r.value)
  {
    var t := ReadPrefixed(data, WRITE_BOUND);
    if t.Failed? then Failed
    else var id := ParseId(t.value); if id.None? then Failed else Got(id.value, t.rest)
  }

  function Then(a: Option<seq<byte>>, b: Option<seq<byte>>): (r: Option<seq<byte>>)
  {
    if a.Some? && b.Some? then Some(a.value + b.value) else None
  }

  lemma PrefixedRoundTrip(t: Text, bound: nat, rest: seq<byte>)
    requires ValidUtf8(t) && |t| <= bound && |t| < VarInts.TWO_31
    ensures ReadPrefixed(VarInts.Write(|t|) + t + rest, bound) == Got(t, rest)
  {
    hide VarInts.Read, VarInts.Write, ValidUtf8;
    var data := VarInts.Write(|t|) + t + rest;
    assert data == VarInts.Write(|t|) + (t + rest);
    VarInts.ReadInvertsWrite(|t|, t + rest);
    assert data[|VarInts.Write(|t|)|..] == t + rest;
    assert (t + rest)[..|t|] == t && (t + rest)[|t|..] == rest;
  }

  lemma TextRoundTrip(t: Text, max: nat, rest: seq<byte>)
    requires ValidUtf8(t) && WriteText(t, max).Some?
    ensures ReadText(WriteText(t, max).value + rest, max) == Got(t, rest)
  {
    hide VarInts.Read, VarInts.Write, ValidUtf8, Utf16Count, ReadPrefixed;
    PrefixedRoundTrip(t, 3 * max, rest);
  }

  /**
    The limits of reading and writing a string differ: a value that passes every check and can be
    read, but takes more than the write bound in bytes, can not be written back.
   */
  lemma LongTextReadsButDoesNotWrite(t: Text, max: nat, rest: seq<byte>)
    requires ValidUtf8(t) && Bounded(t, max) && WRITE_BOUND < |t| < VarInts.TWO_31
    ensures ReadText(VarInts.Write(|t|) + t + rest, max) == Got(t, rest)
    ensures WriteText(t, max) == None
  {
    hide VarInts.Read, VarInts.Write, ValidUtf8, Utf16Count, ReadPrefixed;
    PrefixedRoundTrip(t, 3 * max, rest);
  }

  function Accents(n: nat): (t: Text)
    ensures |t| == 2 * n
  {
    if n == 0 then [] else [0xC3, 0xA9] + Accents(n - 1)
  }

  lemma {:induction false} AccentsAreShort(n: nat)
    ensures ValidUtf8(Accents(n)) && Utf16Count(Accents(n)) == n
  {
    if n > 0 {
      var t := Accents(n);
      AccentsAreShort(n - 1);
      assert t[1..][1..] == Accents(n - 1) && t[2..] == Accents(n - 1);
    }
  }

  /** Such values exist within the limit for property values. */
  lemma LongPropertyValuesExist()
    ensures ValidUtf8(Accents(16384)) && Bounded(Accents(16384), MAX_PROPERTY_VALUE)
    ensures WriteText(Accents(16384), MAX_PROPERTY_VALUE) == None
  {
    hide Accents, ValidUtf8, Utf16Count;
    AccentsAreShort(16384);
  }

  lemma IdRoundTripNetwork(id: Identifier, rest: seq<byte>)
    requires ValidId(id) && WriteId(id).Some?
    ensures ReadId(WriteId(id).value + rest) == Got(id, rest)
  {
    hide VarInts.Read, VarInts.Write, ValidUtf8, ReadPrefixed, ParseId, IdText, ValidId;
    ValidIdIsAscii(id);
    IdRoundTrip(id);
    PrefixedRoundTrip(IdText(id), WRITE_BOUND, rest);
  }

  // ----- Optional fields -----

  function WriteOptText(t: Option<Text>, max: nat): (r: Option<seq<byte>>)
  {
    if t.Some? then Then(Some(WriteBool(true)), WriteText(t.value, max)) else Some(WriteBool(false))
  }

  function ReadOptText(data: seq<byte>, max: nat): (r: Reading<Option<Text>>)
    ensures r.Got? && r.value.Some? ==> ValidUtf8(r.value.value) && Bounded(r.value.value, max)
  {
    var present := ReadBool(data);
    if present.Failed? then Failed
    else if !present.value then Got(None, present.rest)
    else var t := ReadText(present.rest, max); if t.Failed? then Failed else Got(Some(t.value), t.rest)
  }

  lemma OptTextRoundTrip(t: Option<Text>, max: nat, rest: seq<byte>)
    requires (t.Some? ==> ValidUtf8(t.value)) && WriteOptText(t, max).Some?
    ensures ReadOptText(WriteOptText(t, max).value + rest, max) == Got(t, rest)
  {
    hide ReadText, WriteText, ValidUtf8;
    var data := WriteOptText(t, max).value + rest;
    if t.Some? {
      TextRoundTrip(t.value, max, rest);
      assert data[1..] == WriteText(t.value, max).value + rest;
    } else {
      assert data[1..] == rest;
    }
  }

  function WriteOptId(id: Option<Identifier>): (r: Option<seq<byte>>)
  {
    if id.Some? then Then(Some(WriteBool(true)), WriteId(id.value)) else Some(WriteBool(false))
  }

  function ReadOptId(data: seq<byte>): (r: Reading<Option<Identifier>>)
    ensures r.Got? && r.value.Some? ==> ValidId(r.value.value)
  {
    var present := ReadBool(data);
    if present.Failed? then Failed
    else if !present.value then Got(None, present.rest)
    else var id := ReadId(present.rest); if id.Failed? then Failed else Got(Some(id.value), id.rest)
  }

  lemma OptIdRoundTrip(id: Option<Identifier>, rest: seq<byte>)
    requires (id.Some? ==> ValidId(id.value)) && WriteOptId(id).Some?
    ensures ReadOptId(WriteOptId(id).value + rest) == Got(id, rest)
  {
    hide ReadId, WriteId, ValidId;
    var data := WriteOptId(id).value + rest;
    if id.Some? {
      IdRoundTripNetwork(id.value, rest);
      assert data[1..] == WriteId(id.value).value + rest;
    } else {
      assert data[1..] == rest;
    }
  }

  function WriteOptUuid(id: Option<Uuid>): (r: seq<byte>)
  {
    if id.Some? then WriteBool(true) + id.value else WriteBool(false)
  }

  function ReadOptUuid(data: seq<byte>): (r: Reading<Option<Uuid>>)
  {
    var present := ReadBool(data);
    if present.Failed? then Failed
    else if !present.value then Got(None, present.rest)
    else var id := ReadUuid(present.rest); if id.Failed? then Failed else Got(Some(id.value), id.rest)
  }

  lemma OptUuidRoundTrip(id: Option<Uuid>, rest: seq<byte>)
    ensures ReadOptUuid(WriteOptUuid(id) + rest) == Got(id, rest)
  {
    var data := WriteOptUuid(id) + rest;
    assert data[1..] == (if id.Some? then id.value + rest else rest);
    if id.Some? {
      assert (id.value + rest)[..16] == id.value && (id.value + rest)[16..] == rest;
    }
  }

  // ----- Properties -----

  function WriteProp(p: Prop): (r: Option<seq<byte>>)
  {
    Then(WriteText(p.name, MAX_PROPERTY_NAME),
         Then(WriteText(p.value.text, MAX_PROPERTY_VALUE), WriteOptText(p.value.signature, MAX_PROPERTY_SIGNATURE)))
  }

  function ReadProp(data: seq<byte>): (r: Reading<Prop>)
    ensures r.Got? ==> ValidProp(r.value) && TextProp(r.value)
  {
    var name := ReadText(data, MAX_PROPERTY_NAME);
    if name.Failed? then Failed
    else
      var text := ReadText(name.rest, MAX_PROPERTY_VALUE);
      if text.Failed? then Failed
      else
        var signature := ReadOptText(text.rest, MAX_PROPERTY_SIGNATURE);
        if signature.Failed? then Failed
        else Got(Property(name.value, Body(text.value, signature.value)), signature.rest)
  }

  /** Its strings are strings. */
  ghost predicate TextProp(p: Prop)
  {
    ValidUtf8(p.name) && ValidUtf8(p.value.text) && (p.value.signature.Some? ==> ValidUtf8(p.value.signature.value))
  }

  lemma PropRoundTrip(p: Prop, rest: seq<byte>)
    requires TextProp(p) && WriteProp(p).Some?
    ensures ReadProp(WriteProp(p).value + rest) == Got(p, rest)
  {
    hide ReadText, WriteText, ReadOptText, WriteOptText, ValidUtf8;
    var name := WriteText(p.name, MAX_PROPERTY_NAME).value;
    var text := WriteText(p.value.text, MAX_PROPERTY_VALUE).value;
    var signature := WriteOptText(p.value.signature, MAX_PROPERTY_SIGNATURE).value;
    assert WriteProp(p).value + rest == name + (text + (signature + rest));
    TextRoundTrip(p.name, MAX_PROPERTY_NAME, text + (signature + rest));
    TextRoundTrip(p.value.text, MAX_PROPERTY_VALUE, signature + rest);
    OptTextRoundTrip(p.value.signature, MAX_PROPERTY_SIGNATURE, rest);
  }

  function WritePropList(ps: seq<Prop>): (r: Option<seq<byte>>)
  {
    if ps == [] then Some([]) else Then(WriteProp(ps[0]), WritePropList(ps[1..]))
  }

  function ReadPropList(data: seq<byte>, count: nat): (r: Reading<seq<Prop>>)
    ensures r.Got? ==> |r.value| == count
    decreases count
  {
    if count == 0 then Got([], data)
    else
      var p := ReadProp(data);
      if p.Failed? then Failed
      else
        var tail := ReadPropList(p.rest, count - 1);
        if tail.Failed? then Failed else Got([p.value] + tail.value, tail.rest)
  }

  function WriteProps(ps: seq<Prop>): (r: Option<seq<byte>>)
  {
    if |ps| > MAX_PROPERTIES then None else Then(Some(VarInts.Write(|ps|)), WritePropList(ps))
  }

  function ReadProps(data: seq<byte>): (r: Reading<seq<Prop>>)
    ensures r.Got? ==> |r.value| <= MAX_PROPERTIES
  {
    match VarInts.Read(data)
    case Value(count, used) =>
      if count < 0 || count > MAX_PROPERTIES then Failed else ReadPropList(data[used..], count)
    case _ => Failed
  }

  /** The loop of `read_properties_network`, advancing its cursor. */
  method ReadPropertyLoop(data: seq<byte>, count: nat) returns (r: Reading<seq<Prop>>)
    ensures r == ReadPropList(data, count)
  {
    hide ReadProp;
    var cursor := data;
    var properties: seq<Prop> := [];
    var left := count;
    PrependNothing(ReadPropList(data, count));
    while left > 0
      invariant ReadPropList(data, count) == Prepend(properties, ReadPropList(cursor, left))
    {
      var p := ReadProp(cursor);
      if p.Failed? {
        return Failed;
      }
      PrependOne(properties, p.value, ReadPropList(p.rest, left - 1));
      properties := properties + [p.value];
      cursor := p.rest;
      left := left - 1;
    }
    assert properties + [] == properties;
    return Got(properties, cursor);
  }

  method ReadPropertiesNetwork(data: seq<byte>) returns (r: Reading<seq<Prop>>)
    ensures r == ReadProps(data)
  {
    hide ReadPropList, VarInts.Read;
    var reading := VarInts.ReadFrom(data);
    if !reading.Value? || reading.v < 0 || reading.v > MAX_PROPERTIES {
      return Failed;
    }
    r := ReadPropertyLoop(data[reading.used..], reading.v);
  }

  function Prepend(ps: seq<Prop>, r: Reading<seq<Prop>>): (s: Reading<seq<Prop>>)
  {
    if r.Failed? then Failed else Got(ps + r.value, r.rest)
  }

  lemma PrependNothing(r: Reading<seq<Prop>>)
    ensures Prepend([], r) == r
  {
    if r.Got? {
      assert [] + r.value == r.value;
    }
  }

  lemma PrependOne(ps: seq<Prop>, p: Prop, tail: Reading<seq<Prop>>)
    ensures Prepend(ps, if tail.Failed? then Failed else Got([p] + tail.value, tail.rest)) == Prepend(ps + [p], tail)
  {
    if tail.Got? {
      assert ps + ([p] + tail.value) == ps + [p] + tail.value;
    }
  }

  lemma {:induction false} PropListRoundTrip(ps: seq<Prop>, rest: seq<byte>)
    requires (forall i | 0 <= i < |ps| :: TextProp(ps[i])) && WritePropList(ps).Some?
    ensures ReadPropList(WritePropList(ps).value + rest, |ps|) == Got(ps, rest)
  {
    hide ReadProp, WriteProp, TextProp;
    if ps == [] {
      assert [] + rest == rest;
    } else {
      var head, tail := WriteProp(ps[0]).value, WritePropList(ps[1..]).value;
      assert WritePropList(ps).value + rest == head + (tail + rest);
      PropRoundTrip(ps[0], tail + rest);
      PropListRoundTrip(ps[1..], rest);
      assert ps == [ps[0]] + ps[1..];
    }
  }

  lemma PropsRoundTrip(ps: seq<Prop>, rest: seq<byte>)
    requires (forall i | 0 <= i < |ps| :: TextProp(ps[i])) && WriteProps(ps).Some?
    ensures ReadProps(WriteProps(ps).value + rest) == Got(ps, rest)
  {
    hide VarInts.Read, VarInts.Write, ReadPropList, WritePropList, TextProp;
    var count, list := VarInts.Write(|ps|), WritePropList(ps).value;
    var data := WriteProps(ps).value + rest;
    assert data == count + (list + rest);
    VarInts.ReadInvertsWrite(|ps|, list + rest);
    assert data[|count|..] == list + rest;
    PropListRoundTrip(ps, rest);
  }

  // ----- Skin patches -----

  function WriteModel(m: Option<Model>): (r: seq<byte>)
  {
    if m.Some? then WriteBool(true) + WriteBool(m.value == Slim) else WriteBool(false)
  }

  function ReadModel(data: seq<byte>): (r: Reading<Option<Model>>)
  {
    var present := ReadBool(data);
    if present.Failed? then Failed
    else if !present.value then Got(None, present.rest)
    else
      var slim := ReadBool(present.rest);
      if slim.Failed? then Failed else Got(Some(if slim.value then Slim else Wide), slim.rest)
  }

  function WriteSkin(s: SkinPatch): (r: Option<seq<byte>>)
  {
    Then(WriteOptId(s.texture), Then(WriteOptId(s.cape), Then(WriteOptId(s.elytra), Some(WriteModel(s.model)))))
  }

  function ReadSkin(data: seq<byte>): (r: Reading<SkinPatch>)
    ensures r.Got? ==> ValidSkin(r.value)
  {
    var texture := ReadOptId(data);
    if texture.Failed? then Failed
    else
      var cape := ReadOptId(texture.rest);
      if cape.Failed? then Failed
      else
        var elytra := ReadOptId(cape.rest);
        if elytra.Failed? then Failed
        else
          var model := ReadModel(elytra.rest);
          if model.Failed? then Failed
          else Got(SkinPatch(texture.value, cape.value, elytra.value, model.value), model.rest)
  }

  lemma ModelRoundTrip(m: Option<Model>, rest: seq<byte>)
    ensures ReadModel(WriteModel(m) + rest) == Got(m, rest)
  {
    var data := WriteModel(m) + rest;
    assert data[1..] == (if m.Some? then WriteBool(m.value == Slim) + rest else rest);
    assert m.Some? ==> data[1..][1..] == rest;
  }

  lemma SkinRoundTrip(s: SkinPatch, rest: seq<byte>)
    requires ValidSkin(s) && WriteSkin(s).Some?
    ensures ReadSkin(WriteSkin(s).value + rest) == Got(s, rest)
  {
    hide ReadOptId, WriteOptId, ReadModel, WriteModel, ValidId;
    var texture, cape, elytra := WriteOptId(s.texture).value, WriteOptId(s.cape).value, WriteOptId(s.elytra).value;
    var model := WriteModel(s.model);
    assert WriteSkin(s).value + rest == texture + (cape + (elytra + (model + rest)));
    OptIdRoundTrip(s.texture, cape + (elytra + (model + rest)));
    OptIdRoundTrip(s.cape, elytra + (model + rest));
    OptIdRoundTrip(s.elytra, model + rest);
    ModelRoundTrip(s.model, rest);
  }

  // ----- Profiles -----

  function WritePartial(name: Option<Text>, id: Option<Uuid>, ps: seq<Prop>): (r: Option<seq<byte>>)
  {
    Then(WriteOptText(name, MAX_PLAYER_NAME), Then(Some(WriteOptUuid(id)), WriteProps(ps)))
  }

  function WriteFull(id: Uuid, name: Text, ps: seq<Prop>): (r: Option<seq<byte>>)
  {
    Then(Some(id), Then(WriteText(name, MAX_PLAYER_NAME), WriteProps(ps)))
  }

  function WriteContents(c: Contents): (r: Option<seq<byte>>)
  {
    match c
    case StaticFull(id, name, ps) => Then(Some(WriteBool(true)), WriteFull(id, name, ps))
    case DynamicName(name) => Then(Some(WriteBool(false)), WritePartial(Some(name), None, []))
    case DynamicId(id) => Then(Some(WriteBool(false)), WritePartial(None, Some(id), []))
    case StaticPartial(name, id, ps) => Then(Some(WriteBool(false)), WritePartial(name, id, ps))
  }

  function Encode(p: Profile): (r: Option<seq<byte>>)
  {
    Then(WriteContents(p.contents), WriteSkin(p.skin))
  }

  function ReadPartial(data: seq<byte>): (r: Reading<Contents>)
  {
    var name := ReadOptText(data, MAX_PLAYER_NAME);
    if name.Failed? then Failed
    else
      var id := ReadOptUuid(name.rest);
      if id.Failed? then Failed
      else
        var ps := ReadProps(id.rest);
        if ps.Failed? || (name.value.Some? && !ValidName(name.value.value)) then Failed
        else Got(FromPartial(name.value, id.value, ByName(ps.value)), ps.rest)
  }

  function ReadFull(data: seq<byte>): (r: Reading<Contents>)
  {
    var id := ReadUuid(data);
    if id.Failed? then Failed
    else
      var name := ReadText(id.rest, MAX_PLAYER_NAME);
      if name.Failed? then Failed
      else
        var ps := ReadProps(name.rest);
        if ps.Failed? || !ValidName(name.value) then Failed
        else Got(StaticFull(id.value, name.value, ByName(ps.value)), ps.rest)
  }

  function ReadContents(data: seq<byte>): (r: Reading<Contents>)
  {
    var full := ReadBool(data);
    if full.Failed? then Failed
    else if full.value then ReadFull(full.rest)
    else ReadPartial(full.rest)
  }

  function Decode(data: seq<byte>): (r: Reading<Profile>)
  {
    var contents := ReadContents(data);
    if contents.Failed? then Failed
    else
      var skin := ReadSkin(contents.rest);
      if skin.Failed? then Failed else Got(Profile(contents.value, skin.value), skin.rest)
  }

  ghost predicate TextProps(ps: seq<Prop>)
  {
    forall i | 0 <= i < |ps| :: TextProp(ps[i])
  }

  /** The profile's property strings are strings; names are ASCII anyway. */
  ghost predicate TextProfile(p: Profile)
  {
    p.contents.StaticFull? || p.contents.StaticPartial? ==> TextProps(p.contents.properties)
  }

  lemma NameIsText(t: Text)
    requires ValidName(t)
    ensures ValidUtf8(t) && Bounded(t, MAX_PLAYER_NAME) && WriteText(t, MAX_PLAYER_NAME).Some?
  {
    AsciiText(t);
  }

  lemma ThenOfThree(a: seq<byte>, b: seq<byte>, c: seq<byte>, rest: seq<byte>)
    ensures Then(Some(a), Then(Some(b), Some(c))).value + rest == a + (b + (c + rest))
  {
  }

  lemma PartialRoundTrip(name: Option<Text>, id: Option<Uuid>, ps: seq<Prop>, rest: seq<byte>)
    requires (name.Some? ==> ValidName(name.value)) && TextProps(ps) && ByName(ps) == ps
    requires WritePartial(name, id, ps).Some?
    ensures ReadPartial(WritePartial(name, id, ps).value + rest) == Got(FromPartial(name, id, ps), rest)
  {
    if name.Some? {
      NameIsText(name.value);
    }
    hide ReadOptText, WriteOptText, ReadOptUuid, WriteOptUuid, ReadProps, WriteProps, ByName, TextProp, ValidUtf8;
    hide FromPartial, ValidName;
    var n, i, l := WriteOptText(name, MAX_PLAYER_NAME).value, WriteOptUuid(id), WriteProps(ps).value;
    ThenOfThree(n, i, l, rest);
    OptTextRoundTrip(name, MAX_PLAYER_NAME, i + (l + rest));
    OptUuidRoundTrip(id, l + rest);
    PropsRoundTrip(ps, rest);
  }

  lemma FullRoundTrip(id: Uuid, name: Text, ps: seq<Prop>, rest: seq<byte>)
    requires ValidName(name) && TextProps(ps) && ByName(ps) == ps
    requires WriteFull(id, name, ps).Some?
    ensures ReadFull(WriteFull(id, name, ps).value + rest) == Got(StaticFull(id, name, ps), rest)
  {
    NameIsText(name);
    hide ReadText, WriteText, ReadProps, WriteProps, ByName, TextProp, ValidUtf8;
    var n, l := WriteText(name, MAX_PLAYER_NAME).value, WriteProps(ps).value;
    var data := WriteFull(id, name, ps).value + rest;
    assert data == id + (n + (l + rest));
    assert data[..16] == id && data[16..] == n + (l + rest);
    TextRoundTrip(name, MAX_PLAYER_NAME, l + rest);
    PropsRoundTrip(ps, rest);
  }

  lemma FlagRoundTrip(flag: bool, body: seq<byte>, rest: seq<byte>)
    ensures ReadBool(WriteBool(flag) + body + rest) == Got(flag, body + rest)
  {
    assert (WriteBool(flag) + body + rest)[1..] == body + rest;
  }

  lemma ContentsRoundTrip(p: Profile, rest: seq<byte>)
    requires ValidProfile(p) && TextProfile(p) && WriteContents(p.contents).Some?
    ensures ReadContents(WriteContents(p.contents).value + rest) == Got(NetworkForm(p).contents, rest)
  {
    assert ByName<Text, Body>([]) == [];
    assert TextProps([]);
    hide ReadPartial, WritePartial, ReadFull, WriteFull, ByName, TextProps, ReadBool, WriteBool, ValidProp;
    match p.contents
    case StaticFull(id, name, ps) =>
      FlagRoundTrip(true, WriteFull(id, name, ps).value, rest);
      FullRoundTrip(id, name, ps, rest);
    case DynamicName(name) =>
      FlagRoundTrip(false, WritePartial(Some(name), None, []).value, rest);
      PartialRoundTrip(Some(name), None, [], rest);
    case DynamicId(id) =>
      FlagRoundTrip(false, WritePartial(None, Some(id), []).value, rest);
      PartialRoundTrip(None, Some(id), [], rest);
    case StaticPartial(name, id, ps) =>
      FlagRoundTrip(false, WritePartial(name, id, ps).value, rest);
      PartialRoundTrip(name, id, ps, rest);
  }

  /**
    Decoding what was encoded gives the network form and leaves the rest of the input, exactly when
    the skin identifiers are valid. A partial profile with a name and an id stays partial.
   */
  lemma NetworkRoundTrip(p: Profile, rest: seq<byte>)
    requires ValidProfile(p) && TextProfile(p) && Encode(p).Some?
    ensures Decode(Encode(p).value + rest) == Got(NetworkForm(p), rest) <==> ValidSkin(p.skin)
  {
    hide ReadContents, WriteContents, WriteSkin, ReadSkin, ValidSkin, ValidProfile, TextProfile;
    var contents, skin := WriteContents(p.contents).value, WriteSkin(p.skin).value;
    assert Encode(p).value + rest == contents + (skin + rest);
    ContentsRoundTrip(p, skin + rest);
    if ValidSkin(p.skin) {
      SkinRoundTrip(p.skin, rest);
    }
  }

  // ----- When a profile can be written at all -----

  ghost predicate FitsText(ps: seq<Prop>)
  {
    forall i | 0 <= i < |ps| :: |ps[i].value.text| <= WRITE_BOUND
  }

  ghost predicate FitsId(id: Option<Identifier>)
  {
    id.Some? ==> |IdText(id.value)| <= WRITE_BOUND
  }

  /** Every property value and every printed skin identifier is within the write bound. */
  ghost predicate Fits(p: Profile)
  {
    && (p.contents.StaticFull? || p.contents.StaticPartial? ==> FitsText(p.contents.properties))
    && FitsId(p.skin.texture) && FitsId(p.skin.cape) && FitsId(p.skin.elytra)
  }

  lemma {:induction false} PropListWrites(ps: seq<Prop>)
    requires forall i | 0 <= i < |ps| :: ValidProp(ps[i])
    ensures WritePropList(ps).Some? <==> FitsText(ps)
  {
    hide Utf16Count;
    if ps != [] {
      PropListWrites(ps[1..]);
      assert FitsText(ps) <==> |ps[0].value.text| <= WRITE_BOUND && FitsText(ps[1..]) by {
        assert forall i | 0 <= i < |ps| :: ps[i] == if i == 0 then ps[0] else ps[1..][i - 1];
      }
    }
  }

  lemma PropsWrite(ps: seq<Prop>)
    requires ValidProps(ps)
    ensures WriteProps(ps).Some? <==> FitsText(ps)
  {
    hide FitsText, ValidProp, ByName, WritePropList;
    PropListWrites(ps);
  }

  lemma ContentsWrite(p: Profile)
    requires ValidProfile(p)
    ensures WriteContents(p.contents).Some? <==>
            (p.contents.StaticFull? || p.contents.StaticPartial? ==> FitsText(p.contents.properties))
  {
    hide FitsText, ValidProps, ByName, WriteText, WriteBool;
    assert WriteProps([]).Some?;
    match p.contents
    case StaticFull(_, name, ps) => NameIsText(name); PropsWrite(ps);
    case StaticPartial(name, _, ps) => if name.Some? { NameIsText(name.value); } PropsWrite(ps);
    case DynamicName(name) => NameIsText(name);
    case DynamicId(_) =>
  }

  /** A valid profile can be written exactly when it fits. */
  lemma EncodesExactlyWhenItFits(p: Profile)
    requires ValidProfile(p)
    ensures Encode(p).Some? <==> Fits(p)
  {
    hide WriteContents, FitsText, ValidProfile, IdText, WriteModel;
    ContentsWrite(p);
  }

  // ----- What decoding can produce -----

  ghost predicate ReadableProps(ps: seq<Prop>)
  {
    forall i | 0 <= i < |ps| :: ValidProp(ps[i]) && TextProp(ps[i])
  }

  lemma ReadableCons(p: Prop, ps: seq<Prop>)
    requires ValidProp(p) && TextProp(p) && ReadableProps(ps)
    ensures ReadableProps([p] + ps)
  {
    hide ValidProp, TextProp;
  }

  lemma PropListStep(data: seq<byte>, count: nat)
    requires count > 0 && ReadPropList(data, count).Got?
    ensures var p := ReadProp(data);
            && p.Got? && ValidProp(p.value) && TextProp(p.value)
            && ReadPropList(p.rest, count - 1).Got?
            && ReadPropList(data, count).value == [p.value] + ReadPropList(p.rest, count - 1).value
  {
    hide ReadProp, ValidProp, TextProp;
  }

  lemma {:induction false} PropListReads(data: seq<byte>, count: nat)
    requires ReadPropList(data, count).Got?
    ensures ReadableProps(ReadPropList(data, count).value)
    decreases count
  {
    hide ReadPropList, ReadProp, ValidProp, TextProp, ReadableProps;
    if count == 0 {
      NothingRead(data);
    } else {
      PropListStep(data, count);
      var p := ReadProp(data);
      PropListReads(p.rest, count - 1);
      ReadableCons(p.value, ReadPropList(p.rest, count - 1).value);
    }
  }

  lemma NothingRead(data: seq<byte>)
    ensures ReadPropList(data, 0).Got? && ReadableProps(ReadPropList(data, 0).value)
  {
    hide ReadProp, ValidProp, TextProp;
  }

  lemma {:induction false} NamedKeepsText(ps: seq<Prop>, name: Text)
    requires TextProps(ps)
    ensures TextProps(Named(ps, name)) && TextProps(Without(ps, name))
  {
    hide TextProp;
    if ps != [] {
      NamedKeepsText(ps[1..], name);
    }
  }

  lemma {:induction false} ByNameKeepsText(ps: seq<Prop>)
    requires TextProps(ps)
    ensures TextProps(ByName(ps))
    decreases |ps|
  {
    hide TextProp, Named;
    if ps != [] {
      var n := ps[0].name;
      assert |Without(ps, n)| == |Without(ps[1..], n)|;
      NamedKeepsText(ps, n);
      ByNameKeepsText(Without(ps, n));
    }
  }

  lemma PropsRead(data: seq<byte>)
    ensures var r := ReadProps(data); r.Got? ==> ValidProps(ByName(r.value)) && TextProps(ByName(r.value))
  {
    hide ReadPropList, ValidProp, TextProp, ByName, VarInts.Read;
    match VarInts.Read(data)
    case Value(count, used) =>
      if 0 <= count <= MAX_PROPERTIES {
        var r := ReadPropList(data[used..], count);
        if r.Got? {
          PropListReads(data[used..], count);
          NewPropertiesAreValid(r.value);
          ByNameKeepsText(r.value);
        }
      }
    case _ =>
  }

  lemma ContentsRead(data: seq<byte>, skin: SkinPatch)
    ensures var r := ReadContents(data);
            r.Got? ==>
              var p := Profile(r.value, skin);
              ValidProfile(p) && TextProfile(p) && NetworkForm(p) == p
  {
    hide ReadProps, ReadOptText, ReadText, ReadOptUuid, ByName, ValidProps, TextProps;
    var flag := ReadBool(data);
    if flag.Got? && flag.value {
      var id := ReadUuid(flag.rest);
      if id.Got? && ReadText(id.rest, MAX_PLAYER_NAME).Got? {
        PropsRead(ReadText(id.rest, MAX_PLAYER_NAME).rest);
      }
    } else if flag.Got? {
      var name := ReadOptText(flag.rest, MAX_PLAYER_NAME);
      if name.Got? && ReadOptUuid(name.rest).Got? {
        PropsRead(ReadOptUuid(name.rest).rest);
      }
    }
  }

  /** Whatever decodes is valid, in network form, with valid skin identifiers. */
  lemma DecodedIsCanonical(data: seq<byte>)
    requires Decode(data).Got?
    ensures var p := Decode(data).value;
            ValidProfile(p) && TextProfile(p) && NetworkForm(p) == p && ValidSkin(p.skin)
  {
    hide ReadContents, ReadSkin, ValidProfile, TextProfile, NetworkForm, ValidSkin;
    ContentsRead(data, Decode(data).value.skin);
  }

  /**
    A profile that was decoded can be written and read back as itself exactly when it fits the
    write bound: the one thing that decoding does not establish.
   */
  lemma NetworkFixesWhatFits(data: seq<byte>, rest: seq<byte>)
    requires Decode(data).Got?
    ensures var p := Decode(data).value;
            (Encode(p).Some? && Decode(Encode(p).value + rest) == Got(p, rest)) <==> Fits(p)
  {
    hide Decode, Encode, ValidProfile, TextProfile, ValidSkin, NetworkForm, Fits;
    DecodedIsCanonical(data);
    var p := Decode(data).value;
    EncodesExactlyWhenItFits(p);
    if Encode(p).Some? {
      NetworkRoundTrip(p, rest);
    }
  }

  // ----- What is read, and what is written -----

  /** Flags and ids: any byte but zero is a yes, and an id is sixteen bytes. */
  lemma FlagsAndIdsAreReadExactly(data: seq<byte>)
    ensures ReadBool(data).Failed? <==> data == []
    ensures data != [] ==> ReadBool(data) == Got(data[0] != 0, data[1..])
    ensures ReadUuid(data).Failed? <==> |data| < 16
    ensures |data| >= 16 ==> ReadUuid(data) == Got(data[..16], data[16..])
    ensures WriteBool(true) == [1] && WriteBool(false) == [0]
  {
  }

  /** A string is its length and its bytes; it is refused exactly when it is too long, cut off or no text. */
  lemma TextIsReadExactly(data: seq<byte>, max: nat)
    requires max <= 32767
    ensures match VarInts.Read(data)
            case Value(n, used) =>
              if 0 <= n <= 3 * max && used + n <= |data| && ValidUtf8(data[used..used + n])
                 && Utf16Count(data[used..used + n]) <= max
              then ReadText(data, max) == Got(data[used..used + n], data[used + n..])
              else ReadText(data, max) == Failed
            case _ => ReadText(data, max) == Failed
  {
    hide VarInts.ReadGroups, ValidUtf8, Utf16Count;
    match VarInts.Read(data)
    case Value(n, used) =>
      if 0 <= n && used + n <= |data| {
        assert data[used..][..n] == data[used..used + n] && data[used..][n..] == data[used + n..];
      }
    case _ =>
  }

  /** It is written exactly within its limit and 32767 bytes. */
  lemma TextIsWrittenExactly(t: Text, max: nat)
    ensures WriteText(t, max) ==
            if Utf16Count(t) <= max && |t| <= 3 * max && |t| <= 32767 then Some(VarInts.Write(|t|) + t) else None
  {
    hide Utf16Count;
  }

  /** An identifier is read from a string of at most 32767 bytes that parses. */
  lemma IdIsReadExactly(data: seq<byte>)
    ensures match VarInts.Read(data)
            case Value(n, used) =>
              if 0 <= n <= 32767 && used + n <= |data| && ValidUtf8(data[used..used + n])
                 && ParseId(data[used..used + n]).Some?
              then ReadId(data) == Got(ParseId(data[used..used + n]).value, data[used + n..])
              else ReadId(data) == Failed
            case _ => ReadId(data) == Failed
  {
    hide VarInts.ReadGroups, ValidUtf8, ParseId;
    match VarInts.Read(data)
    case Value(n, used) =>
      if 0 <= n && used + n <= |data| {
        assert data[used..][..n] == data[used..used + n] && data[used..][n..] == data[used + n..];
      }
    case _ =>
  }

  /** A string on the wire. */
  function TextBytes(t: Text): (r: seq<byte>)
    requires |t| <= 32767
  {
    VarInts.Write(|t|) + t
  }

  /** An optional part: a flag, and the part if there is one. */
  function OptionalBytes(part: Option<seq<byte>>): (r: seq<byte>)
  {
    if part.Some? then [1] + part.value else [0]
  }

  function OptionalText(t: Option<Text>): (r: Option<seq<byte>>)
    requires t.Some? ==> |t.value| <= 32767
  {
    if t.Some? then Some(TextBytes(t.value)) else None
  }

  function OptionalId(id: Option<Identifier>): (r: Option<seq<byte>>)
    requires id.Some? ==> |IdText(id.value)| <= 32767
  {
    if id.Some? then Some(TextBytes(IdText(id.value))) else None
  }

  /** The skin on the wire: texture, cape, elytra, and the model as a flag for the slim one. */
  lemma SkinBytesAreThese(s: SkinPatch)
    ensures WriteSkin(s).Some? <==> FitsId(s.texture) && FitsId(s.cape) && FitsId(s.elytra)
    ensures WriteSkin(s).Some? ==>
              WriteSkin(s).value ==
              OptionalBytes(OptionalId(s.texture)) + (OptionalBytes(OptionalId(s.cape))
              + (OptionalBytes(OptionalId(s.elytra))
                 + OptionalBytes(if s.model.None? then None else Some([if s.model == Some(Slim) then 1 else 0]))))
  {
    hide IdText, VarInts.Write;
  }

  /** A property on the wire: name, value and perhaps a signature. */
  lemma PropertyBytesAreThese(p: Prop)
    requires WriteProp(p).Some?
    ensures |p.name| <= 32767 && |p.value.text| <= 32767
    ensures p.value.signature.Some? ==> |p.value.signature.value| <= 32767
    ensures WriteProp(p).value ==
            TextBytes(p.name) + (TextBytes(p.value.text) + OptionalBytes(OptionalText(p.value.signature)))
  {
    hide Utf16Count, VarInts.Write;
  }

  /** The properties on the wire: how many, and one after the other. */
  lemma {:induction false} PropertyListBytesAreThese(ps: seq<Prop>)
    requires WritePropList(ps).Some?
    ensures forall i | 0 <= i < |ps| :: WriteProp(ps[i]).Some?
    ensures WritePropList(ps).value == Concat(seq(|ps|, i requires 0 <= i < |ps| => WriteProp(ps[i]).value))
  {
    hide WriteProp;
    if ps != [] {
      PropertyListBytesAreThese(ps[1..]);
      forall i | 0 <= i < |ps| ensures WriteProp(ps[i]).Some? {
        assert i > 0 ==> ps[i] == ps[1..][i - 1];
      }
      var parts := seq(|ps|, i requires 0 <= i < |ps| => WriteProp(ps[i]).value);
      assert parts[1..] == seq(|ps[1..]|, i requires 0 <= i < |ps[1..]| => WriteProp(ps[1..][i]).value);
    }
  }

  /** A profile on the wire: whether it is full, its identity in the layout for that, properties and skin. */
  lemma ProfileBytesAreThese(p: Profile)
    requires Encode(p).Some?
    ensures var (name, id, ps) := Identity(p.contents);
            && |ps| <= 16 && WritePropList(ps).Some? && WriteSkin(p.skin).Some?
            && (name.Some? ==> |name.value| <= 32767)
            && var rest := VarInts.Write(|ps|) + WritePropList(ps).value;
               Encode(p).value ==
               (if p.contents.StaticFull? then [1] + (id.value + (TextBytes(name.value) + rest))
                else [0] + (OptionalBytes(OptionalText(name)) + (OptionalBytes(id) + rest)))
               + WriteSkin(p.skin).value
  {
    hide Utf16Count, VarInts.Write, WritePropList, WriteSkin;
  }
}
