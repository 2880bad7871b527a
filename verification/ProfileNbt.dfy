/**
  The NBT codec of resolvable profiles.
 */
module ProfileNbt {
  import opened Bytes
  import opened ProfileProperties
  import opened Profiles
  import SignedHex
  import VarInts

  type I32 = v: int | VarInts.IsI32(v)

  /** An NBT tag; tags that no profile field can be read from are `Other`. */
  datatype Tag =
    | StringTag(text: Text)
    | IntsTag(ints: seq<I32>)
    | ListTag(items: TagList)
    | CompoundTag(fields: seq<(Text, Tag)>)
    | OtherTag

  datatype TagList =
    | NoItems
    | Strings(texts: seq<Text>)
    | Compounds(compounds: seq<seq<(Text, Tag)>>)
    | OtherItems(count: nat)

  type Compound = seq<(Text, Tag)>

  // ----- Compounds -----

  function Get<K(==), V>(c: seq<(K, V)>, key: K): (r: Option<V>)
  {
    if c == [] then None else if c[0].0 == key then Some(c[0].1) else Get(c[1..], key)
  }

  /** A compound from fields of which some are absent. */
  function Build<K, V>(fields: seq<(K, Option<V>)>): (c: seq<(K, V)>)
  {
    if fields == [] then []
    else (if fields[0].1.Some? then [(fields[0].0, fields[0].1.value)] else []) + Build(fields[1..])
  }

  ghost predicate DistinctKeys<K(!new), V>(fields: seq<(K, Option<V>)>)
  {
    forall i, j | 0 <= i < j < |fields| :: fields[i].0 != fields[j].0
  }

  lemma {:induction false} GetAbsent<K(!new), V>(fields: seq<(K, Option<V>)>, key: K)
    requires forall i | 0 <= i < |fields| :: fields[i].0 != key
    ensures Get(Build(fields), key) == None
  {
    if fields != [] {
      GetAbsent(fields[1..], key);
      var head := if fields[0].1.Some? then [(fields[0].0, fields[0].1.value)] else [];
      assert head == [] ==> head + Build(fields[1..]) == Build(fields[1..]);
      assert head != [] ==> (head + Build(fields[1..]))[1..] == Build(fields[1..]);
    }
  }

  lemma {:induction false} GetBuilt<K(!new), V>(fields: seq<(K, Option<V>)>, i: nat)
    requires i < |fields| && DistinctKeys(fields)
    ensures Get(Build(fields), fields[i].0) == fields[i].1
  {
    var tail := Build(fields[1..]);
    var head := if fields[0].1.Some? then [(fields[0].0, fields[0].1.value)] else [];
    assert head == [] ==> head + tail == tail;
    assert head != [] ==> (head + tail)[1..] == tail;
    if i == 0 {
      if fields[0].1.None? {
        GetAbsent(fields[1..], fields[0].0);
      }
    } else {
      GetBuilt(fields[1..], i - 1);
    }
  }

  const NAME: Text := [110, 97, 109, 101]
  const ID: Text := [105, 100]
  const PROPERTIES: Text := [112, 114, 111, 112, 101, 114, 116, 105, 101, 115]
  const TEXTURE: Text := [116, 101, 120, 116, 117, 114, 101]
  const CAPE: Text := [99, 97, 112, 101]
  const ELYTRA: Text := [101, 108, 121, 116, 114, 97]
  const MODEL: Text := [109, 111, 100, 101, 108]
  const VALUE: Text := [118, 97, 108, 117, 101]
  const SIGNATURE: Text := [115, 105, 103, 110, 97, 116, 117, 114, 101]
  const SLIM: Text := [115, 108, 105, 109]
  const WIDE: Text := [119, 105, 100, 101]

  // ----- UUIDs -----

  function Word(b: seq<byte>): (v: I32)
    requires |b| == 4
  {
    VarInts.AsI32(((b[0] as nat * 256 + b[1] as nat) * 256 + b[2] as nat) * 256 + b[3] as nat)
  }

  function WordBytes(v: I32): (b: seq<byte>)
    ensures |b| == 4
  {
    var u := VarInts.AsU32(v);
    [(u / 16777216) as byte, (u / 65536 % 256) as byte, (u / 256 % 256) as byte, (u % 256) as byte]
  }

  lemma WordRoundTrip(b: seq<byte>)
    requires |b| == 4
    ensures WordBytes(Word(b)) == b
  {
    var u := ((b[0] as nat * 256 + b[1] as nat) * 256 + b[2] as nat) * 256 + b[3] as nat;
    assert u < 0x1_0000_0000;
    assert VarInts.AsU32(Word(b)) == u;
    assert u / 256 == (b[0] as nat * 256 + b[1] as nat) * 256 + b[2] as nat;
    assert u / 65536 == u / 256 / 256 && u / 256 / 256 == b[0] as nat * 256 + b[1] as nat;
    assert u / 16777216 == u / 65536 / 256 && u / 65536 / 256 == b[0] as nat;
  }

  function UuidToInts(id: Uuid): (r: seq<I32>)
  {
    [Word(id[..4]), Word(id[4..8]), Word(id[8..12]), Word(id[12..])]
  }

  function UuidFromInts(ints: seq<I32>): (r: Option<Uuid>)
  {
    if |ints| != 4 then None
    else Some(WordBytes(ints[0]) + WordBytes(ints[1]) + WordBytes(ints[2]) + WordBytes(ints[3]))
  }

  lemma UuidRoundTrip(id: Uuid)
    ensures UuidFromInts(UuidToInts(id)) == Some(id)
  {
    hide Word, WordBytes;
    WordRoundTrip(id[..4]);
    WordRoundTrip(id[4..8]);
    WordRoundTrip(id[8..12]);
    WordRoundTrip(id[12..]);
    assert id[..4] + id[4..8] + id[8..12] + id[12..] == id;
  }

  /** The four integers are the big-endian words of the id, in order and with their signs. */
  lemma UuidWordsAreBigEndian(id: Uuid, i: nat)
    requires i < 4
    ensures UuidToInts(id)[i] == SignedHex.TwosComplement(id[4 * i..4 * i + 4])
  {
    var b := id[4 * i..4 * i + 4];
    assert i == 3 ==> id[12..] == b;
    WordIsTwosComplement(b);
  }

  lemma WordIsTwosComplement(b: seq<byte>)
    requires |b| == 4
    ensures Word(b) == SignedHex.TwosComplement(b)
  {
    assert b[..3][..2] == b[..2] && b[..2][..1] == b[..1] && b[..1][..0] == [];
    assert SignedHex.BeValue([]) == 0;
    assert SignedHex.BeValue(b[..1]) == b[0] as nat;
    assert SignedHex.BeValue(b[..2]) == b[0] as nat * 256 + b[1] as nat;
    assert SignedHex.BeValue(b[..3]) == (b[0] as nat * 256 + b[1] as nat) * 256 + b[2] as nat;
    assert SignedHex.BeValue(b) == ((b[0] as nat * 256 + b[1] as nat) * 256 + b[2] as nat) * 256 + b[3] as nat;
    assert SignedHex.Pow256(4) == 0x1_0000_0000 by {
      assert SignedHex.Pow256(1) == 256 && SignedHex.Pow256(2) == 65536 && SignedHex.Pow256(3) == 16777216;
    }
  }

  // ----- Properties -----

  function PropCompound(p: Prop): (c: Compound)
  {
    Build([
      (NAME, Some(StringTag(p.name))),
      (VALUE, Some(StringTag(p.value.text))),
      (SIGNATURE, if p.value.signature.Some? then Some(StringTag(p.value.signature.value)) else None)])
  }

  function TextOf(tag: Option<Tag>): (r: Option<Text>)
  {
    if tag.Some? && tag.value.StringTag? then Some(tag.value.text) else None
  }

  /** `ProfileProperty::new`. */
  function NewProp(name: Text, text: Text, signature: Option<Text>): (r: Option<Prop>)
  {
    if Bounded(name, MAX_PROPERTY_NAME) && Bounded(text, MAX_PROPERTY_VALUE)
       && (signature.Some? ==> Bounded(signature.value, MAX_PROPERTY_SIGNATURE))
    then Some(Property(name, Body(text, signature))) else None
  }

  function PropFrom(c: Compound): (r: Option<Prop>)
  {
    var name, text, signature := TextOf(Get(c, NAME)), TextOf(Get(c, VALUE)), Get(c, SIGNATURE);
    if name.None? || text.None? || (signature.Some? && !signature.value.StringTag?) then None
    else NewProp(name.value, text.value, TextOf(signature))
  }

  lemma PropRoundTrip(p: Prop)
    requires ValidProp(p)
    ensures PropFrom(PropCompound(p)) == Some(p)
  {
    hide Utf16Count, Get, Build;
    var signature := if p.value.signature.Some? then Some(StringTag(p.value.signature.value)) else None;
    var fields := [(NAME, Some(StringTag(p.name))), (VALUE, Some(StringTag(p.value.text))), (SIGNATURE, signature)];
    GetBuilt(fields, 0);
    GetBuilt(fields, 1);
    GetBuilt(fields, 2);
  }

  function PropsFrom(cs: seq<Compound>): (r: Option<seq<Prop>>)
    ensures r.Some? ==> |r.value| == |cs|
  {
    if cs == [] then Some([])
    else
      var head, tail := PropFrom(cs[0]), PropsFrom(cs[1..]);
      if head.None? || tail.None? then None else Some([head.value] + tail.value)
  }

  function PropCompounds(ps: seq<Prop>): (cs: seq<Compound>)
  {
    seq(|ps|, i requires 0 <= i < |ps| => PropCompound(ps[i]))
  }

  lemma {:induction false} PropsRoundTrip(ps: seq<Prop>)
    requires forall i | 0 <= i < |ps| :: ValidProp(ps[i])
    ensures PropsFrom(PropCompounds(ps)) == Some(ps)
  {
    hide PropCompound, PropFrom, ValidProp;
    if ps != [] {
      PropRoundTrip(ps[0]);
      PropsRoundTrip(ps[1..]);
      assert ps == [ps[0]] + ps[1..];
      assert PropCompounds(ps)[1..] == PropCompounds(ps[1..]);
    }
  }

  /** The values of one name in the map form. */
  function NamedValues(name: Text, texts: seq<Text>): (r: Option<seq<Prop>>)
  {
    if texts == [] then Some([])
    else
      var head, tail := NewProp(name, texts[0], None), NamedValues(name, texts[1..]);
      if head.None? || tail.None? then None else Some([head.value] + tail.value)
  }

  /** The map form, name by name; it gives up as soon as there are too many. */
  function PropsFromMap(m: Compound, before: seq<Prop>): (r: Option<seq<Prop>>)
    decreases |m|
  {
    if m == [] then Some(before)
    else if !m[0].1.ListTag? then None
    else
      var items := m[0].1.items;
      var values := if items.NoItems? then Some([])
                    else if items.Strings? then NamedValues(m[0].0, items.texts) else None;
      if values.None? || |before + values.value| > MAX_PROPERTIES then None
      else PropsFromMap(m[1..], before + values.value)
  }

  function ReadProperties(tag: Option<Tag>): (r: Option<seq<Prop>>)
  {
    match tag
    case None => Some([])
    case Some(ListTag(NoItems)) => Some([])
    case Some(ListTag(Strings(texts))) => if texts == [] then Some([]) else None
    case Some(ListTag(OtherItems(count))) => if count == 0 then Some([]) else None
    case Some(ListTag(Compounds(cs))) => if |cs| > MAX_PROPERTIES then None else PropsFrom(cs)
    case Some(CompoundTag(m)) => if |m| > MAX_PROPERTIES then None else PropsFromMap(m, [])
    case _ => None
  }

  function PropertiesTag(ps: seq<Prop>): (r: Option<Tag>)
  {
    if ps == [] then None else Some(ListTag(Compounds(PropCompounds(ps))))
  }

  lemma PropertiesRoundTrip(ps: seq<Prop>)
    requires ValidProps(ps)
    ensures ReadProperties(PropertiesTag(ps)) == Some(ps)
  {
    hide ValidProp, ByName, PropsFrom;
    if ps != [] {
      PropsRoundTrip(ps);
    }
  }

  // ----- Skin patches -----

  function IdTag(id: Option<Identifier>): (r: Option<Tag>)
  {
    if id.Some? then Some(StringTag(IdText(id.value))) else None
  }

  /** Outer `None` is a failure, inner `None` an absent field. */
  function ReadId(tag: Option<Tag>): (r: Option<Option<Identifier>>)
  {
    match tag
    case None => Some(None)
    case Some(StringTag(t)) => var id := ParseId(t); if id.Some? then Some(id) else None
    case _ => None
  }

  function ModelTag(m: Option<Model>): (r: Option<Tag>)
  {
    match m
    case None => None
    case Some(Slim) => Some(StringTag(SLIM))
    case Some(Wide) => Some(StringTag(WIDE))
  }

  function ReadModel(tag: Option<Tag>): (r: Option<Option<Model>>)
  {
    match tag
    case None => Some(None)
    case Some(StringTag(t)) => if t == SLIM then Some(Some(Slim)) else if t == WIDE then Some(Some(Wide)) else None
    case _ => None
  }

  function ReadSkin(c: Compound): (r: Option<SkinPatch>)
  {
    var texture, cape, elytra := ReadId(Get(c, TEXTURE)), ReadId(Get(c, CAPE)), ReadId(Get(c, ELYTRA));
    var model := ReadModel(Get(c, MODEL));
    if texture.None? || cape.None? || elytra.None? || model.None? then None
    else Some(SkinPatch(texture.value, cape.value, elytra.value, model.value))
  }

  lemma IdTagRoundTrip(id: Option<Identifier>)
    ensures ReadId(IdTag(id)) == Some(id) <==> (id.Some? ==> ValidId(id.value))
  {
    hide ParseId, IdText, ValidId;
    if id.Some? {
      IdRoundTrip(id.value);
    }
  }

  // ----- Profiles -----

  function Encode(p: Profile): (tag: Tag)
  {
    CompoundTag(Build(Fields(p)))
  }

  function NameTag(name: Option<Text>): (r: Option<Tag>)
  {
    if name.Some? then Some(StringTag(name.value)) else None
  }

  function UuidTag(id: Option<Uuid>): (r: Option<Tag>)
  {
    if id.Some? then Some(IntsTag(UuidToInts(id.value))) else None
  }

  /** The fields in the order in which they are inserted: a full profile puts its id first. */
  function Fields(p: Profile): (f: seq<(Text, Option<Tag>)>)
    ensures |f| == 7
  {
    var (name, id, ps) := Identity(p.contents);
    var first := if p.contents.StaticFull? then [(ID, UuidTag(id)), (NAME, NameTag(name))]
                 else [(NAME, NameTag(name)), (ID, UuidTag(id))];
    first + [(PROPERTIES, PropertiesTag(ps)), (TEXTURE, IdTag(p.skin.texture)), (CAPE, IdTag(p.skin.cape)),
             (ELYTRA, IdTag(p.skin.elytra)), (MODEL, ModelTag(p.skin.model))]
  }

  function ReadUuid(tag: Option<Tag>): (r: Option<Option<Uuid>>)
  {
    match tag
    case None => Some(None)
    case Some(IntsTag(ints)) => var id := UuidFromInts(ints); if id.Some? then Some(id) else None
    case _ => None
  }

  function ReadName(tag: Option<Tag>): (r: Option<Option<Text>>)
  {
    match tag
    case None => Some(None)
    case Some(StringTag(t)) => Some(Some(t))
    case _ => None
  }

  /** The profile of the fields that were read, if they pass the constructors' checks. */
  function Assemble(name: Option<Text>, id: Option<Uuid>, ps: seq<Prop>, skin: SkinPatch): (r: Option<Profile>)
  {
    var grouped := NewProperties(ps);
    if (name.Some? && !ValidName(name.value)) || grouped.None? then None
    else if name.Some? && id.Some? then Some(Profile(StaticFull(id.value, name.value, grouped.value), skin))
    else Some(Profile(FromPartial(name, id, grouped.value), skin))
  }

  function Decode(tag: Tag): (r: Option<Profile>)
  {
    match tag
    case StringTag(t) => if ValidName(t) then Some(Profile(DynamicName(t), NO_PATCH)) else None
    case CompoundTag(c) =>
      var name, id := ReadName(Get(c, NAME)), ReadUuid(Get(c, ID));
      var ps, skin := ReadProperties(Get(c, PROPERTIES)), ReadSkin(c);
      if name.None? || id.None? || ps.None? || skin.None? then None
      else Assemble(name.value, id.value, ps.value, skin.value)
    case _ => None
  }

  lemma FieldsAreDistinct(p: Profile)
    ensures DistinctKeys(Fields(p))
  {
    assert NAME[0] != CAPE[0];
  }

  /** Each field of an encoded profile is found again under its key. */
  lemma FieldsAreFound(p: Profile)
    ensures var c := Build(Fields(p));
            var (name, id, ps) := Identity(p.contents);
            && Get(c, NAME) == NameTag(name) && Get(c, ID) == UuidTag(id)
            && Get(c, PROPERTIES) == PropertiesTag(ps)
            && Get(c, TEXTURE) == IdTag(p.skin.texture) && Get(c, CAPE) == IdTag(p.skin.cape)
            && Get(c, ELYTRA) == IdTag(p.skin.elytra) && Get(c, MODEL) == ModelTag(p.skin.model)
  {
    hide Get, Build;
    var f := Fields(p);
    FieldsAreDistinct(p);
    GetBuilt(f, 0);
    GetBuilt(f, 1);
    GetBuilt(f, 2);
    GetBuilt(f, 3);
    GetBuilt(f, 4);
    GetBuilt(f, 5);
    GetBuilt(f, 6);
  }

  lemma SkinRoundTrip(p: Profile)
    ensures ReadSkin(Build(Fields(p))) == Some(p.skin) <==> ValidSkin(p.skin)
  {
    FieldsAreFound(p);
    hide Get, Build, ReadId, IdTag, ValidId;
    IdTagRoundTrip(p.skin.texture);
    IdTagRoundTrip(p.skin.cape);
    IdTagRoundTrip(p.skin.elytra);
    assert ReadModel(ModelTag(p.skin.model)) == Some(p.skin.model);
  }

  lemma AssembledForm(p: Profile)
    requires ValidProfile(p)
    ensures var (name, id, ps) := Identity(p.contents);
            Assemble(name, id, ps, p.skin) == Some(NbtForm(p))
  {
    hide ValidProp;
    assert ByName<Text, Body>([]) == [];
  }

  /**
    Decoding an encoded profile gives its NBT form, exactly when its skin identifiers are valid.
    In particular a partial profile with both a name and an id comes back full.
   */
  lemma NbtRoundTrip(p: Profile)
    requires ValidProfile(p)
    ensures Decode(Encode(p)) == Some(NbtForm(p)) <==> ValidSkin(p.skin)
  {
    var (name, id, ps) := Identity(p.contents);
    assert ReadName(NameTag(name)) == Some(name);
    if id.Some? {
      UuidRoundTrip(id.value);
    }
    assert ReadUuid(UuidTag(id)) == Some(id) by { hide UuidToInts, UuidFromInts; }
    hide Get, Build, Fields, ReadSkin, ReadProperties, PropertiesTag, ReadUuid, UuidTag, ReadName, NameTag;
    hide Assemble, Identity, ValidSkin, ValidProfile, NbtForm;
    FieldsAreFound(p);
    SkinRoundTrip(p);
    AssembledForm(p);
    PropertiesOfContents(p);
    SkinOfAssembled(name, id, ps, p.skin);
  }

  lemma PropertiesOfContents(p: Profile)
    requires ValidProfile(p)
    ensures ReadProperties(PropertiesTag(Identity(p.contents).2)) == Some(Identity(p.contents).2)
  {
    hide ReadProperties, PropertiesTag, ByName, ValidProp;
    if p.contents.StaticFull? || p.contents.StaticPartial? {
      PropertiesRoundTrip(p.contents.properties);
    } else {
      assert ReadProperties(PropertiesTag([])) == Some([]) by {
        EmptyProperties();
      }
    }
  }

  lemma EmptyProperties()
    ensures ReadProperties(PropertiesTag([])) == Some([])
  {
  }

  lemma SkinOfAssembled(name: Option<Text>, id: Option<Uuid>, ps: seq<Prop>, skin: SkinPatch)
    ensures Assemble(name, id, ps, skin).Some? ==> Assemble(name, id, ps, skin).value.skin == skin
  {
  }

  // ----- What decoding can produce -----

  ghost predicate AllValid(ps: seq<Prop>)
  {
    forall i | 0 <= i < |ps| :: ValidProp(ps[i])
  }

  lemma {:induction false} PropsFromAreValid(cs: seq<Compound>)
    ensures PropsFrom(cs).Some? ==> AllValid(PropsFrom(cs).value)
  {
    hide Get, Utf16Count;
    if cs != [] {
      PropsFromAreValid(cs[1..]);
    }
  }

  lemma {:induction false} NamedValuesAreValid(name: Text, texts: seq<Text>)
    ensures NamedValues(name, texts).Some? ==> AllValid(NamedValues(name, texts).value)
  {
    hide Utf16Count;
    if texts != [] {
      NamedValuesAreValid(name, texts[1..]);
    }
  }

  lemma {:induction false} MapPropsAreValid(m: Compound, before: seq<Prop>)
    requires AllValid(before)
    ensures PropsFromMap(m, before).Some? ==> AllValid(PropsFromMap(m, before).value)
    decreases |m|
  {
    hide ValidProp, NamedValues;
    if m != [] && m[0].1.ListTag? {
      var items := m[0].1.items;
      if items.Strings? {
        NamedValuesAreValid(m[0].0, items.texts);
        var values := NamedValues(m[0].0, items.texts);
        if values.Some? {
          MapPropsAreValid(m[1..], before + values.value);
        }
      } else if items.NoItems? {
        assert before + [] == before;
        MapPropsAreValid(m[1..], before);
      }
    }
  }

  lemma ReadPropertiesAreValid(tag: Option<Tag>)
    ensures ReadProperties(tag).Some? ==> AllValid(ReadProperties(tag).value)
  {
    hide ValidProp, PropsFrom, PropsFromMap;
    match tag
    case Some(ListTag(Compounds(cs))) => PropsFromAreValid(cs);
    case Some(CompoundTag(m)) => MapPropsAreValid(m, []);
    case _ =>
  }

  lemma AssembledIsCanonical(name: Option<Text>, id: Option<Uuid>, ps: seq<Prop>, skin: SkinPatch)
    requires AllValid(ps)
    ensures var r := Assemble(name, id, ps, skin);
            r.Some? ==> ValidProfile(r.value) && NbtForm(r.value) == r.value && r.value.skin == skin
  {
    hide ValidProp, ByName;
    NewPropertiesAreValid(ps);
  }

  /** Whatever decodes is valid, in NBT form, with valid skin identifiers. */
  lemma DecodedIsCanonical(tag: Tag)
    requires Decode(tag).Some?
    ensures var p := Decode(tag).value; ValidProfile(p) && NbtForm(p) == p && ValidSkin(p.skin)
  {
    hide Get, ValidProfile, Assemble, ReadProperties, ReadUuid, ReadModel, AllValid;
    match tag
    case CompoundTag(c) =>
      var ps := ReadProperties(Get(c, PROPERTIES));
      ReadPropertiesAreValid(Get(c, PROPERTIES));
      AssembledIsCanonical(
        ReadName(Get(c, NAME)).value, ReadUuid(Get(c, ID)).value, ps.value, ReadSkin(c).value);
    case StringTag(t) => DynamicIsValid(t);
  }

  lemma DynamicIsValid(t: Text)
    requires ValidName(t)
    ensures ValidProfile(Profile(DynamicName(t), NO_PATCH))
  {
  }

  /** Encoding and decoding again fixes every value that NBT can produce. */
  lemma NbtFixesWhatItProduces(tag: Tag)
    requires Decode(tag).Some?
    ensures Decode(Encode(Decode(tag).value)) == Decode(tag)
  {
    hide Decode, Encode, ValidProfile, ValidSkin, NbtForm;
    DecodedIsCanonical(tag);
    NbtRoundTrip(Decode(tag).value);
  }

  // ----- The layouts that are read -----

  /** A string on its own is a player's name, and nothing else is known. */
  lemma StringIsAName(t: Text)
    ensures Decode(StringTag(t)) ==
            if |t| <= 16 && (forall i | 0 <= i < |t| :: '!' as int <= t[i] as int <= '~' as int)
            then Some(Profile(DynamicName(t), SkinPatch(None, None, None, None))) else None
  {
  }

  /** The values of one entry of the map layout: a list of strings, or an empty list. */
  predicate HoldsStrings(tag: Tag)
  {
    tag.ListTag? && (tag.items.NoItems? || tag.items.Strings?)
  }

  function StringsOf(tag: Tag): (texts: seq<Text>)
  {
    if tag.ListTag? && tag.items.Strings? then tag.items.texts else []
  }

  /** The properties of one entry: its name with each of its values, in order and without signatures. */
  function EntryProps(name: Text, texts: seq<Text>): (ps: seq<Prop>)
    ensures |ps| == |texts|
  {
    seq(|texts|, i requires 0 <= i < |texts| => Property(name, Body(texts[i], None)))
  }

  function MapProps(m: Compound): (ps: seq<Prop>)
  {
    if m == [] then [] else EntryProps(m[0].0, StringsOf(m[0].1)) + MapProps(m[1..])
  }

  /** Every entry can be read, and all values pass the constructor's checks. */
  ghost predicate MapIsSound(m: Compound)
  {
    && (forall i | 0 <= i < |m| :: HoldsStrings(m[i].1))
    && (forall i | 0 <= i < |MapProps(m)| :: ValidProp(MapProps(m)[i]))
  }

  ghost predicate AllSound(ps: seq<Prop>)
  {
    forall i | 0 <= i < |ps| :: ValidProp(ps[i])
  }

  lemma AllSoundJoin(a: seq<Prop>, b: seq<Prop>)
    ensures AllSound(a + b) <==> AllSound(a) && AllSound(b)
  {
    hide ValidProp;
    assert forall i | 0 <= i < |a| :: (a + b)[i] == a[i];
    assert forall i | 0 <= i < |b| :: (a + b)[|a| + i] == b[i];
  }

  lemma {:induction false} NamedValuesAreThese(name: Text, texts: seq<Text>)
    ensures NamedValues(name, texts) ==
            if AllSound(EntryProps(name, texts)) then Some(EntryProps(name, texts)) else None
  {
    hide Utf16Count;
    if texts != [] {
      NamedValuesAreThese(name, texts[1..]);
      var first := [Property(name, Body(texts[0], None))];
      assert EntryProps(name, texts) == first + EntryProps(name, texts[1..]);
      AllSoundJoin(first, EntryProps(name, texts[1..]));
      assert AllSound(first) <==> ValidProp(first[0]);
    }
  }

  lemma {:induction false} MapLayoutIsReadFrom(m: Compound, before: seq<Prop>)
    requires |before| <= 16
    ensures PropsFromMap(m, before) ==
            if (forall i | 0 <= i < |m| :: HoldsStrings(m[i].1)) && AllSound(MapProps(m))
               && |before + MapProps(m)| <= 16
            then Some(before + MapProps(m)) else None
    decreases |m|
  {
    hide ValidProp, AllSound;
    if m == [] {
      assert before + [] == before;
      assert AllSound([]) by { NoneIsSound(); }
    } else {
      var texts := StringsOf(m[0].1);
      var values, later := EntryProps(m[0].0, texts), MapProps(m[1..]);
      NamedValuesAreThese(m[0].0, texts);
      AllSoundJoin(values, later);
      assert before + (values + later) == before + values + later;
      assert forall i | 1 <= i < |m| :: m[i] == m[1..][i - 1];
      if HoldsStrings(m[0].1) {
        if texts == [] {
          assert values == [] && AllSound(values) by { NoneIsSound(); }
        }
        if AllSound(values) && |before + values| <= 16 {
          MapLayoutIsReadFrom(m[1..], before + values);
        }
      }
    }
  }

  lemma NoneIsSound()
    ensures AllSound([])
  {
  }

  /**
    The map layout is read entry by entry: it is accepted exactly when there are at most 16 entries
    and 16 values, all of them strings within the limits, and gives those values under their names,
    in order and without signatures.
   */
  lemma MapLayoutIsReadExactly(m: Compound)
    ensures ReadProperties(Some(CompoundTag(m))) ==
            if |m| <= 16 && MapIsSound(m) && |MapProps(m)| <= 16 then Some(MapProps(m)) else None
  {
    hide ValidProp, PropsFromMap;
    MapLayoutIsReadFrom(m, []);
    assert [] + MapProps(m) == MapProps(m);
  }

  /** The list layout is read property by property; lists that hold nothing are no properties. */
  lemma ListLayoutIsReadExactly(cs: seq<Compound>, texts: seq<Text>, count: nat)
    ensures ReadProperties(None) == ReadProperties(Some(ListTag(NoItems))) == Some([])
    ensures ReadProperties(Some(ListTag(Strings(texts)))) == if texts == [] then Some([]) else None
    ensures ReadProperties(Some(ListTag(OtherItems(count)))) == if count == 0 then Some([]) else None
    ensures ReadProperties(Some(ListTag(Compounds(cs)))) == if |cs| <= 16 then PropsFrom(cs) else None
    ensures ReadProperties(Some(OtherTag)) == None
  {
    hide PropsFrom;
  }

  /** One property of the list layout: a name and a value, which must be strings, and perhaps a signature. */
  lemma PropertyIsReadExactly(c: Compound)
    ensures var name, text := Get(c, Ascii("name")), Get(c, Ascii("value"));
            var signature := Get(c, Ascii("signature"));
            var sound := && name.Some? && name.value.StringTag? && text.Some? && text.value.StringTag?
                         && (signature.Some? ==> signature.value.StringTag?);
            if !sound then PropFrom(c) == None
            else
              var p := Property(name.value.text, Body(text.value.text,
                         if signature.Some? then Some(signature.value.text) else None));
              PropFrom(c) == if ValidProp(p) then Some(p) else None
  {
    hide Get, Utf16Count;
    assert Ascii("name") == NAME && Ascii("value") == VALUE && Ascii("signature") == SIGNATURE;
  }

  /** What a profile is written as, field by field. */
  lemma EncodedFieldsAreThese(p: Profile)
    ensures var (name, id, ps) := Identity(p.contents);
            && Encode(p).CompoundTag?
            && var c := Encode(p).fields;
            && Get(c, Ascii("name")) == (if name.Some? then Some(StringTag(name.value)) else None)
            && Get(c, Ascii("id")) == (if id.Some? then Some(IntsTag(UuidToInts(id.value))) else None)
            && Get(c, Ascii("properties")) ==
               (if ps == [] then None else Some(ListTag(Compounds(PropCompounds(ps)))))
            && Get(c, Ascii("texture")) == IdTag(p.skin.texture)
            && Get(c, Ascii("cape")) == IdTag(p.skin.cape)
            && Get(c, Ascii("elytra")) == IdTag(p.skin.elytra)
            && Get(c, Ascii("model")) ==
               (if p.skin.model.None? then None
                else Some(StringTag(if p.skin.model.value == Slim then Ascii("slim") else Ascii("wide"))))
  {
    FieldsAreFound(p);
    hide Get, Build, UuidToInts, PropCompounds, IdTag;
    KeysAreThese();
  }

  lemma KeysAreThese()
    ensures NAME == Ascii("name") && ID == Ascii("id") && PROPERTIES == Ascii("properties")
    ensures TEXTURE == Ascii("texture") && CAPE == Ascii("cape") && ELYTRA == Ascii("elytra") && MODEL == Ascii("model")
    ensures SLIM == Ascii("slim") && WIDE == Ascii("wide")
  {
  }

  /** The fields that make up a decoded profile, and nothing else of the compound. */
  lemma CompoundIsReadExactly(c: Compound)
    ensures var name, id := Get(c, Ascii("name")), Get(c, Ascii("id"));
            var ps, skin := ReadProperties(Get(c, Ascii("properties"))), ReadSkin(c);
            var sound := && (name.Some? ==> name.value.StringTag? && ValidName(name.value.text))
                         && (id.Some? ==> id.value.IntsTag? && |id.value.ints| == 4)
                         && ps.Some? && skin.Some? && |ps.value| <= 16;
            && (Decode(CompoundTag(c)).Some? <==> sound)
            && (sound ==>
                  var who := Identity(Decode(CompoundTag(c)).value.contents);
                  && who.0 == (if name.Some? then Some(name.value.text) else None)
                  && who.1 == (if id.Some? then UuidFromInts(id.value.ints) else None)
                  && who.2 == ByName(ps.value)
                  && Decode(CompoundTag(c)).value.skin == skin.value)
  {
    hide Get, ReadProperties, ReadSkin, ByName, UuidFromInts, ValidName, Assemble, Identity;
    KeysAreThese();
    UuidsHaveFourInts();
    var name, id := ReadName(Get(c, NAME)), ReadUuid(Get(c, ID));
    var ps, skin := ReadProperties(Get(c, PROPERTIES)), ReadSkin(c);
    if name.Some? && id.Some? && ps.Some? && skin.Some? {
      AssembledExactly(name.value, id.value, ps.value, skin.value);
    }
  }

  lemma AssembledExactly(name: Option<Text>, id: Option<Uuid>, ps: seq<Prop>, skin: SkinPatch)
    ensures var r := Assemble(name, id, ps, skin);
            && (r.Some? <==> (name.Some? ==> ValidName(name.value)) && |ps| <= 16)
            && (r.Some? ==> Identity(r.value.contents) == (name, id, ByName(ps)) && r.value.skin == skin)
  {
    hide ByName, ValidName;
  }

  lemma UuidsHaveFourInts()
    ensures forall ints :: UuidFromInts(ints).Some? <==> |ints| == 4
  {
  }

  /** The skin fields: identifiers that parse, and one of two models. */
  lemma SkinIsReadExactly(c: Compound)
    ensures var skin := ReadSkin(c);
            var model := Get(c, Ascii("model"));
            && (skin.Some? <==>
                  && ReadId(Get(c, Ascii("texture"))).Some? && ReadId(Get(c, Ascii("cape"))).Some?
                  && ReadId(Get(c, Ascii("elytra"))).Some?
                  && (|| model.None?
                      || model == Some(StringTag(Ascii("slim"))) || model == Some(StringTag(Ascii("wide")))))
            && (skin.Some? ==>
                  && Some(skin.value.texture) == ReadId(Get(c, Ascii("texture")))
                  && Some(skin.value.cape) == ReadId(Get(c, Ascii("cape")))
                  && Some(skin.value.elytra) == ReadId(Get(c, Ascii("elytra")))
                  && skin.value.model == (if model.None? then None
                                          else if model.value.text == Ascii("slim") then Some(Slim) else Some(Wide)))
  {
    hide Get, ReadId;
    KeysAreThese();
    assert SLIM[0] != WIDE[0];
  }
}
