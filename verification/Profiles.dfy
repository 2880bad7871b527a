/**
  Resolvable player profiles: what their constructors enforce, and the canonical form that each codec
  gives them. Strings are their UTF-8 bytes.
 */
module Profiles {
  import opened Bytes
  import opened ProfileProperties

  type Text = seq<byte>

  /** Value and signature of a property; its name is the multimap key. */
  datatype Body = Body(text: Text, signature: Option<Text>)

  type Prop = Property<Text, Body>

  type Uuid = u: seq<byte> | |u| == 16 witness [0, 0, 0, 0, 0, 0, 0, 0, 0, 0, 0, 0, 0, 0, 0, 0]

  datatype Identifier = Identifier(namespace: Text, path: Text)

  datatype Model = Slim | Wide

  datatype SkinPatch = SkinPatch(
    texture: Option<Identifier>, cape: Option<Identifier>, elytra: Option<Identifier>, model: Option<Model>)

  const NO_PATCH: SkinPatch := SkinPatch(None, None, None, None)

  datatype Contents =
    | DynamicName(name: Text)
    | DynamicId(id: Uuid)
    | StaticFull(fullId: Uuid, fullName: Text, properties: seq<Prop>)
    | StaticPartial(partialName: Option<Text>, partialId: Option<Uuid>, properties: seq<Prop>)

  datatype Profile = Profile(contents: Contents, skin: SkinPatch)

  const MAX_PROPERTY_NAME: nat := 64
  const MAX_PROPERTY_VALUE: nat := 32767
  const MAX_PROPERTY_SIGNATURE: nat := 1024
  const MAX_PLAYER_NAME: nat := 16

  /** The byte limit of an unbounded-looking string write, `i16::MAX`. */
  const WRITE_BOUND: nat := 32767

  // ----- Strings -----

  predicate Continuation(b: byte)
  {
    0x80 <= b < 0xC0
  }

  predicate ValidUtf8(t: Text)
  {
    if t == [] then true
    else if t[0] < 0x80 then ValidUtf8(t[1..])
    else if 0xC2 <= t[0] <= 0xDF then |t| >= 2 && Continuation(t[1]) && ValidUtf8(t[2..])
    else if 0xE0 <= t[0] <= 0xEF then
      && |t| >= 3 && Continuation(t[1]) && Continuation(t[2])
      && (t[0] == 0xE0 ==> t[1] >= 0xA0) && (t[0] == 0xED ==> t[1] < 0xA0) && ValidUtf8(t[3..])
    else
      && 0xF0 <= t[0] <= 0xF4 && |t| >= 4
      && Continuation(t[1]) && Continuation(t[2]) && Continuation(t[3])
      && (t[0] == 0xF0 ==> t[1] >= 0x90) && (t[0] == 0xF4 ==> t[1] < 0x90) && ValidUtf8(t[4..])
  }

  /** `encode_utf16().count()`: one unit per character, two for those of four bytes. */
  function Utf16Count(t: Text): (n: nat)
  {
    if t == [] then 0
    else (if Continuation(t[0]) then 0 else if t[0] >= 0xF0 then 2 else 1) + Utf16Count(t[1..])
  }

  /** `validate_string`. */
  predicate Bounded(t: Text, max: nat)
  {
    Utf16Count(t) <= max && |t| <= 3 * max
  }

  /** `validate_player_name`: short, and printable ASCII without spaces. */
  predicate ValidName(t: Text)
  {
    |t| <= MAX_PLAYER_NAME && forall i | 0 <= i < |t| :: 0x20 < t[i] < 0x7F
  }

  lemma {:induction false} AsciiText(t: Text)
    requires forall i | 0 <= i < |t| :: t[i] < 0x80
    ensures ValidUtf8(t) && Utf16Count(t) == |t|
  {
    if t != [] {
      AsciiText(t[1..]);
    }
  }

  // ----- Characters -----

  /** A Unicode scalar value. */
  predicate Scalar(c: int)
  {
    0 <= c < 0xD800 || 0xE000 <= c < 0x11_0000
  }

  /** The UTF-8 encoding of a character. */
  function Utf8(c: int): (t: Text)
    requires Scalar(c)
  {
    if c < 0x80 then [c as byte]
    else if c < 0x800 then [(0xC0 + c / 0x40) as byte, (0x80 + c % 0x40) as byte]
    else if c < 0x1_0000 then
      [(0xE0 + c / 0x1000) as byte, (0x80 + c / 0x40 % 0x40) as byte, (0x80 + c % 0x40) as byte]
    else
      [(0xF0 + c / 0x4_0000) as byte, (0x80 + c / 0x1000 % 0x40) as byte,
       (0x80 + c / 0x40 % 0x40) as byte, (0x80 + c % 0x40) as byte]
  }

  /** A character in front keeps a text valid, and counts for one UTF-16 unit, or two beyond the basic plane. */
  lemma CharacterInFront(c: int, rest: Text)
    requires Scalar(c)
    ensures ValidUtf8(Utf8(c) + rest) <==> ValidUtf8(rest)
    ensures Utf16Count(Utf8(c) + rest) == (if c < 0x1_0000 then 1 else 2) + Utf16Count(rest)
  {
    var t := Utf8(c) + rest;
    if c < 0x80 {
      assert t[1..] == rest;
    } else if c < 0x800 {
      assert t[2..] == rest;
      SkipContinuation(t, 1);
    } else if c < 0x1_0000 {
      assert t[3..] == rest;
      SkipContinuation(t, 1);
      SkipContinuation(t, 2);
    } else {
      assert t[4..] == rest;
      SkipContinuation(t, 1);
      SkipContinuation(t, 2);
      SkipContinuation(t, 3);
    }
  }

  lemma SkipContinuation(t: Text, i: nat)
    requires i < |t| && Continuation(t[i])
    ensures Utf16Count(t[i..]) == Utf16Count(t[i + 1..])
  {
    assert t[i..][0] == t[i] && t[i..][1..] == t[i + 1..];
  }

  /** The character that the bytes at the front of a valid text encode. */
  function FrontCharacter(t: Text): (c: int)
    requires t != [] && ValidUtf8(t)
  {
    if t[0] < 0x80 then t[0] as int
    else if t[0] <= 0xDF then (t[0] as int - 0xC0) * 0x40 + (t[1] as int - 0x80)
    else if t[0] <= 0xEF then
      (t[0] as int - 0xE0) * 0x1000 + (t[1] as int - 0x80) * 0x40 + (t[2] as int - 0x80)
    else
      (t[0] as int - 0xF0) * 0x4_0000 + (t[1] as int - 0x80) * 0x1000
      + (t[2] as int - 0x80) * 0x40 + (t[3] as int - 0x80)
  }

  /** Every text that is valid and not empty is a character followed by a valid text. */
  lemma ValidTextIsCharacters(t: Text)
    requires t != [] && ValidUtf8(t)
    ensures var c := FrontCharacter(t);
            Scalar(c) && Utf8(c) <= t && ValidUtf8(t[|Utf8(c)|..])
  {
    if t[0] < 0x80 {
      assert Utf8(FrontCharacter(t)) == t[..1];
    } else if t[0] <= 0xDF {
      TwoBytes(t[0] as int - 0xC0, t[1] as int - 0x80);
      assert Utf8(FrontCharacter(t)) == t[..2];
    } else if t[0] <= 0xEF {
      ThreeBytes(t[0] as int - 0xE0, t[1] as int - 0x80, t[2] as int - 0x80);
      assert Utf8(FrontCharacter(t)) == t[..3];
    } else {
      FourBytes(t[0] as int - 0xF0, t[1] as int - 0x80, t[2] as int - 0x80, t[3] as int - 0x80);
      assert Utf8(FrontCharacter(t)) == t[..4];
    }
  }

  lemma TwoBytes(x: int, y: int)
    requires 2 <= x < 0x20 && 0 <= y < 0x40
    ensures var c := x * 0x40 + y; 0x80 <= c < 0x800 && c / 0x40 == x && c % 0x40 == y
  {
  }

  lemma ThreeBytes(x: int, y: int, z: int)
    requires 0 <= x < 0x10 && 0 <= y < 0x40 && 0 <= z < 0x40 && (x == 0 ==> y >= 0x20)
    ensures var c := x * 0x1000 + y * 0x40 + z;
            && 0x800 <= c < 0x1_0000 && c / 0x1000 == x && c / 0x40 % 0x40 == y && c % 0x40 == z
            && (x == 0xD && y < 0x20 ==> c < 0xD800) && (x < 0xD ==> c < 0xD000) && (x > 0xD ==> c >= 0xE000)
  {
    var c := x * 0x1000 + y * 0x40 + z;
    assert c / 0x40 == x * 0x40 + y;
  }

  lemma FourBytes(x: int, y: int, z: int, w: int)
    requires 0 <= x <= 4 && 0 <= y < 0x40 && 0 <= z < 0x40 && 0 <= w < 0x40
    requires (x == 0 ==> y >= 0x10) && (x == 4 ==> y < 0x10)
    ensures var c := x * 0x4_0000 + y * 0x1000 + z * 0x40 + w;
            && 0x1_0000 <= c < 0x11_0000
            && c / 0x4_0000 == x && c / 0x1000 % 0x40 == y && c / 0x40 % 0x40 == z && c % 0x40 == w
  {
    var c := x * 0x4_0000 + y * 0x1000 + z * 0x40 + w;
    assert c / 0x40 == x * 0x1000 + y * 0x40 + z;
    assert c / 0x1000 == x * 0x40 + y;
  }

  /** An ASCII string as text. */
  function Ascii(s: string): (t: Text)
  {
    seq(|s|, i requires 0 <= i < |s| => (s[i] as int % 128) as byte)
  }

  /** The limits on names and properties. */
  lemma LimitsAreThese(p: Prop, name: Text)
    ensures ValidProp(p) <==>
            && Utf16Count(p.name) <= 64 && |p.name| <= 192
            && Utf16Count(p.value.text) <= 32767 && |p.value.text| <= 98301
            && (p.value.signature.Some? ==>
                  Utf16Count(p.value.signature.value) <= 1024 && |p.value.signature.value| <= 3072)
    ensures ValidName(name) <==>
            |name| <= 16 && forall i | 0 <= i < |name| :: '!' as int <= name[i] as int <= '~' as int
    ensures MAX_PROPERTIES == 16
  {
    hide Utf16Count;
  }

  // ----- Identifiers -----

  const COLON: byte := 58
  const MINECRAFT: Text := [109, 105, 110, 101, 99, 114, 97, 102, 116]

  predicate ValidNamespace(t: Text)
  {
    t != [46, 46] && forall i | 0 <= i < |t| :: NamespaceCode(t[i] as int)
  }

  predicate ValidPath(t: Text)
  {
    forall i | 0 <= i < |t| :: NamespaceCode(t[i] as int) || t[i] == 47
  }

  predicate ValidId(id: Identifier)
  {
    id.namespace != [] && ValidNamespace(id.namespace) && ValidPath(id.path)
  }

  function IdText(id: Identifier): (t: Text)
  {
    id.namespace + [COLON] + id.path
  }

  function FindColon(t: Text): (r: Option<nat>)
    ensures r.Some? ==> r.value < |t|
  {
    if t == [] then None
    else if t[0] == COLON then Some(0)
    else var r := FindColon(t[1..]); if r.Some? then Some(r.value + 1) else None
  }

  /** `Identifier::from_str`. */
  function ParseId(t: Text): (r: Option<Identifier>)
    ensures r.Some? ==> ValidId(r.value)
  {
    var id := match FindColon(t)
              case None => Identifier(MINECRAFT, t)
              case Some(i) => Identifier(if i == 0 then MINECRAFT else t[..i], t[i + 1..]);
    if ValidNamespace(id.namespace) && ValidPath(id.path) then Some(id) else None
  }

  lemma {:induction false} FindColonAfter(a: Text, b: Text)
    requires forall i | 0 <= i < |a| :: a[i] != COLON
    ensures FindColon(a + [COLON] + b) == Some(|a|)
  {
    var t := a + [COLON] + b;
    if a != [] {
      assert t[1..] == a[1..] + [COLON] + b;
      FindColonAfter(a[1..], b);
    }
  }

  /** Printing and parsing undo each other exactly on valid identifiers with a namespace. */
  lemma IdRoundTrip(id: Identifier)
    ensures ParseId(IdText(id)) == Some(id) <==> ValidId(id)
  {
    if ValidId(id) {
      FindColonAfter(id.namespace, id.path);
      var t := IdText(id);
      assert t[..|id.namespace|] == id.namespace && t[|id.namespace| + 1..] == id.path;
    }
  }

  lemma ValidIdIsAscii(id: Identifier)
    requires ValidId(id)
    ensures ValidUtf8(IdText(id))
  {
    AsciiText(IdText(id));
  }

  /** The characters of identifiers. */
  lemma IdentifiersAreTheseExactly(t: Text)
    ensures var plain := (b: byte) =>
              'a' as int <= b as int <= 'z' as int || '0' as int <= b as int <= '9' as int
              || b as int == '_' as int || b as int == '-' as int || b as int == '.' as int;
            && (ValidNamespace(t) <==> t != Ascii("..") && forall i | 0 <= i < |t| :: plain(t[i]))
            && (ValidPath(t) <==> forall i | 0 <= i < |t| :: plain(t[i]) || t[i] as int == '/' as int)
  {
    assert Ascii("..") == [46, 46];
  }

  /** What parsing makes of a text: the first colon ends the namespace, and `minecraft` stands in for none. */
  lemma IdentifiersAreParsedExactly(a: Text, b: Text)
    requires forall i | 0 <= i < |a| :: a[i] as int != ':' as int
    ensures ParseId(a) == if ValidPath(a) then Some(Identifier(Ascii("minecraft"), a)) else None
    ensures var id := Identifier(if a == [] then Ascii("minecraft") else a, b);
            ParseId(a + Ascii(":") + b) == if ValidNamespace(id.namespace) && ValidPath(b) then Some(id) else None
    ensures IdText(Identifier(a, b)) == a + Ascii(":") + b
  {
    assert Ascii(":") == [COLON] && Ascii("minecraft") == MINECRAFT;
    FindColonAfter(a, b);
    NoColon(a);
    var t := a + [COLON] + b;
    assert t[..|a|] == a && t[|a| + 1..] == b;
  }

  lemma {:induction false} NoColon(a: Text)
    requires forall i | 0 <= i < |a| :: a[i] != COLON
    ensures FindColon(a) == None
  {
    if a != [] {
      NoColon(a[1..]);
    }
  }

  // ----- Construction -----

  ghost predicate ValidProp(p: Prop)
  {
    && Bounded(p.name, MAX_PROPERTY_NAME)
    && Bounded(p.value.text, MAX_PROPERTY_VALUE)
    && (p.value.signature.Some? ==> Bounded(p.value.signature.value, MAX_PROPERTY_SIGNATURE))
  }

  ghost predicate ValidProps(ps: seq<Prop>)
  {
    |ps| <= MAX_PROPERTIES && ByName(ps) == ps && forall i | 0 <= i < |ps| :: ValidProp(ps[i])
  }

  /** What the constructors enforce; skin identifiers are not checked by any of them. */
  ghost predicate ValidProfile(p: Profile)
  {
    match p.contents
    case DynamicName(name) => ValidName(name)
    case DynamicId(_) => true
    case StaticFull(_, name, ps) => ValidName(name) && ValidProps(ps)
    case StaticPartial(name, _, ps) => (name.Some? ==> ValidName(name.value)) && ValidProps(ps)
  }

  ghost predicate ValidSkin(s: SkinPatch)
  {
    && (s.texture.Some? ==> ValidId(s.texture.value))
    && (s.cape.Some? ==> ValidId(s.cape.value))
    && (s.elytra.Some? ==> ValidId(s.elytra.value))
  }

  /** `from_partial`: a partial profile with nothing but a name or an id becomes dynamic. */
  function FromPartial(name: Option<Text>, id: Option<Uuid>, ps: seq<Prop>): (c: Contents)
  {
    if ps == [] && name.Some? && id.None? then DynamicName(name.value)
    else if ps == [] && name.None? && id.Some? then DynamicId(id.value)
    else StaticPartial(name, id, ps)
  }

  /** What the network makes of a profile. */
  function NetworkForm(p: Profile): (r: Profile)
  {
    match p.contents
    case StaticPartial(name, id, ps) => p.(contents := FromPartial(name, id, ps))
    case _ => p
  }

  /** What NBT makes of it: there, a partial profile with both a name and an id is a full one. */
  function NbtForm(p: Profile): (r: Profile)
  {
    match p.contents
    case StaticPartial(Some(name), Some(id), ps) => p.(contents := StaticFull(id, name, ps))
    case _ => NetworkForm(p)
  }

  /** The three identity fields of a profile: name, id and properties. */
  function Identity(c: Contents): (r: (Option<Text>, Option<Uuid>, seq<Prop>))
  {
    match c
    case DynamicName(name) => (Some(name), None, [])
    case DynamicId(id) => (None, Some(id), [])
    case StaticFull(id, name, ps) => (Some(name), Some(id), ps)
    case StaticPartial(name, id, ps) => (name, id, ps)
  }

  /** Neither form changes who the profile stands for, its properties or its skin. */
  lemma FormsKeepIdentity(p: Profile)
    ensures Identity(NetworkForm(p).contents) == Identity(NbtForm(p).contents) == Identity(p.contents)
    ensures NetworkForm(p).skin == NbtForm(p).skin == p.skin
  {
  }

  /** What a partial profile becomes: dynamic exactly when there is nothing but a name, or nothing but an id. */
  lemma PartialFormsAreExact(name: Option<Text>, id: Option<Uuid>, ps: seq<Prop>)
    ensures var c := FromPartial(name, id, ps);
            && (c.DynamicName? <==> name.Some? && id == None && ps == [])
            && (c.DynamicId? <==> name == None && id.Some? && ps == [])
            && !c.StaticFull?
  {
  }

  lemma FormsAreIdempotent(p: Profile)
    ensures NetworkForm(NetworkForm(p)) == NetworkForm(p)
    ensures NbtForm(NbtForm(p)) == NbtForm(p)
    ensures NbtForm(NetworkForm(p)) == NbtForm(p) == NetworkForm(NbtForm(p))
    ensures NetworkForm(p) == p && NbtForm(p) != p <==>
            p.contents.StaticPartial? && p.contents.partialName.Some? && p.contents.partialId.Some?
    ensures ValidProfile(p) ==> ValidProfile(NetworkForm(p)) && ValidProfile(NbtForm(p))
  {
  }

  /** Properties that were read come out grouped and within the limit, or not at all. */
  function NewProperties(ps: seq<Prop>): (r: Option<seq<Prop>>)
  {
    if |ps| > MAX_PROPERTIES then None else Some(ByName(ps))
  }

  lemma {:induction false} NamedKeepsValid(ps: seq<Prop>, name: Text)
    requires forall i | 0 <= i < |ps| :: ValidProp(ps[i])
    ensures forall i | 0 <= i < |Named(ps, name)| :: ValidProp(Named(ps, name)[i])
    ensures forall i | 0 <= i < |Without(ps, name)| :: ValidProp(Without(ps, name)[i])
  {
    hide ValidProp;
    if ps != [] {
      NamedKeepsValid(ps[1..], name);
    }
  }

  lemma {:induction false} ByNameKeepsValid(ps: seq<Prop>)
    requires forall i | 0 <= i < |ps| :: ValidProp(ps[i])
    ensures forall i | 0 <= i < |ByName(ps)| :: ValidProp(ByName(ps)[i])
    decreases |ps|
  {
    hide ValidProp, Named;
    if ps != [] {
      var n := ps[0].name;
      assert |Without(ps, n)| == |Without(ps[1..], n)|;
      NamedKeepsValid(ps, n);
      ByNameKeepsValid(Without(ps, n));
    }
  }

  lemma NewPropertiesAreValid(ps: seq<Prop>)
    requires forall i | 0 <= i < |ps| :: ValidProp(ps[i])
    ensures NewProperties(ps).Some? ==> ValidProps(NewProperties(ps).value)
  {
    hide ValidProp, ByName;
    ByNameIsIdempotent(ps);
    ByNameLength(ps);
    ByNameKeepsValid(ps);
  }
}
