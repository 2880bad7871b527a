/**
  Resolution of the world configuration: domains of worlds, their defaults, and the portal links
  between worlds of one domain.
 */
module WorldsConfig {
  import opened Bytes

  datatype Identifier = Identifier(namespace: string, path: string)

  datatype WorldEntry = WorldEntry(
    name: string, generator: Identifier, isDefault: bool, storage: Option<string>,
    netherTarget: Option<string>, endTarget: Option<string>, config: string)

  datatype DomainConfig = DomainConfig(isDefault: bool, storage: Option<string>, worlds: seq<WorldEntry>)

  /** `domains` lists the entries of a sorted map, so its names are distinct. */
  datatype Config = Config(
    savePath: string, storage: Option<string>, playerStorage: Option<string>, domains: seq<(string, DomainConfig)>)

  datatype Dimension = TheEnd | AnotherDimension(key: Identifier)

  /** What the registered generators, storages and path rules accept. */
  datatype Registries = Registries(
    dimensionOf: (Identifier, string) -> Option<Dimension>,
    validStorage: string -> bool,
    validPlayerStorage: string -> bool,
    cleanPath: string -> bool,
    defaultStorage: string,
    defaultPlayerStorage: string)

  datatype ResolvedWorld = ResolvedWorld(
    key: Identifier, domain: string, name: string, dimension: Dimension, storage: string,
    netherTarget: Option<Identifier>, endTarget: Option<Identifier>)

  datatype ResolvedDomain = ResolvedDomain(name: string, defaultWorld: Identifier, worlds: seq<Identifier>)

  datatype Resolved = Resolved(
    savePath: string, defaultDomain: string, domains: seq<ResolvedDomain>, worlds: seq<ResolvedWorld>,
    playerStorage: string)

  datatype Error =
    | BadSavePath | NoDomains | BadStorage | BadPlayerStorage | NotOneDefaultDomain
    | BadDomainName(domain: string)
    | EmptyDomain(domain: string)
    | BadWorldName(name: string)
    | BadGenerator(name: string)
    | BadTarget(name: string)
    | SelfTarget(name: string)
    | EndTargetOnEnd(name: string)
    | DuplicateWorld(name: string)
    | NotOneDefaultWorld(domain: string)
    | UndeclaredTarget(name: string)
    | EndTargetNotEnd(name: string)

  datatype Result<+T> = Ok(value: T) | Err(error: Error)

  // ----- Names -----

  predicate ValidDomainName(s: string)
  {
    s != "global" && s != "" && s != ".." && forall i | 0 <= i < |s| :: NamespaceCode(s[i] as int)
  }

  /** Path characters without the slash. */
  predicate ValidWorldName(s: string)
  {
    s != "" && forall i | 0 <= i < |s| :: NamespaceCode(s[i] as int)
  }

  function GetOr<T>(o: Option<T>, d: T): (r: T)
  {
    if o.Some? then o.value else d
  }

  // ----- One world -----

  predicate TargetOk(source: string, target: Option<string>)
  {
    target.Some? ==> ValidWorldName(target.value) && target.value != source
  }

  function TargetId(domain: string, target: Option<string>): (r: Option<Identifier>)
  {
    if target.Some? then Some(Identifier(domain, target.value)) else None
  }

  function ResolveTarget(domain: string, source: string, target: Option<string>): (r: Result<Option<Identifier>>)
    ensures r.Ok? <==> TargetOk(source, target)
    ensures r.Ok? ==> r.value == TargetId(domain, target)
  {
    if target.None? then Ok(None)
    else if !ValidWorldName(target.value) then Err(BadTarget(source))
    else if target.value == source then Err(SelfTarget(source))
    else Ok(Some(Identifier(domain, target.value)))
  }

  /** Everything that is asked of a world by itself. */
  predicate WorldOk(reg: Registries, w: WorldEntry, domainStorage: string)
  {
    && ValidWorldName(w.name)
    && reg.dimensionOf(w.generator, w.config).Some?
    && reg.validStorage(GetOr(w.storage, domainStorage))
    && TargetOk(w.name, w.netherTarget) && TargetOk(w.name, w.endTarget)
    && (w.endTarget.Some? ==> reg.dimensionOf(w.generator, w.config).value != TheEnd)
  }

  function WorldOf(reg: Registries, domain: string, w: WorldEntry, domainStorage: string): (r: ResolvedWorld)
    requires WorldOk(reg, w, domainStorage)
  {
    ResolvedWorld(Identifier(domain, w.name), domain, w.name, reg.dimensionOf(w.generator, w.config).value,
                  GetOr(w.storage, domainStorage), TargetId(domain, w.netherTarget), TargetId(domain, w.endTarget))
  }

  function ResolveWorld(reg: Registries, domain: string, w: WorldEntry, domainStorage: string)
    : (r: Result<ResolvedWorld>)
    ensures r.Ok? <==> WorldOk(reg, w, domainStorage)
    ensures r.Ok? ==> r.value == WorldOf(reg, domain, w, domainStorage)
  {
    if !ValidWorldName(w.name) then Err(BadWorldName(w.name))
    else
      var dimension := reg.dimensionOf(w.generator, w.config);
      if dimension.None? then Err(BadGenerator(w.name))
      else
        var storage := GetOr(w.storage, domainStorage);
        if !reg.validStorage(storage) then Err(BadStorage)
        else
          var nether := ResolveTarget(domain, w.name, w.netherTarget);
          if nether.Err? then Err(nether.error)
          else
            var end := ResolveTarget(domain, w.name, w.endTarget);
            if end.Err? then Err(end.error)
            else if end.value.Some? && dimension.value == TheEnd then Err(EndTargetOnEnd(w.name))
            else
              Ok(ResolvedWorld(Identifier(domain, w.name), domain, w.name, dimension.value, storage,
                               nether.value, end.value))
  }

  /** The characters that names may have, and the names that domains may not. */
  lemma NamesAreTheseExactly(s: string)
    ensures ValidWorldName(s) <==>
            s != "" && forall i | 0 <= i < |s| ::
                         'a' <= s[i] <= 'z' || '0' <= s[i] <= '9' || s[i] == '_' || s[i] == '-' || s[i] == '.'
    ensures ValidDomainName(s) <==> ValidWorldName(s) && s != "global" && s != ".."
  {
  }

  // ----- What an error says -----

  /** A fault of one world entry, of the kind that the error names. */
  ghost predicate WorldFault(reg: Registries, w: WorldEntry, domainStorage: string, e: Error)
  {
    match e
    case BadWorldName(n) => n == w.name && !ValidWorldName(n)
    case BadGenerator(n) => n == w.name && reg.dimensionOf(w.generator, w.config).None?
    case BadStorage => !reg.validStorage(if w.storage.Some? then w.storage.value else domainStorage)
    case BadTarget(n) =>
      && n == w.name
      && (|| (w.netherTarget.Some? && !ValidWorldName(w.netherTarget.value))
          || (w.endTarget.Some? && !ValidWorldName(w.endTarget.value)))
    case SelfTarget(n) => n == w.name && (w.netherTarget == Some(n) || w.endTarget == Some(n))
    case EndTargetOnEnd(n) =>
      n == w.name && w.endTarget.Some? && reg.dimensionOf(w.generator, w.config) == Some(TheEnd)
    case _ => false
  }

  lemma WorldErrorIsAFault(reg: Registries, domain: string, w: WorldEntry, domainStorage: string)
    ensures var r := ResolveWorld(reg, domain, w, domainStorage);
            r.Err? ==> WorldFault(reg, w, domainStorage, r.error)
  {
  }

  ghost predicate TwoDefaults(worlds: seq<WorldEntry>)
  {
    exists i, j :: 0 <= i < j < |worlds| && worlds[i].isDefault && worlds[j].isDefault
  }

  ghost predicate Twice(worlds: seq<WorldEntry>, name: string)
  {
    exists i, j :: 0 <= i < j < |worlds| && worlds[i].name == name && worlds[j].name == name
  }

  /** A fault of the worlds of a domain, taken by themselves and with each other. */
  ghost predicate WorldsFault(reg: Registries, domain: string, worlds: seq<WorldEntry>, storage: string, e: Error)
  {
    || (e == NotOneDefaultWorld(domain) && TwoDefaults(worlds))
    || (e.DuplicateWorld? && Twice(worlds, e.name))
    || (exists i :: 0 <= i < |worlds| && WorldFault(reg, worlds[i], storage, e))
  }

  /** A portal target that is no world of the domain, or for an End portal no world in the End. */
  ghost predicate TargetFault(reg: Registries, worlds: seq<WorldEntry>, w: WorldEntry, e: Error)
  {
    || (e == UndeclaredTarget(w.name) && (Undeclared(worlds, w.netherTarget) || Undeclared(worlds, w.endTarget)))
    || (e == EndTargetNotEnd(w.name) && !LinkOk(reg, worlds, w.endTarget, true))
  }

  ghost predicate Undeclared(worlds: seq<WorldEntry>, target: Option<string>)
  {
    target.Some? && forall i | 0 <= i < |worlds| :: worlds[i].name != target.value
  }

  /** A fault of a domain. */
  ghost predicate DomainFault(reg: Registries, name: string, d: DomainConfig, rootStorage: string, e: Error)
  {
    var storage := if d.storage.Some? then d.storage.value else rootStorage;
    || (e == BadDomainName(name) && !ValidDomainName(name))
    || (e == EmptyDomain(name) && d.worlds == [])
    || (e == BadStorage && !reg.validStorage(storage))
    || WorldsFault(reg, name, d.worlds, storage, e)
    || (exists i :: 0 <= i < |d.worlds| && TargetFault(reg, d.worlds, d.worlds[i], e))
    || (e == NotOneDefaultWorld(name) && forall i | 0 <= i < |d.worlds| :: !d.worlds[i].isDefault)
  }

  /** A fault of the configuration. */
  ghost predicate ConfigFault(reg: Registries, c: Config, e: Error)
  {
    var storage := if c.storage.Some? then c.storage.value else reg.defaultStorage;
    || (e == BadSavePath && !reg.cleanPath(c.savePath))
    || (e == NoDomains && c.domains == [])
    || (e == BadStorage && !reg.validStorage(storage))
    || (e == BadPlayerStorage &&
          !reg.validPlayerStorage(if c.playerStorage.Some? then c.playerStorage.value else reg.defaultPlayerStorage))
    || (exists i :: 0 <= i < |c.domains| && DomainFault(reg, c.domains[i].0, c.domains[i].1, storage, e))
    || (e == NotOneDefaultDomain && !exists i :: OneDefaultDomain(c.domains, i))
  }

  // ----- One domain -----

  ghost predicate DistinctNames(worlds: seq<WorldEntry>)
  {
    forall i, j | 0 <= i < j < |worlds| :: worlds[i].name != worlds[j].name
  }

  ghost predicate OneDefault(worlds: seq<WorldEntry>, i: nat)
  {
    && i < |worlds| && worlds[i].isDefault
    && forall j | 0 <= j < |worlds| && worlds[j].isDefault :: j == i
  }

  /** The target, if any, is declared, and for End portals is an End world. */
  ghost predicate LinkOk(reg: Registries, worlds: seq<WorldEntry>, target: Option<string>, mustBeEnd: bool)
  {
    target.Some? ==>
      exists j | 0 <= j < |worlds| ::
        && worlds[j].name == target.value
        && (mustBeEnd ==> reg.dimensionOf(worlds[j].generator, worlds[j].config) == Some(TheEnd))
  }

  function DomainStorage(d: DomainConfig, rootStorage: string): (r: string)
  {
    GetOr(d.storage, rootStorage)
  }

  ghost predicate DomainOk(reg: Registries, name: string, d: DomainConfig, rootStorage: string)
  {
    && ValidDomainName(name)
    && reg.validStorage(DomainStorage(d, rootStorage))
    && (forall i | 0 <= i < |d.worlds| :: WorldOk(reg, d.worlds[i], DomainStorage(d, rootStorage)))
    && DistinctNames(d.worlds)
    && (exists i: nat :: OneDefault(d.worlds, i))
    && (forall i | 0 <= i < |d.worlds| ::
          LinkOk(reg, d.worlds, d.worlds[i].netherTarget, false) && LinkOk(reg, d.worlds, d.worlds[i].endTarget, true))
  }

  /** Resolved worlds against the entries they came from. */
  ghost predicate WorldsOf(
    reg: Registries, domain: string, worlds: seq<WorldEntry>, storage: string, rs: seq<ResolvedWorld>)
  {
    && |rs| == |worlds|
    && forall i | 0 <= i < |rs| :: WorldOk(reg, worlds[i], storage) && rs[i] == WorldOf(reg, domain, worlds[i], storage)
  }

  ghost predicate DomainOf(
    reg: Registries, name: string, d: DomainConfig, rootStorage: string, r: (ResolvedDomain, seq<ResolvedWorld>))
  {
    && WorldsOf(reg, name, d.worlds, DomainStorage(d, rootStorage), r.1)
    && r.0.name == name
    && |r.0.worlds| == |d.worlds| && (forall i | 0 <= i < |d.worlds| :: r.0.worlds[i] == r.1[i].key)
    && exists i: nat :: OneDefault(d.worlds, i) && r.0.defaultWorld == Identifier(name, d.worlds[i].name)
  }

  /** The first loop of `resolve_domain_config`. */
  method ResolveWorlds(reg: Registries, domain: string, worlds: seq<WorldEntry>, storage: string)
    returns (r: Result<(Option<Identifier>, seq<ResolvedWorld>)>)
    ensures r.Ok? <==>
            && (forall i | 0 <= i < |worlds| :: WorldOk(reg, worlds[i], storage))
            && DistinctNames(worlds)
            && (forall i, j | 0 <= i < |worlds| && 0 <= j < |worlds| && worlds[i].isDefault && worlds[j].isDefault ::
                  i == j)
    ensures r.Ok? ==>
            && WorldsOf(reg, domain, worlds, storage, r.value.1)
            && (r.value.0.None? ==> forall i | 0 <= i < |worlds| :: !worlds[i].isDefault)
            && (r.value.0.Some? ==>
                  exists i: nat :: OneDefault(worlds, i) && r.value.0.value == Identifier(domain, worlds[i].name))
    ensures r.Err? ==> WorldsFault(reg, domain, worlds, storage, r.error)
  {
    hide WorldOk, WorldOf, WorldFault;
    var seen: set<string> := {};
    var defaultWorld: Option<Identifier> := None;
    ghost var at := 0;
    var resolved: seq<ResolvedWorld> := [];
    for i := 0 to |worlds|
      invariant WorldsOf(reg, domain, worlds[..i], storage, resolved)
      invariant forall n :: n in seen <==> exists j | 0 <= j < i :: worlds[j].name == n
      invariant DistinctNames(worlds[..i])
      invariant defaultWorld.None? ==> forall j | 0 <= j < i :: !worlds[j].isDefault
      invariant defaultWorld.Some? ==>
                  at < i && OneDefault(worlds[..i], at) && defaultWorld.value == Identifier(domain, worlds[at].name)
    {
      var world := ResolveWorld(reg, domain, worlds[i], storage);
      if world.Err? {
        WorldErrorIsAFault(reg, domain, worlds[i], storage);
        return Err(world.error);
      }
      if worlds[i].name in seen {
        return Err(DuplicateWorld(worlds[i].name));
      }
      seen := seen + {worlds[i].name};
      if worlds[i].isDefault {
        if defaultWorld.Some? {
          assert worlds[at].isDefault && at < i;
          return Err(NotOneDefaultWorld(domain));
        }
        WorldKey(reg, domain, worlds[i], storage);
        defaultWorld := Some(world.value.key);
        at := i;
      }
      resolved := resolved + [world.value];
    }
    assert worlds[..|worlds|] == worlds;
    assert WorldsOf(reg, domain, worlds, storage, resolved);
    return Ok((defaultWorld, resolved));
  }

  lemma WorldKey(reg: Registries, domain: string, w: WorldEntry, storage: string)
    requires WorldOk(reg, w, storage)
    ensures WorldOf(reg, domain, w, storage).key == Identifier(domain, w.name)
    ensures WorldOf(reg, domain, w, storage).name == w.name
  {
  }

  // ----- Portal links -----

  ghost predicate Linked(rs: seq<ResolvedWorld>, target: Option<Identifier>, mustBeEnd: bool)
  {
    target.Some? ==>
      exists j | 0 <= j < |rs| :: rs[j].name == target.value.path && (mustBeEnd ==> rs[j].dimension == TheEnd)
  }

  ghost predicate DistinctWorlds(rs: seq<ResolvedWorld>)
  {
    forall i, j | 0 <= i < j < |rs| :: rs[i].name != rs[j].name
  }

  method ByName(rs: seq<ResolvedWorld>) returns (m: map<string, ResolvedWorld>)
    requires DistinctWorlds(rs)
    ensures forall n :: n in m <==> exists j | 0 <= j < |rs| :: rs[j].name == n
    ensures forall j | 0 <= j < |rs| :: rs[j].name in m && m[rs[j].name] == rs[j]
  {
    m := map[];
    for i := 0 to |rs|
      invariant forall n :: n in m <==> exists j | 0 <= j < i :: rs[j].name == n
      invariant forall j | 0 <= j < i :: rs[j].name in m && m[rs[j].name] == rs[j]
    {
      m := m[rs[i].name := rs[i]];
    }
  }

  /** A link of a resolved world that leads nowhere, or not into the End. */
  ghost predicate LinkFault(rs: seq<ResolvedWorld>, w: ResolvedWorld, e: Error)
  {
    || (e == UndeclaredTarget(w.name) && (!Linked(rs, w.netherTarget, false) || !Linked(rs, w.endTarget, false)))
    || (e == EndTargetNotEnd(w.name) && !Linked(rs, w.endTarget, true))
  }

  /** `validate_explicit_portal_targets`. */
  method ValidateTargets(rs: seq<ResolvedWorld>) returns (r: Option<Error>)
    requires DistinctWorlds(rs)
    ensures r.None? <==>
            forall i | 0 <= i < |rs| :: Linked(rs, rs[i].netherTarget, false) && Linked(rs, rs[i].endTarget, true)
    ensures r.Some? ==> exists i :: 0 <= i < |rs| && LinkFault(rs, rs[i], r.value)
  {
    var byName := ByName(rs);
    for i := 0 to |rs|
      invariant forall j | 0 <= j < i :: Linked(rs, rs[j].netherTarget, false) && Linked(rs, rs[j].endTarget, true)
    {
      var world := rs[i];
      if world.netherTarget.Some? && world.netherTarget.value.path !in byName {
        assert !Linked(rs, rs[i].netherTarget, false);
        return Some(UndeclaredTarget(world.name));
      }
      if world.endTarget.Some? && world.endTarget.value.path !in byName {
        assert !Linked(rs, rs[i].endTarget, true) && !Linked(rs, rs[i].endTarget, false);
        return Some(UndeclaredTarget(world.name));
      }
      if world.endTarget.Some? && byName[world.endTarget.value.path].dimension != TheEnd {
        assert !Linked(rs, rs[i].endTarget, true);
        return Some(EndTargetNotEnd(world.name));
      }
    }
    return None;
  }

  lemma LinkedIsLinkOk(
    reg: Registries, domain: string, worlds: seq<WorldEntry>, storage: string, rs: seq<ResolvedWorld>,
    target: Option<string>, mustBeEnd: bool)
    requires WorldsOf(reg, domain, worlds, storage, rs)
    ensures Linked(rs, TargetId(domain, target), mustBeEnd) <==> LinkOk(reg, worlds, target, mustBeEnd)
  {
    if target.Some? {
      if Linked(rs, TargetId(domain, target), mustBeEnd) {
        var j :| 0 <= j < |rs| && rs[j].name == target.value && (mustBeEnd ==> rs[j].dimension == TheEnd);
        assert worlds[j].name == target.value;
      }
      if LinkOk(reg, worlds, target, mustBeEnd) {
        var j :| 0 <= j < |worlds| && worlds[j].name == target.value
                 && (mustBeEnd ==> reg.dimensionOf(worlds[j].generator, worlds[j].config) == Some(TheEnd));
        assert rs[j].name == target.value;
      }
    }
  }

  lemma LinksAgree(reg: Registries, domain: string, worlds: seq<WorldEntry>, storage: string, rs: seq<ResolvedWorld>)
    requires WorldsOf(reg, domain, worlds, storage, rs) && DistinctNames(worlds)
    ensures DistinctWorlds(rs)
    ensures (forall i | 0 <= i < |rs| :: Linked(rs, rs[i].netherTarget, false) && Linked(rs, rs[i].endTarget, true))
       <==> (forall i | 0 <= i < |worlds| ::
               LinkOk(reg, worlds, worlds[i].netherTarget, false) && LinkOk(reg, worlds, worlds[i].endTarget, true))
  {
    assert forall i | 0 <= i < |rs| ::
      rs[i].name == worlds[i].name && rs[i].netherTarget == TargetId(domain, worlds[i].netherTarget)
      && rs[i].endTarget == TargetId(domain, worlds[i].endTarget);
    hide WorldsOf, Linked, LinkOk, TargetId;
    forall i | 0 <= i < |rs|
      ensures Linked(rs, TargetId(domain, worlds[i].netherTarget), false) <==>
              LinkOk(reg, worlds, worlds[i].netherTarget, false)
      ensures Linked(rs, TargetId(domain, worlds[i].endTarget), true) <==>
              LinkOk(reg, worlds, worlds[i].endTarget, true)
    {
      LinkedIsLinkOk(reg, domain, worlds, storage, rs, worlds[i].netherTarget, false);
      LinkedIsLinkOk(reg, domain, worlds, storage, rs, worlds[i].endTarget, true);
    }
  }

  lemma LinkErrorIsAFault(
    reg: Registries, domain: string, worlds: seq<WorldEntry>, storage: string, rs: seq<ResolvedWorld>, e: Error)
    requires WorldsOf(reg, domain, worlds, storage, rs)
    requires exists i :: 0 <= i < |rs| && LinkFault(rs, rs[i], e)
    ensures exists i :: 0 <= i < |worlds| && TargetFault(reg, worlds, worlds[i], e)
  {
    var i :| 0 <= i < |rs| && LinkFault(rs, rs[i], e);
    var w := worlds[i];
    assert rs[i] == WorldOf(reg, domain, w, storage);
    LinkedIsLinkOk(reg, domain, worlds, storage, rs, w.netherTarget, false);
    LinkedIsLinkOk(reg, domain, worlds, storage, rs, w.endTarget, false);
    LinkedIsLinkOk(reg, domain, worlds, storage, rs, w.endTarget, true);
    hide WorldsOf, Linked;
    assert TargetFault(reg, worlds, w, e);
  }

  /** A domain resolves exactly when it is in order, and then to its own worlds. */
  method ResolveDomain(reg: Registries, name: string, d: DomainConfig, rootStorage: string)
    returns (r: Result<(ResolvedDomain, seq<ResolvedWorld>)>)
    ensures r.Ok? <==> DomainOk(reg, name, d, rootStorage)
    ensures r.Ok? ==> DomainOf(reg, name, d, rootStorage, r.value)
    ensures r.Err? ==> DomainFault(reg, name, d, rootStorage, r.error)
  {
    if !ValidDomainName(name) {
      return Err(BadDomainName(name));
    }
    hide ValidDomainName, WorldOk, WorldOf, LinkOk, WorldsFault, TargetFault, LinkFault;
    if |d.worlds| == 0 {
      return Err(EmptyDomain(name));
    }
    var storage := DomainStorage(d, rootStorage);
    if !reg.validStorage(storage) {
      return Err(BadStorage);
    }
    var worlds := ResolveWorlds(reg, name, d.worlds, storage);
    if worlds.Err? {
      NotInOrder(reg, name, d, rootStorage);
      return Err(worlds.error);
    }
    var (defaultWorld, rs) := worlds.value;
    LinksAgree(reg, name, d.worlds, storage, rs);
    var bad := ValidateTargets(rs);
    if bad.Some? {
      LinkErrorIsAFault(reg, name, d.worlds, storage, rs, bad.value);
      return Err(bad.value);
    }
    if defaultWorld.None? {
      return Err(NotOneDefaultWorld(name));
    }
    var ids := seq(|rs|, i requires 0 <= i < |rs| => rs[i].key);
    return Ok((ResolvedDomain(name, defaultWorld.value, ids), rs));
  }

  lemma NotInOrder(reg: Registries, name: string, d: DomainConfig, rootStorage: string)
    ensures DomainOk(reg, name, d, rootStorage) ==>
            forall i, j | 0 <= i < |d.worlds| && 0 <= j < |d.worlds|
                          && d.worlds[i].isDefault && d.worlds[j].isDefault :: i == j
  {
  }

  // ----- The whole configuration -----

  ghost predicate OneDefaultDomain(domains: seq<(string, DomainConfig)>, i: nat)
  {
    && i < |domains| && domains[i].1.isDefault
    && forall j | 0 <= j < |domains| && domains[j].1.isDefault :: j == i
  }

  function RootStorage(reg: Registries, c: Config): (s: string)
  {
    GetOr(c.storage, reg.defaultStorage)
  }

  ghost predicate ConfigOk(reg: Registries, c: Config)
  {
    && reg.cleanPath(c.savePath)
    && reg.validStorage(RootStorage(reg, c))
    && reg.validPlayerStorage(GetOr(c.playerStorage, reg.defaultPlayerStorage))
    && (forall i | 0 <= i < |c.domains| :: DomainOk(reg, c.domains[i].0, c.domains[i].1, RootStorage(reg, c)))
    && (exists i :: OneDefaultDomain(c.domains, i))
  }

  ghost function Flat(parts: seq<seq<ResolvedWorld>>): (r: seq<ResolvedWorld>)
  {
    if parts == [] then [] else Flat(parts[..|parts| - 1]) + parts[|parts| - 1]
  }

  /** The resolved configuration, domain by domain. */
  ghost predicate DomainsOf(
    reg: Registries, domains: seq<(string, DomainConfig)>, rootStorage: string,
    ds: seq<ResolvedDomain>, parts: seq<seq<ResolvedWorld>>)
  {
    && |ds| == |parts| == |domains|
    && forall i | 0 <= i < |domains| :: DomainOf(reg, domains[i].0, domains[i].1, rootStorage, (ds[i], parts[i]))
  }

  ghost predicate ResolvedOf(reg: Registries, c: Config, r: Resolved, parts: seq<seq<ResolvedWorld>>)
  {
    && DomainsOf(reg, c.domains, RootStorage(reg, c), r.domains, parts)
    && r.worlds == Flat(parts)
    && r.savePath == c.savePath && r.playerStorage == GetOr(c.playerStorage, reg.defaultPlayerStorage)
    && exists i: nat :: OneDefaultDomain(c.domains, i) && r.defaultDomain == c.domains[i].0
  }

  /** The loop over the domains. */
  method ResolveDomains(reg: Registries, domains: seq<(string, DomainConfig)>, rootStorage: string)
    returns (r: Result<(Option<string>, seq<ResolvedDomain>, seq<ResolvedWorld>)>, ghost parts: seq<seq<ResolvedWorld>>)
    ensures r.Ok? <==>
            && (forall i | 0 <= i < |domains| :: DomainOk(reg, domains[i].0, domains[i].1, rootStorage))
            && (forall i, j | 0 <= i < |domains| && 0 <= j < |domains|
                              && domains[i].1.isDefault && domains[j].1.isDefault :: i == j)
    ensures r.Ok? ==> DomainsOf(reg, domains, rootStorage, r.value.1, parts) && r.value.2 == Flat(parts)
    ensures r.Ok? && r.value.0.None? ==> forall i | 0 <= i < |domains| :: !domains[i].1.isDefault
    ensures r.Ok? && r.value.0.Some? ==>
              exists i: nat :: OneDefaultDomain(domains, i) && r.value.0.value == domains[i].0
    ensures r.Err? ==>
            || (r.error == NotOneDefaultDomain && !exists i :: OneDefaultDomain(domains, i))
            || exists i :: 0 <= i < |domains| && DomainFault(reg, domains[i].0, domains[i].1, rootStorage, r.error)
  {
    hide DomainOk, DomainOf, DomainFault;
    var defaultDomain: Option<string> := None;
    var ds: seq<ResolvedDomain> := [];
    var worlds: seq<ResolvedWorld> := [];
    parts := [];
    ghost var at := 0;
    for i := 0 to |domains|
      invariant DomainsOf(reg, domains[..i], rootStorage, ds, parts) && worlds == Flat(parts)
      invariant forall j | 0 <= j < i :: DomainOk(reg, domains[j].0, domains[j].1, rootStorage)
      invariant defaultDomain.None? ==> forall j | 0 <= j < i :: !domains[j].1.isDefault
      invariant defaultDomain.Some? ==>
                  at < i && OneDefaultDomain(domains[..i], at) && defaultDomain.value == domains[at].0
    {
      if domains[i].1.isDefault {
        if defaultDomain.Some? {
          assert domains[at].1.isDefault && at < i;
          return Err(NotOneDefaultDomain), parts;
        }
        defaultDomain := Some(domains[i].0);
        at := i;
      }
      var d := ResolveDomain(reg, domains[i].0, domains[i].1, rootStorage);
      if d.Err? {
        return Err(d.error), parts;
      }
      ds := ds + [d.value.0];
      worlds := worlds + d.value.1;
      parts := parts + [d.value.1];
      assert parts[..|parts| - 1] == parts[..i];
    }
    assert domains[..|domains|] == domains;
    return Ok((defaultDomain, ds, worlds)), parts;
  }

  lemma WorldsInDomains(reg: Registries, domains: seq<(string, DomainConfig)>, rootStorage: string,
                        ds: seq<ResolvedDomain>, parts: seq<seq<ResolvedWorld>>)
    requires DomainsOf(reg, domains, rootStorage, ds, parts) && domains != []
    ensures Flat(parts) != []
  {
    var n := |parts| - 1;
    assert DomainOf(reg, domains[n].0, domains[n].1, rootStorage, (ds[n], parts[n]));
  }

  /** The configuration resolves exactly when it is in order. */
  method ValidateAndResolve(reg: Registries, c: Config) returns (r: Result<Resolved>)
    ensures r.Ok? <==> ConfigOk(reg, c)
    ensures r.Ok? ==> exists parts :: ResolvedOf(reg, c, r.value, parts)
    ensures r.Err? ==> ConfigFault(reg, c, r.error)
  {
    hide DomainOk, DomainsOf, DomainFault;
    if !reg.cleanPath(c.savePath) {
      return Err(BadSavePath);
    }
    if c.domains == [] {
      return Err(NoDomains);
    }
    var rootStorage := RootStorage(reg, c);
    if !reg.validStorage(rootStorage) {
      return Err(BadStorage);
    }
    var playerStorage := GetOr(c.playerStorage, reg.defaultPlayerStorage);
    if !reg.validPlayerStorage(playerStorage) {
      return Err(BadPlayerStorage);
    }
    var resolved, parts := ResolveDomains(reg, c.domains, rootStorage);
    if resolved.Err? {
      return Err(resolved.error);
    }
    var (defaultDomain, ds, worlds) := resolved.value;
    WorldsInDomains(reg, c.domains, rootStorage, ds, parts);
    if worlds == [] {
      assert false;
    }
    if defaultDomain.None? {
      return Err(NotOneDefaultDomain);
    }
    r := Ok(Resolved(c.savePath, defaultDomain.value, ds, worlds, playerStorage));
    assert ResolvedOf(reg, c, r.value, parts);
  }

  // ----- What a resolved configuration is like -----

  /** The keys of a map are distinct. */
  ghost predicate DistinctDomains(domains: seq<(string, DomainConfig)>)
  {
    forall i, j | 0 <= i < j < |domains| :: domains[i].0 != domains[j].0
  }

  lemma {:induction false} FlatMember(parts: seq<seq<ResolvedWorld>>, w: ResolvedWorld) returns (i: nat, j: nat)
    requires w in Flat(parts)
    ensures i < |parts| && j < |parts[i]| && parts[i][j] == w
  {
    var n := |parts| - 1;
    if w in parts[n] {
      i := n;
      j :| 0 <= j < |parts[n]| && parts[n][j] == w;
    } else {
      i, j := FlatMember(parts[..n], w);
    }
  }

  lemma {:induction false} FlatContains(parts: seq<seq<ResolvedWorld>>, i: nat, j: nat)
    requires i < |parts| && j < |parts[i]|
    ensures parts[i][j] in Flat(parts)
  {
    var n := |parts| - 1;
    if i < n {
      FlatContains(parts[..n], i, j);
    }
  }

  /** A resolved world is the world of its entry. */
  lemma EntryOf(reg: Registries, c: Config, r: Resolved, parts: seq<seq<ResolvedWorld>>, i: nat, j: nat)
    requires ConfigOk(reg, c) && ResolvedOf(reg, c, r, parts) && i < |parts| && j < |parts[i]|
    ensures i < |c.domains| && j < |c.domains[i].1.worlds| == |parts[i]|
    ensures var w := c.domains[i].1.worlds[j];
            var storage := DomainStorage(c.domains[i].1, RootStorage(reg, c));
            WorldOk(reg, w, storage) && parts[i][j] == WorldOf(reg, c.domains[i].0, w, storage)
    ensures var ws := c.domains[i].1.worlds;
            && DistinctNames(ws)
            && LinkOk(reg, ws, ws[j].netherTarget, false) && LinkOk(reg, ws, ws[j].endTarget, true)
  {
    hide WorldOk, WorldOf, LinkOk;
    assert DomainOf(reg, c.domains[i].0, c.domains[i].1, RootStorage(reg, c), (r.domains[i], parts[i]));
    assert DomainOk(reg, c.domains[i].0, c.domains[i].1, RootStorage(reg, c));
  }

  /** One key, one world. */
  lemma KeyFindsWorld(
    reg: Registries, c: Config, r: Resolved, parts: seq<seq<ResolvedWorld>>, i: nat, j: nat, k: nat, l: nat)
    requires ConfigOk(reg, c) && ResolvedOf(reg, c, r, parts) && DistinctDomains(c.domains)
    requires i < |parts| && j < |parts[i]| && k < |parts| && l < |parts[k]|
    requires parts[i][j].key == parts[k][l].key
    ensures i == k && j == l
  {
    EntryOf(reg, c, r, parts, i, j);
    EntryOf(reg, c, r, parts, k, l);
    hide ConfigOk, ResolvedOf, WorldOk, LinkOk;
  }

  /**
    Every portal target is a different declared world of the same domain, and an End portal leads
    from outside the End into it, where no End portal target is configured: no chain has two hops.
   */
  lemma PortalsStayInTheirDomain(
    reg: Registries, c: Config, r: Resolved, parts: seq<seq<ResolvedWorld>>, w: ResolvedWorld)
    requires ConfigOk(reg, c) && ResolvedOf(reg, c, r, parts) && DistinctDomains(c.domains) && w in r.worlds
    ensures w.netherTarget.Some? ==>
              exists v | v in r.worlds :: v.key == w.netherTarget.value && v.domain == w.domain && v.key != w.key
    ensures w.endTarget.Some? ==>
              && w.dimension != TheEnd
              && (exists v | v in r.worlds :: v.key == w.endTarget.value && v.domain == w.domain && v.key != w.key)
              && (forall v | v in r.worlds && v.key == w.endTarget.value :: v.dimension == TheEnd && v.endTarget.None?)
  {
    var i, j := FlatMember(parts, w);
    EntryOf(reg, c, r, parts, i, j);
    var ws := c.domains[i].1.worlds;
    if w.netherTarget.Some? {
      var k :| 0 <= k < |ws| && ws[k].name == ws[j].netherTarget.value;
      TargetWorld(reg, c, r, parts, i, j, k, ws[j].netherTarget.value);
    }
    if w.endTarget.Some? {
      var k :| 0 <= k < |ws| && ws[k].name == ws[j].endTarget.value
               && reg.dimensionOf(ws[k].generator, ws[k].config) == Some(TheEnd);
      TargetWorld(reg, c, r, parts, i, j, k, ws[j].endTarget.value);
      forall v | v in r.worlds && v.key == w.endTarget.value ensures v.dimension == TheEnd && v.endTarget.None? {
        var m, n := FlatMember(parts, v);
        EntryOf(reg, c, r, parts, i, k);
        KeyFindsWorld(reg, c, r, parts, m, n, i, k);
      }
    }
  }

  lemma TargetWorld(
    reg: Registries, c: Config, r: Resolved, parts: seq<seq<ResolvedWorld>>, i: nat, j: nat, k: nat, target: string)
    requires ConfigOk(reg, c) && ResolvedOf(reg, c, r, parts) && i < |parts| && j < |parts[i]| && k < |parts[i]|
    requires i < |c.domains| && |parts[i]| == |c.domains[i].1.worlds|
    requires c.domains[i].1.worlds[k].name == target && target != c.domains[i].1.worlds[j].name
    ensures parts[i][k] in r.worlds
    ensures parts[i][k].key == Identifier(c.domains[i].0, target) != parts[i][j].key
    ensures parts[i][k].domain == parts[i][j].domain
  {
    EntryOf(reg, c, r, parts, i, j);
    EntryOf(reg, c, r, parts, i, k);
    FlatContains(parts, i, k);
  }

  /** Position `n` of the flattened list, as domain and index. */
  lemma {:induction false} FlatPosition(parts: seq<seq<ResolvedWorld>>, n: nat) returns (i: nat, j: nat)
    requires n < |Flat(parts)|
    ensures i < |parts| && j < |parts[i]| && parts[i][j] == Flat(parts)[n] && n == |Flat(parts[..i])| + j
  {
    var m := |parts| - 1;
    var before := |Flat(parts[..m])|;
    if n < before {
      i, j := FlatPosition(parts[..m], n);
      assert parts[..m][..i] == parts[..i];
    } else {
      i, j := m, n - before;
    }
  }

  /** One world entry is marked as default, and its world is the domain's default world. */
  ghost predicate HasOneDefault(d: DomainConfig, r: ResolvedDomain)
  {
    exists k: nat :: OneDefault(d.worlds, k) && k < |r.worlds| && r.defaultWorld == r.worlds[k]
  }

  /**
    There is exactly one default domain and exactly one default world in each, and no two worlds
    have the same key.
   */
  lemma DefaultsAndKeysAreUnique(reg: Registries, c: Config, r: Resolved, parts: seq<seq<ResolvedWorld>>)
    requires ConfigOk(reg, c) && ResolvedOf(reg, c, r, parts) && DistinctDomains(c.domains)
    ensures exists i: nat :: OneDefaultDomain(c.domains, i) && i < |r.domains| && r.domains[i].name == r.defaultDomain
    ensures forall i | 0 <= i < |r.domains| :: i < |c.domains| && HasOneDefault(c.domains[i].1, r.domains[i])
    ensures forall a, b | 0 <= a < b < |r.worlds| :: r.worlds[a].key != r.worlds[b].key
  {
    var at: nat :| OneDefaultDomain(c.domains, at) && r.defaultDomain == c.domains[at].0;
    assert DomainOf(reg, c.domains[at].0, c.domains[at].1, RootStorage(reg, c), (r.domains[at], parts[at]));
    forall i | 0 <= i < |r.domains| ensures i < |c.domains| && HasOneDefault(c.domains[i].1, r.domains[i]) {
      DefaultIsListed(reg, c.domains[i].0, c.domains[i].1, RootStorage(reg, c), (r.domains[i], parts[i]));
    }
    hide ConfigOk, ResolvedOf;
    forall a, b | 0 <= a < b < |r.worlds| ensures r.worlds[a].key != r.worlds[b].key {
      KeysDiffer(reg, c, r, parts, a, b);
    }
  }

  lemma KeysDiffer(reg: Registries, c: Config, r: Resolved, parts: seq<seq<ResolvedWorld>>, a: nat, b: nat)
    requires ConfigOk(reg, c) && ResolvedOf(reg, c, r, parts) && DistinctDomains(c.domains) && a < b < |r.worlds|
    ensures r.worlds[a].key != r.worlds[b].key
  {
    var i, j := FlatPosition(parts, a);
    var k, l := FlatPosition(parts, b);
    if r.worlds[a].key == r.worlds[b].key {
      KeyFindsWorld(reg, c, r, parts, i, j, k, l);
      assert false;
    }
  }

  lemma DefaultIsListed(
    reg: Registries, name: string, d: DomainConfig, rootStorage: string, r: (ResolvedDomain, seq<ResolvedWorld>))
    requires DomainOf(reg, name, d, rootStorage, r)
    ensures HasOneDefault(d, r.0)
  {
    var k: nat :| OneDefault(d.worlds, k) && r.0.defaultWorld == Identifier(name, d.worlds[k].name);
    assert r.0.worlds[k] == r.1[k].key;
  }

  /** What each resolved world is made of, settings of its own going before those of its domain and of the root. */
  lemma WorldsAreWhatWasDeclared(
    reg: Registries, c: Config, r: Resolved, parts: seq<seq<ResolvedWorld>>, i: nat, j: nat)
    requires ResolvedOf(reg, c, r, parts) && i < |parts| && j < |parts[i]|
    ensures i < |c.domains| && j < |c.domains[i].1.worlds|
    ensures var (domain, d) := c.domains[i];
            var entry, w := d.worlds[j], parts[i][j];
            && w.domain == domain && w.name == entry.name && w.key == Identifier(domain, entry.name)
            && Some(w.dimension) == reg.dimensionOf(entry.generator, entry.config)
            && w.storage == (if entry.storage.Some? then entry.storage.value
                             else if d.storage.Some? then d.storage.value
                             else if c.storage.Some? then c.storage.value
                             else reg.defaultStorage)
            && w.netherTarget.Some? == entry.netherTarget.Some? && w.endTarget.Some? == entry.endTarget.Some?
            && (w.netherTarget.Some? ==> w.netherTarget.value == Identifier(domain, entry.netherTarget.value))
            && (w.endTarget.Some? ==> w.endTarget.value == Identifier(domain, entry.endTarget.value))
    ensures parts[i][j] in r.worlds && parts[i][j].key in r.domains[i].worlds && r.domains[i].name == c.domains[i].0
  {
    assert DomainOf(reg, c.domains[i].0, c.domains[i].1, RootStorage(reg, c), (r.domains[i], parts[i]));
    assert r.domains[i].worlds[j] == parts[i][j].key;
    FlatContains(parts, i, j);
  }
}
