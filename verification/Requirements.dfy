/**
  Enchantment effect requirements: trees of conditions of which some cannot be decided in a given
  context. All evaluators walk the tree with early returns and a "has unknown" flag; they differ
  only in what they know about the leaves.
 */
module Requirements {
  import opened Bytes

  // ----- Conditions -----

  datatype Target = This | Attacker | DirectAttacker

  datatype EntityTypePredicate = AnyType | TypeIs(key: string) | TypeTag(tag: string) | UnsupportedType

  datatype VehiclePredicate = AnyVehicle | VehiclePresent | UnsupportedVehicle

  datatype FlagsPredicate = FlagsPredicate(isFallFlying: Option<bool>, isInWater: Option<bool>, unsupported: bool)

  datatype PlayerPredicate = PlayerPredicate(gameModes: seq<nat>, foodLevelMin: Option<int>, unsupported: bool)

  datatype TypeSpecific = AnySpecific | PlayerSpecific(player: PlayerPredicate) | UnsupportedSpecific

  datatype EntityPredicate = EntityPredicate(
    entityType: EntityTypePredicate,
    vehicle: VehiclePredicate,
    flags: FlagsPredicate,
    typeSpecific: TypeSpecific,
    unsupported: bool)

  datatype DamageSourcePredicate = DamageSourcePredicate(tags: seq<(string, bool)>, isDirect: Option<bool>)

  datatype ItemSet = ItemTag(tag: string) | DirectItems(items: seq<string>)

  datatype Requirement =
    | AllOf(terms: seq<Requirement>)
    | AnyOf(terms: seq<Requirement>)
    | Inverted(term: Requirement)
    | EntityProperties(entity: Target, matching: EntityPredicate)
    | DamageSourceProperties(source: DamageSourcePredicate)
    | RandomChance(chance: int -> real)
    | MatchTool(items: Option<ItemSet>)
    | Unsupported(condition: string)

  // ----- Contexts -----

  const PLAYER: string := "minecraft:player"

  datatype DamageSource = DamageSource(isDirect: bool, tags: set<string>)

  datatype Context = Context(
    thisType: string, attackerType: Option<string>, directType: Option<string>, source: DamageSource)
  {
    function EntityType(target: Target): (t: Option<string>)
    {
      match target
      case This => Some(thisType)
      case Attacker => attackerType
      case DirectAttacker => directType
    }
  }

  datatype PlayerInfo = PlayerInfo(gameMode: nat, foodLevel: int)

  datatype Entity = Entity(
    entityType: string, hasVehicle: bool, fallFlying: bool, inWater: bool, player: Option<PlayerInfo>)
  {
    /** Players are exactly the entities of the player type. */
    predicate Valid()
    {
      player.Some? <==> entityType == PLAYER
    }
  }

  /** Membership of a registry entry in a tag. */
  type Tags = (string, string) -> bool

  function TypeMatches(tags: Tags, p: EntityTypePredicate, key: string): (r: Option<bool>)
  {
    match p
    case AnyType => Some(true)
    case TypeIs(expected) => Some(key == expected)
    case TypeTag(tag) => Some(tags(key, tag))
    case UnsupportedType => None
  }

  /** What can be said of an entity of which only the type is known. */
  function PredicateMatchesType(tags: Tags, p: EntityPredicate, key: string): (r: Option<bool>)
  {
    if p.unsupported || p.vehicle != AnyVehicle
       || p.flags.isFallFlying.Some? || p.flags.isInWater.Some? || p.flags.unsupported
    then None
    else
      var typeMatches := TypeMatches(tags, p.entityType, key);
      if typeMatches.None? then None
      else if !typeMatches.value then Some(false)
      else
        match p.typeSpecific
        case AnySpecific => Some(true)
        case UnsupportedSpecific => None
        case PlayerSpecific(player) =>
          if key != PLAYER then Some(false)
          else if player.unsupported || player.gameModes != [] || player.foodLevelMin.Some? then None
          else Some(true)
  }

  function FlagsRefute(f: FlagsPredicate, e: Entity): (r: bool)
  {
    || (f.isFallFlying.Some? && e.fallFlying != f.isFallFlying.value)
    || (f.isInWater.Some? && e.inWater != f.isInWater.value)
  }

  function PlayerMatches(p: PlayerPredicate, player: Option<PlayerInfo>): (r: Option<bool>)
  {
    if player.None? then Some(false)
    else if p.unsupported then None
    else if p.gameModes != [] && player.value.gameMode !in p.gameModes then Some(false)
    else if p.foodLevelMin.Some? && player.value.foodLevel < p.foodLevelMin.value then Some(false)
    else Some(true)
  }

  /** What can be said of a whole entity. */
  function PredicateMatchesEntity(tags: Tags, p: EntityPredicate, e: Entity): (r: Option<bool>)
  {
    var typeMatches := TypeMatches(tags, p.entityType, e.entityType);
    if p.unsupported || typeMatches.None? then None
    else if !typeMatches.value then Some(false)
    else if p.vehicle == VehiclePresent && !e.hasVehicle then Some(false)
    else if p.vehicle == UnsupportedVehicle || p.flags.unsupported then None
    else if FlagsRefute(p.flags, e) then Some(false)
    else
      match p.typeSpecific
      case AnySpecific => Some(true)
      case UnsupportedSpecific => None
      case PlayerSpecific(player) => PlayerMatches(player, e.player)
  }

  function SourceMatches(p: DamageSourcePredicate, source: DamageSource): (r: bool)
  {
    && (p.isDirect.Some? ==> source.isDirect == p.isDirect.value)
    && forall i | 0 <= i < |p.tags| :: (p.tags[i].0 in source.tags) == p.tags[i].1
  }

  // ----- The evaluators -----

  /** What an evaluator says about a leaf: a verdict or none, or that a draw below a bound decides. */
  datatype Verdict = Fixed(known: Option<bool>) | Draws(bound: real)

  type Rule = Requirement -> Verdict

  /** `requirements_state`. */
  function DamageRule(tags: Tags, ctx: Context): (rule: Rule)
  {
    (r: Requirement) =>
      match r
      case EntityProperties(target, p) =>
        var key := ctx.EntityType(target);
        Fixed(if key.Some? then PredicateMatchesType(tags, p, key.value) else None)
      case DamageSourceProperties(p) => Fixed(Some(SourceMatches(p, ctx.source)))
      case _ => Fixed(None)
  }

  /** `requirements_state_with_random`. */
  function PostAttackRule(tags: Tags, ctx: Context, level: int): (rule: Rule)
  {
    (r: Requirement) => if r.RandomChance? then Draws(r.chance(level)) else DamageRule(tags, ctx)(r)
  }

  /** `entity_requirements_state`. */
  function EntityRule(tags: Tags, e: Entity, level: int): (rule: Rule)
  {
    (r: Requirement) =>
      match r
      case EntityProperties(This, p) => Fixed(PredicateMatchesEntity(tags, p, e))
      case RandomChance(chance) => Draws(chance(level))
      case _ => Fixed(None)
  }

  /** `matches_item_context`. */
  function ItemRule(tags: Tags, item: string): (rule: Rule)
  {
    (r: Requirement) =>
      if r.MatchTool? then
        Fixed(Some(match r.items
                   case None => true
                   case Some(ItemTag(tag)) => tags(item, tag)
                   case Some(DirectItems(items)) => item in items))
      else Fixed(None)
  }

  // ----- What the leaves decide -----

  /** A condition on a player: decided for anything that is no player, and for players it can look at. */
  lemma PlayerVerdictIsExact(p: PlayerPredicate, player: Option<PlayerInfo>)
    ensures PlayerMatches(p, player) == None <==> player.Some? && p.unsupported
    ensures PlayerMatches(p, player) == Some(true) <==>
            && player.Some? && !p.unsupported
            && (p.gameModes == [] || player.value.gameMode in p.gameModes)
            && (p.foodLevelMin.Some? ==> p.foodLevelMin.value <= player.value.foodLevel)
  {
  }

  /** The flags that a predicate asks for are those of the entity. */
  predicate FlagsAgree(f: FlagsPredicate, e: Entity)
  {
    && (f.isFallFlying == None || f.isFallFlying == Some(e.fallFlying))
    && (f.isInWater == None || f.isInWater == Some(e.inWater))
  }

  /** What is said of the kind of entity beyond its type. */
  function SpecificVerdict(s: TypeSpecific, player: Option<PlayerInfo>): (r: Option<bool>)
  {
    match s
    case AnySpecific => Some(true)
    case UnsupportedSpecific => None
    case PlayerSpecific(p) => PlayerMatches(p, player)
  }

  /** A condition on an entity: true exactly when every part of it is, open exactly when an unsupported part is met. */
  lemma EntityVerdictIsExact(tags: Tags, p: EntityPredicate, e: Entity)
    ensures PredicateMatchesEntity(tags, p, e) == Some(true) <==>
            && !p.unsupported && !p.flags.unsupported && p.vehicle != UnsupportedVehicle
            && TypeMatches(tags, p.entityType, e.entityType) == Some(true)
            && (p.vehicle == VehiclePresent ==> e.hasVehicle)
            && FlagsAgree(p.flags, e)
            && SpecificVerdict(p.typeSpecific, e.player) == Some(true)
    ensures PredicateMatchesEntity(tags, p, e) == None <==>
            || p.unsupported || p.entityType == UnsupportedType
            || (&& TypeMatches(tags, p.entityType, e.entityType) == Some(true)
                && (|| p.vehicle == UnsupportedVehicle
                    || (&& (p.vehicle == VehiclePresent ==> e.hasVehicle)
                        && (|| p.flags.unsupported
                            || (FlagsAgree(p.flags, e) && SpecificVerdict(p.typeSpecific, e.player) == None)))))
  {
  }

  /** A condition on an entity of which only the type is known. */
  lemma TypeVerdictIsExact(tags: Tags, p: EntityPredicate, key: string)
    ensures var open := p.unsupported || p.vehicle != AnyVehicle || p.flags.unsupported
                        || p.flags.isFallFlying != None || p.flags.isInWater != None
                        || p.entityType == UnsupportedType;
            && (PredicateMatchesType(tags, p, key) == Some(true) <==>
                  && !open && TypeMatches(tags, p.entityType, key) == Some(true)
                  && (|| p.typeSpecific == AnySpecific
                      || (key == PLAYER && p.typeSpecific == PlayerSpecific(PlayerPredicate([], None, false)))))
            && (PredicateMatchesType(tags, p, key) == Some(false) <==>
                  && !open
                  && (|| TypeMatches(tags, p.entityType, key) == Some(false)
                      || (p.typeSpecific.PlayerSpecific? && key != PLAYER)))
    ensures TypeMatches(tags, p.entityType, key) == Some(true) <==>
            p.entityType == AnyType || p.entityType == TypeIs(key)
            || (p.entityType.TypeTag? && tags(key, p.entityType.tag))
  {
  }

  /** A condition on the damage: the tags asked for are there, those ruled out are not, and directness agrees. */
  lemma SourceVerdictIsExact(p: DamageSourcePredicate, source: DamageSource)
    ensures SourceMatches(p, source) <==>
            && (forall tag | (tag, true) in p.tags :: tag in source.tags)
            && (forall tag | (tag, false) in p.tags :: tag !in source.tags)
            && (p.isDirect == None || p.isDirect == Some(source.isDirect))
  {
    if (forall tag | (tag, true) in p.tags :: tag in source.tags)
       && (forall tag | (tag, false) in p.tags :: tag !in source.tags) {
      forall i | 0 <= i < |p.tags| ensures (p.tags[i].0 in source.tags) == p.tags[i].1 {
        assert p.tags[i] == (p.tags[i].0, p.tags[i].1) && p.tags[i] in p.tags;
      }
    }
  }

  /** Which leaves each evaluator knows about, and which one draws. */
  lemma EvaluatorsKnowExactly(tags: Tags, ctx: Context, e: Entity, item: string, level: int, leaf: Requirement)
    requires !leaf.AllOf? && !leaf.AnyOf? && !leaf.Inverted?
    ensures DamageRule(tags, ctx)(leaf) ==
            Fixed(if leaf.DamageSourceProperties? then Some(SourceMatches(leaf.source, ctx.source))
                  else if leaf.EntityProperties? && leaf.entity == This then
                    PredicateMatchesType(tags, leaf.matching, ctx.thisType)
                  else if leaf.EntityProperties? && leaf.entity == Attacker && ctx.attackerType.Some? then
                    PredicateMatchesType(tags, leaf.matching, ctx.attackerType.value)
                  else if leaf.EntityProperties? && leaf.entity == DirectAttacker && ctx.directType.Some? then
                    PredicateMatchesType(tags, leaf.matching, ctx.directType.value)
                  else None)
    ensures PostAttackRule(tags, ctx, level)(leaf) ==
            if leaf.RandomChance? then Draws(leaf.chance(level)) else DamageRule(tags, ctx)(leaf)
    ensures EntityRule(tags, e, level)(leaf) ==
            if leaf.RandomChance? then Draws(leaf.chance(level))
            else if leaf.EntityProperties? && leaf.entity == This then
              Fixed(PredicateMatchesEntity(tags, leaf.matching, e))
            else Fixed(None)
    ensures ItemRule(tags, item)(leaf) ==
            Fixed(if !leaf.MatchTool? then None
                  else if leaf.items == None then Some(true)
                  else if leaf.items.value.ItemTag? then Some(tags(item, leaf.items.value.tag))
                  else Some(item in leaf.items.value.items))
  {
  }

  /** The random generator, as the numbers it will give. */
  type Generator = nat -> real

  function Invert(v: Option<bool>): (r: Option<bool>)
  {
    if v.Some? then Some(!v.value) else None
  }

  /** The verdict of one evaluator and the generator's position afterwards. */
  ghost function Eval(rule: Rule, req: Requirement, draws: Generator, pos: nat): (r: (Option<bool>, nat))
    decreases req, 1
  {
    match req
    case AllOf(terms) => EvalTerms(rule, terms, draws, pos, false, true)
    case AnyOf(terms) => EvalTerms(rule, terms, draws, pos, false, false)
    case Inverted(term) => var (v, end) := Eval(rule, term, draws, pos); (Invert(v), end)
    case _ =>
      match rule(req)
      case Fixed(known) => (known, pos)
      case Draws(bound) => (Some(draws(pos) < bound), pos + 1)
  }

  /** The rest of a term list: `neutral` is the verdict that does not settle it. */
  ghost function EvalTerms(
    rule: Rule, terms: seq<Requirement>, draws: Generator, pos: nat, hasUnknown: bool, neutral: bool)
    : (r: (Option<bool>, nat))
    decreases terms, 0
  {
    if terms == [] then (if hasUnknown then None else Some(neutral), pos)
    else
      var (v, end) := Eval(rule, terms[0], draws, pos);
      if v == Some(!neutral) then (v, end)
      else EvalTerms(rule, terms[1..], draws, end, hasUnknown || v.None?, neutral)
  }

  /** The evaluators themselves: one body, as the source repeats it for each of them. */
  method Evaluate(rule: Rule, req: Requirement, draws: Generator, pos: nat) returns (verdict: Option<bool>, end: nat)
    ensures (verdict, end) == Eval(rule, req, draws, pos)
    decreases req, 1
  {
    match req
    case AllOf(terms) => verdict, end := EvaluateTerms(rule, terms, draws, pos, true);
    case AnyOf(terms) => verdict, end := EvaluateTerms(rule, terms, draws, pos, false);
    case Inverted(term) =>
      verdict, end := Evaluate(rule, term, draws, pos);
      verdict := Invert(verdict);
    case _ =>
      match rule(req) {
        case Fixed(known) => verdict, end := known, pos;
        case Draws(bound) => verdict, end := Some(draws(pos) < bound), pos + 1;
      }
  }

  method EvaluateTerms(rule: Rule, terms: seq<Requirement>, draws: Generator, pos: nat, neutral: bool)
    returns (verdict: Option<bool>, end: nat)
    ensures (verdict, end) == EvalTerms(rule, terms, draws, pos, false, neutral)
    decreases terms, 0
  {
    var hasUnknown := false;
    end := pos;
    for i := 0 to |terms|
      invariant EvalTerms(rule, terms, draws, pos, false, neutral)
             == EvalTerms(rule, terms[i..], draws, end, hasUnknown, neutral)
    {
      assert terms[i..][1..] == terms[i + 1..];
      verdict, end := Evaluate(rule, terms[i], draws, end);
      if verdict == Some(!neutral) {
        return;
      }
      if verdict.None? {
        hasUnknown := true;
      }
    }
    verdict := if hasUnknown then None else Some(neutral);
  }

  // ----- Strong Kleene logic -----

  /** A requirement with its leaves replaced by what is known of them. */
  datatype Term = Leaf(known: Option<bool>) | All(terms: seq<Term>) | Any(terms: seq<Term>) | Not(term: Term)

  /** Three-valued truth, without any order of evaluation. */
  ghost function Kleene(t: Term): (v: Option<bool>)
  {
    match t
    case Leaf(known) => known
    case Not(term) => Invert(Kleene(term))
    case All(terms) =>
      if exists x :: x in terms && Kleene(x) == Some(false) then Some(false)
      else if exists x :: x in terms && Kleene(x) == None then None
      else Some(true)
    case Any(terms) =>
      if exists x :: x in terms && Kleene(x) == Some(true) then Some(true)
      else if exists x :: x in terms && Kleene(x) == None then None
      else Some(false)
  }

  /** Two-valued truth of a term without unknown leaves. */
  ghost predicate Holds(t: Term)
  {
    match t
    case Leaf(known) => known == Some(true)
    case Not(term) => !Holds(term)
    case All(terms) => forall x | x in terms :: Holds(x)
    case Any(terms) => exists x | x in terms :: Holds(x)
  }

  /** `c` knows everything that `t` knows, leaf by leaf. */
  ghost predicate Refines(c: Term, t: Term)
    decreases t
  {
    match t
    case Leaf(known) => c.Leaf? && (known.Some? ==> c.known == known)
    case Not(term) => c.Not? && Refines(c.term, term)
    case All(terms) => c.All? && |c.terms| == |terms| && forall i | 0 <= i < |terms| :: Refines(c.terms[i], terms[i])
    case Any(terms) => c.Any? && |c.terms| == |terms| && forall i | 0 <= i < |terms| :: Refines(c.terms[i], terms[i])
  }

  /** No leaf is left unknown. */
  ghost predicate Complete(t: Term)
  {
    match t
    case Leaf(known) => known.Some?
    case Not(term) => Complete(term)
    case All(terms) => forall x | x in terms :: Complete(x)
    case Any(terms) => forall x | x in terms :: Complete(x)
  }

  lemma {:induction false} CompleteIsDecided(t: Term)
    requires Complete(t)
    ensures Kleene(t) == Some(Holds(t))
  {
    match t
    case Leaf(known) => assert known == Some(known.value); if known.value { } else { }
    case Not(term) => CompleteIsDecided(term);
    case All(terms) => forall x | x in terms ensures Kleene(x) == Some(Holds(x)) { CompleteIsDecided(x); }
    case Any(terms) => forall x | x in terms ensures Kleene(x) == Some(Holds(x)) { CompleteIsDecided(x); }
  }

  /** Knowing more never changes a verdict that has been reached. */
  lemma {:induction false} KnowledgeIsMonotone(c: Term, t: Term)
    requires Refines(c, t) && Kleene(t).Some?
    ensures Kleene(c) == Kleene(t)
    decreases t
  {
    match t
    case Leaf(_) =>
    case Not(term) => KnowledgeIsMonotone(c.term, term);
    case All(terms) => TermsAreMonotone(c.terms, terms);
    case Any(terms) => TermsAreMonotone(c.terms, terms);
  }

  lemma {:induction false} TermsAreMonotone(cs: seq<Term>, ts: seq<Term>)
    requires |cs| == |ts| && forall i | 0 <= i < |ts| :: Refines(cs[i], ts[i])
    ensures forall i | 0 <= i < |ts| :: Kleene(ts[i]).Some? ==> Kleene(cs[i]) == Kleene(ts[i])
    decreases ts
  {
    forall i | 0 <= i < |ts| && Kleene(ts[i]).Some? ensures Kleene(cs[i]) == Kleene(ts[i]) {
      KnowledgeIsMonotone(cs[i], ts[i]);
    }
  }

  /** A completion of `t` that makes an undecided `t` come out as `want`. */
  ghost function Choose(t: Term, want: bool): (c: Term)
  {
    match t
    case Leaf(known) => if known.Some? then t else Leaf(Some(want))
    case Not(term) => Not(Choose(term, !want))
    case All(terms) => All(seq(|terms|, i requires 0 <= i < |terms| => Choose(terms[i], want)))
    case Any(terms) => Any(seq(|terms|, i requires 0 <= i < |terms| => Choose(terms[i], want)))
  }

  lemma {:induction false} ChooseCompletes(t: Term, want: bool)
    ensures Refines(Choose(t, want), t) && Complete(Choose(t, want))
    ensures Kleene(t).None? ==> Holds(Choose(t, want)) == want
  {
    match t
    case Leaf(_) =>
    case Not(term) => ChooseCompletes(term, !want);
    case All(terms) => ChooseTerms(terms, want);
    case Any(terms) => ChooseTerms(terms, want);
  }

  lemma {:induction false} ChooseTerms(ts: seq<Term>, want: bool)
    ensures var cs := seq(|ts|, i requires 0 <= i < |ts| => Choose(ts[i], want));
            && (forall i | 0 <= i < |ts| :: Refines(cs[i], ts[i]) && Complete(cs[i]))
            && (forall i | 0 <= i < |ts| :: Holds(cs[i]) == if Kleene(ts[i]).None? then want else Kleene(ts[i]).value)
    decreases ts
  {
    forall i | 0 <= i < |ts|
      ensures var c := Choose(ts[i], want);
              && Refines(c, ts[i]) && Complete(c)
              && Holds(c) == if Kleene(ts[i]).None? then want else Kleene(ts[i]).value
    {
      var c := Choose(ts[i], want);
      ChooseCompletes(ts[i], want);
      CompleteIsDecided(c);
      if Kleene(ts[i]).Some? {
        KnowledgeIsMonotone(c, ts[i]);
      }
    }
  }

  /**
    A verdict is reached exactly when every completion of the unknown leaves agrees on it: decided
    verdicts are sound, and nothing that could have been decided is left open.
   */
  lemma DecidedIffAllCompletionsAgree(t: Term, b: bool)
    ensures Kleene(t) == Some(b) <==> forall c | Refines(c, t) && Complete(c) :: Holds(c) == b
  {
    if Kleene(t) == Some(b) {
      forall c | Refines(c, t) && Complete(c) ensures Holds(c) == b {
        KnowledgeIsMonotone(c, t);
        CompleteIsDecided(c);
      }
    } else {
      var c := Choose(t, !b);
      ChooseCompletes(t, !b);
      if Kleene(t).Some? {
        KnowledgeIsMonotone(c, t);
        CompleteIsDecided(c);
      }
      assert Refines(c, t) && Complete(c) && Holds(c) != b;
    }
  }

  // ----- What the evaluators compute -----

  /** The requirement as an evaluator knows it before drawing anything. */
  ghost function Skeleton(rule: Rule, req: Requirement): (t: Term)
  {
    match req
    case AllOf(terms) => All(seq(|terms|, i requires 0 <= i < |terms| => Skeleton(rule, terms[i])))
    case AnyOf(terms) => Any(seq(|terms|, i requires 0 <= i < |terms| => Skeleton(rule, terms[i])))
    case Inverted(term) => Not(Skeleton(rule, term))
    case _ => Leaf(Known(rule, req))
  }

  /** The requirement with some answer at each leaf that draws, and nothing else changed. */
  ghost predicate DrawnFrom(t: Term, rule: Rule, req: Requirement)
    decreases req
  {
    match req
    case AllOf(terms) =>
      t.All? && |t.terms| == |terms| && forall i | 0 <= i < |terms| :: DrawnFrom(t.terms[i], rule, terms[i])
    case AnyOf(terms) =>
      t.Any? && |t.terms| == |terms| && forall i | 0 <= i < |terms| :: DrawnFrom(t.terms[i], rule, terms[i])
    case Inverted(term) => t.Not? && DrawnFrom(t.term, rule, term)
    case _ => t.Leaf? && (rule(req).Fixed? ==> t.known == rule(req).known)
  }

  lemma {:induction false} SkeletonIsDrawn(rule: Rule, req: Requirement)
    ensures DrawnFrom(Skeleton(rule, req), rule, req)
  {
    match req
    case AllOf(terms) => forall i | 0 <= i < |terms| { SkeletonIsDrawn(rule, terms[i]); }
    case AnyOf(terms) => forall i | 0 <= i < |terms| { SkeletonIsDrawn(rule, terms[i]); }
    case Inverted(term) => SkeletonIsDrawn(rule, term);
    case _ =>
  }

  lemma {:induction false} DrawnRefinesSkeleton(t: Term, rule: Rule, req: Requirement)
    requires DrawnFrom(t, rule, req)
    ensures Refines(t, Skeleton(rule, req))
    decreases req
  {
    match req
    case AllOf(terms) => forall i | 0 <= i < |terms| { DrawnRefinesSkeleton(t.terms[i], rule, terms[i]); }
    case AnyOf(terms) => forall i | 0 <= i < |terms| { DrawnRefinesSkeleton(t.terms[i], rule, terms[i]); }
    case Inverted(term) => DrawnRefinesSkeleton(t.term, rule, term);
    case _ =>
  }

  /** Three-valued truth of a list whose earlier terms were neutral or, if `hasUnknown`, unknown. */
  ghost function KleeneTerms(ts: seq<Term>, hasUnknown: bool, neutral: bool): (v: Option<bool>)
  {
    if exists x :: x in ts && Kleene(x) == Some(!neutral) then Some(!neutral)
    else if hasUnknown || exists x :: x in ts && Kleene(x) == None then None
    else Some(neutral)
  }

  lemma KleeneTermsCons(t: Term, ts: seq<Term>, hasUnknown: bool, neutral: bool)
    ensures KleeneTerms([t] + ts, hasUnknown, neutral)
         == if Kleene(t) == Some(!neutral) then Some(!neutral)
            else KleeneTerms(ts, hasUnknown || Kleene(t).None?, neutral)
  {
    var all := [t] + ts;
    assert t in all;
    assert forall x :: x in all <==> x == t || x in ts;
  }

  ghost function Skeletons(rule: Rule, terms: seq<Requirement>): (ts: seq<Term>)
    ensures |ts| == |terms|
  {
    seq(|terms|, i requires 0 <= i < |terms| => Skeleton(rule, terms[i]))
  }

  /**
    `t` is what an evaluation makes of the tree: lists are evaluated from the left up to the first
    term that decides them, every leaf met that way is looked up or drawn for, and everything behind
    is left as it was.
   */
  ghost predicate Evaluated(t: Term, rule: Rule, req: Requirement)
    decreases req, 1
  {
    match req
    case AllOf(terms) => t.All? && EvaluatedList(t.terms, rule, terms, true)
    case AnyOf(terms) => t.Any? && EvaluatedList(t.terms, rule, terms, false)
    case Inverted(term) => t.Not? && Evaluated(t.term, rule, term)
    case _ => t.Leaf? && if rule(req).Fixed? then t.known == rule(req).known else t.known.Some?
  }

  ghost predicate EvaluatedList(ts: seq<Term>, rule: Rule, terms: seq<Requirement>, neutral: bool)
    decreases terms, 0
  {
    if terms == [] then ts == []
    else
      && |ts| == |terms| && Evaluated(ts[0], rule, terms[0])
      && if Kleene(ts[0]) == Some(!neutral) then ts[1..] == Skeletons(rule, terms[1..])
         else EvaluatedList(ts[1..], rule, terms[1..], neutral)
  }

  /** The answers drawn for, from left to right, each with the bound that its leaf drew below. */
  ghost function Drawn(t: Term, rule: Rule, req: Requirement): (d: seq<(real, bool)>)
    decreases req, 1
  {
    match req
    case AllOf(terms) => if t.All? then DrawnList(t.terms, rule, terms) else []
    case AnyOf(terms) => if t.Any? then DrawnList(t.terms, rule, terms) else []
    case Inverted(term) => if t.Not? then Drawn(t.term, rule, term) else []
    case _ => if rule(req).Draws? && t.Leaf? && t.known.Some? then [(rule(req).bound, t.known.value)] else []
  }

  ghost function DrawnList(ts: seq<Term>, rule: Rule, terms: seq<Requirement>): (d: seq<(real, bool)>)
    decreases terms, 0
  {
    if terms == [] || ts == [] then [] else Drawn(ts[0], rule, terms[0]) + DrawnList(ts[1..], rule, terms[1..])
  }

  /** The answers are those of consecutive numbers of the generator: a number below the bound is a yes. */
  ghost predicate Answered(d: seq<(real, bool)>, draws: Generator, pos: nat, end: nat)
  {
    pos + |d| == end && forall i | 0 <= i < |d| :: d[i].1 == (draws(pos + i) < d[i].0)
  }

  lemma AnsweredJoin(c: seq<(real, bool)>, d: seq<(real, bool)>, draws: Generator, pos: nat, mid: nat, end: nat)
    requires Answered(c, draws, pos, mid) && Answered(d, draws, mid, end)
    ensures Answered(c + d, draws, pos, end)
  {
    forall i | 0 <= i < |c + d| ensures (c + d)[i].1 == (draws(pos + i) < (c + d)[i].0) {
      if i >= |c| {
        assert (c + d)[i] == d[i - |c|] && pos + i == mid + (i - |c|);
      }
    }
  }

  lemma {:induction false} SkeletonDrawsNothing(rule: Rule, req: Requirement)
    ensures Drawn(Skeleton(rule, req), rule, req) == []
    decreases req, 1
  {
    match req
    case AllOf(terms) => SkeletonsDrawNothing(rule, terms);
    case AnyOf(terms) => SkeletonsDrawNothing(rule, terms);
    case Inverted(term) => SkeletonDrawsNothing(rule, term);
    case _ =>
  }

  lemma {:induction false} SkeletonsDrawNothing(rule: Rule, terms: seq<Requirement>)
    ensures DrawnList(Skeletons(rule, terms), rule, terms) == []
    decreases terms, 0
  {
    if terms != [] {
      SkeletonDrawsNothing(rule, terms[0]);
      SkeletonsDrawNothing(rule, terms[1..]);
      assert Skeletons(rule, terms)[1..] == Skeletons(rule, terms[1..]);
    }
  }

  lemma {:induction false} EvaluatedIsDrawn(t: Term, rule: Rule, req: Requirement)
    requires Evaluated(t, rule, req)
    ensures DrawnFrom(t, rule, req)
    decreases req, 1
  {
    match req
    case AllOf(terms) => EvaluatedListIsDrawn(t.terms, rule, terms, true);
    case AnyOf(terms) => EvaluatedListIsDrawn(t.terms, rule, terms, false);
    case Inverted(term) => EvaluatedIsDrawn(t.term, rule, term);
    case _ =>
  }

  lemma {:induction false} EvaluatedListIsDrawn(ts: seq<Term>, rule: Rule, terms: seq<Requirement>, neutral: bool)
    requires EvaluatedList(ts, rule, terms, neutral)
    ensures |ts| == |terms| && forall i | 0 <= i < |terms| :: DrawnFrom(ts[i], rule, terms[i])
    decreases terms, 0
  {
    if terms != [] {
      EvaluatedIsDrawn(ts[0], rule, terms[0]);
      if Kleene(ts[0]) == Some(!neutral) {
        forall i | 0 <= i < |terms| - 1 ensures DrawnFrom(ts[1..][i], rule, terms[1..][i]) {
          SkeletonIsDrawn(rule, terms[1..][i]);
        }
      } else {
        EvaluatedListIsDrawn(ts[1..], rule, terms[1..], neutral);
      }
      hide DrawnFrom;
      forall i | 0 <= i < |terms| ensures DrawnFrom(ts[i], rule, terms[i]) {
        if i > 0 {
          assert ts[i] == ts[1..][i - 1] && terms[i] == terms[1..][i - 1];
        }
      }
    }
  }

  /**
    The early-return evaluation is strong Kleene logic on the tree with its draws filled in: the
    verdict is that of the tree evaluated from the left, and the generator's numbers, from where it
    stood to where it is left, are the answers at the leaves that draw.
   */
  lemma {:induction false} EvaluationIsKleene(rule: Rule, req: Requirement, draws: Generator, pos: nat)
    returns (t: Term)
    ensures Evaluated(t, rule, req) && DrawnFrom(t, rule, req)
    ensures Kleene(t) == Eval(rule, req, draws, pos).0
    ensures Answered(Drawn(t, rule, req), draws, pos, Eval(rule, req, draws, pos).1)
    decreases req, 2
  {
    t := EvaluationExists(rule, req, draws, pos);
    EvaluatedIsDrawn(t, rule, req);
  }

  lemma {:induction false} EvaluationExists(rule: Rule, req: Requirement, draws: Generator, pos: nat)
    returns (t: Term)
    ensures Evaluated(t, rule, req) && Kleene(t) == Eval(rule, req, draws, pos).0
    ensures Answered(Drawn(t, rule, req), draws, pos, Eval(rule, req, draws, pos).1)
    decreases req, 1
  {
    match req
    case AllOf(terms) =>
      var ts := TermsAreKleene(rule, terms, draws, pos, false, true);
      t := All(ts);
    case AnyOf(terms) =>
      var ts := TermsAreKleene(rule, terms, draws, pos, false, false);
      t := Any(ts);
    case Inverted(term) =>
      var u := EvaluationExists(rule, term, draws, pos);
      t := Not(u);
    case _ =>
      t := Leaf(Eval(rule, req, draws, pos).0);
  }

  lemma {:induction false} TermsAreKleene(
    rule: Rule, terms: seq<Requirement>, draws: Generator, pos: nat, hasUnknown: bool, neutral: bool)
    returns (ts: seq<Term>)
    ensures EvaluatedList(ts, rule, terms, neutral)
    ensures var r := EvalTerms(rule, terms, draws, pos, hasUnknown, neutral);
            KleeneTerms(ts, hasUnknown, neutral) == r.0 && Answered(DrawnList(ts, rule, terms), draws, pos, r.1)
    decreases terms, 0
  {
    if terms == [] {
      ts := [];
    } else {
      var t := EvaluationExists(rule, terms[0], draws, pos);
      hide Kleene, Eval, Evaluated, Drawn, KleeneTerms;
      var (v, end) := Eval(rule, terms[0], draws, pos);
      var rest: seq<Term>;
      if v == Some(!neutral) {
        rest := Skeletons(rule, terms[1..]);
        SkeletonsDrawNothing(rule, terms[1..]);
        assert Drawn(t, rule, terms[0]) + [] == Drawn(t, rule, terms[0]);
      } else {
        rest := TermsAreKleene(rule, terms[1..], draws, end, hasUnknown || v.None?, neutral);
        EvaluatedListLength(rest, rule, terms[1..], neutral);
        AnsweredJoin(Drawn(t, rule, terms[0]), DrawnList(rest, rule, terms[1..]), draws, pos, end,
          EvalTerms(rule, terms[1..], draws, end, hasUnknown || v.None?, neutral).1);
      }
      KleeneTermsCons(t, rest, hasUnknown, neutral);
      ts := [t] + rest;
      assert ts[1..] == rest;
    }
  }

  lemma EvaluatedListLength(ts: seq<Term>, rule: Rule, terms: seq<Requirement>, neutral: bool)
    requires EvaluatedList(ts, rule, terms, neutral)
    ensures |ts| == |terms|
  {
  }

  // ----- Chances that leave no doubt -----

  /** The answer to a chance that is no matter of luck. */
  function SureAnswer(bound: real): (known: Option<bool>)
  {
    if bound >= 1.0 then Some(true) else if bound <= 0.0 then Some(false) else None
  }

  /** Every leaf that draws for a sure chance has the sure answer. */
  ghost predicate SureLeaves(t: Term, rule: Rule, req: Requirement)
    decreases req
  {
    match req
    case AllOf(terms) =>
      t.All? && |t.terms| == |terms| && forall i | 0 <= i < |terms| :: SureLeaves(t.terms[i], rule, terms[i])
    case AnyOf(terms) =>
      t.Any? && |t.terms| == |terms| && forall i | 0 <= i < |terms| :: SureLeaves(t.terms[i], rule, terms[i])
    case Inverted(term) => t.Not? && SureLeaves(t.term, rule, term)
    case _ =>
      t.Leaf? && (rule(req).Draws? && SureAnswer(rule(req).bound).Some? ==> t.known == SureAnswer(rule(req).bound))
  }

  /** The sure answers filled in where nothing was drawn. */
  ghost function FillSure(t: Term, rule: Rule, req: Requirement): (r: Term)
    requires DrawnFrom(t, rule, req)
    decreases req
  {
    match req
    case AllOf(terms) =>
      All(seq(|terms|, i requires 0 <= i < |terms| => FillSure(t.terms[i], rule, terms[i])))
    case AnyOf(terms) =>
      Any(seq(|terms|, i requires 0 <= i < |terms| => FillSure(t.terms[i], rule, terms[i])))
    case Inverted(term) => Not(FillSure(t.term, rule, term))
    case _ => if rule(req).Draws? && t.known.None? then Leaf(SureAnswer(rule(req).bound)) else t
  }

  /** Answers that are what a sure chance gives. */
  ghost predicate SureAnswers(d: seq<(real, bool)>)
  {
    forall i | 0 <= i < |d| :: SureAnswer(d[i].0).Some? ==> SureAnswer(d[i].0) == Some(d[i].1)
  }

  lemma SureAnswersSplit(c: seq<(real, bool)>, d: seq<(real, bool)>)
    requires SureAnswers(c + d)
    ensures SureAnswers(c) && SureAnswers(d)
  {
    assert forall i | 0 <= i < |c| :: (c + d)[i] == c[i];
    assert forall i | 0 <= i < |d| :: (c + d)[|c| + i] == d[i];
  }

  lemma {:induction false} FilledLeavesAreSure(t: Term, rule: Rule, req: Requirement)
    requires DrawnFrom(t, rule, req) && SureAnswers(Drawn(t, rule, req))
    ensures SureLeaves(FillSure(t, rule, req), rule, req) && DrawnFrom(FillSure(t, rule, req), rule, req)
    decreases req, 1
  {
    match req
    case AllOf(terms) => FilledListIsSure(t.terms, rule, terms);
    case AnyOf(terms) => FilledListIsSure(t.terms, rule, terms);
    case Inverted(term) => FilledLeavesAreSure(t.term, rule, term);
    case _ =>
      if rule(req).Draws? && t.known.Some? {
        assert Drawn(t, rule, req)[0] == (rule(req).bound, t.known.value);
      }
  }

  lemma {:induction false} FilledListIsSure(ts: seq<Term>, rule: Rule, terms: seq<Requirement>)
    requires |ts| == |terms| && forall i | 0 <= i < |terms| :: DrawnFrom(ts[i], rule, terms[i])
    requires SureAnswers(DrawnList(ts, rule, terms))
    ensures forall i | 0 <= i < |terms| ::
              SureLeaves(FillSure(ts[i], rule, terms[i]), rule, terms[i])
              && DrawnFrom(FillSure(ts[i], rule, terms[i]), rule, terms[i])
    decreases terms, 0
  {
    if terms != [] {
      SureAnswersSplit(Drawn(ts[0], rule, terms[0]), DrawnList(ts[1..], rule, terms[1..]));
      FilledLeavesAreSure(ts[0], rule, terms[0]);
      FilledListIsSure(ts[1..], rule, terms[1..]);
      hide SureLeaves, DrawnFrom, FillSure;
      forall i | 0 <= i < |terms|
        ensures SureLeaves(FillSure(ts[i], rule, terms[i]), rule, terms[i])
                && DrawnFrom(FillSure(ts[i], rule, terms[i]), rule, terms[i])
      {
        if i > 0 {
          assert ts[i] == ts[1..][i - 1] && terms[i] == terms[1..][i - 1];
        }
      }
    }
  }

  /** Filling in what was not reached changes no verdict. */
  lemma {:induction false} FillingKeepsVerdict(t: Term, rule: Rule, req: Requirement)
    requires Evaluated(t, rule, req) && DrawnFrom(t, rule, req)
    ensures Kleene(FillSure(t, rule, req)) == Kleene(t)
    decreases req, 1
  {
    match req
    case AllOf(terms) => FillingKeepsList(t.terms, rule, terms, true, false);
    case AnyOf(terms) => FillingKeepsList(t.terms, rule, terms, false, false);
    case Inverted(term) => FillingKeepsVerdict(t.term, rule, term);
    case _ =>
  }

  ghost function FillSureAll(ts: seq<Term>, rule: Rule, terms: seq<Requirement>): (r: seq<Term>)
    requires |ts| == |terms| && forall i | 0 <= i < |terms| :: DrawnFrom(ts[i], rule, terms[i])
  {
    seq(|terms|, i requires 0 <= i < |terms| => FillSure(ts[i], rule, terms[i]))
  }

  lemma {:induction false} FillingKeepsList(
    ts: seq<Term>, rule: Rule, terms: seq<Requirement>, neutral: bool, hasUnknown: bool)
    requires EvaluatedList(ts, rule, terms, neutral)
    requires |ts| == |terms| && forall i | 0 <= i < |terms| :: DrawnFrom(ts[i], rule, terms[i])
    ensures KleeneTerms(FillSureAll(ts, rule, terms), hasUnknown, neutral) == KleeneTerms(ts, hasUnknown, neutral)
    decreases terms, 0
  {
    if terms != [] {
      FillingKeepsVerdict(ts[0], rule, terms[0]);
      var us := FillSureAll(ts, rule, terms);
      if Kleene(ts[0]) != Some(!neutral) {
        FillingKeepsList(ts[1..], rule, terms[1..], neutral, hasUnknown || Kleene(ts[0]).None?);
        assert us[1..] == FillSureAll(ts[1..], rule, terms[1..]);
      }
      hide Kleene, FillSure, Evaluated, EvaluatedList, DrawnFrom;
      KleeneTermsCons(ts[0], ts[1..], hasUnknown, neutral);
      KleeneTermsCons(us[0], us[1..], hasUnknown, neutral);
      assert ts == [ts[0]] + ts[1..] && us == [us[0]] + us[1..];
    }
  }

  /**
    With draws from 0 up to but excluding 1, a leaf whose chance is at least 1 may be taken for a
    known yes, and one whose chance is at most 0 for a known no, reached or not: the verdict is that
    of a tree with those answers.
   */
  lemma SureChancesAreKnown(rule: Rule, req: Requirement, draws: Generator, pos: nat) returns (t: Term)
    requires forall n :: 0.0 <= draws(n) < 1.0
    ensures DrawnFrom(t, rule, req) && SureLeaves(t, rule, req)
    ensures Kleene(t) == Eval(rule, req, draws, pos).0
  {
    var u := EvaluationIsKleene(rule, req, draws, pos);
    assert SureAnswers(Drawn(u, rule, req));
    FilledLeavesAreSure(u, rule, req);
    FillingKeepsVerdict(u, rule, req);
    t := FillSure(u, rule, req);
  }

  /** An evaluator that never draws computes the Kleene verdict, and leaves the generator alone. */
  lemma {:induction false} DrawlessIsKleene(rule: Rule, req: Requirement, draws: Generator, pos: nat)
    requires forall r :: rule(r).Fixed?
    ensures Eval(rule, req, draws, pos) == (Kleene(Skeleton(rule, req)), pos)
    decreases req, 1
  {
    match req
    case AllOf(terms) => DrawlessTerms(rule, terms, draws, pos, false, true);
    case AnyOf(terms) => DrawlessTerms(rule, terms, draws, pos, false, false);
    case Inverted(term) => DrawlessIsKleene(rule, term, draws, pos);
    case _ =>
  }

  lemma {:induction false} DrawlessTerms(
    rule: Rule, terms: seq<Requirement>, draws: Generator, pos: nat, hasUnknown: bool, neutral: bool)
    requires forall r :: rule(r).Fixed?
    ensures var ts := seq(|terms|, i requires 0 <= i < |terms| => Skeleton(rule, terms[i]));
            EvalTerms(rule, terms, draws, pos, hasUnknown, neutral) == (KleeneTerms(ts, hasUnknown, neutral), pos)
    decreases terms, 0
  {
    var ts := seq(|terms|, i requires 0 <= i < |terms| => Skeleton(rule, terms[i]));
    if terms != [] {
      DrawlessIsKleene(rule, terms[0], draws, pos);
      var unknown := hasUnknown || Kleene(ts[0]).None?;
      DrawlessTerms(rule, terms[1..], draws, pos, unknown, neutral);
      assert ts[1..] == seq(|terms[1..]|, i requires 0 <= i < |terms[1..]| => Skeleton(rule, terms[1..][i]));
      KleeneTermsCons(ts[0], ts[1..], hasUnknown, neutral);
      assert ts == [ts[0]] + ts[1..];
    }
  }

  /**
    `requirements_state` decides exactly when all completions agree, each occurrence of an unknown
    leaf being completed on its own.
   */
  lemma DamageVerdictIsSoundAndComplete(
    tags: Tags, ctx: Context, req: Requirement, draws: Generator, pos: nat, b: bool)
    ensures var rule := DamageRule(tags, ctx);
            Eval(rule, req, draws, pos).0 == Some(b)
            <==> forall c | Refines(c, Skeleton(rule, req)) && Complete(c) :: Holds(c) == b
  {
    var rule := DamageRule(tags, ctx);
    DrawlessIsKleene(rule, req, draws, pos);
    DecidedIffAllCompletionsAgree(Skeleton(rule, req), b);
  }

  /** So does `matches_item_context`, which knows the item and nothing else. */
  lemma ItemVerdictIsSoundAndComplete(
    tags: Tags, item: string, req: Requirement, draws: Generator, pos: nat, b: bool)
    ensures var rule := ItemRule(tags, item);
            Eval(rule, req, draws, pos).0 == Some(b)
            <==> forall c | Refines(c, Skeleton(rule, req)) && Complete(c) :: Holds(c) == b
  {
    var rule := ItemRule(tags, item);
    DrawlessIsKleene(rule, req, draws, pos);
    DecidedIffAllCompletionsAgree(Skeleton(rule, req), b);
  }

  // ----- The facts themselves -----

  /** The truth of every condition, the same wherever the condition occurs. */
  type Facts = Requirement -> bool

  ghost predicate Truth(facts: Facts, req: Requirement)
  {
    match req
    case AllOf(terms) => forall i | 0 <= i < |terms| :: Truth(facts, terms[i])
    case AnyOf(terms) => exists i | 0 <= i < |terms| :: Truth(facts, terms[i])
    case Inverted(term) => !Truth(facts, term)
    case _ => facts(req)
  }

  /** What an evaluator knows of a leaf before drawing. */
  function Known(rule: Rule, leaf: Requirement): (known: Option<bool>)
  {
    if rule(leaf).Fixed? then rule(leaf).known else None
  }

  /** The facts are as the evaluator knows them. */
  ghost predicate Agrees(facts: Facts, rule: Rule)
  {
    forall r :: Known(rule, r).Some? ==> facts(r) == Known(rule, r).value
  }

  /** The requirement completed with the facts. */
  ghost function Filled(facts: Facts, req: Requirement): (t: Term)
  {
    match req
    case AllOf(terms) => All(seq(|terms|, i requires 0 <= i < |terms| => Filled(facts, terms[i])))
    case AnyOf(terms) => Any(seq(|terms|, i requires 0 <= i < |terms| => Filled(facts, terms[i])))
    case Inverted(term) => Not(Filled(facts, term))
    case _ => Leaf(Some(facts(req)))
  }

  lemma {:induction false} FilledIsACompletion(facts: Facts, rule: Rule, req: Requirement)
    requires Agrees(facts, rule)
    ensures Refines(Filled(facts, req), Skeleton(rule, req)) && Complete(Filled(facts, req))
    ensures Holds(Filled(facts, req)) == Truth(facts, req)
  {
    match req
    case AllOf(terms) => FilledTerms(facts, rule, terms);
    case AnyOf(terms) => FilledTerms(facts, rule, terms);
    case Inverted(term) => FilledIsACompletion(facts, rule, term);
    case _ =>
  }

  lemma {:induction false} FilledTerms(facts: Facts, rule: Rule, terms: seq<Requirement>)
    requires Agrees(facts, rule)
    ensures var ts := seq(|terms|, i requires 0 <= i < |terms| => Filled(facts, terms[i]));
            && (forall i | 0 <= i < |terms| :: Refines(ts[i], Skeleton(rule, terms[i])) && Complete(ts[i]))
            && ((forall x | x in ts :: Holds(x)) <==> forall i | 0 <= i < |terms| :: Truth(facts, terms[i]))
            && ((exists x | x in ts :: Holds(x)) <==> exists i | 0 <= i < |terms| :: Truth(facts, terms[i]))
    decreases terms
  {
    var ts := seq(|terms|, i requires 0 <= i < |terms| => Filled(facts, terms[i]));
    forall i | 0 <= i < |terms|
      ensures Refines(ts[i], Skeleton(rule, terms[i])) && Complete(ts[i]) && Holds(ts[i]) == Truth(facts, terms[i])
    {
      FilledIsACompletion(facts, rule, terms[i]);
    }
    SameTruths(facts, terms, ts);
  }

  /** A verdict without draws is the truth under all facts that agree with what was known. */
  lemma VerdictHoldsOfTheFacts(rule: Rule, req: Requirement, draws: Generator, pos: nat, facts: Facts)
    requires (forall r :: rule(r).Fixed?) && Agrees(facts, rule)
    ensures var verdict := Eval(rule, req, draws, pos).0; verdict.Some? ==> verdict.value == Truth(facts, req)
  {
    DrawlessIsKleene(rule, req, draws, pos);
    FilledIsACompletion(facts, rule, req);
    if Kleene(Skeleton(rule, req)).Some? {
      KnowledgeIsMonotone(Filled(facts, req), Skeleton(rule, req));
      CompleteIsDecided(Filled(facts, req));
    }
  }

  /** An unknown condition occurs in the tree, under an even (`positive`) or odd number of inversions. */
  ghost predicate Occurs(rule: Rule, req: Requirement, leaf: Requirement, positive: bool)
    decreases req
  {
    match req
    case AllOf(terms) => exists i | 0 <= i < |terms| :: Occurs(rule, terms[i], leaf, positive)
    case AnyOf(terms) => exists i | 0 <= i < |terms| :: Occurs(rule, terms[i], leaf, positive)
    case Inverted(term) => Occurs(rule, term, leaf, !positive)
    case _ => req == leaf && positive && Known(rule, req).None?
  }

  /** No unknown condition occurs both plain and inverted. */
  ghost predicate OneSided(rule: Rule, req: Requirement)
  {
    forall leaf :: !(Occurs(rule, req, leaf, true) && Occurs(rule, req, leaf, false))
  }

  /** The unknown conditions of a tree are as they have to be for it to come out as `want`. */
  ghost predicate Favours(rule: Rule, facts: Facts, req: Requirement, want: bool)
  {
    forall leaf, positive | Occurs(rule, req, leaf, positive) :: facts(leaf) == (if positive then want else !want)
  }

  lemma {:induction false} FavourableFacts(rule: Rule, facts: Facts, req: Requirement, want: bool)
    requires Agrees(facts, rule) && Favours(rule, facts, req, want)
    ensures Truth(facts, req) == Holds(Choose(Skeleton(rule, req), want))
  {
    match req
    case AllOf(terms) => FavourableTerms(rule, facts, req, terms, want);
    case AnyOf(terms) => FavourableTerms(rule, facts, req, terms, want);
    case Inverted(term) =>
      assert Favours(rule, facts, term, !want) by {
        assert forall leaf, positive :: Occurs(rule, term, leaf, positive) ==> Occurs(rule, req, leaf, !positive);
      }
      FavourableFacts(rule, facts, term, !want);
    case _ =>
      if Known(rule, req).None? {
        assert Occurs(rule, req, req, true);
      }
  }

  lemma {:induction false} FavourableTerms(
    rule: Rule, facts: Facts, req: Requirement, terms: seq<Requirement>, want: bool)
    requires req == AllOf(terms) || req == AnyOf(terms)
    requires Agrees(facts, rule) && Favours(rule, facts, req, want)
    ensures var cs := Choose(Skeleton(rule, req), want).terms;
            && ((forall i | 0 <= i < |terms| :: Truth(facts, terms[i])) <==> forall x | x in cs :: Holds(x))
            && ((exists i | 0 <= i < |terms| :: Truth(facts, terms[i])) <==> exists x | x in cs :: Holds(x))
    decreases terms
  {
    var cs := Choose(Skeleton(rule, req), want).terms;
    assert |cs| == |terms|;
    forall i | 0 <= i < |terms| ensures Truth(facts, terms[i]) == Holds(cs[i]) {
      assert forall leaf, positive :: Occurs(rule, terms[i], leaf, positive) ==> Occurs(rule, req, leaf, positive);
      FavourableFacts(rule, facts, terms[i], want);
    }
    SameTruths(facts, terms, cs);
  }

  lemma SameTruths(facts: Facts, terms: seq<Requirement>, ts: seq<Term>)
    requires |ts| == |terms| && forall i | 0 <= i < |terms| :: Truth(facts, terms[i]) == Holds(ts[i])
    ensures (forall i | 0 <= i < |terms| :: Truth(facts, terms[i])) <==> forall x | x in ts :: Holds(x)
    ensures (exists i | 0 <= i < |terms| :: Truth(facts, terms[i])) <==> exists x | x in ts :: Holds(x)
  {
    hide Holds, Truth;
    forall x | x in ts ensures exists i | 0 <= i < |terms| :: ts[i] == x && Truth(facts, terms[i]) == Holds(x) {
      var i :| 0 <= i < |ts| && ts[i] == x;
      assert Truth(facts, terms[i]) == Holds(ts[i]);
    }
    forall i | 0 <= i < |terms| ensures ts[i] in ts && Holds(ts[i]) == Truth(facts, terms[i]) {}
  }

  /**
    When no unknown condition occurs both plain and inverted, nothing that the facts leave no choice
    about is left open: the verdict is reached exactly when all facts that agree give it.
   */
  lemma OneSidedVerdictIsExact(rule: Rule, req: Requirement, draws: Generator, pos: nat, b: bool)
    requires (forall r :: rule(r).Fixed?) && OneSided(rule, req)
    ensures Eval(rule, req, draws, pos).0 == Some(b) <==> forall facts | Agrees(facts, rule) :: Truth(facts, req) == b
  {
    if Eval(rule, req, draws, pos).0 == Some(b) {
      forall facts | Agrees(facts, rule) ensures Truth(facts, req) == b {
        VerdictHoldsOfTheFacts(rule, req, draws, pos, facts);
      }
    } else {
      var facts: Facts := (r: Requirement) =>
        if Known(rule, r).Some? then Known(rule, r).value else if Occurs(rule, req, r, true) then !b else b;
      assert Agrees(facts, rule);
      OccursUnknown(rule, req);
      FavourableFacts(rule, facts, req, !b);
      DrawlessIsKleene(rule, req, draws, pos);
      var t := Skeleton(rule, req);
      ChooseCompletes(t, !b);
      if Kleene(t).Some? {
        KnowledgeIsMonotone(Choose(t, !b), t);
        CompleteIsDecided(Choose(t, !b));
      }
      assert Truth(facts, req) != b;
    }
  }

  lemma {:induction false} OccursUnknown(rule: Rule, req: Requirement)
    ensures forall leaf, positive | Occurs(rule, req, leaf, positive) :: Known(rule, leaf).None?
  {
    match req
    case AllOf(terms) => forall i | 0 <= i < |terms| { OccursUnknown(rule, terms[i]); }
    case AnyOf(terms) => forall i | 0 <= i < |terms| { OccursUnknown(rule, terms[i]); }
    case Inverted(term) => OccursUnknown(rule, term);
    case _ =>
  }

  /** Otherwise it can be left open: a condition or its inverse is true whatever the facts, and not decided. */
  lemma ExcludedMiddleStaysOpen(tags: Tags, ctx: Context, p: EntityPredicate, draws: Generator, pos: nat, facts: Facts)
    requires ctx.attackerType.None?
    ensures var x := EntityProperties(Attacker, p);
            var req := AnyOf([x, Inverted(x)]);
            Eval(DamageRule(tags, ctx), req, draws, pos).0 == None && Truth(facts, req)
  {
    var rule := DamageRule(tags, ctx);
    var x := EntityProperties(Attacker, p);
    var terms := [x, Inverted(x)];
    assert Eval(rule, x, draws, pos) == (None, pos);
    assert terms[1..] == [Inverted(x)] && [Inverted(x)][1..] == [];
    assert EvalTerms(rule, [Inverted(x)], draws, pos, true, false) == EvalTerms(rule, [], draws, pos, true, false);
    assert Truth(facts, terms[0]) || Truth(facts, terms[1]);
  }

  // ----- The order of terms -----

  /** The same requirement up to the order of terms, in the lists of every depth. */
  ghost predicate Reordered(r: Requirement, s: Requirement)
    decreases r, 1
  {
    match r
    case AllOf(terms) => s.AllOf? && TermsReordered(terms, s.terms)
    case AnyOf(terms) => s.AnyOf? && TermsReordered(terms, s.terms)
    case Inverted(term) => s.Inverted? && Reordered(term, s.term)
    case _ => s == r
  }

  ghost predicate TermsReordered(rs: seq<Requirement>, ss: seq<Requirement>)
    decreases rs, 0
  {
    if rs == [] then ss == []
    else exists j :: 0 <= j < |ss| && Reordered(rs[0], ss[j]) && TermsReordered(rs[1..], DropAt(ss, j))
  }

  ghost function DropAt<T>(s: seq<T>, j: nat): (r: seq<T>)
    requires j < |s|
  {
    s[..j] + s[j + 1..]
  }

  lemma DropAtMembers<T>(s: seq<T>, j: nat)
    requires j < |s|
    ensures forall x :: x in s <==> x == s[j] || x in DropAt(s, j)
    ensures multiset(s) == multiset{s[j]} + multiset(DropAt(s, j))
  {
    assert s == s[..j] + [s[j]] + s[j + 1..];
  }

  /** Some term has the given three-valued truth. */
  ghost predicate SomeTerm(rule: Rule, terms: seq<Requirement>, v: Option<bool>)
  {
    exists r :: r in terms && Kleene(Skeleton(rule, r)) == v
  }

  lemma SomeTermCons(rule: Rule, first: Requirement, rest: seq<Requirement>, all: seq<Requirement>, v: Option<bool>)
    requires forall x :: x in all <==> x == first || x in rest
    ensures SomeTerm(rule, all, v) <==> Kleene(Skeleton(rule, first)) == v || SomeTerm(rule, rest, v)
  {
    hide Kleene, Skeleton;
    if SomeTerm(rule, rest, v) {
      var r :| r in rest && Kleene(Skeleton(rule, r)) == v;
      assert r in all;
    }
    assert first in all;
  }

  /** A list's verdict depends only on which truth values occur among its terms. */
  lemma ListVerdict(rule: Rule, terms: seq<Requirement>)
    ensures Kleene(Skeleton(rule, AllOf(terms))) ==
            if SomeTerm(rule, terms, Some(false)) then Some(false)
            else if SomeTerm(rule, terms, None) then None else Some(true)
    ensures Kleene(Skeleton(rule, AnyOf(terms))) ==
            if SomeTerm(rule, terms, Some(true)) then Some(true)
            else if SomeTerm(rule, terms, None) then None else Some(false)
  {
    var ts := Skeleton(rule, AllOf(terms)).terms;
    assert Skeleton(rule, AnyOf(terms)).terms == ts;
    forall v: Option<bool> ensures SomeTerm(rule, terms, v) <==> exists x :: x in ts && Kleene(x) == v {
      if SomeTerm(rule, terms, v) {
        var r :| r in terms && Kleene(Skeleton(rule, r)) == v;
        var i :| 0 <= i < |terms| && terms[i] == r;
        assert ts[i] in ts;
      }
      if x :| x in ts && Kleene(x) == v {
        var i :| 0 <= i < |ts| && ts[i] == x;
        assert terms[i] in terms;
      }
    }
  }

  /** Three-valued truth does not depend on the order of terms, at any depth. */
  lemma {:induction false} OrderDoesNotMatter(rule: Rule, r: Requirement, s: Requirement)
    requires Reordered(r, s)
    ensures Kleene(Skeleton(rule, r)) == Kleene(Skeleton(rule, s))
    decreases r, 1
  {
    match r
    case AllOf(terms) =>
      TermOrderDoesNotMatter(rule, terms, s.terms);
      ListVerdict(rule, terms);
      ListVerdict(rule, s.terms);
    case AnyOf(terms) =>
      TermOrderDoesNotMatter(rule, terms, s.terms);
      ListVerdict(rule, terms);
      ListVerdict(rule, s.terms);
    case Inverted(term) => OrderDoesNotMatter(rule, term, s.term);
    case _ =>
  }

  lemma {:induction false} TermOrderDoesNotMatter(rule: Rule, rs: seq<Requirement>, ss: seq<Requirement>)
    requires TermsReordered(rs, ss)
    ensures forall v :: SomeTerm(rule, rs, v) <==> SomeTerm(rule, ss, v)
    decreases rs, 0
  {
    hide Kleene, Skeleton, Reordered;
    if rs != [] {
      var j :| 0 <= j < |ss| && Reordered(rs[0], ss[j]) && TermsReordered(rs[1..], DropAt(ss, j));
      OrderDoesNotMatter(rule, rs[0], ss[j]);
      TermOrderDoesNotMatter(rule, rs[1..], DropAt(ss, j));
      DropAtMembers(ss, j);
      forall v ensures SomeTerm(rule, rs, v) <==> SomeTerm(rule, ss, v) {
        SomeTermCons(rule, rs[0], rs[1..], rs, v);
        SomeTermCons(rule, ss[j], DropAt(ss, j), ss, v);
      }
    }
  }

  lemma {:induction false} ReorderedIsReflexive(r: Requirement)
    ensures Reordered(r, r)
    decreases r, 1
  {
    match r
    case AllOf(terms) => TermsReorderedIsReflexive(terms);
    case AnyOf(terms) => TermsReorderedIsReflexive(terms);
    case Inverted(term) => ReorderedIsReflexive(term);
    case _ =>
  }

  lemma {:induction false} TermsReorderedIsReflexive(rs: seq<Requirement>)
    ensures TermsReordered(rs, rs)
    decreases rs, 0
  {
    if rs != [] {
      ReorderedIsReflexive(rs[0]);
      TermsReorderedIsReflexive(rs[1..]);
      assert DropAt(rs, 0) == rs[1..];
    }
  }

  lemma DropFirst<T>(rs: seq<T>, ss: seq<T>, j: nat)
    requires rs != [] && j < |ss| && ss[j] == rs[0] && multiset(rs) == multiset(ss)
    ensures multiset(rs[1..]) == multiset(DropAt(ss, j))
  {
    DropAtMembers(ss, j);
    assert rs == [rs[0]] + rs[1..];
    assert multiset(rs) == multiset{rs[0]} + multiset(rs[1..]);
    assert multiset(rs[1..]) == multiset(rs) - multiset{rs[0]} == multiset(DropAt(ss, j));
  }

  /** Every permutation of a list of terms is a reordering. */
  lemma {:induction false} PermutationsAreReorderings(rs: seq<Requirement>, ss: seq<Requirement>)
    requires multiset(rs) == multiset(ss)
    ensures TermsReordered(rs, ss)
    decreases |rs|
  {
    if rs == [] {
      assert multiset(rs) == multiset{};
      assert forall x :: x in ss ==> x in multiset(ss);
    } else {
      assert rs[0] in multiset(ss);
      var j :| 0 <= j < |ss| && ss[j] == rs[0];
      DropFirst(rs, ss, j);
      hide Reordered, DropAt;
      ReorderedIsReflexive(rs[0]);
      PermutationsAreReorderings(rs[1..], DropAt(ss, j));
    }
  }

  /** The verdict of `requirements_state` does not depend on the order of terms, at any depth. */
  lemma DamageVerdictIgnoresOrder(
    tags: Tags, ctx: Context, r: Requirement, s: Requirement, draws: Generator, pos: nat)
    requires Reordered(r, s)
    ensures Eval(DamageRule(tags, ctx), r, draws, pos) == Eval(DamageRule(tags, ctx), s, draws, pos)
  {
    var rule := DamageRule(tags, ctx);
    DrawlessIsKleene(rule, r, draws, pos);
    DrawlessIsKleene(rule, s, draws, pos);
    OrderDoesNotMatter(rule, r, s);
  }

  /**
    The random evaluator refines the deterministic one: whatever `requirements_state` decides,
    `requirements_state_with_random` decides the same way at every level and for all draws.
   */
  lemma RandomRefinesDeterministic(
    tags: Tags, ctx: Context, req: Requirement, level: int, draws: Generator, pos: nat)
    ensures var verdict := Eval(DamageRule(tags, ctx), req, draws, pos).0;
            verdict.Some? ==> Eval(PostAttackRule(tags, ctx, level), req, draws, pos).0 == verdict
  {
    var det, ran := DamageRule(tags, ctx), PostAttackRule(tags, ctx, level);
    DrawlessIsKleene(det, req, draws, pos);
    SameSkeleton(tags, ctx, level, req);
    var t := EvaluationIsKleene(ran, req, draws, pos);
    DrawnRefinesSkeleton(t, ran, req);
    if Kleene(Skeleton(det, req)).Some? {
      KnowledgeIsMonotone(t, Skeleton(ran, req));
    }
  }

  lemma {:induction false} SameSkeleton(tags: Tags, ctx: Context, level: int, req: Requirement)
    ensures Skeleton(DamageRule(tags, ctx), req) == Skeleton(PostAttackRule(tags, ctx, level), req)
  {
    match req
    case AllOf(terms) => forall i | 0 <= i < |terms| { SameSkeleton(tags, ctx, level, terms[i]); }
    case AnyOf(terms) => forall i | 0 <= i < |terms| { SameSkeleton(tags, ctx, level, terms[i]); }
    case Inverted(term) => SameSkeleton(tags, ctx, level, term);
    case _ =>
  }

  // ----- Evaluators that know different things -----

  /** Two views of one tree that nowhere contradict each other. */
  ghost predicate Compatible(t: Term, u: Term)
    decreases t
  {
    match t
    case Leaf(known) => u.Leaf? && (known.Some? && u.known.Some? ==> known == u.known)
    case Not(term) => u.Not? && Compatible(term, u.term)
    case All(terms) => u.All? && |u.terms| == |terms| && forall i | 0 <= i < |terms| :: Compatible(terms[i], u.terms[i])
    case Any(terms) => u.Any? && |u.terms| == |terms| && forall i | 0 <= i < |terms| :: Compatible(terms[i], u.terms[i])
  }

  /** Everything that either view knows. */
  ghost function Merge(t: Term, u: Term): (m: Term)
    requires Compatible(t, u)
    decreases t
  {
    match t
    case Leaf(known) => if known.Some? then t else u
    case Not(term) => Not(Merge(term, u.term))
    case All(terms) => All(seq(|terms|, i requires 0 <= i < |terms| => Merge(terms[i], u.terms[i])))
    case Any(terms) => Any(seq(|terms|, i requires 0 <= i < |terms| => Merge(terms[i], u.terms[i])))
  }

  lemma {:induction false} MergeRefinesBoth(t: Term, u: Term)
    requires Compatible(t, u)
    ensures Refines(Merge(t, u), t) && Refines(Merge(t, u), u)
    decreases t
  {
    match t
    case Leaf(_) =>
    case Not(term) => MergeRefinesBoth(term, u.term);
    case All(terms) => forall i | 0 <= i < |terms| { MergeRefinesBoth(terms[i], u.terms[i]); }
    case Any(terms) => forall i | 0 <= i < |terms| { MergeRefinesBoth(terms[i], u.terms[i]); }
  }

  /** A verdict reached from the type alone is the verdict for the entity itself. */
  lemma TypeVerdictHoldsForEntity(tags: Tags, p: EntityPredicate, e: Entity)
    requires e.Valid() && PredicateMatchesType(tags, p, e.entityType).Some?
    ensures PredicateMatchesEntity(tags, p, e) == PredicateMatchesType(tags, p, e.entityType)
  {
  }

  lemma {:induction false} DamageAndEntityAreCompatible(
    tags: Tags, ctx: Context, e: Entity, level: int, req: Requirement, t: Term)
    requires e.Valid() && ctx.thisType == e.entityType
    requires DrawnFrom(t, EntityRule(tags, e, level), req)
    ensures Compatible(Skeleton(DamageRule(tags, ctx), req), t)
    decreases req
  {
    match req
    case AllOf(terms) =>
      forall i | 0 <= i < |terms| { DamageAndEntityAreCompatible(tags, ctx, e, level, terms[i], t.terms[i]); }
    case AnyOf(terms) =>
      forall i | 0 <= i < |terms| { DamageAndEntityAreCompatible(tags, ctx, e, level, terms[i], t.terms[i]); }
    case Inverted(term) => DamageAndEntityAreCompatible(tags, ctx, e, level, term, t.term);
    case EntityProperties(target, p) =>
      if target == This && PredicateMatchesType(tags, p, e.entityType).Some? {
        TypeVerdictHoldsForEntity(tags, p, e);
      }
    case _ =>
  }

  /**
    `requirements_state`, which sees only types and the damage, and `entity_requirements_state`,
    which sees the whole entity and draws, never contradict each other on any requirement.
   */
  lemma EvaluatorsNeverContradict(
    tags: Tags, ctx: Context, e: Entity, level: int, req: Requirement, draws: Generator, pos: nat)
    requires e.Valid() && ctx.thisType == e.entityType
    ensures var a := Eval(DamageRule(tags, ctx), req, draws, pos).0;
            var b := Eval(EntityRule(tags, e, level), req, draws, pos).0;
            a.Some? && b.Some? ==> a == b
  {
    var rule := DamageRule(tags, ctx);
    DrawlessIsKleene(rule, req, draws, pos);
    var s := Skeleton(rule, req);
    var t := EvaluationIsKleene(EntityRule(tags, e, level), req, draws, pos);
    DamageAndEntityAreCompatible(tags, ctx, e, level, req, t);
    MergeRefinesBoth(s, t);
    if Kleene(s).Some? && Kleene(t).Some? {
      KnowledgeIsMonotone(Merge(s, t), s);
      KnowledgeIsMonotone(Merge(s, t), t);
    }
  }
}
