/**
  Item stacks: the components of an item prototype under a patch of changes, which is kept minimal
  so that patches can be compared instead of component maps.
 */
module ItemStacks {
  import opened Bytes

  datatype Key = Key(namespace: string, path: string)

  datatype Value = Value(data: string)

  type Components = map<Key, Value>

  datatype Entry = Set(value: Value) | Removed

  type Patch = map<Key, Entry>

  datatype Item = Item(key: Key, components: Components)

  /** Registered items, one for each key; air stands for the empty stack. */
  datatype Registry = Registry(items: map<Key, Item>, air: Item)
  {
    ghost predicate Valid()
    {
      && (forall k | k in items :: items[k].key == k)
      && air.key in items && items[air.key] == air
    }

    function ByKey(k: Key): (r: Option<Item>)
    {
      if k in items then Some(items[k]) else None
    }

    ghost predicate Has(item: Item)
    {
      item.key in items && items[item.key] == item
    }
  }

  // ----- The overlay -----

  function Lookup(proto: Components, patch: Patch, k: Key): (r: Option<Value>)
  {
    if k in patch then (if patch[k].Set? then Some(patch[k].value) else None)
    else if k in proto then Some(proto[k]) else None
  }

  /** The components that a stack has, prototype and patch together. */
  ghost function Effective(proto: Components, patch: Patch): (r: Components)
    ensures forall k :: Lookup(proto, patch, k) == if k in r then Some(r[k]) else None
  {
    map k | k in proto.Keys + patch.Keys && Lookup(proto, patch, k).Some? :: Lookup(proto, patch, k).value
  }

  /** No entry repeats the prototype or removes what is not there. */
  ghost predicate Minimal(proto: Components, patch: Patch)
  {
    forall k | k in patch ::
      match patch[k]
      case Set(v) => !(k in proto && proto[k] == v)
      case Removed => k in proto
  }

  /** `sanitize_against`. */
  function Sanitize(proto: Components, patch: Patch): (r: Patch)
  {
    map k | k in patch &&
            (if patch[k].Set? then !(k in proto && proto[k] == patch[k].value) else k in proto) :: patch[k]
  }

  /** Sanitizing makes a patch minimal without changing what the stack has. */
  lemma SanitizeKeepsComponents(proto: Components, patch: Patch)
    ensures Minimal(proto, Sanitize(proto, patch))
    ensures Effective(proto, Sanitize(proto, patch)) == Effective(proto, patch)
  {
    var a, b := Effective(proto, Sanitize(proto, patch)), Effective(proto, patch);
    forall k ensures (k in a <==> k in b) && (k in a ==> a[k] == b[k]) {
      assert Lookup(proto, Sanitize(proto, patch), k) == Lookup(proto, patch, k);
    }
  }

  /** A minimal patch is determined by what the stack has. */
  lemma MinimalPatchIsUnique(proto: Components, a: Patch, b: Patch)
    requires Minimal(proto, a) && Minimal(proto, b)
    ensures Effective(proto, a) == Effective(proto, b) <==> a == b
  {
    if Effective(proto, a) == Effective(proto, b) {
      var e := Effective(proto, a);
      forall k ensures (k in a <==> k in b) && (k in a && k in b ==> a[k] == b[k]) {
        assert Lookup(proto, a, k) == Lookup(proto, b, k);
      }
    }
  }

  // ----- Operations as values -----

  datatype Op = SetOp(k: Key, v: Value) | RemoveOp(k: Key) | ClearOp(k: Key) | ChangeItem(found: Option<Item>)

  function SetPatch(proto: Components, patch: Patch, k: Key, v: Value): (r: Patch)
  {
    if k in proto && proto[k] == v then patch - {k} else patch[k := Set(v)]
  }

  function RemovePatch(proto: Components, patch: Patch, k: Key): (r: Patch)
  {
    if k in proto then patch[k := Removed] else patch - {k}
  }

  function Apply(item: Item, patch: Patch, op: Op): (r: (Item, Patch))
  {
    match op
    case SetOp(k, v) => (item, SetPatch(item.components, patch, k, v))
    case RemoveOp(k) => (item, RemovePatch(item.components, patch, k))
    case ClearOp(k) => (item, patch - {k})
    case ChangeItem(found) =>
      if found.Some? then (found.value, Sanitize(found.value.components, patch)) else (item, patch)
  }

  /** What each operation does to the components that the stack has. */
  ghost function Meaning(item: Item, patch: Patch, op: Op): (r: Components)
  {
    var before := Effective(item.components, patch);
    match op
    case SetOp(k, v) => before[k := v]
    case RemoveOp(k) => before - {k}
    case ClearOp(k) => if k in item.components then before[k := item.components[k]] else before - {k}
    case ChangeItem(found) => if found.Some? then Effective(found.value.components, patch) else before
  }

  lemma SameLookupsSameMap(proto: Components, patch: Patch, m: Components)
    requires forall k :: Lookup(proto, patch, k) == if k in m then Some(m[k]) else None
    ensures Effective(proto, patch) == m
  {
    var e := Effective(proto, patch);
    assert forall k :: (k in e <==> k in m) && (k in e ==> e[k] == m[k]) by {
      forall k ensures (k in e <==> k in m) && (k in e ==> e[k] == m[k]) {
        assert Lookup(proto, patch, k) == if k in e then Some(e[k]) else None;
      }
    }
  }

  /** Every operation keeps the patch minimal and does to the components what it says. */
  lemma ApplyDoesWhatItMeans(item: Item, patch: Patch, op: Op)
    requires Minimal(item.components, patch)
    ensures var (i, p) := Apply(item, patch, op);
            Minimal(i.components, p) && Effective(i.components, p) == Meaning(item, patch, op)
  {
    var (i, p) := Apply(item, patch, op);
    if op.ChangeItem? {
      if op.found.Some? {
        SanitizeKeepsComponents(op.found.value.components, patch);
      }
    } else {
      SameLookupsSameMap(i.components, p, Meaning(item, patch, op));
    }
  }

  ghost function Run(item: Item, patch: Patch, ops: seq<Op>): (r: (Item, Patch))
    decreases |ops|
  {
    if ops == [] then (item, patch)
    else var (i, p) := Apply(item, patch, ops[0]); Run(i, p, ops[1..])
  }

  /** Whatever is done to a stack after its construction, its patch stays minimal. */
  lemma {:induction false} PatchStaysMinimal(item: Item, patch: Patch, ops: seq<Op>)
    ensures var (i, p) := Run(item, Sanitize(item.components, patch), ops); Minimal(i.components, p)
  {
    SanitizeKeepsComponents(item.components, patch);
    RunKeepsMinimal(item, Sanitize(item.components, patch), ops);
  }

  lemma {:induction false} RunKeepsMinimal(item: Item, patch: Patch, ops: seq<Op>)
    requires Minimal(item.components, patch)
    ensures var (i, p) := Run(item, patch, ops); Minimal(i.components, p)
    decreases |ops|
  {
    hide Minimal, Apply;
    if ops != [] {
      ApplyDoesWhatItMeans(item, patch, ops[0]);
      var (i, p) := Apply(item, patch, ops[0]);
      RunKeepsMinimal(i, p, ops[1..]);
    }
  }

  /**
    Stacks of one item that have been changed in any way whatever have the same components exactly
    when their patches are equal.
   */
  lemma PatchEqualityIsComponentEquality(
    a: Item, patchA: Patch, opsA: seq<Op>, b: Item, patchB: Patch, opsB: seq<Op>)
    requires Run(a, Sanitize(a.components, patchA), opsA).0 == Run(b, Sanitize(b.components, patchB), opsB).0
    ensures var (i, p) := Run(a, Sanitize(a.components, patchA), opsA);
            var (_, q) := Run(b, Sanitize(b.components, patchB), opsB);
            Effective(i.components, p) == Effective(i.components, q) <==> p == q
  {
    hide Run, Sanitize;
    PatchStaysMinimal(a, patchA, opsA);
    PatchStaysMinimal(b, patchB, opsB);
    var (i, p) := Run(a, Sanitize(a.components, patchA), opsA);
    var (_, q) := Run(b, Sanitize(b.components, patchB), opsB);
    MinimalPatchIsUnique(i.components, p, q);
  }

  // ----- The stack -----

  class ItemStack {
    var item: Item
    var count: int
    var patch: Patch

    ghost predicate Valid()
      reads this
    {
      Minimal(item.components, patch)
    }

    ghost function Components(): Components
      reads this
    {
      Effective(item.components, patch)
    }

    constructor (item: Item, count: int, patch: Patch)
      ensures Valid() && this.item == item && this.count == count
      ensures Components() == Effective(item.components, patch)
      ensures this.patch == Sanitize(item.components, patch)
    {
      this.item, this.count := item, count;
      this.patch := Sanitize(item.components, patch);
      SanitizeKeepsComponents(item.components, patch);
    }

    function GetEffectiveValueRaw(k: Key): (r: Option<Value>)
      reads this
      ensures r == if k in Components() then Some(Components()[k]) else None
    {
      Lookup(item.components, patch, k)
    }

    predicate HasComponent(k: Key)
      reads this
      ensures HasComponent(k) <==> k in Components()
    {
      assert Lookup(item.components, patch, k) == if k in Components() then Some(Components()[k]) else None;
      if k in patch then patch[k].Set? else k in item.components
    }

    /** What every mutator promises: the operation's meaning, on the item and components only. */
    twostate predicate Performed(op: Op)
      reads this
    {
      && (item, patch) == Apply(old(item), old(patch), op)
      && Valid() && Components() == Meaning(old(item), old(patch), op)
      && count == old(count)
    }

    method SetComponent(k: Key, v: Value)
      requires Valid()
      modifies this`patch
      ensures Performed(SetOp(k, v))
    {
      ApplyDoesWhatItMeans(item, patch, SetOp(k, v));
      var isDefault := k in item.components && item.components[k] == v;
      if isDefault {
        patch := patch - {k};
      } else {
        patch := patch[k := Set(v)];
      }
    }

    method RemoveComponent(k: Key)
      requires Valid()
      modifies this`patch
      ensures Performed(RemoveOp(k))
    {
      ApplyDoesWhatItMeans(item, patch, RemoveOp(k));
      if k in item.components {
        patch := patch[k := Removed];
      } else {
        patch := patch - {k};
      }
    }

    method ClearComponent(k: Key)
      requires Valid()
      modifies this`patch
      ensures Performed(ClearOp(k))
    {
      ApplyDoesWhatItMeans(item, patch, ClearOp(k));
      patch := patch - {k};
    }

    method SetItem(reg: Registry, newItem: Key)
      requires Valid()
      modifies this`item, this`patch
      ensures Performed(ChangeItem(reg.ByKey(newItem)))
      ensures if newItem in reg.items then item == reg.items[newItem] else item == old(item) && patch == old(patch)
      ensures newItem in reg.items ==> Components() == Effective(reg.items[newItem].components, old(patch))
    {
      var found := reg.ByKey(newItem);
      ApplyDoesWhatItMeans(item, patch, ChangeItem(found));
      if found.Some? {
        item := found.value;
        patch := Sanitize(item.components, patch);
      }
    }

    predicate IsEmpty(reg: Registry)
      reads this
    {
      item == reg.air || count <= 0
    }

    function ItemOf(reg: Registry): (r: Item)
      reads this
    {
      if IsEmpty(reg) then reg.air else item
    }
  }

  // ----- Comparison -----

  predicate IsRemoved(patch: Patch, k: Key)
  {
    k in patch && patch[k] == Removed
  }

  method GatherPrototypeKeys(proto: Components, patch: Patch, before: set<Key>) returns (keys: set<Key>)
    ensures forall k :: k in keys <==> k in before || (k in proto && !IsRemoved(patch, k))
  {
    keys := before;
    var todo := proto.Keys;
    while todo != {}
      invariant todo <= proto.Keys
      invariant forall k :: k in keys <==> k in before || (k in proto && k !in todo && !IsRemoved(patch, k))
      decreases |todo|
    {
      var k :| k in todo;
      if !IsRemoved(patch, k) {
        keys := keys + {k};
      }
      todo := todo - {k};
    }
  }

  method GatherPatchKeys(patch: Patch, before: set<Key>) returns (keys: set<Key>)
    ensures forall k :: k in keys <==> k in before || (k in patch && patch[k].Set?)
  {
    keys := before;
    var todo := patch.Keys;
    while todo != {}
      invariant todo <= patch.Keys
      invariant forall k :: k in keys <==> k in before || (k in patch && k !in todo && patch[k].Set?)
      decreases |todo|
    {
      var k :| k in todo;
      if patch[k].Set? {
        keys := keys + {k};
      }
      todo := todo - {k};
    }
  }

  /** The keys that a stack has, gathered as `components_equal` gathers them. */
  method GatherKeys(s: ItemStack, before: set<Key>) returns (keys: set<Key>)
    ensures keys == before + s.Components().Keys
  {
    keys := GatherPrototypeKeys(s.item.components, s.patch, before);
    keys := GatherPatchKeys(s.patch, keys);
    ghost var e := s.Components();
    forall k ensures k in keys <==> k in before + e.Keys {
      assert Lookup(s.item.components, s.patch, k) == if k in e then Some(e[k]) else None;
    }
  }

  /** Component equality is equality of the components that the stacks have. */
  method ComponentsEqual(a: ItemStack, b: ItemStack) returns (equal: bool)
    ensures equal <==> a.Components() == b.Components()
  {
    var keys := GatherKeys(a, {});
    keys := GatherKeys(b, keys);
    ghost var all := keys;
    while keys != {}
      invariant keys <= all
      invariant forall k | k in all - keys :: a.GetEffectiveValueRaw(k) == b.GetEffectiveValueRaw(k)
      decreases |keys|
    {
      var k :| k in keys;
      if a.GetEffectiveValueRaw(k) != b.GetEffectiveValueRaw(k) {
        return false;
      }
      keys := keys - {k};
    }
    ghost var ca, cb := a.Components(), b.Components();
    forall k | k in ca || k in cb ensures k in ca && k in cb && ca[k] == cb[k] {
      assert k in all && a.GetEffectiveValueRaw(k) == b.GetEffectiveValueRaw(k);
    }
    return true;
  }

  /**
    Two stacks stack together when both are empty, or neither is and they are the same item with
    the same components: an equivalence on stacks of registered items.
   */
  method IsSameItemSameComponents(reg: Registry, a: ItemStack, b: ItemStack) returns (same: bool)
    requires reg.Valid() && reg.Has(a.item) && reg.Has(b.item)
    ensures var emptyA, emptyB := a.item == reg.air || a.count <= 0, b.item == reg.air || b.count <= 0;
            && (emptyA && emptyB ==> same)
            && (emptyA != emptyB ==> !same)
            && (!emptyA && !emptyB ==> (same <==> a.item == b.item && a.Components() == b.Components()))
            && (same && !emptyA && a.Valid() && b.Valid() ==> a.patch == b.patch)
  {
    if a.ItemOf(reg).key != b.ItemOf(reg).key {
      return false;
    }
    if a.IsEmpty(reg) && b.IsEmpty(reg) {
      return true;
    }
    same := ComponentsEqual(a, b);
    if same && a.Valid() && b.Valid() {
      MinimalPatchIsUnique(a.item.components, a.patch, b.patch);
    }
  }
}
