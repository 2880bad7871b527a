/**
  The property multimap of a game profile: a list of properties kept grouped by name, and its
  equality, which ignores the order of the groups but not the order inside one.
 */
module ProfileProperties {
  import opened Bytes

  datatype Property<K, V> = Property(name: K, value: V)

  const MAX_PROPERTIES: nat := 16

  // ----- The multimap that a list stands for -----

  /** The properties of one name, in order. */
  function Named<K(==, !new), V>(ps: seq<Property<K, V>>, name: K): (r: seq<Property<K, V>>)
  {
    if ps == [] then []
    else (if ps[0].name == name then [ps[0]] else []) + Named(ps[1..], name)
  }

  function Without<K(==, !new), V>(ps: seq<Property<K, V>>, name: K): (r: seq<Property<K, V>>)
    ensures |r| <= |ps|
  {
    if ps == [] then []
    else (if ps[0].name == name then [] else [ps[0]]) + Without(ps[1..], name)
  }

  /** Grouping by definition: all of the first name, then the rest grouped. */
  function ByName<K(==, !new), V>(ps: seq<Property<K, V>>): (r: seq<Property<K, V>>)
    decreases |ps|
  {
    if ps == [] then []
    else
      var n := ps[0].name;
      assert |Without(ps, n)| == |Without(ps[1..], n)|;
      Named(ps, n) + ByName(Without(ps, n))
  }

  /** Two lists stand for the same multimap. */
  ghost predicate SameMultimap<K(!new), V>(a: seq<Property<K, V>>, b: seq<Property<K, V>>)
  {
    forall name :: Named(a, name) == Named(b, name)
  }

  /** Equal names stand next to each other. */
  ghost predicate Contiguous<K(!new), V>(ps: seq<Property<K, V>>)
  {
    forall i, j, k | 0 <= i <= j <= k < |ps| && ps[i].name == ps[k].name :: ps[j].name == ps[i].name
  }

  ghost predicate NoneNamed<K(!new), V>(ps: seq<Property<K, V>>, name: K)
  {
    forall i | 0 <= i < |ps| :: ps[i].name != name
  }

  ghost predicate AllNamed<K(!new), V>(ps: seq<Property<K, V>>, name: K)
  {
    forall i | 0 <= i < |ps| :: ps[i].name == name
  }

  // ----- Lists and names -----

  lemma Associative<T>(x: seq<T>, y: seq<T>, z: seq<T>)
    ensures x + (y + z) == x + y + z
  {
  }

  lemma {:induction false} NamedOfSum<K(!new), V>(a: seq<Property<K, V>>, b: seq<Property<K, V>>, name: K)
    ensures Named(a + b, name) == Named(a, name) + Named(b, name)
  {
    if a == [] {
      assert a + b == b;
    } else {
      assert (a + b)[0] == a[0] && (a + b)[1..] == a[1..] + b;
      NamedOfSum(a[1..], b, name);
      Associative(if a[0].name == name then [a[0]] else [], Named(a[1..], name), Named(b, name));
    }
  }

  lemma {:induction false} WithoutOfSum<K(!new), V>(a: seq<Property<K, V>>, b: seq<Property<K, V>>, name: K)
    ensures Without(a + b, name) == Without(a, name) + Without(b, name)
  {
    if a == [] {
      assert a + b == b;
    } else {
      assert (a + b)[0] == a[0] && (a + b)[1..] == a[1..] + b;
      WithoutOfSum(a[1..], b, name);
      Associative(if a[0].name == name then [] else [a[0]], Without(a[1..], name), Without(b, name));
    }
  }

  lemma NamedSplit<K(!new), V>(a: seq<Property<K, V>>, b: seq<Property<K, V>>, name: K)
    ensures Named(a + b, name) == Named(a, name) + Named(b, name)
    ensures Without(a + b, name) == Without(a, name) + Without(b, name)
  {
    NamedOfSum(a, b, name);
    WithoutOfSum(a, b, name);
  }

  lemma {:induction false} NamedOfNone<K(!new), V>(ps: seq<Property<K, V>>, name: K)
    requires NoneNamed(ps, name)
    ensures Named(ps, name) == [] && Without(ps, name) == ps
  {
    if ps != [] {
      NamedOfNone(ps[1..], name);
      assert ps == [ps[0]] + ps[1..];
    }
  }

  lemma {:induction false} NamedOfAll<K(!new), V>(ps: seq<Property<K, V>>, name: K)
    requires AllNamed(ps, name)
    ensures Named(ps, name) == ps && Without(ps, name) == []
  {
    if ps != [] {
      NamedOfAll(ps[1..], name);
      assert ps == [ps[0]] + ps[1..];
    }
  }

  lemma {:induction false} NamedParts<K(!new), V>(ps: seq<Property<K, V>>, name: K)
    ensures AllNamed(Named(ps, name), name) && NoneNamed(Without(ps, name), name)
    ensures |Named(ps, name)| + |Without(ps, name)| == |ps|
  {
    if ps != [] {
      NamedParts(ps[1..], name);
    }
  }

  lemma {:induction false} NamedAfterWithout<K(!new), V>(ps: seq<Property<K, V>>, dropped: K, name: K)
    ensures Named(Without(ps, dropped), name) == if name == dropped then [] else Named(ps, name)
  {
    if ps != [] {
      NamedAfterWithout(ps[1..], dropped, name);
      var rest := Without(ps[1..], dropped);
      if ps[0].name == dropped {
        assert Without(ps, dropped) == rest;
      } else {
        assert ([ps[0]] + rest)[1..] == rest;
      }
    }
  }

  /** Grouping keeps the multimap: every name has the same values in the same order. */
  lemma {:induction false} ByNameKeepsMultimap<K(!new), V>(ps: seq<Property<K, V>>, name: K)
    ensures Named(ByName(ps), name) == Named(ps, name)
    decreases |ps|
  {
    if ps != [] {
      var n := ps[0].name;
      var rest := Without(ps, n);
      assert |rest| == |Without(ps[1..], n)|;
      NamedSplit(Named(ps, n), ByName(rest), name);
      ByNameKeepsMultimap(rest, name);
      NamedAfterWithout(ps, n, name);
      NamedParts(ps, n);
      if name == n {
        NamedOfAll(Named(ps, n), n);
      } else {
        NamedOfNone(Named(ps, n), name);
      }
    }
  }

  lemma NamedEmptyMeansNone<K(!new), V>(ps: seq<Property<K, V>>, name: K)
    ensures Named(ps, name) == [] <==> NoneNamed(ps, name)
  {
    if NoneNamed(ps, name) {
      NamedOfNone(ps, name);
    } else {
      var i :| 0 <= i < |ps| && ps[i].name == name;
      assert ps == ps[..i] + ps[i..];
      NamedSplit(ps[..i], ps[i..], name);
    }
  }

  lemma ByNameOfWithout<K(!new), V>(ps: seq<Property<K, V>>, name: K)
    ensures NoneNamed(ByName(Without(ps, name)), name)
  {
    ByNameKeepsMultimap(Without(ps, name), name);
    NamedAfterWithout(ps, name, name);
    NamedEmptyMeansNone(ByName(Without(ps, name)), name);
  }

  lemma {:induction false} ByNameIsContiguous<K(!new), V>(ps: seq<Property<K, V>>)
    ensures Contiguous(ByName(ps))
    decreases |ps|
  {
    if ps != [] {
      var n := ps[0].name;
      var rest := Without(ps, n);
      assert |rest| == |Without(ps[1..], n)|;
      ByNameIsContiguous(rest);
      NamedParts(ps, n);
      ByNameOfWithout(ps, n);
      ContiguousAppend(Named(ps, n), ByName(rest), n);
    }
  }

  lemma ContiguousAppend<K(!new), V>(run: seq<Property<K, V>>, rest: seq<Property<K, V>>, name: K)
    requires AllNamed(run, name) && NoneNamed(rest, name) && Contiguous(rest)
    ensures Contiguous(run + rest)
  {
    var m := |run|;
    var all := run + rest;
    forall i, j, k | 0 <= i <= j <= k < |all| && all[i].name == all[k].name
      ensures all[j].name == all[i].name
    {
      if i >= m {
        assert all[i] == rest[i - m] && all[j] == rest[j - m] && all[k] == rest[k - m];
      } else {
        assert all[i] == run[i];
        assert k < m;
      }
    }
  }

  /** Grouping a grouped list changes nothing. */
  lemma {:induction false} ByNameIsIdempotent<K(!new), V>(ps: seq<Property<K, V>>)
    ensures ByName(ByName(ps)) == ByName(ps)
    decreases |ps|
  {
    if ps != [] {
      var n := ps[0].name;
      var run := Named(ps, n);
      var rest := Without(ps, n);
      assert |rest| == |Without(ps[1..], n)|;
      ByNameIsIdempotent(rest);
      NamedParts(ps, n);
      ByNameOfWithout(ps, n);
      NamedSplit(run, ByName(rest), n);
      NamedOfAll(run, n);
      NamedOfNone(ByName(rest), n);
      assert (run + ByName(rest))[0] == run[0];
      assert run + [] == run && [] + ByName(rest) == ByName(rest);
    }
  }

  // ----- Grouping as it is done -----

  /** The position after the last property of a name, if there is one. */
  function AfterLast<K(==, !new), V>(ps: seq<Property<K, V>>, name: K): (r: Option<nat>)
    ensures r.Some? ==> 0 < r.value <= |ps| && ps[r.value - 1].name == name && NoneNamed(ps[r.value..], name)
    ensures r.None? ==> NoneNamed(ps, name)
  {
    if ps == [] then None
    else if ps[|ps| - 1].name == name then Some(|ps|)
    else
      var r := AfterLast(ps[..|ps| - 1], name);
      assert r.Some? ==> ps[r.value..] == ps[..|ps| - 1][r.value..] + [ps[|ps| - 1]];
      r
  }

  function Insert<K(==, !new), V>(ps: seq<Property<K, V>>, p: Property<K, V>): (r: seq<Property<K, V>>)
  {
    match AfterLast(ps, p.name)
    case Some(i) => ps[..i] + [p] + ps[i..]
    case None => ps + [p]
  }

  lemma {:induction false} AfterLastIsUnique<K(!new), V>(ps: seq<Property<K, V>>, name: K, i: nat)
    requires 0 < i <= |ps| && ps[i - 1].name == name && NoneNamed(ps[i..], name)
    ensures AfterLast(ps, name) == Some(i)
  {
    var n := |ps| - 1;
    assert forall j | i <= j < |ps| :: ps[j] == ps[i..][j - i];
    if ps[n].name != name {
      assert ps[..n][i..] == ps[i..n];
      AfterLastIsUnique(ps[..n], name, i);
    }
  }

  lemma InsertBehindRun<K(!new), V>(run: seq<Property<K, V>>, rest: seq<Property<K, V>>, p: Property<K, V>)
    requires run != [] && AllNamed(run, p.name) && NoneNamed(rest, p.name)
    ensures Insert(run + rest, p) == run + [p] + rest
  {
    var all := run + rest;
    assert all[..|run|] == run && all[|run|..] == rest;
    AfterLastIsUnique(all, p.name, |run|);
  }

  lemma InsertBeyondRun<K(!new), V>(run: seq<Property<K, V>>, rest: seq<Property<K, V>>, p: Property<K, V>)
    requires NoneNamed(run, p.name)
    ensures Insert(run + rest, p) == run + Insert(rest, p)
  {
    var all := run + rest;
    var m := |run|;
    match AfterLast(rest, p.name)
    case Some(i) =>
      assert all[m + i..] == rest[i..] && all[..m + i] == run + rest[..i];
      AfterLastIsUnique(all, p.name, m + i);
    case None =>
      assert NoneNamed(all, p.name);
  }

  lemma {:induction false} InsertExtendsByName<K(!new), V>(ps: seq<Property<K, V>>, p: Property<K, V>)
    ensures Insert(ByName(ps), p) == ByName(ps + [p])
    decreases |ps|
  {
    if ps == [] {
      assert ps + [p] == [p];
      NamedOfAll([p], p.name);
      assert Without([p], p.name) == [];
    } else {
      var n := ps[0].name;
      var run, rest := Named(ps, n), Without(ps, n);
      assert |rest| == |Without(ps[1..], n)|;
      assert (ps + [p])[0] == ps[0];
      NamedSplit(ps, [p], n);
      NamedParts(ps, n);
      ByNameOfWithout(ps, n);
      if p.name == n {
        NamedOfAll([p], n);
        InsertBehindRun(run, ByName(rest), p);
        assert rest + [] == rest;
      } else {
        NamedOfNone([p], n);
        InsertBeyondRun(run, ByName(rest), p);
        InsertExtendsByName(rest, p);
        assert run + [] == run;
      }
    }
  }

  method InsertProperty<K(==, !new), V>(grouped: seq<Property<K, V>>, p: Property<K, V>)
    returns (r: seq<Property<K, V>>)
    ensures r == Insert(grouped, p)
  {
    var index := AfterLast(grouped, p.name);
    if index.Some? {
      return grouped[..index.value] + [p] + grouped[index.value..];
    }
    return grouped + [p];
  }

  lemma GroupOneMore<K(!new), V>(properties: seq<Property<K, V>>, i: nat)
    requires i < |properties|
    ensures ByName(properties[..i + 1]) == Insert(ByName(properties[..i]), properties[i])
  {
    assert properties[..i + 1] == properties[..i] + [properties[i]];
    hide ByName, Insert;
    InsertExtendsByName(properties[..i], properties[i]);
  }

  method GroupAll<K(==, !new), V>(properties: seq<Property<K, V>>) returns (grouped: seq<Property<K, V>>)
    ensures grouped == ByName(properties)
  {
    grouped := [];
    var i := 0;
    assert ByName(properties[..0]) == [];
    hide ByName, Insert;
    while i < |properties|
      invariant 0 <= i <= |properties|
      invariant grouped == ByName(properties[..i])
    {
      GroupOneMore(properties, i);
      grouped := InsertProperty(grouped, properties[i]);
      i := i + 1;
    }
    assert properties[..i] == properties;
  }

  /** `ProfileProperties::new`: too many properties are refused, and the rest come out grouped. */
  method New<K(==, !new), V>(properties: seq<Property<K, V>>) returns (r: Option<seq<Property<K, V>>>)
    ensures r == if |properties| > MAX_PROPERTIES then None else Some(ByName(properties))
  {
    if |properties| > MAX_PROPERTIES {
      return None;
    }
    var grouped := GroupAll(properties);
    return Some(grouped);
  }

  lemma {:induction false} ByNameLength<K(!new), V>(ps: seq<Property<K, V>>)
    ensures |ByName(ps)| == |ps|
    decreases |ps|
  {
    if ps != [] {
      var n := ps[0].name;
      assert |Without(ps, n)| == |Without(ps[1..], n)|;
      ByNameLength(Without(ps, n));
      NamedParts(ps, n);
    }
  }

  // ----- Equality as it is done -----

  /** `property_group_end`. */
  method PropertyGroupEnd<K(==, !new), V>(ps: seq<Property<K, V>>, start: nat) returns (end: nat)
    requires start <= |ps|
    ensures start == |ps| ==> end == start
    ensures start < |ps| ==>
              && start < end <= |ps|
              && (forall i | start <= i < end :: ps[i].name == ps[start].name)
              && (end < |ps| ==> ps[end].name != ps[start].name)
  {
    if start == |ps| {
      return start;
    }
    end := start + 1;
    while end < |ps| && ps[end].name == ps[start].name
      invariant start < end <= |ps|
      invariant forall i | start <= i < end :: ps[i].name == ps[start].name
    {
      end := end + 1;
    }
  }

  lemma NothingAfterRun<K(!new), V>(ps: seq<Property<K, V>>, start: nat, end: nat)
    requires Contiguous(ps) && start < end <= |ps|
    requires end < |ps| ==> ps[end].name != ps[start].name
    ensures NoneNamed(ps[end..], ps[start].name)
  {
    var n := ps[start].name;
    assert forall i | end <= i < |ps| :: ps[i].name == n ==> ps[end].name == n;
  }

  /** In a contiguous list, a maximal run is all there is of its name. */
  lemma RunIsNamed<K(!new), V>(ps: seq<Property<K, V>>, start: nat, end: nat)
    requires Contiguous(ps) && start < end <= |ps|
    requires forall i | start <= i < end :: ps[i].name == ps[start].name
    requires end < |ps| ==> ps[end].name != ps[start].name
    requires forall i | 0 <= i < start :: ps[i].name != ps[start].name
    ensures Named(ps, ps[start].name) == ps[start..end]
  {
    NothingAfterRun(ps, start, end);
    hide Named, Contiguous;
    ThreeParts(ps, start, end);
    NamedOfParts(ps[..start], ps[start..end], ps[end..], ps[start].name);
  }

  lemma ThreeParts<T>(s: seq<T>, i: nat, j: nat)
    requires i <= j <= |s|
    ensures s[..i] + (s[i..j] + s[j..]) == s
  {
  }

  lemma NamedOfParts<K(!new), V>(
    before: seq<Property<K, V>>, run: seq<Property<K, V>>, after: seq<Property<K, V>>, n: K)
    requires NoneNamed(before, n) && AllNamed(run, n) && NoneNamed(after, n)
    ensures Named(before + (run + after), n) == run
  {
    hide Named;
    NamedOfNone(before, n);
    NamedOfAll(run, n);
    NamedOfNone(after, n);
    NamedSplit(before, run + after, n);
    NamedSplit(run, after, n);
    assert [] + (run + []) == run;
  }

  /** If lengths agree, agreement on one side's names is agreement on all names. */
  lemma {:induction false} LengthsCloseTheGap<K(!new), V>(a: seq<Property<K, V>>, b: seq<Property<K, V>>)
    requires |a| == |b|
    requires forall i | 0 <= i < |a| :: Named(a, a[i].name) == Named(b, a[i].name)
    ensures SameMultimap(a, b)
    decreases |a|
  {
    if a == [] {
      assert a == b;
    } else {
      var n := a[0].name;
      var a', b' := Without(a, n), Without(b, n);
      NamedParts(a, n);
      NamedParts(b, n);
      assert Named(a, n) == Named(b, n);
      assert |Named(a, n)| > 0;
      forall i | 0 <= i < |a'| ensures Named(a', a'[i].name) == Named(b', a'[i].name) {
        var m := a'[i].name;
        NamedAfterWithout(a, n, m);
        NamedAfterWithout(b, n, m);
        if NoneNamed(a, m) {
          NamedOfNone(a, m);
          NamedEmptyMeansNone(a', m);
        } else {
          var k :| 0 <= k < |a| && a[k].name == m;
        }
      }
      LengthsCloseTheGap(a', b');
      forall name ensures Named(a, name) == Named(b, name) {
        NamedAfterWithout(a, n, name);
        NamedAfterWithout(b, n, name);
        assert Named(a', name) == Named(b', name);
      }
    }
  }

  lemma {:induction false} MultimapsHaveOneLength<K(!new), V>(a: seq<Property<K, V>>, b: seq<Property<K, V>>)
    requires SameMultimap(a, b)
    ensures |a| == |b|
    decreases |a|
  {
    if a == [] {
      assert b != [] ==> Named(a, b[0].name) == Named(b, b[0].name);
    } else {
      var n := a[0].name;
      NamedParts(a, n);
      NamedParts(b, n);
      assert Named(a, n) == Named(b, n) && |Named(a, n)| > 0;
      forall name ensures Named(Without(a, n), name) == Named(Without(b, n), name) {
        NamedAfterWithout(a, n, name);
        NamedAfterWithout(b, n, name);
        assert Named(a, name) == Named(b, name);
      }
      MultimapsHaveOneLength(Without(a, n), Without(b, n));
    }
  }

  method FirstNamed<K(==, !new), V>(ps: seq<Property<K, V>>, name: K) returns (r: Option<nat>)
    ensures r.Some? ==> r.value < |ps| && ps[r.value].name == name && forall i | 0 <= i < r.value :: ps[i].name != name
    ensures r.None? ==> NoneNamed(ps, name)
  {
    for i := 0 to |ps|
      invariant forall j | 0 <= j < i :: ps[j].name != name
    {
      if ps[i].name == name {
        return Some(i);
      }
    }
    return None;
  }

  /** The index-walking equality holds exactly when every name has the same values on both sides. */
  method Equal<K(==, !new), V(==)>(a: seq<Property<K, V>>, b: seq<Property<K, V>>) returns (equal: bool)
    requires Contiguous(a) && Contiguous(b)
    ensures equal <==> SameMultimap(a, b)
  {
    if |a| != |b| {
      if SameMultimap(a, b) {
        MultimapsHaveOneLength(a, b);
      }
      return false;
    }
    var leftStart := 0;
    while leftStart < |a|
      invariant 0 <= leftStart <= |a|
      invariant forall i, j | 0 <= i < leftStart <= j < |a| :: a[i].name != a[j].name
      invariant forall i | 0 <= i < leftStart :: Named(a, a[i].name) == Named(b, a[i].name)
      decreases |a| - leftStart
    {
      var name := a[leftStart].name;
      var leftEnd := PropertyGroupEnd(a, leftStart);
      RunIsNamed(a, leftStart, leftEnd);
      var found := FirstNamed(b, name);
      if found.None? {
        NamedOfNone(b, name);
        assert Named(a, name) != Named(b, name);
        return false;
      }
      var rightStart := found.value;
      var rightEnd := PropertyGroupEnd(b, rightStart);
      RunIsNamed(b, rightStart, rightEnd);
      if a[leftStart..leftEnd] != b[rightStart..rightEnd] {
        assert Named(a, name) != Named(b, name);
        return false;
      }
      assert forall j | leftEnd <= j < |a| :: a[j].name == name ==> a[leftEnd].name == name;
      leftStart := leftEnd;
    }
    LengthsCloseTheGap(a, b);
    return true;
  }

  /** Grouped lists of the same properties in another order of groups are equal; order inside a group counts. */
  lemma GroupingDecidesEquality<K(!new), V>(a: seq<Property<K, V>>, b: seq<Property<K, V>>)
    ensures SameMultimap(ByName(a), ByName(b)) <==> SameMultimap(a, b)
  {
    forall name ensures Named(ByName(a), name) == Named(a, name) && Named(ByName(b), name) == Named(b, name) {
      ByNameKeepsMultimap(a, name);
      ByNameKeepsMultimap(b, name);
    }
    if SameMultimap(ByName(a), ByName(b)) {
      forall name ensures Named(a, name) == Named(b, name) {
        assert Named(ByName(a), name) == Named(ByName(b), name);
      }
    }
    if SameMultimap(a, b) {
      forall name ensures Named(ByName(a), name) == Named(ByName(b), name) {
        assert Named(a, name) == Named(b, name);
      }
    }
  }

  // ----- The order of groups -----

  /** Where a name occurs first; the length of the list if it does not. */
  function FirstIndex<K(==, !new), V>(ps: seq<Property<K, V>>, name: K): (i: nat)
  {
    if ps == [] || ps[0].name == name then 0 else 1 + FirstIndex(ps[1..], name)
  }

  lemma FirstIndexCons<K(!new), V>(p: Property<K, V>, ps: seq<Property<K, V>>, name: K)
    ensures FirstIndex([p] + ps, name) == if p.name == name then 0 else 1 + FirstIndex(ps, name)
  {
    assert ([p] + ps)[1..] == ps;
  }

  lemma {:induction false} DroppingKeepsOrder<K(!new), V>(ps: seq<Property<K, V>>, dropped: K, x: K, y: K)
    requires x != dropped && y != dropped && FirstIndex(ps, x) < FirstIndex(ps, y)
    ensures FirstIndex(Without(ps, dropped), x) < FirstIndex(Without(ps, dropped), y)
  {
    if ps != [] {
      var p, rest := ps[0], Without(ps[1..], dropped);
      assert Without(ps, dropped) == if p.name == dropped then rest else [p] + rest;
      FirstIndexCons(p, rest, x);
      FirstIndexCons(p, rest, y);
      if p.name != x {
        DroppingKeepsOrder(ps[1..], dropped, x, y);
      }
    }
  }

  lemma {:induction false} FirstIndexBehind<K(!new), V>(
    run: seq<Property<K, V>>, rest: seq<Property<K, V>>, name: K, other: K)
    requires AllNamed(run, name) && other != name
    ensures FirstIndex(run + rest, other) == |run| + FirstIndex(rest, other)
  {
    if run == [] {
      assert run + rest == rest;
    } else {
      assert run + rest == [run[0]] + (run[1..] + rest);
      FirstIndexCons(run[0], run[1..] + rest, other);
      FirstIndexBehind(run[1..], rest, name, other);
    }
  }

  /** Grouping keeps the order in which names first occur. */
  lemma {:induction false} GroupsAreInFirstOccurrenceOrder<K(!new), V>(ps: seq<Property<K, V>>, x: K, y: K)
    requires FirstIndex(ps, x) < FirstIndex(ps, y)
    ensures FirstIndex(ByName(ps), x) < FirstIndex(ByName(ps), y)
    decreases |ps|
  {
    FirstGroup(ps);
    var n := ps[0].name;
    assert y != n;
    hide Named, Without, ByName;
    var run, rest := Named(ps, n), ByName(Without(ps, n));
    FirstIndexBehind(run, rest, n, y);
    if x == n {
      assert (run + rest)[0] == run[0];
    } else {
      FirstIndexBehind(run, rest, n, x);
      DroppingKeepsOrder(ps, n, x, y);
      GroupsAreInFirstOccurrenceOrder(Without(ps, n), x, y);
    }
  }

  lemma FirstGroup<K(!new), V>(ps: seq<Property<K, V>>)
    requires ps != []
    ensures var n := ps[0].name;
            && ByName(ps) == Named(ps, n) + ByName(Without(ps, n))
            && |Named(ps, n)| > 0 && AllNamed(Named(ps, n), n)
            && |Without(ps, n)| < |ps|
  {
    NamedParts(ps, ps[0].name);
  }
}
