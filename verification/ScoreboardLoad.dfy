/**
  Validation of a loaded scoreboard. Maps and sets are walked in the order of their keys, so the
  fault that is reported is the first one in that order.
 */
module ScoreboardLoad {
  import opened Bytes
  import opened Scoreboard

  // ----- The order of strings -----

  predicate Less(a: string, b: string)
  {
    b != [] && (a == [] || a[0] < b[0] || (a[0] == b[0] && Less(a[1..], b[1..])))
  }

  lemma {:induction false} LessIsAnOrder(a: string, b: string, c: string)
    ensures !Less(a, a)
    ensures Less(a, b) || a == b || Less(b, a)
    ensures !(Less(a, b) && Less(b, a))
    ensures Less(a, b) && Less(b, c) ==> Less(a, c)
    decreases |a| + |b| + |c|
  {
    if a != [] {
      LessIsAnOrder(a[1..], if b == [] then b else b[1..], if c == [] then c else c[1..]);
      assert b != [] && a[0] == b[0] && a[1..] == b[1..] ==> a == b;
    }
  }

  /** The order of a dictionary: a proper prefix comes first, otherwise the first difference decides. */
  lemma {:induction false} LessIsLexicographic(a: string, b: string)
    ensures Less(a, b) <==>
            exists k: nat :: k <= |a| && k <= |b| && a[..k] == b[..k] && k < |b| && (k == |a| || a[k] < b[k])
    decreases |a|
  {
    if a != [] && b != [] {
      var s, t := a[1..], b[1..];
      LessIsLexicographic(s, t);
      if Less(a, b) {
        if a[0] < b[0] {
          assert a[..0] == b[..0];
        } else {
          var k: nat :| k <= |s| && k <= |t| && s[..k] == t[..k] && k < |t| && (k == |s| || s[k] < t[k]);
          assert a[..k + 1] == [a[0]] + s[..k] && b[..k + 1] == [b[0]] + t[..k];
          assert k + 1 == |a| || a[k + 1] < b[k + 1];
        }
      }
      if k: nat :| k <= |a| && k <= |b| && a[..k] == b[..k] && k < |b| && (k == |a| || a[k] < b[k]) {
        if k > 0 {
          assert a[0] == a[..k][0] == b[..k][0] == b[0];
          assert s[..k - 1] == a[..k][1..] && t[..k - 1] == b[..k][1..];
          assert k - 1 == |s| || s[k - 1] < t[k - 1];
        }
      }
    } else {
      assert a[..0] == b[..0];
    }
  }

  ghost predicate Ascending(s: seq<string>)
  {
    forall i, j | 0 <= i < j < |s| :: Less(s[i], s[j])
  }

  method Least(keys: set<string>) returns (k: string)
    requires keys != {}
    ensures k in keys && forall x | x in keys :: x == k || Less(k, x)
  {
    k :| k in keys;
    var rest := keys - {k};
    while rest != {}
      invariant rest <= keys && k in keys
      invariant forall x | x in keys && x !in rest :: x == k || Less(k, x)
      decreases |rest|
    {
      var x :| x in rest;
      rest := rest - {x};
      forall y ensures (Less(x, k) && Less(k, y) ==> Less(x, y)) && (Less(k, x) || x == k || Less(x, k)) {
        LessIsAnOrder(x, k, y);
      }
      if Less(x, k) {
        k := x;
      }
    }
  }

  /** The iteration order of a sorted map or set. */
  method Sorted(keys: set<string>) returns (s: seq<string>)
    ensures Ascending(s) && forall k :: k in s <==> k in keys
  {
    s := [];
    var rest := keys;
    while rest != {}
      invariant rest <= keys && Ascending(s)
      invariant forall k :: k in s <==> k in keys && k !in rest
      invariant forall x, y | x in s && y in rest :: Less(x, y)
      decreases |rest|
    {
      var k := Least(rest);
      var before := s;
      s := s + [k];
      assert forall i | 0 <= i < |before| :: before[i] in before;
      rest := rest - {k};
    }
  }

  /** Whatever is smaller than an element comes before it. */
  lemma SmallerIsEarlier(s: seq<string>, i: nat, x: string)
    requires Ascending(s) && i < |s| && x in s && Less(x, s[i])
    ensures x in s[..i]
  {
    var j :| 0 <= j < |s| && s[j] == x;
    LessIsAnOrder(x, s[i], x);
    assert j < i;
    assert s[..i][j] == x;
  }

  // ----- The first fault -----

  /** The row of a holder refers to declared objectives only. */
  ghost predicate RowOk(s: Persistent, h: string)
    requires h in s.scores
  {
    s.scores[h].Keys <= s.objectives.Keys
  }

  ghost predicate ScoresOk(s: Persistent)
  {
    "" !in s.scores && forall h | h in s.scores :: RowOk(s, h)
  }

  ghost predicate MembersOk(s: Persistent)
  {
    "" !in s.holderTeams && forall h | h in s.holderTeams :: s.holderTeams[h] in s.teams
  }

  /** `o` is the first missing objective of the first holder that has any. */
  ghost predicate FirstMissingObjective(s: Persistent, h: string, o: string)
  {
    && h in s.scores && o in s.scores[h] && o !in s.objectives
    && (forall x | x in s.scores && Less(x, h) :: RowOk(s, x))
    && (forall x | x in s.scores[h] && Less(x, o) :: x in s.objectives)
  }

  ghost predicate FirstMissingTeam(s: Persistent, h: string)
  {
    && h in s.holderTeams && s.holderTeams[h] !in s.teams
    && (forall x | x in s.holderTeams && Less(x, h) :: s.holderTeams[x] in s.teams)
  }

  ghost predicate ScoreFault(s: Persistent, r: Outcome)
  {
    if "" in s.scores then r == Err(EmptyScoreHolderName)
    else exists h, o :: FirstMissingObjective(s, h, o) && r == Err(MissingObjective(o))
  }

  ghost predicate MemberFault(s: Persistent, r: Outcome)
  {
    if "" in s.holderTeams then r == Err(EmptyScoreHolderName)
    else exists h :: FirstMissingTeam(s, h) && r == Err(MissingTeam(s.holderTeams[h]))
  }

  /** The verdict on a loaded state: the first fault in the order of the walk, if any. */
  ghost predicate Verdict(s: Persistent, r: Outcome)
  {
    if "" in s.objectives then r == Err(EmptyObjectiveName)
    else if "" in s.teams then r == Err(EmptyTeamName)
    else if !ScoresOk(s) then ScoreFault(s, r)
    else if !MembersOk(s) then MemberFault(s, r)
    else r == Ok
  }

  /** There is only one first fault, so the verdict determines what is reported. */
  lemma VerdictIsUnique(s: Persistent, a: Outcome, b: Outcome)
    requires Verdict(s, a) && Verdict(s, b)
    ensures a == b
  {
    var named := "" !in s.objectives && "" !in s.teams;
    if named && !ScoresOk(s) && "" !in s.scores {
      var h, o :| FirstMissingObjective(s, h, o) && a == Err(MissingObjective(o));
      var g, p :| FirstMissingObjective(s, g, p) && b == Err(MissingObjective(p));
      LessIsAnOrder(h, g, h);
      LessIsAnOrder(o, p, o);
    }
    if named && ScoresOk(s) && !MembersOk(s) && "" !in s.holderTeams {
      var h :| FirstMissingTeam(s, h) && a == Err(MissingTeam(s.holderTeams[h]));
      var g :| FirstMissingTeam(s, g) && b == Err(MissingTeam(s.holderTeams[g]));
      LessIsAnOrder(h, g, h);
    }
  }

  // ----- The walk -----

  /** The first objective of a row that is not declared. */
  method CheckRow(s: Persistent, h: string) returns (missing: Option<string>)
    requires h in s.scores
    ensures missing.None? <==> RowOk(s, h)
    ensures missing.Some? ==>
              && missing.value in s.scores[h] && missing.value !in s.objectives
              && forall x | x in s.scores[h] && Less(x, missing.value) :: x in s.objectives
  {
    var names := Sorted(s.scores[h].Keys);
    for i := 0 to |names|
      invariant forall x | x in names[..i] :: x in s.objectives
    {
      if names[i] !in s.objectives {
        forall x | x in s.scores[h] && Less(x, names[i]) ensures x in s.objectives {
          SmallerIsEarlier(names, i, x);
        }
        assert names[i] in names;
        return Some(names[i]);
      }
      assert names[..i + 1] == names[..i] + [names[i]];
    }
    assert names[..|names|] == names;
    return None;
  }

  /** Nothing comes before the empty string. */
  lemma EmptyComesFirst(s: seq<string>, i: nat)
    requires Ascending(s) && i < |s| && "" in s && s[i] != ""
    ensures "" in s[..i]
  {
    LessIsAnOrder("", s[i], "");
    SmallerIsEarlier(s, i, "");
  }

  method CheckScores(s: Persistent) returns (r: Outcome)
    ensures if ScoresOk(s) then r == Ok else ScoreFault(s, r)
  {
    var holders := Sorted(s.scores.Keys);
    for i := 0 to |holders|
      invariant forall h | h in holders[..i] :: h in s.scores && h != "" && RowOk(s, h)
    {
      var h := holders[i];
      assert h in holders;
      if h == "" {
        return Err(EmptyScoreHolderName);
      }
      if "" in s.scores {
        EmptyComesFirst(holders, i);
      }
      var missing := CheckRow(s, h);
      if missing.Some? {
        forall x | x in s.scores && Less(x, h) ensures RowOk(s, x) {
          SmallerIsEarlier(holders, i, x);
        }
        assert FirstMissingObjective(s, h, missing.value);
        return Err(MissingObjective(missing.value));
      }
      assert holders[..i + 1] == holders[..i] + [h];
    }
    assert holders[..|holders|] == holders;
    return Ok;
  }

  method CheckMembers(s: Persistent) returns (r: Outcome)
    ensures if MembersOk(s) then r == Ok else MemberFault(s, r)
  {
    var holders := Sorted(s.holderTeams.Keys);
    for i := 0 to |holders|
      invariant forall h | h in holders[..i] :: h in s.holderTeams && h != "" && s.holderTeams[h] in s.teams
    {
      var h := holders[i];
      assert h in holders;
      if h == "" {
        return Err(EmptyScoreHolderName);
      }
      if "" in s.holderTeams {
        EmptyComesFirst(holders, i);
      }
      if s.holderTeams[h] !in s.teams {
        forall x | x in s.holderTeams && Less(x, h) ensures s.holderTeams[x] in s.teams {
          SmallerIsEarlier(holders, i, x);
        }
        assert FirstMissingTeam(s, h);
        return Err(MissingTeam(s.holderTeams[h]));
      }
      assert holders[..i + 1] == holders[..i] + [h];
    }
    assert holders[..|holders|] == holders;
    return Ok;
  }

  /** `validate_persistent_scoreboard`: accepts exactly the loadable states, and reports the first fault otherwise. */
  method Validate(s: Persistent) returns (r: Outcome)
    ensures r.Ok? <==> Loadable(s)
    ensures Verdict(s, r)
  {
    hide ScoreFault, MemberFault;
    if "" in s.objectives {
      return Err(EmptyObjectiveName);
    }
    if "" in s.teams {
      return Err(EmptyTeamName);
    }
    r := CheckScores(s);
    if !r.Ok? {
      return;
    }
    r := CheckMembers(s);
  }
}
