/** Coverage of a team: the set of types that at least one member's type
    (first or second) is strong against, with blank and "--" slots dropped. */
module Advantages {
  import opened Pokedex

  /** Both of the creature's types have a row in the type table. */
  predicate Known(c: Creature, types: TypeTable)
  {
    c.type1 in types && (c.type2.Some? ==> c.type2.value in types)
  }

  /** The name has a creature row whose types all have a type row, so every
      lookup made while evaluating it succeeds. */
  predicate Resolvable(name: string, details: map<string, Creature>, types: TypeTable)
  {
    name in details && Known(details[name], types)
  }

  predicate AllResolvable(team: seq<string>, details: map<string, Creature>, types: TypeTable)
  {
    forall k :: 0 <= k < |team| ==> Resolvable(team[k], details, types)
  }

  /** The slot filter: every present slot value other than the sentinel. */
  function SlotAdvantages(slots: seq<Option<string>>): (r: set<string>)
    ensures Sentinel !in r
    ensures forall s :: s in r ==> Some(s) in slots
  {
    set o | o in slots && o.Some? && o.value != Sentinel :: o.value
  }

  /** The slots of the first type, followed by those of the second type when
      the creature has one. */
  function StrongAgainstSlots(c: Creature, types: TypeTable): (r: seq<Option<string>>)
    requires Known(c, types)
    ensures |r| == if c.type2.Some? then 10 else 5
  {
    types[c.type1] + if c.type2.Some? then types[c.type2.value] else []
  }

  /** What one creature contributes to its team's coverage. */
  function MemberAdvantages(c: Creature, types: TypeTable): (r: set<string>)
    requires Known(c, types)
    ensures Sentinel !in r
  {
    SlotAdvantages(StrongAgainstSlots(c, types))
  }

  /** Coverage of a team: every type in the filtered slots of some member. */
  function Coverage(team: seq<string>, details: map<string, Creature>, types: TypeTable): (r: set<string>)
    requires AllResolvable(team, details, types)
    ensures Sentinel !in r
  {
    set k, s | 0 <= k < |team| && s in MemberAdvantages(details[team[k]], types) :: s
  }

  /** Evaluates a team the way the source does: one pass over the members,
      growing the accumulated set by each member's filtered slots. */
  method GetTeamAdvantages(team: seq<string>, details: map<string, Creature>, types: TypeTable)
    returns (strengths: set<string>)
    requires AllResolvable(team, details, types)
    ensures strengths == Coverage(team, details, types)
  {
    strengths := {};
    for i := 0 to |team|
      invariant strengths == Coverage(team[..i], details, types)
    {
      var c := details[team[i]];
      var strongAgainst: seq<Option<string>> := types[c.type1];
      if c.type2.Some? {
        strongAgainst := strongAgainst + types[c.type2.value];
      }
      strengths := strengths + SlotAdvantages(strongAgainst);
      assert team[..i + 1] == team[..i] + [team[i]];
      CoverageSnoc(team[..i], team[i], details, types);
    }
    assert team[..|team|] == team;
  }

  /** Adding one member to the end of a team adds exactly that member's
      filtered slots to the coverage: the accumulation the source performs
      computes the union over all members. */
  lemma CoverageSnoc(team: seq<string>, m: string, details: map<string, Creature>, types: TypeTable)
    requires AllResolvable(team, details, types) && Resolvable(m, details, types)
    ensures AllResolvable(team + [m], details, types)
    ensures Coverage(team + [m], details, types) ==
      Coverage(team, details, types) + MemberAdvantages(details[m], types)
  {
    var t := team + [m];
    assert AllResolvable(t, details, types);
    forall s | s in Coverage(t, details, types)
      ensures s in Coverage(team, details, types) + MemberAdvantages(details[m], types)
    {
      var k :| 0 <= k < |t| && s in MemberAdvantages(details[t[k]], types);
      if k < |team| {
        assert t[k] == team[k];
      }
    }
    forall s | s in Coverage(team, details, types) + MemberAdvantages(details[m], types)
      ensures s in Coverage(t, details, types)
    {
      if s in Coverage(team, details, types) {
        var k :| 0 <= k < |team| && s in MemberAdvantages(details[team[k]], types);
        assert t[k] == team[k];
      } else {
        assert t[|team|] == m;
      }
    }
  }

  /** A value is in the filtered set exactly when some slot holds it and it
      is not the sentinel. */
  lemma {:induction false} SlotAdvantagesExact(slots: seq<Option<string>>, s: string)
    ensures s in SlotAdvantages(slots) <==> Some(s) in slots && s != Sentinel
  {
    if Some(s) in slots && s != Sentinel {
      var o := Some(s);
      assert o in slots && o.Some? && o.value != Sentinel;
    }
  }

  /** The filter never yields more values than there are slots. */
  lemma {:induction false} SlotAdvantagesBound(slots: seq<Option<string>>)
    ensures |SlotAdvantages(slots)| <= |slots|
    decreases |slots|
  {
    if slots != [] {
      var rest := slots[1..];
      SlotAdvantagesBound(rest);
      var head := if slots[0].Some? && slots[0].value != Sentinel then {slots[0].value} else {};
      forall s | s in SlotAdvantages(slots)
        ensures s in SlotAdvantages(rest) + head
      {
        SlotAdvantagesExact(slots, s);
        SlotAdvantagesExact(rest, s);
        if Some(s) != slots[0] {
          assert Some(s) in rest;
        }
      }
      assert SlotAdvantages(slots) <= SlotAdvantages(rest) + head;
      assert |SlotAdvantages(rest) + head| <= |SlotAdvantages(rest)| + |head|;
      SubsetCardinality(SlotAdvantages(slots), SlotAdvantages(rest) + head);
    }
  }

  lemma SubsetCardinality<T>(a: set<T>, b: set<T>)
    requires a <= b
    ensures |a| <= |b|
  {
    assert b == a + (b - a);
  }

  /** A member contributes at most ten types: five slots for each of at most
      two types. */
  lemma MemberAdvantagesBound(c: Creature, types: TypeTable)
    requires Known(c, types)
    ensures |MemberAdvantages(c, types)| <= 10
    ensures c.type2.None? ==> |MemberAdvantages(c, types)| <= 5
  {
    SlotAdvantagesBound(StrongAgainstSlots(c, types));
  }

  /** `s` is in a slot of the creature's first type, or of its second type
      when it has one. */
  predicate SlotOf(s: string, c: Creature, types: TypeTable)
    requires Known(c, types)
  {
    Some(s) in types[c.type1] || (c.type2.Some? && Some(s) in types[c.type2.value])
  }

  /** Membership in the coverage, in terms of the raw slots: a type is
      covered exactly when it is not "--" and some member has it in a slot
      of its first type, or of its second type when it has one. An empty
      team covers nothing. */
  lemma CoverageFromSlots(team: seq<string>, details: map<string, Creature>, types: TypeTable, s: string)
    requires AllResolvable(team, details, types)
    ensures s in Coverage(team, details, types) <==>
      s != Sentinel && exists k :: 0 <= k < |team| && SlotOf(s, details[team[k]], types)
  {
    if s in Coverage(team, details, types) {
      var k :| 0 <= k < |team| && s in MemberAdvantages(details[team[k]], types);
      SlotAdvantagesExact(StrongAgainstSlots(details[team[k]], types), s);
    }
    if s != Sentinel && exists k :: 0 <= k < |team| && SlotOf(s, details[team[k]], types) {
      var k :| 0 <= k < |team| && SlotOf(s, details[team[k]], types);
      var c := details[team[k]];
      var slots := StrongAgainstSlots(c, types);
      if Some(s) in types[c.type1] {
        assert slots[..5] == types[c.type1];
      } else {
        assert slots[5..] == types[c.type2.value];
      }
      SlotAdvantagesExact(slots, s);
      assert s in MemberAdvantages(details[team[k]], types);
    }
  }

  /** Coverage depends only on which creatures are in the team: teams with
      the same members give the same set, whatever their order or
      repetitions. */
  lemma CoverageSameMembers(t1: seq<string>, t2: seq<string>, details: map<string, Creature>, types: TypeTable)
    requires AllResolvable(t1, details, types) && AllResolvable(t2, details, types)
    requires forall m :: m in t1 <==> m in t2
    ensures Coverage(t1, details, types) == Coverage(t2, details, types)
  {
    CoverageMonotone(t1, t2, details, types);
    CoverageMonotone(t2, t1, details, types);
  }

  /** Reordering a team leaves its coverage unchanged. */
  lemma CoveragePermutation(t1: seq<string>, t2: seq<string>, details: map<string, Creature>, types: TypeTable)
    requires AllResolvable(t1, details, types)
    requires multiset(t1) == multiset(t2)
    ensures AllResolvable(t2, details, types)
    ensures Coverage(t1, details, types) == Coverage(t2, details, types)
  {
    assert forall m :: m in t1 <==> m in multiset(t1);
    assert forall m :: m in t2 <==> m in multiset(t2);
    forall k | 0 <= k < |t2|
      ensures Resolvable(t2[k], details, types)
    {
      assert t2[k] in t1;
    }
    CoverageSameMembers(t1, t2, details, types);
  }

  /** Adding members never shrinks the coverage. */
  lemma CoverageMonotone(t1: seq<string>, t2: seq<string>, details: map<string, Creature>, types: TypeTable)
    requires AllResolvable(t1, details, types) && AllResolvable(t2, details, types)
    requires forall m :: m in t1 ==> m in t2
    ensures Coverage(t1, details, types) <= Coverage(t2, details, types)
  {
    forall s | s in Coverage(t1, details, types)
      ensures s in Coverage(t2, details, types)
    {
      var k :| 0 <= k < |t1| && s in MemberAdvantages(details[t1[k]], types);
      assert t1[k] in t1;
      var j :| 0 <= j < |t2| && t2[j] == t1[k];
    }
  }

  /** Each member adds at most ten types, so a team of n covers at most 10n;
      a team of six covers at most 60. */
  lemma {:induction false} CoverageBound(team: seq<string>, details: map<string, Creature>, types: TypeTable)
    requires AllResolvable(team, details, types)
    ensures |Coverage(team, details, types)| <= 10 * |team|
    decreases |team|
  {
    if team == [] {
      assert Coverage(team, details, types) == {};
    } else {
      var init, m := team[..|team| - 1], team[|team| - 1];
      assert team == init + [m];
      CoverageBound(init, details, types);
      CoverageSnoc(init, m, details, types);
      MemberAdvantagesBound(details[m], types);
      var a := Coverage(init, details, types);
      var b := MemberAdvantages(details[m], types);
      assert |a + b| <= |a| + |b|;
    }
  }

  /** After the correction, a creature recorded with first type "Fight" is
      evaluated with the slots of "Fighting"; its second type is looked up
      as recorded. */
  lemma FightLooksUpFighting(rows: map<string, Creature>, types: TypeTable, name: string)
    requires name in rows && rows[name].type1 == RawFight
    requires Known(Normalized(rows)[name], types)
    ensures Fighting in types
    ensures MemberAdvantages(Normalized(rows)[name], types) ==
      SlotAdvantages(types[Fighting] + if rows[name].type2.Some? then types[rows[name].type2.value] else [])
  {
  }
}
