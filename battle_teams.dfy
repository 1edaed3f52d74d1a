/** The exhaustive depth-first search for teams of six and the append-only
    file of qualifying teams. */
module BattleTeams {
  import opened Pokedex
  import opened Advantages

  /** Number of members of a complete team. */
  const TeamSize: nat := 6

  /** Smallest coverage for which a team is written out. */
  const Threshold: nat := 15

  /** One line of the output file: the team in construction order and the
      size of its coverage. */
  datatype Record = Record(battleTeam: seq<string>, numAdvantages: nat)

  /** The output file, opened for appending once per qualifying team. */
  class ResultSink {
    var records: seq<Record>

    constructor (existing: seq<Record>)
      ensures records == existing
    {
      records := existing;
    }

    /** Appends one record after everything already in the file. */
    method Append(r: Record)
      modifies this
      ensures records == old(records) + [r]
    {
      records := records + [r];
    }
  }

  /** The complete teams the search reaches from `team`, in the order it
      reaches them: `team` itself once it has six members, otherwise every
      extension by a roster name not yet in it, tried in roster order. */
  function SearchOrder(team: seq<string>, roster: seq<string>): seq<seq<string>>
    decreases TeamSize - |team|, |roster| + 1
  {
    if |team| < TeamSize then SearchOrderUpTo(team, roster, |roster|) else [team]
  }

  /** The complete teams reached from `team` through the first `i` roster
      names. */
  function SearchOrderUpTo(team: seq<string>, roster: seq<string>, i: nat): seq<seq<string>>
    requires |team| < TeamSize && i <= |roster|
    decreases TeamSize - |team|, i
  {
    if i == 0 then []
    else
      SearchOrderUpTo(team, roster, i - 1) +
      (if roster[i - 1] !in team then SearchOrder(team + [roster[i - 1]], roster) else [])
  }

  /** The records written for a sequence of evaluated teams: one per team
      whose coverage reaches the threshold, in the same order. */
  function Qualifying(teams: seq<seq<string>>, details: map<string, Creature>, types: TypeTable): (r: seq<Record>)
    requires AllTeamsResolvable(teams, details, types)
    ensures |r| <= |teams|
  {
    if teams == [] then [] else Verdict(teams[0], details, types) + Qualifying(teams[1..], details, types)
  }

  /** The record written for one complete team, if any. */
  function Verdict(team: seq<string>, details: map<string, Creature>, types: TypeTable): (r: seq<Record>)
    requires AllResolvable(team, details, types)
  {
    var n := |Coverage(team, details, types)|;
    if n >= Threshold then [Record(team, n)] else []
  }

  predicate AllTeamsResolvable(teams: seq<seq<string>>, details: map<string, Creature>, types: TypeTable)
  {
    forall i :: 0 <= i < |teams| ==> AllResolvable(teams[i], details, types)
  }

  /** Every team the search evaluates from `team` resolves in both tables. */
  predicate SearchResolvable(team: seq<string>, roster: seq<string>, details: map<string, Creature>, types: TypeTable)
  {
    AllTeamsResolvable(SearchOrder(team, roster), details, types)
  }

  lemma ResolvableSubset(x: seq<seq<string>>, y: seq<seq<string>>, details: map<string, Creature>, types: TypeTable)
    requires forall t :: t in x ==> t in y
    requires AllTeamsResolvable(y, details, types)
    ensures AllTeamsResolvable(x, details, types)
  {
    forall i | 0 <= i < |x|
      ensures AllResolvable(x[i], details, types)
    {
      assert x[i] in y;
    }
  }

  /** The depth-first search: extends `team` by each roster name not yet in
      it until it has six members, then appends a record when its coverage
      is at least the threshold. The file grows by exactly the qualifying
      complete teams, in the order the search reaches them. */
  method BuildBattleTeam(team: seq<string>, roster: seq<string>, details: map<string, Creature>, types: TypeTable, sink: ResultSink)
    requires SearchResolvable(team, roster, details, types)
    modifies sink
    ensures sink.records == old(sink.records) + Qualifying(SearchOrder(team, roster), details, types)
    decreases TeamSize - |team|, 1
  {
    if |team| < TeamSize {
      ExtendTeam(team, roster, details, types, sink);
    } else {
      CompleteTeamStep(team, roster, details, types);
      EmitIfQualifying(team, details, types, sink);
    }
  }

  /** The loop over the roster for a team of fewer than six: each name not
      yet in the team is appended and searched from, in roster order. */
  method ExtendTeam(team: seq<string>, roster: seq<string>, details: map<string, Creature>, types: TypeTable, sink: ResultSink)
    requires |team| < TeamSize
    requires SearchResolvable(team, roster, details, types)
    modifies sink
    ensures sink.records == old(sink.records) + Qualifying(SearchOrder(team, roster), details, types)
    decreases TeamSize - |team|, 0
  {
    var i := 0;
    while i < |roster|
      invariant 0 <= i <= |roster|
      invariant AllTeamsResolvable(SearchOrderUpTo(team, roster, i), details, types)
      invariant sink.records == old(sink.records) + Qualifying(SearchOrderUpTo(team, roster, i), details, types)
    {
      var pokemon := roster[i];
      SearchStep(team, roster, i, details, types, old(sink.records));
      ghost var before := sink.records;
      if pokemon !in team {
        BuildBattleTeam(team + [pokemon], roster, details, types, sink);
      } else {
        assert Extensions(team, roster, i) == [];
      }
      assert sink.records == before + Qualifying(Extensions(team, roster, i), details, types);
      i := i + 1;
    }
    PartialTeamStep(team, roster);
  }

  /** The program's entry point: correct the creature table in place, then
      search from the empty team over the table's names in file order,
      looking creatures up in the corrected table. */
  method MakeTeams(table: CreatureTable, types: TypeTable, sink: ResultSink)
    requires table.Valid()
    requires SearchResolvable([], table.names, Normalized(table.rows), types)
    modifies table, sink
    ensures table.Valid()
    ensures table.names == old(table.names) && table.rows == Normalized(old(table.rows))
    ensures forall n :: n in table.rows ==> table.rows[n].type1 != RawFight
    ensures sink.records == old(sink.records) + Qualifying(SearchOrder([], table.names), table.rows, types)
  {
    table.NormalizeFightType();
    BuildBattleTeam([], table.names, table.rows, types, sink);
  }

  /** Evaluates one complete team and appends its record when its coverage
      reaches the threshold. */
  method EmitIfQualifying(team: seq<string>, details: map<string, Creature>, types: TypeTable, sink: ResultSink)
    requires AllResolvable(team, details, types)
    modifies sink
    ensures sink.records == old(sink.records) + Verdict(team, details, types)
  {
    var teamAdvantages := GetTeamAdvantages(team, details, types);
    if |teamAdvantages| >= Threshold {
      sink.Append(Record(team, |teamAdvantages|));
    }
  }

  /** A team with fewer than six members evaluates what its extensions
      through the whole roster evaluate. */
  lemma PartialTeamStep(team: seq<string>, roster: seq<string>)
    requires |team| < TeamSize
    ensures SearchOrder(team, roster) == SearchOrderUpTo(team, roster, |roster|)
  {
  }

  /** A team of six is the only team the search evaluates from it, and its
      record, if any, is all that is written. */
  lemma CompleteTeamStep(team: seq<string>, roster: seq<string>, details: map<string, Creature>, types: TypeTable)
    requires |team| >= TeamSize
    requires SearchResolvable(team, roster, details, types)
    ensures AllResolvable(team, details, types)
    ensures Qualifying(SearchOrder(team, roster), details, types) == Verdict(team, details, types)
  {
    assert SearchOrder(team, roster) == [team];
    assert AllResolvable(SearchOrder(team, roster)[0], details, types);
    assert [team][1..] == [];
  }

  /** The complete teams reached through roster name `i` alone. */
  function Extensions(team: seq<string>, roster: seq<string>, i: nat): seq<seq<string>>
    requires |team| < TeamSize && i < |roster|
  {
    if roster[i] !in team then SearchOrder(team + [roster[i]], roster) else []
  }

  /** One turn of the search loop: trying roster name `i` adds its
      extensions' teams after those already reached, and their records after
      those already written. */
  lemma SearchStep(team: seq<string>, roster: seq<string>, i: nat, details: map<string, Creature>, types: TypeTable, written: seq<Record>)
    requires |team| < TeamSize && i < |roster|
    requires SearchResolvable(team, roster, details, types)
    ensures AllTeamsResolvable(SearchOrderUpTo(team, roster, i), details, types)
    ensures AllTeamsResolvable(SearchOrderUpTo(team, roster, i + 1), details, types)
    ensures AllTeamsResolvable(Extensions(team, roster, i), details, types)
    ensures written + Qualifying(SearchOrderUpTo(team, roster, i + 1), details, types) ==
      (written + Qualifying(SearchOrderUpTo(team, roster, i), details, types)) + Qualifying(Extensions(team, roster, i), details, types)
  {
    var done := SearchOrderUpTo(team, roster, i);
    var next := Extensions(team, roster, i);
    assert SearchOrderUpTo(team, roster, i + 1) == done + next;
    SearchOrderUpToGrows(team, roster, i + 1);
    ResolvableSubset(done + next, SearchOrder(team, roster), details, types);
    ResolvableSubset(next, done + next, details, types);
    ResolvableSubset(done, done + next, details, types);
    QualifyingAppend(done, next, details, types);
  }

  /** What the search evaluates through the first `i` roster names is also
      evaluated by the whole search. */
  lemma {:induction false} SearchOrderUpToGrows(team: seq<string>, roster: seq<string>, i: nat)
    requires |team| < TeamSize && i <= |roster|
    ensures forall t :: t in SearchOrderUpTo(team, roster, i) ==> t in SearchOrder(team, roster)
    decreases |roster| - i
  {
    if i < |roster| {
      SearchOrderUpToGrows(team, roster, i + 1);
    }
  }

  /** The records of two runs one after the other are the records of the
      first followed by those of the second. */
  lemma {:induction false} QualifyingAppend(a: seq<seq<string>>, b: seq<seq<string>>, details: map<string, Creature>, types: TypeTable)
    requires AllTeamsResolvable(a, details, types)
    requires AllTeamsResolvable(b, details, types)
    ensures Qualifying(a + b, details, types) == Qualifying(a, details, types) + Qualifying(b, details, types)
    decreases |a|
  {
    if a != [] {
      assert (a + b)[0] == a[0];
      assert (a + b)[1..] == a[1..] + b;
      QualifyingAppend(a[1..], b, details, types);
    } else {
      assert a + b == b;
    }
  }

  /** The threshold rule: a record is written for a team exactly when the
      team was evaluated, the record holds its coverage size, and that size
      is at least 15 (so a team covering 14 types is never written). */
  lemma {:induction false} QualifyingExact(teams: seq<seq<string>>, details: map<string, Creature>, types: TypeTable, r: Record)
    requires AllTeamsResolvable(teams, details, types)
    ensures r in Qualifying(teams, details, types) <==>
      r.battleTeam in teams &&
      r.numAdvantages == |Coverage(r.battleTeam, details, types)| &&
      r.numAdvantages >= Threshold
    decreases |teams|
  {
    if teams != [] {
      QualifyingExact(teams[1..], details, types, r);
      if r.battleTeam in teams && r.battleTeam != teams[0] {
        assert r.battleTeam in teams[1..];
      }
    }
  }

  /** `t` is a complete team the search can reach from `team`: six distinct
      names, starting with `team`, every later name from the roster. */
  predicate Completes(t: seq<string>, team: seq<string>, roster: seq<string>)
  {
    |t| == TeamSize && Distinct(t) && |team| <= |t| && t[..|team|] == team &&
    forall k :: |team| <= k < |t| ==> t[k] in roster
  }

  /** Soundness of the enumeration: starting from a team of at most six
      distinct names, every evaluated team has exactly six distinct members,
      begins with the starting team, and adds only roster names. */
  lemma {:induction false} SearchOrderSound(team: seq<string>, roster: seq<string>)
    requires Distinct(team) && |team| <= TeamSize
    ensures forall t :: t in SearchOrder(team, roster) ==> Completes(t, team, roster)
    decreases TeamSize - |team|, |roster| + 1
  {
    if |team| < TeamSize {
      SearchOrderUpToSound(team, roster, |roster|);
    }
  }

  lemma {:induction false} SearchOrderUpToSound(team: seq<string>, roster: seq<string>, i: nat)
    requires Distinct(team) && |team| < TeamSize && i <= |roster|
    ensures forall t :: t in SearchOrderUpTo(team, roster, i) ==> Completes(t, team, roster)
    decreases TeamSize - |team|, i
  {
    if i > 0 {
      SearchOrderUpToSound(team, roster, i - 1);
      var x := roster[i - 1];
      if x !in team {
        var next := team + [x];
        SearchOrderSound(next, roster);
        forall t | t in SearchOrder(next, roster)
          ensures Completes(t, team, roster)
        {
          assert t[..|next|][..|team|] == t[..|team|];
        }
      }
    }
  }

  /** Completeness of the enumeration: every way of completing `team` to six
      distinct names with roster names is evaluated. */
  lemma {:induction false} SearchOrderComplete(team: seq<string>, roster: seq<string>, t: seq<string>)
    requires Completes(t, team, roster)
    ensures t in SearchOrder(team, roster)
    decreases TeamSize - |team|
  {
    if |team| == TeamSize {
      assert t == t[..|team|];
    } else {
      var x := t[|team|];
      var next := team + [x];
      assert t[..|next|] == next;
      assert x !in team by {
        forall k | 0 <= k < |team|
          ensures team[k] != x
        {
          assert team[k] == t[k];
        }
      }
      SearchOrderComplete(next, roster, t);
      var j :| 0 <= j < |roster| && roster[j] == x;
      assert t in SearchOrderUpTo(team, roster, j + 1);
      SearchOrderUpToGrows(team, roster, j + 1);
    }
  }

  /** What a whole run from the empty team writes: a record for a sequence
      `t` exactly when `t` is six distinct roster names whose coverage is at
      least 15, and the record holds that coverage size. */
  lemma SearchRecordsExact(roster: seq<string>, details: map<string, Creature>, types: TypeTable, r: Record)
    requires SearchResolvable([], roster, details, types)
    ensures r in Qualifying(SearchOrder([], roster), details, types) <==>
      Completes(r.battleTeam, [], roster) &&
      AllResolvable(r.battleTeam, details, types) &&
      r.numAdvantages == |Coverage(r.battleTeam, details, types)| &&
      r.numAdvantages >= Threshold
  {
    QualifyingExact(SearchOrder([], roster), details, types, r);
    SearchOrderSound([], roster);
    if Completes(r.battleTeam, [], roster) {
      SearchOrderComplete([], roster, r.battleTeam);
    }
  }
}
