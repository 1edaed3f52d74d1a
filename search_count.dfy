/** How many teams the search evaluates: every ordering of every choice of
    six roster names, each exactly once, so N!/(N-6)! teams for a roster of
    N names. */
module SearchCount {
  import opened Pokedex
  import opened BattleTeams

  function Factorial(n: nat): nat
  {
    if n == 0 then 1 else n * Factorial(n - 1)
  }

  /** n (n-1) ... (n-k+1): the number of ordered choices of k of n items;
      zero when fewer than k items are left. */
  function Falling(n: int, k: nat): nat
  {
    if k == 0 then 1 else if n <= 0 then 0 else n * Falling(n - 1, k - 1)
  }

  /** The falling factorial is n!/(n-k)!. */
  lemma {:induction false} FallingFactorial(n: nat, k: nat)
    requires k <= n
    ensures Falling(n, k) * Factorial(n - k) == Factorial(n)
  {
    if k > 0 {
      FallingFactorial(n - 1, k - 1);
      var f, g, h := Falling(n - 1, k - 1), Factorial(n - k), Factorial(n - 1);
      assert f * g == h;
      assert Falling(n, k) == n * f;
      assert Factorial(n) == n * h;
      MulAssoc(n, f, g);
    }
  }

  lemma MulAssoc(a: int, b: int, c: int)
    ensures (a * b) * c == a * (b * c)
  {
  }

  /** Fewer than k items admit no ordered choice of k. */
  lemma {:induction false} FallingTooFew(n: int, k: nat)
    requires 0 <= n < k
    ensures Falling(n, k) == 0
  {
    if n > 0 {
      FallingTooFew(n - 1, k - 1);
    }
  }

  function Elements(s: seq<string>): set<string>
  {
    set x | x in s
  }

  lemma {:induction false} DistinctCard(s: seq<string>)
    requires Distinct(s)
    ensures |Elements(s)| == |s|
    decreases |s|
  {
    if s != [] {
      var init := s[..|s| - 1];
      DistinctCard(init);
      assert Elements(s) == Elements(init) + {s[|s| - 1]};
      assert s[|s| - 1] !in Elements(init);
    }
  }

  /** How many of the first `i` roster names are not in `team`. */
  function Fresh(team: seq<string>, roster: seq<string>, i: nat): nat
    requires i <= |roster|
  {
    if i == 0 then 0 else Fresh(team, roster, i - 1) + (if roster[i - 1] in team then 0 else 1)
  }

  /** The first `i` names of the roster, as a set. */
  function PrefixSet(roster: seq<string>, i: nat): set<string>
    requires i <= |roster|
  {
    set k | 0 <= k < i :: roster[k]
  }

  lemma {:induction false} FreshElements(team: seq<string>, roster: seq<string>, i: nat)
    requires Distinct(roster) && i <= |roster|
    ensures Fresh(team, roster, i) == |PrefixSet(roster, i) - Elements(team)|
  {
    if i > 0 {
      FreshElements(team, roster, i - 1);
      FreshStep(team, roster, i);
    } else {
      assert PrefixSet(roster, i) - Elements(team) == {};
    }
  }

  /** The `i`-th roster name adds one available name unless `team` has it. */
  lemma FreshStep(team: seq<string>, roster: seq<string>, i: nat)
    requires Distinct(roster) && 0 < i <= |roster|
    ensures |PrefixSet(roster, i) - Elements(team)|
         == |PrefixSet(roster, i - 1) - Elements(team)| + (if roster[i - 1] in team then 0 else 1)
  {
    var x := roster[i - 1];
    var taken := Elements(team);
    PrefixSetSnoc(roster, i);
    assert x in taken <==> x in team;
    DifferenceAddOne(PrefixSet(roster, i - 1), x, taken);
  }

  /** The first `i` names of a roster without repeats are the first `i - 1`
      plus the `i`-th, which is not among them. */
  lemma PrefixSetSnoc(roster: seq<string>, i: nat)
    requires Distinct(roster) && 0 < i <= |roster|
    ensures PrefixSet(roster, i) == PrefixSet(roster, i - 1) + {roster[i - 1]}
    ensures roster[i - 1] !in PrefixSet(roster, i - 1)
  {
  }

  lemma DifferenceAddOne(a: set<string>, x: string, t: set<string>)
    requires x !in a
    ensures |(a + {x}) - t| == |a - t| + (if x in t then 0 else 1)
  {
    if x in t {
      assert (a + {x}) - t == a - t;
    } else {
      assert (a + {x}) - t == (a - t) + {x};
    }
  }

  /** With distinct names and `team` drawn from the roster, exactly
      |roster| - |team| roster names are still available. */
  lemma FreshAll(team: seq<string>, roster: seq<string>)
    requires Distinct(roster) && Distinct(team)
    requires forall k :: 0 <= k < |team| ==> team[k] in roster
    ensures Fresh(team, roster, |roster|) + |team| == |roster|
  {
    FreshElements(team, roster, |roster|);
    PrefixSetAll(roster);
    DistinctCard(roster);
    DistinctCard(team);
    DifferenceCard(Elements(roster), Elements(team));
  }

  lemma PrefixSetAll(roster: seq<string>)
    ensures PrefixSet(roster, |roster|) == Elements(roster)
  {
    forall x | x in roster
      ensures x in PrefixSet(roster, |roster|)
    {
      var k :| 0 <= k < |roster| && roster[k] == x;
    }
  }

  lemma DifferenceCard(a: set<string>, b: set<string>)
    requires b <= a
    ensures |a - b| + |b| == |a|
  {
    assert a == (a - b) + b;
  }

  /** From a team of t distinct roster names, the search evaluates exactly
      (N-t)(N-t-1)...(N-5) complete teams. */
  lemma {:induction false} SearchOrderCount(team: seq<string>, roster: seq<string>)
    requires Distinct(roster) && Distinct(team) && |team| <= TeamSize
    requires forall k :: 0 <= k < |team| ==> team[k] in roster
    ensures |SearchOrder(team, roster)| == Falling(|roster| - |team|, TeamSize - |team|)
    decreases TeamSize - |team|, |roster| + 1
  {
    FreshAll(team, roster);
    if |team| < TeamSize {
      SearchOrderUpToCount(team, roster, |roster|);
      var f := Falling(|roster| - |team| - 1, TeamSize - |team| - 1);
      var avail := |roster| - |team|;
      assert |SearchOrder(team, roster)| == avail * f;
      if avail > 0 {
        assert Falling(avail, TeamSize - |team|) == avail * f;
      }
    }
  }

  lemma {:induction false} SearchOrderUpToCount(team: seq<string>, roster: seq<string>, i: nat)
    requires Distinct(roster) && Distinct(team) && |team| < TeamSize && i <= |roster|
    requires forall k :: 0 <= k < |team| ==> team[k] in roster
    ensures |SearchOrderUpTo(team, roster, i)| ==
      Fresh(team, roster, i) * Falling(|roster| - |team| - 1, TeamSize - |team| - 1)
    decreases TeamSize - |team|, i
  {
    if i > 0 {
      SearchOrderUpToCount(team, roster, i - 1);
      var x := roster[i - 1];
      var f := Falling(|roster| - |team| - 1, TeamSize - |team| - 1);
      var done := SearchOrderUpTo(team, roster, i - 1);
      var c := Fresh(team, roster, i - 1);
      if x !in team {
        var ext := SearchOrder(team + [x], roster);
        assert SearchOrderUpTo(team, roster, i) == done + ext;
        ExtensionCount(team, roster, x);
        assert |done + ext| == c * f + f;
        MulSucc(c, f);
      } else {
        assert SearchOrderUpTo(team, roster, i) == done + [];
      }
    }
  }

  /** Adding a fresh roster name leaves one name fewer to choose from. */
  lemma ExtensionCount(team: seq<string>, roster: seq<string>, x: string)
    requires Distinct(roster) && Distinct(team) && |team| < TeamSize
    requires forall k :: 0 <= k < |team| ==> team[k] in roster
    requires x in roster && x !in team
    ensures |SearchOrder(team + [x], roster)| == Falling(|roster| - |team| - 1, TeamSize - |team| - 1)
    decreases TeamSize - |team|, 0
  {
    SearchOrderCount(team + [x], roster);
  }

  lemma MulSucc(c: int, f: int)
    ensures (c + 1) * f == c * f + f
  {
  }

  /** A run from the empty team over N distinct names evaluates N!/(N-6)!
      teams, and none at all when N < 6. */
  lemma SearchSize(roster: seq<string>)
    requires Distinct(roster)
    ensures |SearchOrder([], roster)| == Falling(|roster|, TeamSize)
    ensures |roster| >= TeamSize ==>
      |SearchOrder([], roster)| * Factorial(|roster| - TeamSize) == Factorial(|roster|)
    ensures |roster| < TeamSize ==> SearchOrder([], roster) == []
  {
    SearchOrderCount([], roster);
    if |roster| >= TeamSize {
      FallingFactorial(|roster|, TeamSize);
    } else {
      FallingTooFew(|roster|, TeamSize);
    }
  }

  /** A whole run over a loaded creature table: its index has no repeated
      names, so the search evaluates N!/(N-6)! teams for N names, exactly
      the arrangements of six distinct names, each once. */
  lemma TableSearch(table: CreatureTable)
    requires table.Valid()
    ensures |SearchOrder([], table.names)| == Falling(|table.names|, TeamSize)
    ensures Distinct(SearchOrder([], table.names))
    ensures forall t :: t in SearchOrder([], table.names) <==> Completes(t, [], table.names)
  {
    SearchSize(table.names);
    forall t
      ensures t in SearchOrder([], table.names) <==> Completes(t, [], table.names)
    {
      EachArrangementOnce(table.names, t);
    }
    SearchOrderNoRepeats([], table.names);
  }

  /** A roster of fewer than six names writes nothing. */
  lemma SmallRosterWritesNothing(roster: seq<string>, details: map<string, Creature>, types: TypeTable)
    requires Distinct(roster) && |roster| < TeamSize
    ensures SearchResolvable([], roster, details, types)
    ensures Qualifying(SearchOrder([], roster), details, types) == []
  {
    SearchSize(roster);
  }

  lemma DistinctAppend<T>(a: seq<T>, b: seq<T>)
    requires Distinct(a) && Distinct(b)
    requires forall x :: x in a ==> x !in b
    ensures Distinct(a + b)
  {
    forall i, j | 0 <= i < j < |a + b|
      ensures (a + b)[i] != (a + b)[j]
    {
      if i < |a| && j >= |a| {
        assert (a + b)[i] in a && (a + b)[j] in b;
      }
    }
  }

  /** No complete team is evaluated twice. */
  lemma {:induction false} SearchOrderNoRepeats(team: seq<string>, roster: seq<string>)
    requires Distinct(roster) && Distinct(team) && |team| <= TeamSize
    ensures Distinct(SearchOrder(team, roster))
    decreases TeamSize - |team|, |roster| + 1
  {
    if |team| < TeamSize {
      SearchOrderUpToNoRepeats(team, roster, |roster|);
    }
  }

  lemma {:induction false} SearchOrderUpToNoRepeats(team: seq<string>, roster: seq<string>, i: nat)
    requires Distinct(roster) && Distinct(team) && |team| < TeamSize && i <= |roster|
    ensures Distinct(SearchOrderUpTo(team, roster, i))
    ensures HeadsIn(SearchOrderUpTo(team, roster, i), |team|, roster[..i])
    decreases TeamSize - |team|, i
  {
    if i > 0 {
      SearchOrderUpToNoRepeats(team, roster, i - 1);
      var x := roster[i - 1];
      var done := SearchOrderUpTo(team, roster, i - 1);
      HeadsInWiden(done, |team|, roster[..i - 1], roster[..i]);
      if x !in team {
        var ext := SearchOrder(team + [x], roster);
        assert SearchOrderUpTo(team, roster, i) == done + ext;
        SearchOrderNoRepeats(team + [x], roster);
        ExtensionHeads(team, roster, x);
        assert x !in roster[..i - 1];
        DistinctAppend(done, ext);
        assert x == roster[..i][i - 1];
        HeadsInAppend(done, ext, |team|, roster[..i]);
      } else {
        assert SearchOrderUpTo(team, roster, i) == done + [];
      }
    }
  }

  /** Every team in `ts` is longer than `pos` and has one of `names` at `pos`. */
  predicate HeadsIn(ts: seq<seq<string>>, pos: nat, names: seq<string>)
  {
    forall t :: t in ts ==> pos < |t| && t[pos] in names
  }

  lemma HeadsInWiden(ts: seq<seq<string>>, pos: nat, n1: seq<string>, n2: seq<string>)
    requires HeadsIn(ts, pos, n1)
    requires forall x :: x in n1 ==> x in n2
    ensures HeadsIn(ts, pos, n2)
  {
  }

  lemma HeadsInAppend(a: seq<seq<string>>, b: seq<seq<string>>, pos: nat, names: seq<string>)
    requires HeadsIn(a, pos, names) && HeadsIn(b, pos, names)
    ensures HeadsIn(a + b, pos, names)
  {
  }

  /** Every team reached after adding `x` to `team` has `x` right after `team`. */
  lemma ExtensionHeads(team: seq<string>, roster: seq<string>, x: string)
    requires Distinct(team) && |team| < TeamSize && x !in team
    ensures forall t :: t in SearchOrder(team + [x], roster) ==> |team| < |t| && t[|team|] == x
  {
    var next := team + [x];
    SearchOrderSound(next, roster);
    forall t | t in SearchOrder(next, roster)
      ensures |team| < |t| && t[|team|] == x
    {
      assert t[..|next|][|team|] == t[|team|];
    }
  }

  /** A run from the empty team evaluates every ordering of every choice of
      six distinct roster names, and each of them exactly once. */
  lemma EachArrangementOnce(roster: seq<string>, t: seq<string>)
    requires Distinct(roster)
    ensures t in SearchOrder([], roster) <==> Completes(t, [], roster)
    ensures Distinct(SearchOrder([], roster))
  {
    SearchOrderSound([], roster);
    if Completes(t, [], roster) {
      SearchOrderComplete([], roster, t);
    }
    SearchOrderNoRepeats([], roster);
  }
}
