# poke_battles team search, modelled in Dafny

`make_teams.py` enumerates every team of six distinct creatures from a
roster, computes each team's type-advantage coverage (the set of types that
at least one member's first or second type is strong against), and appends
a JSON line `{battle_team, num_advantages}` to an output file for every team
whose coverage has at least 15 types. Before the search, every creature
whose `type_1` is spelled `Fight` is corrected to `Fighting`.

The model keeps the program's shape:

- `pokedex.dfy` (module `Pokedex`): the two tables. A creature row is
  `Creature(type1, type2: Option<string>)`. A type row is `Slots`, the five
  `super_1..super_5` cells, each `None` when blank. The creature table is a
  class `CreatureTable`: `names` is its index in file order, which is the
  roster, and `rows` is a map. `NormalizeFightType` rewrites the table in
  place, as line 15 does.
- `advantages.dfy` (module `Advantages`): the slot filter `SlotAdvantages`,
  the coverage `Coverage` (the union of every member's filtered slots),
  and the method `GetTeamAdvantages`. The method is the source's loop, a
  fold over the team, and is proved equal to `Coverage`. The lemmas give the exact membership of the coverage, its
  exclusion of `--` and blanks, the bound of 10 types per member, and its
  independence from member order (with monotonicity).
- `battle_teams.dfy` (module `BattleTeams`): the output file as a class
  `ResultSink` whose `records` only grow, the depth-first search
  `BuildBattleTeam`, and the entry point `MakeTeams`. `SearchOrder` lists the
  complete teams in the order the recursion reaches them. `Qualifying` keeps
  those that reach the threshold, as records. `BuildBattleTeam` is proved to
  append exactly `Qualifying(SearchOrder(team, roster))` to the file.
  Lemmas state what that sequence holds.
- `search_count.dfy` (module `SearchCount`): the run from the empty team
  evaluates each ordering of each choice of six distinct roster names
  exactly once. That is N!/(N-6)! teams, and none when N < 6.

Three points about what the program does, which the model follows:

- The docstring of `build_battle_team` (make_teams.py:52-55) speaks of
  "all potential combinations", but the recursion (make_teams.py:59-62)
  enumerates ordered arrangements: every set of six distinct names is
  evaluated, and written when it qualifies, once per ordering. The same
  docstring speaks of advantages against all types; the code writes a team
  when it covers at least 15 (make_teams.py:65).
- A member adds at most 10 types (five slots for each of at most two
  types), so a team of six covers at most 60. The threshold of 15 is
  reachable only because the members' contributions add up.
- Line 15 corrects `type_1` only. A `type_2` spelled `Fight` stays `Fight`
  and is looked up under that name.

## Model

| member | source | states |
|---|---|---|
| `Pokedex.NormalizeCreature` | make_teams.py:15 | one row after the correction: a `type_1` of `Fight` becomes `Fighting` and nothing else changes; a row without `Fight` is unchanged; no result has `type_1` `Fight` |
| `Pokedex.Normalized` | make_teams.py:15 | the corrected table has the same names; no `type_1` is `Fight`; rows that had `Fight` now have `Fighting`; every `type_2` and every other row is unchanged |
| `Pokedex.NormalizedIdempotent` | make_teams.py:15 | applying the correction twice is the same as applying it once |
| `Pokedex.CreatureTable.Load` | make_teams.py:13-14 | the creature table indexed by name: distinct names in file order, one row per name |
| `Pokedex.CreatureTable.NormalizeFightType` | make_teams.py:15 | in place: the index is unchanged and the rows become `Normalized` of the old rows |
| `Advantages.SlotAdvantages` | make_teams.py:44 | the filtered set never holds `--`, and each of its values is present in some slot |
| `Advantages.SlotAdvantagesExact` | make_teams.py:44 | a value is kept exactly when some slot holds it and it is not `--` (blank slots are never kept) |
| `Advantages.SlotAdvantagesBound` | make_teams.py:44 | the filter yields at most as many values as there are slots |
| `Advantages.StrongAgainstSlots` | make_teams.py:38-42 | a member's slots are the five of its first type followed by the five of its second type when present: 10 or 5 slots |
| `Advantages.MemberAdvantages` | make_teams.py:36-44 | what one member contributes: the filtered slots of its first type and, when present, its second type; never `--` |
| `Advantages.MemberAdvantagesBound` | make_teams.py:38-44 | one member contributes at most 10 types, and at most 5 when it has no second type |
| `Advantages.Coverage` | make_teams.py:33-47 | the coverage never contains `--` |
| `Advantages.GetTeamAdvantages` | make_teams.py:28-47 | the loop over the team returns exactly `Coverage(team)`, the union over all members |
| `Advantages.CoverageSnoc` | make_teams.py:35-45 | one more pass of the loop adds exactly the new member's filtered slots to the set accumulated so far |
| `Advantages.CoverageFromSlots` | make_teams.py:33-47 | a type is covered if and only if it is not `--` and sits in a slot of some member's first type, or of its second type when present |
| `Advantages.CoverageSameMembers` | make_teams.py:35-45 | two teams with the same members have the same coverage |
| `Advantages.CoveragePermutation` | make_teams.py:35-45 | reordering a team does not change its coverage |
| `Advantages.CoverageMonotone` | make_teams.py:35-45 | a team whose members are among another's covers no more than the other |
| `Advantages.CoverageBound` | make_teams.py:38-45 | a team of n members covers at most 10n types |
| `Advantages.FightLooksUpFighting` | make_teams.py:36-42 | after the correction, a creature recorded as `Fight` is evaluated with the slots of `Fighting`, and its second type as recorded |
| `BattleTeams.SearchOrder` | make_teams.py:59-62 | the complete teams the recursion reaches from `team`, in the order it reaches them: `team` itself once it has six members, otherwise the teams reached through every roster name, in roster order |
| `BattleTeams.SearchOrderUpTo` | make_teams.py:60-62 | the complete teams reached through the first `i` roster names: those reached through the first `i - 1`, followed by those reached from the team extended by name `i` when that name is not yet in it |
| `BattleTeams.Verdict` | make_teams.py:64-71 | the record one complete team produces: `(team, coverage size)` when the size is at least 15, nothing otherwise |
| `BattleTeams.Qualifying` | make_teams.py:64-71 | the records a sequence of evaluated teams produces, in order, at most one per team |
| `BattleTeams.ResultSink.Append` | make_teams.py:67-71 | appending keeps every earlier record and adds the new one at the end |
| `BattleTeams.BuildBattleTeam` | make_teams.py:50-73 | the file afterwards is its old contents followed by the qualifying records of `SearchOrder(team, roster)`, in the order the search reaches them |
| `BattleTeams.ExtendTeam` | make_teams.py:59-62 | the loop over the roster, from a team of fewer than six, appends the qualifying records of every extension by a name not yet in the team, roster name by roster name |
| `BattleTeams.EmitIfQualifying` | make_teams.py:64-71 | a complete team adds its record `(team, coverage size)` when the coverage is at least 15, and nothing otherwise |
| `BattleTeams.MakeTeams` | make_teams.py:76-82 | the table is corrected in place, then the search from the empty team over the corrected table appends its records after the file's old contents |
| `BattleTeams.QualifyingAppend` | make_teams.py:60-62 | the records of two runs of the search in sequence are those of the first followed by those of the second |
| `BattleTeams.QualifyingExact` | make_teams.py:64-71 | a record is written if and only if its team was evaluated, it holds that team's coverage size, and the size is at least 15, so a coverage of 14 is never written |
| `BattleTeams.SearchOrderSound` | make_teams.py:59-62 | from a starting team of at most six distinct names, every evaluated team has exactly six distinct members, begins with the starting team and adds only roster names |
| `BattleTeams.SearchOrderComplete` | make_teams.py:59-62 | every completion of the starting team to six distinct names with roster names is evaluated |
| `BattleTeams.SearchRecordsExact` | make_teams.py:57-71 | a run from the empty team writes a record exactly for each arrangement of six distinct roster names whose coverage is at least 15, with that coverage size |
| `SearchCount.SearchOrderCount` | make_teams.py:59-62 | from t distinct roster names, the search evaluates (N-t)(N-t-1)...(N-5) complete teams |
| `SearchCount.SearchSize` | make_teams.py:59-62 | from the empty team, N distinct names give N!/(N-6)! evaluated teams, and none when N < 6 |
| `SearchCount.TableSearch` | make_teams.py:57-62 | over a loaded creature table, whose index has no repeated names, the run from the empty team evaluates N!/(N-6)! teams, exactly the arrangements of six distinct names, none twice |
| `SearchCount.SmallRosterWritesNothing` | make_teams.py:59-62 | with fewer than six names nothing is evaluated and nothing is written |
| `SearchCount.SearchOrderNoRepeats` | make_teams.py:59-62 | no complete team is evaluated twice |
| `SearchCount.EachArrangementOnce` | make_teams.py:59-62 | the run from the empty team evaluates a sequence if and only if it is six distinct roster names in some order, and each exactly once |

## Left out

- Reading the CSV files with pandas and indexing them (make_teams.py:13-14, 22-23). The tables are given as values. The file-name parameters are ignored by the source in favour of fixed names; the model has no file names.
- Logging of each qualifying team (make_teams.py:8, 66): a side channel with no behaviour to verify.
- JSON serialisation and the open/write/close of `file.txt` (make_teams.py:67-71): a record is a datatype value, and the file is the sequence `ResultSink.records`.
- NaN handling (make_teams.py:40, 44): a blank cell is `None`. The source's identity test `is not np.nan` is taken to hold exactly for blank cells.
- The `IndexError` raised when a lookup finds no row: by `.values[0]` for a missing creature (make_teams.py:36-37), and by `.values.tolist()[0]` for a missing type (make_teams.py:38, 41). It is a precondition instead: every team the search evaluates resolves in both tables (`SearchResolvable`). For `GetTeamAdvantages`, every member resolves (`AllResolvable`).
- Duplicate names in the creature index: the creature table is a map, so names are distinct. The counting lemmas assume a roster without repeats.
- Running time of the N!/(N-6)! enumeration: only the count is stated.
- `BattleTeams.EmitIfQualifying` and `BattleTeams.ExtendTeam`: the two branches of `build_battle_team` (make_teams.py:59-62 and 64-71) run inline in the source. The model gives each its own method, called from `BuildBattleTeam`, because the proofs are cheaper that way; the behaviour is the same.
