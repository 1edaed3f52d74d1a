/** The two tables the team search reads: creatures (name -> types) and
    types (type -> five "strong against" slots), and the one correction
    applied to the creature table when it is loaded. */
module Pokedex {

  datatype Option<+T> = None | Some(value: T)

  /** A creature's first type and, when the row has one, its second type. */
  datatype Creature = Creature(type1: string, type2: Option<string>)

  /** The five `super_1..super_5` columns of one row of the type table;
      a blank cell is `None`. */
  type Slots = s: seq<Option<string>> | |s| == 5 witness [None, None, None, None, None]

  type TypeTable = map<string, Slots>

  /** The cell value that means "no advantage in this slot". */
  const Sentinel: string := "--"

  /** The raw spelling in the creature data and its corrected form. */
  const RawFight: string := "Fight"
  const Fighting: string := "Fighting"

  /** No element occurs twice. */
  predicate Distinct<T(==)>(s: seq<T>)
  {
    forall i, j :: 0 <= i < j < |s| ==> s[i] != s[j]
  }

  /** One creature row after the `type_1` correction. */
  function NormalizeCreature(c: Creature): (r: Creature)
    ensures r.type1 != RawFight
    ensures r.type2 == c.type2
    ensures c.type1 == RawFight ==> r == c.(type1 := Fighting)
    ensures c.type1 != RawFight ==> r == c
  {
    if c.type1 == RawFight then c.(type1 := Fighting) else c
  }

  /** The whole creature table after every `type_1` equal to "Fight" has
      become "Fighting": same names, no "Fight" left in `type_1`, every
      `type_2` untouched, and every row without "Fight" unchanged. */
  function Normalized(rows: map<string, Creature>): (r: map<string, Creature>)
    ensures r.Keys == rows.Keys
    ensures forall n :: n in r ==> r[n].type1 != RawFight && r[n].type2 == rows[n].type2
    ensures forall n :: n in rows && rows[n].type1 == RawFight ==> r[n].type1 == Fighting
    ensures forall n :: n in rows && rows[n].type1 != RawFight ==> r[n] == rows[n]
  {
    map n | n in rows :: NormalizeCreature(rows[n])
  }

  /** The correction changes nothing when applied a second time. */
  lemma NormalizedIdempotent(rows: map<string, Creature>)
    ensures Normalized(Normalized(rows)) == Normalized(rows)
  {
  }

  /** The creature table: `names` is the table's index in file order (the
      roster the search walks), `rows` the columns `type_1` and `type_2`. */
  class CreatureTable {
    var names: seq<string>
    var rows: map<string, Creature>

    /** The index lists each key of `rows` exactly once: the names are
        the index of a table keyed by name, so the roster handed to the
        search has no repeats, which the counting lemmas rely on. */
    ghost predicate Valid()
      reads this
    {
      Distinct(names) && forall n :: n in names <==> n in rows
    }

    /** The table as read from the creature file, indexed by name. */
    constructor Load(names: seq<string>, rows: map<string, Creature>)
      requires Distinct(names)
      requires forall n :: n in names <==> n in rows
      ensures Valid()
      ensures this.names == names && this.rows == rows
    {
      this.names := names;
      this.rows := rows;
    }

    /** Rewrites, in place, `type_1` "Fight" to "Fighting"; the index and
        every other cell stay as they were. */
    method NormalizeFightType()
      requires Valid()
      modifies this
      ensures Valid()
      ensures names == old(names)
      ensures rows == Normalized(old(rows))
    {
      rows := Normalized(rows);
    }
  }
}
