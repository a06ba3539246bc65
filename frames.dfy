/** The pandas DataFrame the script works on: named columns of one common length,
    kept in insertion order. */
module Frames {

  datatype Option<T> = None | Some(value: T)

  /** A column holds numbers (the metrics), booleans (the flag columns) or text (the labels). */
  datatype Column = Numbers(values: seq<real>) | Flags(flags: seq<bool>) | Labels(labels: seq<string>)

  function Length(c: Column): nat
  {
    match c
    case Numbers(v) => |v|
    case Flags(f) => |f|
    case Labels(l) => |l|
  }

  /** The value of a frame: its row count, its column names in order, and their contents. */
  datatype Table = Table(rows: nat, names: seq<string>, columns: map<string, Column>)

  /** No name occurs twice. */
  ghost predicate Distinct(names: seq<string>)
  {
    forall n :: multiset(names)[n] <= 1
  }

  /** The head of a list of distinct names does not occur in its tail, which is distinct too. */
  lemma DistinctTail(names: seq<string>)
    requires Distinct(names) && names != []
    ensures Distinct(names[1..]) && names[0] !in names[1..]
  {
    assert names == [names[0]] + names[1..];
    assert multiset(names) == multiset{names[0]} + multiset(names[1..]);
    forall n ensures multiset(names[1..])[n] <= 1 {
      assert multiset(names)[n] == multiset{names[0]}[n] + multiset(names[1..])[n];
    }
    assert multiset(names)[names[0]] == 1 + multiset(names[1..])[names[0]];
  }

  /** Every named column is present exactly once and every column has one entry per row. */
  ghost predicate WellFormed(t: Table)
  {
    && Distinct(t.names)
    && (forall n :: n in t.columns <==> n in t.names)
    && (forall n :: n in t.columns ==> Length(t.columns[n]) == t.rows)
  }

  predicate IsNumeric(t: Table, name: string)
  {
    name in t.columns && t.columns[name].Numbers?
  }

  /** `df[name]` for a numeric column. */
  function Series(t: Table, name: string): seq<real>
    requires IsNumeric(t, name)
  {
    t.columns[name].values
  }

  /** `df[name] = c`: an existing column keeps its position and gets the new contents,
      a new column is appended at the end. */
  function Assign(t: Table, name: string, c: Column): (r: Table)
  {
    Table(t.rows, if name in t.columns then t.names else t.names + [name], t.columns[name := c])
  }

  /** Assigning a column of the right length keeps a frame well formed: the assigned name holds
      the new contents, an existing name keeps its position, a new name goes at the end, and no
      other column changes. */
  lemma AssignWellFormed(t: Table, name: string, c: Column)
    requires WellFormed(t) && Length(c) == t.rows
    ensures WellFormed(Assign(t, name, c))
    ensures name in Assign(t, name, c).columns && Assign(t, name, c).columns[name] == c
    ensures name in t.columns ==> Assign(t, name, c).names == t.names
    ensures name !in t.columns ==> Assign(t, name, c).names == t.names + [name]
    ensures forall n :: n in t.columns && n != name ==> Assign(t, name, c).columns[n] == t.columns[n]
  {
    if name !in t.columns {
      assert multiset(t.names + [name]) == multiset(t.names) + multiset{name};
    }
  }

  /** A DataFrame object whose columns the script adds in place. */
  class DataFrame {
    const rows: nat
    var names: seq<string>
    var columns: map<string, Column>

    function Value(): Table
      reads this
    {
      Table(rows, names, columns)
    }

    ghost predicate Valid()
      reads this
    {
      WellFormed(Value())
    }

    constructor (t: Table)
      requires WellFormed(t)
      ensures Valid() && Value() == t
    {
      rows, names, columns := t.rows, t.names, t.columns;
    }

    /** `df[name] = c`. */
    method SetColumn(name: string, c: Column)
      requires Valid() && Length(c) == rows
      modifies this
      ensures Valid()
      ensures Value() == Assign(old(Value()), name, c)
    {
      AssignWellFormed(Value(), name, c);
      if name !in columns {
        names := names + [name];
      }
      columns := columns[name := c];
    }
  }
}
