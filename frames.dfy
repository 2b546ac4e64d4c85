/** The slice of a pandas DataFrame the cleaner touches: an ordered header, one
    column of cells per header entry, and a row count. Columns are looked up by
    name (`df[name]`) and assigned by name (`df[name] = values`). */
module Frames {
  import opened Wrappers
  import opened Text

  /** One cell: a string, an integer, a float (kept exact) or a missing value (NaN). */
  datatype Cell = Text(s: string) | Int(i: int) | Float(x: real) | Missing

  /** The exceptions the cleaner can raise, by the Python exception they stand for. */
  datatype Error =
    | ColumnNotFound(name: string)    // KeyError: `df[name]` with no such column
    | DuplicateColumn(name: string)   // AttributeError: `df[name]` is a DataFrame, which has no `.str`
    | NotAStringColumn(name: string)  // AttributeError: `.str` on a column that holds no string
    | InvalidLiteral(text: string)    // ValueError from `int()` or `float()`
    | NonFiniteToInt                  // ValueError from numpy: a missing value (NaN) cannot be cast to an integer
    | OutOfRange(text: string)        // OverflowError: the integer does not fit in int64

  datatype Frame = Frame(names: seq<string>, columns: seq<seq<Cell>>, height: nat)

  /** Every header entry has a column and every column has one cell per row. */
  predicate WellFormed(f: Frame) {
    |f.columns| == |f.names| && forall j :: 0 <= j < |f.columns| ==> |f.columns[j]| == f.height
  }

  /** Column `j` is the one and only column called `name`. */
  predicate UniqueAt(names: seq<string>, name: string, j: int) {
    0 <= j < |names| && names[j] == name && forall k :: 0 <= k < |names| && names[k] == name ==> k == j
  }

  /** The positions of `name` in the header, in increasing order. */
  function Positions(names: seq<string>, name: string): (r: seq<nat>)
    ensures forall j: nat :: j in r <==> j < |names| && names[j] == name
    ensures forall a, b :: 0 <= a < b < |r| ==> r[a] < r[b]
    decreases |names|
  {
    if names == [] then []
    else
      var last := |names| - 1;
      var front := Positions(names[..last], name);
      var r := front + (if names[last] == name then [last] else []);
      assert forall j: nat :: j in r <==> j < |names| && names[j] == name by {
        forall j: nat ensures j in r <==> j < |names| && names[j] == name {
          assert j in r <==> j in front || (j == last && names[last] == name);
          if j < last {
            assert names[..last][j] == names[j];
          }
        }
      }
      assert forall a, b :: 0 <= a < b < |r| ==> r[a] < r[b] by {
        assert forall a :: 0 <= a < |front| ==> front[a] in front && r[a] == front[a];
      }
      r
  }

  lemma PositionsNoneIff(names: seq<string>, name: string)
    ensures |Positions(names, name)| == 0 <==> name !in names
  {
    if name in names {
      var j :| 0 <= j < |names| && names[j] == name;
      assert j in Positions(names, name);
    }
  }

  lemma PositionsOne(names: seq<string>, name: string)
    requires |Positions(names, name)| == 1
    ensures UniqueAt(names, name, Positions(names, name)[0])
  {
    assert Positions(names, name)[0] in Positions(names, name);
  }

  lemma PositionsNotOne(names: seq<string>, name: string)
    requires |Positions(names, name)| != 1
    ensures forall j :: !UniqueAt(names, name, j)
  {
    var hits := Positions(names, name);
    if |hits| > 1 {
      assert hits[0] in hits && hits[1] in hits;
    } else {
      forall j | 0 <= j < |names| ensures names[j] != name {
        assert j !in hits;
      }
    }
  }

  /** What the number of positions says about the name. */
  lemma PositionsCount(names: seq<string>, name: string)
    ensures |Positions(names, name)| == 0 <==> name !in names
    ensures |Positions(names, name)| == 1 ==> UniqueAt(names, name, Positions(names, name)[0])
    ensures |Positions(names, name)| != 1 ==> forall j :: !UniqueAt(names, name, j)
  {
    PositionsNoneIff(names, name);
    if |Positions(names, name)| == 1 {
      PositionsOne(names, name);
    } else {
      PositionsNotOne(names, name);
    }
  }

  /** `df[name].str`: the column called `name`, when there is exactly one. */
  function Lookup(f: Frame, name: string): (r: Result<seq<Cell>, Error>)
    requires WellFormed(f)
    ensures r.Success? <==> exists j :: UniqueAt(f.names, name, j)
    ensures forall j :: UniqueAt(f.names, name, j) ==> r == Success(f.columns[j])
    ensures name !in f.names ==> r == Failure(ColumnNotFound(name))
    ensures name in f.names && r.Failure? ==> r == Failure(DuplicateColumn(name))
  {
    var hits := Positions(f.names, name);
    PositionsCount(f.names, name);
    if |hits| == 0 then Failure(ColumnNotFound(name))
    else if |hits| > 1 then Failure(DuplicateColumn(name))
    else Success(f.columns[hits[0]])
  }

  /** `df[name] = col`: every column called `name` is replaced by `col`;
      when there is none, `name` is appended with `col` as its column. */
  function SetColumn(f: Frame, name: string, col: seq<Cell>): (r: Frame)
    requires WellFormed(f) && |col| == f.height
    ensures Grows(f, r, name) && name in r.names
    ensures name in f.names ==> r.names == f.names
    ensures forall j :: 0 <= j < |r.names| && r.names[j] == name ==> r.columns[j] == col
  {
    if name in f.names then
      Frame(f.names, seq(|f.columns|, j requires 0 <= j < |f.columns| => if f.names[j] == name then col else f.columns[j]), f.height)
    else
      Frame(f.names + [name], f.columns + [col], f.height)
  }

  /** Every header entry lower-cased, in place. */
  function LowerNames(names: seq<string>): (r: seq<string>)
    ensures |r| == |names|
  {
    seq(|names|, j requires 0 <= j < |names| => Lower(names[j]))
  }

  /** `df.columns = df.columns.str.lower()`. */
  function LowerHeader(f: Frame): (r: Frame)
    ensures r.columns == f.columns && r.height == f.height && |r.names| == |f.names|
    ensures WellFormed(f) ==> WellFormed(r)
  {
    Frame(LowerNames(f.names), f.columns, f.height)
  }

  /** `g` is `f` after assigning `name`: the same rows, the header kept with at most `name`
      appended, and every column not called `name` kept. */
  predicate Grows(f: Frame, g: Frame, name: string) {
    && WellFormed(f) && WellFormed(g) && g.height == f.height
    && |f.names| <= |g.names| <= |f.names| + 1
    && (forall j :: 0 <= j < |f.names| ==> g.names[j] == f.names[j])
    && (forall j :: |f.names| <= j < |g.names| ==> g.names[j] == name)
    && (forall j :: 0 <= j < |f.names| && f.names[j] != name ==> g.columns[j] == f.columns[j])
  }

  /** Two assignments in a row: the header grows by at most the two names, and only
      the columns called by one of them change. */
  lemma GrowsTwice(f: Frame, g: Frame, h: Frame, a: string, b: string)
    requires Grows(f, g, a) && Grows(g, h, b)
    ensures h.height == f.height && |f.names| <= |h.names| <= |f.names| + 2
    ensures forall j :: 0 <= j < |f.names| ==> h.names[j] == f.names[j]
    ensures forall j :: |f.names| <= j < |h.names| ==> h.names[j] == a || h.names[j] == b
    ensures forall j :: 0 <= j < |f.names| && f.names[j] != a && f.names[j] != b ==> h.columns[j] == f.columns[j]
  {
    forall j | 0 <= j < |f.names| && f.names[j] != a && f.names[j] != b
      ensures h.columns[j] == f.columns[j]
    {
      assert g.names[j] == f.names[j];
    }
  }

  /** Columns called by another name survive an assignment, at the same positions. */
  lemma GrowsKeepsOther(f: Frame, g: Frame, name: string, other: string)
    requires Grows(f, g, name) && other != name && other in f.names
    ensures other in g.names
    ensures forall j :: 0 <= j < |g.names| && g.names[j] == other ==>
      j < |f.names| && f.names[j] == other && g.columns[j] == f.columns[j]
  {
    var i :| 0 <= i < |f.names| && f.names[i] == other;
    assert g.names[i] == other;
  }

  /** Looking a name up after assigning a different name sees the frame as it was. */
  lemma LookupOtherAfterSet(f: Frame, g: Frame, name: string, other: string)
    requires Grows(f, g, name) && other != name
    ensures Lookup(g, other) == Lookup(f, other)
  {
    forall j ensures UniqueAt(g.names, other, j) <==> UniqueAt(f.names, other, j) {
      if 0 <= j < |f.names| && f.names[j] == other {
        assert g.names[j] == other;
      }
    }
    assert other in g.names <==> other in f.names;
  }

  /** Looking a name up right after assigning it, when it names at most one column, gives the assigned column. */
  lemma LookupAfterSet(f: Frame, name: string, col: seq<Cell>)
    requires WellFormed(f) && |col| == f.height
    requires forall a, b :: 0 <= a < b < |f.names| && f.names[a] == name ==> f.names[b] != name
    ensures Lookup(SetColumn(f, name, col), name) == Success(col)
  {
    var g := SetColumn(f, name, col);
    var j :| 0 <= j < |g.names| && g.names[j] == name;
    assert UniqueAt(g.names, name, j);
  }

  /** Assigning to a name every column of which already holds the values changes nothing. */
  lemma SetColumnUnchanged(f: Frame, name: string, col: seq<Cell>)
    requires WellFormed(f) && |col| == f.height && name in f.names
    requires forall j :: 0 <= j < |f.names| && f.names[j] == name ==> f.columns[j] == col
    ensures SetColumn(f, name, col) == f
  {
    var g := SetColumn(f, name, col);
    assert g.columns == f.columns;
  }

  /** The DataFrame object a caller passes in: its header, columns and row count change in place. */
  class Table {
    var names: seq<string>
    var columns: seq<seq<Cell>>
    var height: nat

    function Value(): Frame
      reads this
    {
      Frame(names, columns, height)
    }

    ghost predicate Valid()
      reads this
    {
      WellFormed(Value())
    }

    constructor (f: Frame)
      requires WellFormed(f)
      ensures Valid() && Value() == f
    {
      names, columns, height := f.names, f.columns, f.height;
    }

    /** `df.columns = df.columns.str.lower()`: renames every column in place, one header entry at a time. */
    method LowerColumns()
      requires Valid()
      modifies this
      ensures Valid() && Value() == LowerHeader(old(Value()))
    {
      var lowered: seq<string> := [];
      var j := 0;
      while j < |names|
        invariant 0 <= j <= |names|
        invariant |lowered| == j
        invariant forall k :: 0 <= k < j ==> lowered[k] == Lower(names[k])
      {
        lowered := lowered + [Lower(names[j])];
        j := j + 1;
      }
      names := lowered;
    }

    /** `df[name] = col`. */
    method Assign(name: string, col: seq<Cell>)
      requires Valid() && |col| == height
      modifies this
      ensures Valid() && Value() == SetColumn(old(Value()), name, col)
    {
      var f := SetColumn(Value(), name, col);
      names, columns := f.names, f.columns;
    }
  }
}
