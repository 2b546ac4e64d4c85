/** `Preprocessor` (src/data_preprocessing.py): the state its constructor sets up,
    and `_clean_and_extract_base_features`, which lower-cases the header of the
    caller's table, then derives `ram_gb` from `ram` and `weight_kg` from
    `weight`, in place, and returns that same table. */
module Preprocessing {
  import opened Wrappers
  import opened Text
  import opened Numbers
  import opened Frames

  /** The two derived columns: where each comes from, the unit literal removed, where it goes. */
  datatype Extraction = RamGb | WeightKg {
    function Source(): string {
      match this
      case RamGb => "ram"
      case WeightKg => "weight"
    }

    function Unit(): string {
      match this
      case RamGb => "GB"
      case WeightKg => "kg"
    }

    function Target(): string {
      match this
      case RamGb => "ram_gb"
      case WeightKg => "weight_kg"
    }
  }

  /** One cell through `.str.replace(unit, '')` and then `.astype(int)` (RAM) or
      `.astype(float)` (weight). `.str` turns a cell that is not a string into a
      missing value, which `int` refuses and `float` keeps. */
  function ConvertCell(e: Extraction, c: Cell): (r: Result<Cell, Error>)
    ensures !c.Text? ==> (r.Success? <==> e.WeightKg?)
    ensures r.Success? && e.RamGb? ==> r.value.Int? && Int64Min <= r.value.i <= Int64Max
    ensures r.Success? && e.WeightKg? ==> (r.value.Float? <==> c.Text?) && (r.value.Missing? <==> !c.Text?)
    ensures c.Text? && r.Failure? ==>
      r.error == InvalidLiteral(RemoveAll(c.s, e.Unit())) || r.error == OutOfRange(RemoveAll(c.s, e.Unit()))
  {
    if !c.Text? then
      if e == RamGb then Failure(NonFiniteToInt) else Success(Missing)
    else
      var t := RemoveAll(c.s, e.Unit());
      if e == RamGb then
        match ParseInt(t)
        case None => Failure(InvalidLiteral(t))
        case Some(v) => if Int64Min <= v <= Int64Max then Success(Int(v)) else Failure(OutOfRange(t))
      else
        match ParseFloat(t)
        case None => Failure(InvalidLiteral(t))
        case Some(x) => Success(Float(x))
  }

  /** Gathers per-row results: every value, or the error of the first row that failed. */
  function Collect<T, E>(results: seq<Result<T, E>>): (r: Result<seq<T>, E>)
    ensures r.Success? ==> |r.value| == |results|
    decreases |results|
  {
    if results == [] then Success([])
    else match results[0]
      case Failure(err) => Failure(err)
      case Success(v) =>
        match Collect(results[1..])
        case Failure(err) => Failure(err)
        case Success(rest) => Success([v] + rest)
  }

  /** Row `k` is the first that failed. */
  predicate FirstFailure<T, E>(results: seq<Result<T, E>>, k: int) {
    0 <= k < |results| && results[k].Failure?
    && forall j :: 0 <= j < k ==> results[j].Success?
  }

  /** Gathering succeeds exactly when every row did, keeps each row's value in place,
      and otherwise reports the first failure. */
  lemma {:induction false} CollectSpec<T, E>(results: seq<Result<T, E>>)
    ensures Collect(results).Success? <==> forall k :: 0 <= k < |results| ==> results[k].Success?
    ensures Collect(results).Success? ==>
      forall k :: 0 <= k < |results| ==> Collect(results).value[k] == results[k].value
    ensures Collect(results).Failure? ==>
      exists k :: FirstFailure(results, k) && Collect(results).error == results[k].error
    decreases |results|
  {
    if results != [] {
      var tail := results[1..];
      CollectSpec(tail);
      assert forall k :: 1 <= k < |results| ==> results[k] == tail[k - 1];
      if results[0].Failure? {
        assert FirstFailure(results, 0);
      } else if Collect(tail).Failure? {
        var k :| FirstFailure(tail, k) && Collect(tail).error == tail[k].error;
        assert FirstFailure(results, k + 1);
      } else {
        assert Collect(results).value == [results[0].value] + Collect(tail).value;
      }
    }
  }

  /** `out` put in front of a successful gathering; a failure stays as it is. */
  function Prefixed<T, E>(out: seq<T>, r: Result<seq<T>, E>): Result<seq<T>, E> {
    match r
    case Failure(err) => Failure(err)
    case Success(rest) => Success(out + rest)
  }

  /** Gathering from row `i` on is row `i` followed by gathering from row `i + 1` on. */
  lemma CollectFrom<T, E>(results: seq<Result<T, E>>, i: nat)
    requires i < |results|
    ensures Collect(results[i..]) == match results[i]
      case Failure(err) => Failure(err)
      case Success(v) => Prefixed([v], Collect(results[i + 1..]))
  {
    assert results[i..][1..] == results[i + 1..];
  }

  lemma PrefixedTwice<T, E>(out: seq<T>, v: T, r: Result<seq<T>, E>)
    ensures Prefixed(out, Prefixed([v], r)) == Prefixed(out + [v], r)
  {
    if r.Success? {
      assert out + ([v] + r.value) == (out + [v]) + r.value;
    }
  }

  /** Every row of a column through `ConvertCell`. */
  function Converted(e: Extraction, cells: seq<Cell>): (results: seq<Result<Cell, Error>>)
    ensures |results| == |cells|
    ensures forall k :: 0 <= k < |cells| ==> results[k] == ConvertCell(e, cells[k])
  {
    seq(|cells|, k requires 0 <= k < |cells| => ConvertCell(e, cells[k]))
  }

  /** A whole column: every row converted, or the error of the first row that fails. */
  function ConvertColumn(e: Extraction, cells: seq<Cell>): (r: Result<seq<Cell>, Error>)
    ensures r.Success? <==> forall k :: 0 <= k < |cells| ==> ConvertCell(e, cells[k]).Success?
    ensures r.Success? ==>
      |r.value| == |cells| && forall k :: 0 <= k < |cells| ==> r.value[k] == ConvertCell(e, cells[k]).value
    ensures r.Failure? ==>
      exists k :: FirstFailure(Converted(e, cells), k) && r.error == ConvertCell(e, cells[k]).error
  {
    CollectSpec(Converted(e, cells));
    Collect(Converted(e, cells))
  }

  /** The loop pandas runs over the rows of one column: converts each row in turn and
      stops at the first that fails. */
  method ConvertRows(e: Extraction, cells: seq<Cell>) returns (r: Result<seq<Cell>, Error>)
    ensures r == ConvertColumn(e, cells)
  {
    ghost var results := Converted(e, cells);
    var out: seq<Cell> := [];
    var i := 0;
    assert results[0..] == results;
    assert Prefixed(out, Collect(results)) == Collect(results) by {
      if Collect(results).Success? {
        assert out + Collect(results).value == Collect(results).value;
      }
    }
    while i < |cells|
      invariant 0 <= i <= |cells|
      invariant Collect(results) == Prefixed(out, Collect(results[i..]))
    {
      CollectFrom(results, i);
      var c := ConvertCell(e, cells[i]);
      assert results[i] == c;
      if c.Failure? {
        return Failure(c.error);
      }
      PrefixedTwice(out, c.value, Collect(results[i + 1..]));
      out := out + [c.value];
      i := i + 1;
    }
    assert results[i..] == [];
    assert out + [] == out;
    r := Success(out);
  }

  /** The model's rule for `.str`: it refuses a non-empty column that holds no string at all,
      and accepts every other column. pandas decides by inferring the column's dtype, which
      this rule simplifies: pandas accepts an all-missing `object` column, and refuses a
      numeric column even with zero rows. */
  predicate StrRefused(col: seq<Cell>) {
    |col| > 0 && forall k :: 0 <= k < |col| ==> !col[k].Text?
  }

  /** The line for `e` succeeds on `f`: its source column exists once, `.str` accepts it,
      and every row converts. */
  predicate Extractable(f: Frame, e: Extraction)
    requires WellFormed(f)
  {
    var col := Lookup(f, e.Source());
    col.Success? && !StrRefused(col.value)
    && forall k :: 0 <= k < |col.value| ==> ConvertCell(e, col.value[k]).Success?
  }

  /** One line of the cleaner: `df[target] = df[source].str.replace(unit, '').astype(...)`.
      It succeeds exactly when the line can run; it then keeps the rows, adds or overwrites
      the target column with each row's conversion, and leaves every other column alone.
      A missing or repeated source column is reported first, then a column `.str` refuses,
      then the first row that does not convert. */
  function Extract(f: Frame, e: Extraction): (r: Result<Frame, Error>)
    requires WellFormed(f)
    ensures r.Success? <==> Extractable(f, e)
    ensures r.Success? ==> Grows(f, r.value, e.Target())
    ensures r.Success? ==> e.Target() in r.value.names
    ensures r.Success? && e.Target() in f.names ==> r.value.names == f.names
    ensures r.Success? ==>
      forall j, k :: 0 <= j < |r.value.names| && r.value.names[j] == e.Target() && 0 <= k < f.height ==>
        r.value.columns[j][k] == ConvertCell(e, Lookup(f, e.Source()).value[k]).value
    ensures Lookup(f, e.Source()).Failure? ==> r == Failure(Lookup(f, e.Source()).error)
    ensures Lookup(f, e.Source()).Success? && StrRefused(Lookup(f, e.Source()).value) ==>
      r == Failure(NotAStringColumn(e.Source()))
    ensures Lookup(f, e.Source()).Success? && !StrRefused(Lookup(f, e.Source()).value) && r.Failure? ==>
      ConvertColumn(e, Lookup(f, e.Source()).value).Failure? &&
      r.error == ConvertColumn(e, Lookup(f, e.Source()).value).error
  {
    match Lookup(f, e.Source())
    case Failure(err) => Failure(err)
    case Success(col) =>
      if StrRefused(col) then Failure(NotAStringColumn(e.Source()))
      else
        match ConvertColumn(e, col)
        case Failure(err) => Failure(err)
        case Success(out) => Success(SetColumn(f, e.Target(), out))
  }

  /** The state a call leaves the caller's table in, and the exception it raised, if any. */
  datatype Run = Run(frame: Frame, error: Option<Error>)

  /** `_clean_and_extract_base_features` on the table's value. The steps run in order
      and nothing is undone: when a step raises, the table keeps what the earlier steps wrote.
      Whatever the outcome, the rows stay, each header entry is lower-cased in place, at most
      the two derived columns are appended, and no other column changes. The call returns
      normally exactly when both lines can run on the lower-cased table; when the `ram` line
      cannot, the table is left exactly as lower-casing made it, and when only the `weight`
      line cannot, exactly as the `ram` line left it; either way the error is the failing line's. */
  function Clean(f: Frame): (r: Run)
    requires WellFormed(f)
    ensures WellFormed(r.frame) && r.frame.height == f.height
    ensures |f.names| <= |r.frame.names| <= |f.names| + 2
    ensures forall j :: 0 <= j < |f.names| ==> r.frame.names[j] == LowerHeader(f).names[j]
    ensures forall j :: |f.names| <= j < |r.frame.names| ==>
      r.frame.names[j] == "ram_gb" || r.frame.names[j] == "weight_kg"
    ensures forall j :: 0 <= j < |f.names| && r.frame.names[j] != "ram_gb" && r.frame.names[j] != "weight_kg" ==>
      r.frame.columns[j] == f.columns[j]
    ensures r.error == None <==> Extractable(LowerHeader(f), RamGb) && Extractable(LowerHeader(f), WeightKg)
    ensures !Extractable(LowerHeader(f), RamGb) ==>
      r == Run(LowerHeader(f), Some(Extract(LowerHeader(f), RamGb).error))
    ensures Extractable(LowerHeader(f), RamGb) && r.error.Some? ==>
      r.frame == Extract(LowerHeader(f), RamGb).value && Extract(r.frame, WeightKg) == Failure(r.error.value)
  {
    var lowered := LowerHeader(f);
    match Extract(lowered, RamGb)
    case Failure(err) => Run(lowered, Some(err))
    case Success(withRam) =>
      LookupOtherAfterSet(lowered, withRam, "ram_gb", "weight");
      match Extract(withRam, WeightKg)
      case Failure(err) => Run(withRam, Some(err))
      case Success(done) =>
        GrowsTwice(lowered, withRam, done, "ram_gb", "weight_kg");
        Run(done, None)
  }

  /** One line of the cleaner run on the caller's table. */
  method ExtractInto(df: Table, e: Extraction) returns (raised: Option<Error>)
    requires df.Valid()
    modifies df
    ensures df.Valid()
    ensures Extract(old(df.Value()), e).Failure? ==>
      raised == Some(Extract(old(df.Value()), e).error) && df.Value() == old(df.Value())
    ensures Extract(old(df.Value()), e).Success? ==>
      raised == None && df.Value() == Extract(old(df.Value()), e).value
  {
    var looked := Lookup(df.Value(), e.Source());
    if looked.Failure? {
      return Some(looked.error);
    }
    var col := looked.value;
    if StrRefused(col) {
      return Some(NotAStringColumn(e.Source()));
    }
    var converted := ConvertRows(e, col);
    if converted.Failure? {
      return Some(converted.error);
    }
    df.Assign(e.Target(), converted.value);
    raised := None;
  }

  class Preprocessor<ScalingParams> {
    var targetCol: string
    var numericCols: Option<seq<string>>
    var categoricalCols: Option<seq<string>>
    var fittedColumns: Option<seq<string>>
    /** Declared empty; nothing in the modelled code fills it, so its value type is left open. */
    var scalingParams: map<string, ScalingParams>

    /** A fresh preprocessor: target `price`, nothing fitted yet. */
    constructor ()
      ensures targetCol == "price"
      ensures numericCols == None && categoricalCols == None && fittedColumns == None
      ensures scalingParams == map[]
    {
      targetCol := "price";
      numericCols, categoricalCols, fittedColumns := None, None, None;
      scalingParams := map[];
    }

    /** `_clean_and_extract_base_features(df)`: changes the caller's table as `Clean`
        says and returns that same table, or raises with the table left part-way. */
    method CleanAndExtractBaseFeatures(df: Table) returns (r: Result<Table, Error>)
      requires df.Valid()
      modifies df
      ensures df.Valid()
      ensures df.Value() == Clean(old(df.Value())).frame
      ensures r.Success? <==> Clean(old(df.Value())).error == None
      ensures r.Success? ==> r.value == df
      ensures r.Failure? ==> Clean(old(df.Value())).error == Some(r.error)
    {
      df.LowerColumns();
      var raised := ExtractInto(df, RamGb);
      if raised.Some? {
        return Failure(raised.value);
      }
      raised := ExtractInto(df, WeightKg);
      if raised.Some? {
        return Failure(raised.value);
      }
      r := Success(df);
    }
  }
}
