/**
  `create_measures_table` of scripts/populate.py: one row (name, unit,
  conversion factor) for every column name that carries a unit in
  parentheses, such as `energie_kilojoules_(kj)`.
 */
module Measures {
  import opened Wrappers
  import opened Text
  import opened Dict
  import opened Patterns
  import opened Sheets
  import opened Seqs

  datatype Measure = Measure(name: string, unit: string, conversion: real)

  /** `CONVERSION_FACTORS`: how many grams (or calories, or joules) one unit is worth. */
  const ConversionFactors: Dict<real> :=
    [Entry("g", 1.0), Entry("mg", 0.001), Entry("kj", 1000.0), Entry("µg", 0.000001), Entry("kcal", 1000.0)]

  const KnownUnits: seq<string> := ["g", "mg", "kj", "µg", "kcal"]

  /** The lookup `CONVERSION_FACTORS[unit]` succeeds exactly for the five known units. */
  lemma ConversionFactorsKeys()
    ensures Keys(ConversionFactors) == KnownUnits
    ensures forall u :: Get(ConversionFactors, u).Some? <==> u in KnownUnits
  {
  }

  lemma ConversionFactorValues()
    ensures Get(ConversionFactors, "g") == Some(1.0)
    ensures Get(ConversionFactors, "mg") == Some(0.001)
    ensures Get(ConversionFactors, "kj") == Some(1000.0)
    ensures Get(ConversionFactors, "µg") == Some(0.000001)
    ensures Get(ConversionFactors, "kcal") == Some(1000.0)
  {
    GetIsLastWrite(ConversionFactors, "g", 0);
    GetIsLastWrite(ConversionFactors, "mg", 1);
    GetIsLastWrite(ConversionFactors, "kj", 2);
    GetIsLastWrite(ConversionFactors, "µg", 3);
  }

  /** A column name with a unit that CONVERSION_FACTORS does not know. */
  predicate HasUnknownUnit(col: string) {
    FirstGroup(col).Some? && Get(ConversionFactors, FirstGroup(col).value).None?
  }

  predicate HasUnit(col: string) {
    FirstGroup(col).Some?
  }

  /**
    The rows the loop appends for the columns `cols`, in order, or the
    `KeyError` of the first unknown unit.
   */
  function MeasureRows(cols: seq<string>): Result<seq<Measure>, IngestError>
    decreases |cols|
  {
    if cols == [] then Success([])
    else
      match MeasureRows(cols[..|cols| - 1])
      case Failure(e) => Failure(e)
      case Success(ms) =>
        var col := cols[|cols| - 1];
        match FirstGroup(col)
        case None => Success(ms)
        case Some(u) =>
          match Get(ConversionFactors, u)
          case None => Failure(UnknownUnit(u))
          case Some(f) => Success(ms + [Measure(BaseName(col), u, f)])
  }

  /** The whole function: `astype` on the frame of an empty list raises `KeyError`. */
  function MeasuresTable(cols: seq<string>): Result<seq<Measure>, IngestError> {
    match MeasureRows(cols)
    case Failure(e) => Failure(e)
    case Success(ms) => if ms == [] then Failure(NoMeasures) else Success(ms)
  }

  /** `create_measures_table(df)`, on the column names `df.columns`. */
  method CreateMeasuresTable(columns: seq<string>) returns (r: Result<seq<Measure>, IngestError>)
    ensures r == MeasuresTable(columns)
  {
    var measures: seq<Measure> := [];
    var i := 0;
    while i < |columns|
      invariant 0 <= i <= |columns|
      invariant MeasureRows(columns[..i]) == Success(measures)
    {
      var col := columns[i];
      assert columns[..i + 1][..i] == columns[..i];
      var found := FirstGroup(col);
      if found.Some? {
        var factor := Get(ConversionFactors, found.value);
        if factor.None? {
          FailureIsFinal(columns, i + 1);
          return Failure(UnknownUnit(found.value));
        }
        measures := measures + [Measure(BaseName(col), found.value, factor.value)];
      }
      i := i + 1;
    }
    assert columns[..i] == columns;
    if measures == [] {
      return Failure(NoMeasures);
    }
    return Success(measures);
  }

  /** Once a prefix of the columns fails, the whole list fails with the same error. */
  lemma {:induction false} FailureIsFinal(cols: seq<string>, n: nat)
    requires n <= |cols| && MeasureRows(cols[..n]).Failure?
    ensures MeasureRows(cols) == MeasureRows(cols[..n])
    decreases |cols|
  {
    if n == |cols| {
      assert cols[..n] == cols;
    } else {
      var init := cols[..|cols| - 1];
      assert init[..n] == cols[..n];
      FailureIsFinal(init, n);
    }
  }

  /** The columns that carry a unit, in order. */
  function UnitColumns(cols: seq<string>): (r: seq<string>)
  {
    Reject(cols, col => !HasUnit(col))
  }

  /** The row derived from a column with a known unit. */
  predicate IsMeasureOf(m: Measure, col: string) {
    && FirstGroup(col) == Some(m.unit)
    && m.name == BaseName(col)
    && Get(ConversionFactors, m.unit) == Some(m.conversion)
  }

  /**
    The loop succeeds exactly when no column has an unknown unit, and then
    gives one row per column with a unit, in column order: the unit is the
    text of the first group, the name the column name without its groups
    and outer underscores, the factor the one CONVERSION_FACTORS gives.
   */
  lemma MeasureRowsSpec(cols: seq<string>)
    ensures MeasureRows(cols).Success? <==> forall i :: 0 <= i < |cols| ==> !HasUnknownUnit(cols[i])
    ensures MeasureRows(cols).Failure? ==> MeasureRows(cols).error.UnknownUnit?
    ensures MeasureRows(cols).Success? ==>
      var ms := MeasureRows(cols).value;
      |ms| == |UnitColumns(cols)| && forall k :: 0 <= k < |ms| ==> IsMeasureOf(ms[k], UnitColumns(cols)[k])
  {
    MeasureRowsSucceeds(cols);
    MeasureRowsValues(cols);
  }

  /** The loop succeeds exactly when no unit is unknown, and fails only with an unknown unit. */
  lemma {:induction false} MeasureRowsSucceeds(cols: seq<string>)
    ensures MeasureRows(cols).Success? <==> forall i :: 0 <= i < |cols| ==> !HasUnknownUnit(cols[i])
    ensures MeasureRows(cols).Failure? ==> MeasureRows(cols).error.UnknownUnit?
    decreases |cols|
  {
    if cols != [] {
      var init := cols[..|cols| - 1];
      MeasureRowsSucceeds(init);
      MeasureRowsStep(cols);
      AllKnownStep(cols);
    }
  }

  /** No column of `cols` has an unknown unit. */
  predicate AllKnown(cols: seq<string>) {
    forall i :: 0 <= i < |cols| ==> !HasUnknownUnit(cols[i])
  }

  /** AllKnown of a list is AllKnown of its prefix and of its last column. */
  lemma AllKnownStep(cols: seq<string>)
    requires cols != []
    ensures AllKnown(cols) <==> AllKnown(cols[..|cols| - 1]) && !HasUnknownUnit(cols[|cols| - 1])
  {
    var init := cols[..|cols| - 1];
    assert forall i :: 0 <= i < |init| ==> init[i] == cols[i];
  }

  /** One step of the loop: it goes on exactly when it had not failed and the unit of the new column is known. */
  lemma MeasureRowsStep(cols: seq<string>)
    requires cols != []
    ensures MeasureRows(cols).Success? <==>
      MeasureRows(cols[..|cols| - 1]).Success? && !HasUnknownUnit(cols[|cols| - 1])
    ensures MeasureRows(cols).Failure? && MeasureRows(cols[..|cols| - 1]).Success? ==>
      MeasureRows(cols).error.UnknownUnit?
    ensures MeasureRows(cols[..|cols| - 1]).Failure? ==> MeasureRows(cols) == MeasureRows(cols[..|cols| - 1])
  {
  }

  /** The rows of a successful loop, one per unit column, in order. */
  lemma {:induction false} MeasureRowsValues(cols: seq<string>)
    ensures MeasureRows(cols).Success? ==>
      var ms := MeasureRows(cols).value;
      |ms| == |UnitColumns(cols)| && forall k :: 0 <= k < |ms| ==> IsMeasureOf(ms[k], UnitColumns(cols)[k])
    decreases |cols|
  {
    if cols != [] && MeasureRows(cols).Success? {
      var init := cols[..|cols| - 1];
      var col := cols[|cols| - 1];
      MeasureRowsValues(init);
      var ms := MeasureRows(init).value;
      assert UnitColumns(cols) == UnitColumns(init) + if HasUnit(col) then [col] else [];
      if HasUnit(col) {
        var u := FirstGroup(col).value;
        var m := Measure(BaseName(col), u, Get(ConversionFactors, u).value);
        assert MeasureRows(cols).value == ms + [m];
        assert IsMeasureOf(m, col);
      } else {
        assert MeasureRows(cols).value == ms;
      }
    }
  }

  /**
    Columns `name_(unit)` with known units give back exactly their names,
    units and factors, one row per column, in column order.
   */
  lemma MeasuresOfUnitHeaders(cols: seq<string>, names: seq<string>, units: seq<string>)
    requires |cols| == |names| == |units|
    requires forall i :: 0 <= i < |cols| ==> cols[i] == names[i] + "_" + Paren(units[i])
    requires forall i :: 0 <= i < |cols| ==> PlainName(names[i]) && units[i] in KnownUnits
    ensures MeasureRows(cols).Success? && |MeasureRows(cols).value| == |cols|
    ensures MeasureRows(cols).Success? ==> forall i :: 0 <= i < |cols| ==>
      var ms := MeasureRows(cols).value;
      && i < |ms| && ms[i].name == names[i] && ms[i].unit == units[i]
      && Get(ConversionFactors, units[i]) == Some(ms[i].conversion)
  {
    ConversionFactorsKeys();
    forall i | 0 <= i < |cols|
      ensures FirstGroup(cols[i]) == Some(units[i]) && BaseName(cols[i]) == names[i]
    {
      assert ')' !in units[i] && '\n' !in units[i];
      UnderscoredUnitHeader(names[i], units[i]);
    }
    MeasureRowsSpec(cols);
    RejectNothing(cols, col => !HasUnit(col));
  }

  /** A failing loop reports the unit of the first column whose unit is unknown. */
  lemma {:induction false} MeasureRowsFailure(cols: seq<string>, i: nat)
    requires i < |cols| && HasUnknownUnit(cols[i])
    requires forall j :: 0 <= j < i ==> !HasUnknownUnit(cols[j])
    ensures MeasureRows(cols) == Failure(UnknownUnit(FirstGroup(cols[i]).value))
  {
    var pre := cols[..i];
    assert forall j :: 0 <= j < |pre| ==> pre[j] == cols[j];
    MeasureRowsSpec(pre);
    assert cols[..i + 1][..i] == pre;
    FailureIsFinal(cols, i + 1);
  }

  /** A column without a group adds no row. */
  lemma MeasureRowsSkip(cols: seq<string>, col: string)
    requires !HasUnit(col)
    ensures MeasureRows(cols + [col]) == MeasureRows(cols)
  {
    assert (cols + [col])[..|cols|] == cols;
  }

  /** The table fails with NoMeasures exactly when every unit is known and no column has one. */
  lemma MeasuresTableEmpty(cols: seq<string>)
    ensures MeasuresTable(cols) == Failure(NoMeasures) <==>
      (forall i :: 0 <= i < |cols| ==> !HasUnit(cols[i]))
  {
    MeasureRowsSpec(cols);
    if exists i :: 0 <= i < |cols| && HasUnit(cols[i]) {
      var i :| 0 <= i < |cols| && HasUnit(cols[i]);
      UnitColumnsSpec(cols);
      assert cols[i] in UnitColumns(cols);
    } else {
      assert forall i :: 0 <= i < |cols| ==> !HasUnknownUnit(cols[i]);
      UnitColumnsNone(cols);
    }
  }

  /** Without a column that has a unit, there are no unit columns. */
  lemma {:induction false} UnitColumnsNone(cols: seq<string>)
    requires forall i :: 0 <= i < |cols| ==> !HasUnit(cols[i])
    ensures UnitColumns(cols) == []
    decreases |cols|
  {
    if cols != [] {
      UnitColumnsNone(cols[..|cols| - 1]);
    }
  }

  /** UnitColumns holds exactly the columns with a unit. */
  lemma UnitColumnsSpec(cols: seq<string>)
    ensures forall c :: c in UnitColumns(cols) <==> c in cols && HasUnit(c)
  {
    RejectElements(cols, col => !HasUnit(col));
  }

  /**
    UnitColumns keeps the columns in their order and with their repeats: a
    column with a unit is kept as often as it occurs, any other never.
   */
  lemma UnitColumnsOrder(cols: seq<string>)
    ensures IsSubsequence(UnitColumns(cols), cols)
    ensures forall c :: multiset(UnitColumns(cols))[c] == if HasUnit(c) then multiset(cols)[c] else 0
  {
    RejectSubsequence(cols, col => !HasUnit(col));
    RejectCount(cols, col => !HasUnit(col));
  }

  /**
    A unit is text from inside its column name, so ASCII column names (the
    only ones clean_data produces) never yield the unit "µg".
   */
  lemma NoMicrogramUnit(col: string)
    requires IsAscii(col)
    ensures FirstGroup(col) != Some("µg")
  {
  }

  /** The measures built from a cleaned frame have no row with the unit "µg". */
  lemma CleanedHeadersNoMicrograms(cols: seq<string>)
    requires forall i :: 0 <= i < |cols| ==> IsAscii(cols[i])
    requires MeasuresTable(cols).Success?
    ensures forall m :: m in MeasuresTable(cols).value ==> m.unit != "µg"
  {
    MeasureRowsSpec(cols);
    UnitColumnsSpec(cols);
    var ms := MeasuresTable(cols).value;
    forall k | 0 <= k < |ms| ensures ms[k].unit != "µg" {
      var col := UnitColumns(cols)[k];
      assert col in cols;
      NoMicrogramUnit(col);
    }
  }
}
