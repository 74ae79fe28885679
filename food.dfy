/**
  `create_food_table` of scripts/populate.py: strip the units from the
  column names, turn the placeholders and missing values of the nutrient
  columns into 0, and delete the `<` of values given as upper bounds.
  The function updates the frame it is given in place (its column names
  and the nutrient columns) before `astype` builds the returned copy.
 */
module FoodTable {
  import opened Wrappers
  import opened Text
  import opened Seqs
  import opened Patterns
  import opened Sheets

  /** `numerical_cols`: the nutrient columns, in the order the loop visits them. */
  const NumericColumns: seq<string> := [
    "energie_kilojoules", "energie_calories", "lipides_totaux", "acides_gras_satures",
    "acides_gras_mono_insatures", "acides_gras_poly_insatures", "cholesterol",
    "glucides_disponibles", "sucres", "amidon", "fibres_alimentaires", "proteines", "sel",
    "alcool", "eau", "retinol", "betacarotene", "vitamine_b1", "vitamine_b2", "vitamine_b6",
    "vitamine_b12", "niacine", "folate", "acide_pantothenique", "vitamine_c", "vitamine_d",
    "vitamine_e", "potassium", "sodium", "chlore", "calcium", "magnesium", "phosphore", "fer",
    "iode", "zinc", "selenium"]

  /** The descriptive columns of `dtype_food`, which come before the nutrient columns. */
  const DescriptiveColumns: seq<string> := ["id", "nom", "synonymes", "categorie", "unite_de_matrice"]

  /** The keys of `dtype_food`, in order. */
  const FoodColumns: seq<string> := DescriptiveColumns + NumericColumns

  /** The cells `replace(["tr.", "n.i.", ""], 0)` turns into 0 ("traces", "not indicated"). */
  predicate IsPlaceholder(c: Cell) {
    c == Text("tr.") || c == Text("n.i.") || c == Text("")
  }

  /** Lines 192-196 on one nutrient cell: placeholders, then missing values, become 0. */
  function PrepareCell(c: Cell): Cell {
    var replaced := if IsPlaceholder(c) then Num(0.0) else c;
    if replaced.Missing? then Num(0.0) else replaced
  }

  /** `astype(str)` on one cell; `show` is Python's `str` on a number. */
  function ShowCell(show: real -> string, c: Cell): string {
    match c
    case Text(t) => t
    case Num(v) => show(v)
    case Missing => "nan"
  }

  /** `astype(str).str.replace("<", "", regex=False)` on one cell. */
  function StripBound(show: real -> string, c: Cell): Cell {
    Text(RemoveChar(ShowCell(show, c), '<'))
  }

  function StripCells(show: real -> string, cells: seq<Cell>): (r: seq<Cell>)
    ensures |r| == |cells|
    ensures forall k :: 0 <= k < |cells| ==> r[k] == StripBound(show, cells[k])
  {
    seq(|cells|, k requires 0 <= k < |cells| => StripBound(show, cells[k]))
  }

  /** `df[numerical_cols] = ...replace(...)` then `...fillna(0)`: the nutrient columns prepared, the others as they are. */
  function PrepareColumns(cols: seq<Column>, numeric: seq<string>): (r: seq<Column>)
    ensures |r| == |cols|
  {
    seq(|cols|, j requires 0 <= j < |cols| =>
      if cols[j].header in numeric then Column(cols[j].header, Map(cols[j].cells, PrepareCell)) else cols[j])
  }

  /** One turn of the loop: `df[name] = df[name].astype(str).str.replace("<", "")`. */
  function ConvertColumn(cols: seq<Column>, name: string, show: real -> string): (r: seq<Column>)
    ensures |r| == |cols|
  {
    seq(|cols|, j requires 0 <= j < |cols| =>
      if cols[j].header == name then Column(name, StripCells(show, cols[j].cells)) else cols[j])
  }

  /** The loop over `names`, turn after turn. */
  function ConvertColumns(cols: seq<Column>, names: seq<string>, show: real -> string): (r: seq<Column>)
    decreases |names|
  {
    if names == [] then cols
    else ConvertColumn(ConvertColumns(cols, names[..|names| - 1], show), names[|names| - 1], show)
  }

  /**
    The frame's columns once the function is done with it, for the nutrient
    columns `numeric` (it stops early when one of them is missing).
   */
  function FrameAfter(cols: seq<Column>, show: real -> string, numeric: seq<string>): seq<Column> {
    var stripped := Relabel(cols, BaseName);
    if MissingHeaders(numeric, Headers(stripped)) != [] then stripped
    else ConvertColumns(PrepareColumns(stripped, numeric), numeric, show)
  }

  /**
    `create_food_table(df)`. `df[numerical_cols]` raises `KeyError` naming
    every missing nutrient column; `astype(dtype_food)` raises `KeyError`
    on the first key of `dtype_food` that is not a column.
   */
  function FoodTableOf(s: Sheet, show: real -> string, numeric: seq<string>, descriptive: seq<string>): Result<Sheet, IngestError> {
    var missing := MissingHeaders(numeric, Headers(Relabel(s.columns, BaseName)));
    if missing != [] then Failure(MissingColumns(missing))
    else
      var cols := FrameAfter(s.columns, show, numeric);
      var absent := MissingHeaders(descriptive + numeric, Headers(cols));
      if absent != [] then Failure(MissingColumns([absent[0]])) else Success(Sheet(cols, s.height))
  }

  /** `create_food_table(df)` with the script's own column lists. */
  function FoodTable(s: Sheet, show: real -> string): Result<Sheet, IngestError> {
    FoodTableOf(s, show, NumericColumns, DescriptiveColumns)
  }

  /** The data frame the function receives and updates. */
  class Frame {
    var columns: seq<Column>
    var height: nat

    constructor (columns: seq<Column>, height: nat)
      ensures this.columns == columns && this.height == height
    {
      this.columns := columns;
      this.height := height;
    }

    /** Every column has one cell per row. */
    predicate Valid()
      reads this
    {
      WellFormed(Sheet(columns, height))
    }
  }

  /** `create_food_table(df)`, with the updates it makes to `df` itself. */
  method CreateFoodTable(df: Frame, show: real -> string) returns (r: Result<Sheet, IngestError>)
    modifies df
    ensures r == FoodTable(old(Sheet(df.columns, df.height)), show)
    ensures df.columns == FrameAfter(old(df.columns), show, NumericColumns) && df.height == old(df.height)
    ensures old(df.Valid()) ==> df.Valid()
    ensures r.Success? ==> r.value == Sheet(df.columns, df.height)
    ensures old(df.Valid()) && r.Success? ==> WellFormed(r.value)
  {
    r := CleanFoodFrame(df, show, NumericColumns, DescriptiveColumns);
  }

  /**
    The body of create_food_table for the nutrient columns `numeric` and
    the other keys `descriptive` of `dtype_food`.
   */
  method CleanFoodFrame(df: Frame, show: real -> string, numeric: seq<string>, descriptive: seq<string>)
    returns (r: Result<Sheet, IngestError>)
    modifies df
    ensures r == FoodTableOf(old(Sheet(df.columns, df.height)), show, numeric, descriptive)
    ensures df.columns == FrameAfter(old(df.columns), show, numeric) && df.height == old(df.height)
    ensures old(df.Valid()) ==> df.Valid()
    ensures r.Success? ==> r.value == Sheet(df.columns, df.height)
    ensures old(df.Valid()) && r.Success? ==> WellFormed(r.value)
  {
    ghost var original := df.columns;
    ghost var height := df.height;
    FrameAfterWellFormed(original, height, show, numeric);
    df.columns := Relabel(df.columns, BaseName);
    var missing := MissingHeaders(numeric, Headers(df.columns));
    if missing != [] {
      return Failure(MissingColumns(missing));
    }
    df.columns := PrepareColumns(df.columns, numeric);
    ghost var prepared := df.columns;
    for i := 0 to |numeric|
      invariant df.columns == ConvertColumns(prepared, numeric[..i], show)
      invariant df.height == height
    {
      assert numeric[..i + 1][..i] == numeric[..i];
      df.columns := ConvertColumn(df.columns, numeric[i], show);
    }
    assert numeric[..|numeric|] == numeric;
    assert df.columns == FrameAfter(original, show, numeric);
    var absent := MissingHeaders(descriptive + numeric, Headers(df.columns));
    if absent != [] {
      r := Failure(MissingColumns([absent[0]]));
    } else {
      r := Success(Sheet(df.columns, df.height));
    }
    assert r == FoodTableOf(Sheet(original, height), show, numeric, descriptive);
  }

  // ---------------------------------------------------------------------------
  // Properties, for any list of nutrient and descriptive columns
  // ---------------------------------------------------------------------------

  /** Converting a cell twice is converting it once: the text has no `<` left. */
  lemma StripBoundTwice(show: real -> string, c: Cell)
    ensures StripBound(show, StripBound(show, c)) == StripBound(show, c)
  {
  }

  /**
    After the loop over `names`, a column whose name is one of `names` holds
    its converted cells, and every other column is as it was; no column
    moves or changes its name.
   */
  lemma {:induction false} ConvertColumnsSpec(cols: seq<Column>, names: seq<string>, show: real -> string)
    ensures |ConvertColumns(cols, names, show)| == |cols|
    ensures forall j :: 0 <= j < |cols| ==>
      ConvertColumns(cols, names, show)[j] ==
        (if cols[j].header in names then Column(cols[j].header, StripCells(show, cols[j].cells)) else cols[j])
    decreases |names|
  {
    if names != [] {
      var init := names[..|names| - 1];
      var n := names[|names| - 1];
      assert names == init + [n];
      ConvertColumnsSpec(cols, init, show);
      forall j | 0 <= j < |cols| ensures ConvertColumns(cols, names, show)[j] ==
        (if cols[j].header in names then Column(cols[j].header, StripCells(show, cols[j].cells)) else cols[j])
      {
        var cells := cols[j].cells;
        if cols[j].header in init && cols[j].header == n {
          forall k | 0 <= k < |cells| ensures StripCells(show, StripCells(show, cells))[k] == StripCells(show, cells)[k] {
            StripBoundTwice(show, cells[k]);
          }
          assert StripCells(show, StripCells(show, cells)) == StripCells(show, cells);
        }
      }
    }
  }

  /** A nutrient cell after the function: always text, never with `<`; what the text is, case by case. */
  lemma CleanCellSpec(show: real -> string, c: Cell)
    ensures StripBound(show, PrepareCell(c)).Text?
    ensures '<' !in StripBound(show, PrepareCell(c)).text
    ensures IsPlaceholder(c) || c.Missing? ==> StripBound(show, PrepareCell(c)) == Text(RemoveChar(show(0.0), '<'))
    ensures c.Num? ==> StripBound(show, PrepareCell(c)) == Text(RemoveChar(show(c.value), '<'))
    ensures c.Text? && !IsPlaceholder(c) ==> StripBound(show, PrepareCell(c)) == Text(RemoveChar(c.text, '<'))
  {
  }

  /** The cleaning keeps every column's length, so a well-formed frame stays well-formed. */
  lemma FrameAfterWellFormed(cols: seq<Column>, h: nat, show: real -> string, numeric: seq<string>)
    ensures |FrameAfter(cols, show, numeric)| == |cols|
    ensures WellFormed(Sheet(cols, h)) ==> WellFormed(Sheet(FrameAfter(cols, show, numeric), h))
  {
    var stripped := Relabel(cols, BaseName);
    ConvertColumnsSpec(PrepareColumns(stripped, numeric), numeric, show);
  }

  /**
    After the function, column `j` of the frame is named by BaseName and,
    when that name is a nutrient column and no nutrient column is missing,
    holds the cleaned cells; every other column keeps its cells.
   */
  lemma FrameAfterSpec(cols: seq<Column>, show: real -> string, numeric: seq<string>)
    ensures |FrameAfter(cols, show, numeric)| == |cols|
    ensures forall j :: 0 <= j < |cols| ==> FrameAfter(cols, show, numeric)[j].header == BaseName(cols[j].header)
    ensures forall j :: 0 <= j < |cols| ==>
      FrameAfter(cols, show, numeric)[j].cells ==
        if BaseName(cols[j].header) in numeric && MissingHeaders(numeric, Headers(Relabel(cols, BaseName))) == []
        then StripCells(show, Map(cols[j].cells, PrepareCell))
        else cols[j].cells
  {
    var stripped := Relabel(cols, BaseName);
    ConvertColumnsSpec(PrepareColumns(stripped, numeric), numeric, show);
  }

  /**
    The function fails exactly when a key of `dtype_food` is not among the
    stripped column names: with every missing nutrient column when there is
    one, and otherwise with the first missing descriptive column.
   */
  lemma FoodTableFailure(s: Sheet, show: real -> string, numeric: seq<string>, descriptive: seq<string>)
    ensures FoodTableOf(s, show, numeric, descriptive).Failure? <==>
      exists n :: n in descriptive + numeric && n !in Headers(Relabel(s.columns, BaseName))
    ensures var missing := MissingHeaders(numeric, Headers(Relabel(s.columns, BaseName)));
      missing != [] ==> FoodTableOf(s, show, numeric, descriptive) == Failure(MissingColumns(missing))
    ensures (FoodTableOf(s, show, numeric, descriptive).Failure? &&
             forall n :: n in numeric ==> n in Headers(Relabel(s.columns, BaseName))) ==>
      exists n :: n in descriptive && n !in Headers(Relabel(s.columns, BaseName)) &&
        FoodTableOf(s, show, numeric, descriptive) == Failure(MissingColumns([n]))
  {
    var stripped := Relabel(s.columns, BaseName);
    var missing := MissingHeaders(numeric, Headers(stripped));
    if missing == [] {
      var cols := FrameAfter(s.columns, show, numeric);
      FrameAfterSpec(s.columns, show, numeric);
      assert Headers(cols) == Headers(stripped);
      var absent := MissingHeaders(descriptive + numeric, Headers(cols));
      if absent != [] {
        assert absent[0] in absent;
      }
    } else {
      assert missing[0] in missing;
    }
  }

  /**
    On success the result has the input's rows and columns, in order: each
    column is named by its name without `(...)` groups and outer
    underscores, the nutrient columns hold cleaned text and the other
    columns are untouched.
   */
  lemma FoodTableSpec(s: Sheet, show: real -> string, numeric: seq<string>, descriptive: seq<string>)
    requires WellFormed(s) && FoodTableOf(s, show, numeric, descriptive).Success?
    ensures var t := FoodTableOf(s, show, numeric, descriptive).value;
      && WellFormed(t)
      && t.height == s.height
      && |t.columns| == |s.columns|
      && forall j :: 0 <= j < |s.columns| ==>
        && t.columns[j].header == BaseName(s.columns[j].header)
        && t.columns[j].cells == if t.columns[j].header in numeric
             then StripCells(show, Map(s.columns[j].cells, PrepareCell))
             else s.columns[j].cells
  {
    FrameAfterSpec(s.columns, show, numeric);
    FrameAfterWellFormed(s.columns, s.height, show, numeric);
  }

  /**
    Every column name of the result is its input name with the `(...)`
    groups and outer underscores removed: it has no group and no `_` at
    either end, it keeps the rest of the name in order, and a name without
    a group only loses its outer underscores.
   */
  lemma FoodHeadersStripped(s: Sheet, show: real -> string, numeric: seq<string>, descriptive: seq<string>)
    requires FoodTableOf(s, show, numeric, descriptive).Success?
    ensures |FoodTableOf(s, show, numeric, descriptive).value.columns| == |s.columns|
    ensures forall j :: 0 <= j < |s.columns| ==>
      var h := FoodTableOf(s, show, numeric, descriptive).value.columns[j].header;
      && NoGroup(h) && (h != [] ==> h[0] != '_' && h[|h| - 1] != '_')
      && IsSubsequence(h, s.columns[j].header)
      && (NoGroup(s.columns[j].header) ==> h == StripChar(s.columns[j].header, '_'))
  {
    FrameAfterSpec(s.columns, show, numeric);
    forall j | 0 <= j < |s.columns| && NoGroup(s.columns[j].header)
      ensures BaseName(s.columns[j].header) == StripChar(s.columns[j].header, '_')
    {
      BaseNameNoGroup(s.columns[j].header);
    }
  }

  /** A column named `name_(unit)`, as the cleaned sheet has them, is renamed `name`. */
  lemma FoodHeaderOfUnitColumn(s: Sheet, show: real -> string, numeric: seq<string>, descriptive: seq<string>,
                               j: nat, name: string, u: string)
    requires FoodTableOf(s, show, numeric, descriptive).Success?
    requires j < |s.columns| && s.columns[j].header == name + "_" + Paren(u)
    requires PlainName(name) && ')' !in u && '\n' !in u
    ensures j < |FoodTableOf(s, show, numeric, descriptive).value.columns|
    ensures FoodTableOf(s, show, numeric, descriptive).value.columns[j].header == name
  {
    FrameAfterSpec(s.columns, show, numeric);
    UnderscoredUnitHeader(name, u);
  }

  /**
    In a nutrient column of the result every cell is text without `<`, and
    a placeholder or missing input cell reads as the text of 0.
   */
  lemma NutrientCellsClean(s: Sheet, show: real -> string, numeric: seq<string>, descriptive: seq<string>, j: nat, k: nat)
    requires WellFormed(s) && FoodTableOf(s, show, numeric, descriptive).Success?
    requires j < |s.columns| && k < s.height
    requires BaseName(s.columns[j].header) in numeric
    ensures j < |FoodTableOf(s, show, numeric, descriptive).value.columns|
    ensures k < |FoodTableOf(s, show, numeric, descriptive).value.columns[j].cells|
    ensures var c := FoodTableOf(s, show, numeric, descriptive).value.columns[j].cells[k];
      && c.Text? && '<' !in c.text
      && (IsPlaceholder(s.columns[j].cells[k]) || s.columns[j].cells[k].Missing? ==> c == Text(RemoveChar(show(0.0), '<')))
  {
    FoodTableSpec(s, show, numeric, descriptive);
    CleanCellSpec(show, s.columns[j].cells[k]);
  }
}
