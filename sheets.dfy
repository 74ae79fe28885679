/**
  The data frames of scripts/populate.py, held column by column as pandas
  holds them: every column has a label and one cell per row.
 */
module Sheets {
  import opened Seqs

  /** One spreadsheet cell: text, a number, or a missing value (NaN). */
  datatype Cell = Text(text: string) | Num(value: real) | Missing

  datatype Column = Column(header: string, cells: seq<Cell>)

  /** A data frame with `height` rows. */
  datatype Sheet = Sheet(columns: seq<Column>, height: nat)

  /** The errors pandas raises in the modelled code (all of them `KeyError`). */
  datatype IngestError =
    | MissingColumns(names: seq<string>)  // labels asked for that the frame lacks
    | UnknownUnit(unit: string)           // a unit that is not a key of CONVERSION_FACTORS
    | NoMeasures                          // `astype` on a frame built from an empty list

  /** Every column has exactly one cell per row. */
  predicate WellFormed(s: Sheet) {
    forall j :: 0 <= j < |s.columns| ==> |s.columns[j].cells| == s.height
  }

  function HeaderOf(c: Column): string {
    c.header
  }

  /** `df.columns`. */
  function Headers(cols: seq<Column>): (r: seq<string>)
    ensures |r| == |cols|
    ensures forall j :: 0 <= j < |cols| ==> r[j] == cols[j].header
  {
    Map(cols, HeaderOf)
  }

  /** Row `i` of the frame, one cell per column. */
  function Row(s: Sheet, i: nat): (r: seq<Cell>)
    requires WellFormed(s) && i < s.height
    ensures |r| == |s.columns|
  {
    seq(|s.columns|, j requires 0 <= j < |s.columns| => s.columns[j].cells[i])
  }

  function Rows(s: Sheet): (r: seq<seq<Cell>>)
    requires WellFormed(s)
    ensures |r| == s.height
  {
    seq(s.height, i requires 0 <= i < s.height => Row(s, i))
  }

  // ---------------------------------------------------------------------------
  // df.drop_duplicates()
  // ---------------------------------------------------------------------------

  /** The positions of the first occurrence of every distinct element, in increasing order. */
  function FirstOccurrences<T(==)>(xs: seq<T>): (r: seq<nat>)
    ensures forall k :: 0 <= k < |r| ==> r[k] < |xs|
    decreases |xs|
  {
    if xs == [] then []
    else
      var p := xs[..|xs| - 1];
      FirstOccurrences(p) + if xs[|xs| - 1] in p then [] else [|xs| - 1]
  }

  /** Position `i` is kept exactly when `xs[i]` has not occurred before it; positions stay in order. */
  lemma {:induction false} FirstOccurrencesSpec<T>(xs: seq<T>)
    ensures forall i :: 0 <= i < |xs| ==> (i in FirstOccurrences(xs) <==> xs[i] !in xs[..i])
    ensures forall k, l :: 0 <= k < l < |FirstOccurrences(xs)| ==> FirstOccurrences(xs)[k] < FirstOccurrences(xs)[l]
  {
    if xs != [] {
      var p := xs[..|xs| - 1];
      FirstOccurrencesSpec(p);
      forall i | 0 <= i < |p| ensures p[..i] == xs[..i] { }
    }
  }

  /** `[xs[i] for i in idx]`. */
  function Pick<T>(xs: seq<T>, idx: seq<nat>): (r: seq<T>)
    requires forall k :: 0 <= k < |idx| ==> idx[k] < |xs|
    ensures |r| == |idx|
    ensures forall k :: 0 <= k < |idx| ==> r[k] == xs[idx[k]]
  {
    seq(|idx|, k requires 0 <= k < |idx| => xs[idx[k]])
  }

  /** Picking the first occurrences is deduplicating. */
  lemma {:induction false} PickFirstOccurrences<T>(xs: seq<T>)
    ensures Pick(xs, FirstOccurrences(xs)) == Dedup(xs)
  {
    if xs != [] {
      var p := xs[..|xs| - 1];
      var x := xs[|xs| - 1];
      PickFirstOccurrences(p);
      var r := FirstOccurrences(p);
      assert Pick(xs, r) == Pick(p, r);
      if x !in p {
        assert Pick(xs, r + [|xs| - 1]) == Pick(xs, r) + [x];
      }
    }
  }

  /** `df.drop_duplicates()`: keep the first copy of each distinct row. */
  function DedupRows(s: Sheet): (r: Sheet)
    requires WellFormed(s)
    ensures WellFormed(r)
  {
    var keep := FirstOccurrences(Rows(s));
    var cols := seq(|s.columns|, j requires 0 <= j < |s.columns| =>
      Column(s.columns[j].header, Pick(s.columns[j].cells, keep)));
    Sheet(cols, |keep|)
  }

  /**
    drop_duplicates keeps the columns and their labels and leaves the rows
    of the input with every repeated row after its first copy deleted.
   */
  lemma DedupRowsSpec(s: Sheet)
    requires WellFormed(s)
    ensures Headers(DedupRows(s).columns) == Headers(s.columns)
    ensures Rows(DedupRows(s)) == Dedup(Rows(s))
  {
    var r := DedupRows(s);
    var keep := FirstOccurrences(Rows(s));
    forall k | 0 <= k < r.height ensures Rows(r)[k] == Rows(s)[keep[k]] {
      assert Row(r, k) == Row(s, keep[k]);
    }
    assert Rows(r) == Pick(Rows(s), keep);
    PickFirstOccurrences(Rows(s));
  }

  // ---------------------------------------------------------------------------
  // df.drop(columns=...) and friends
  // ---------------------------------------------------------------------------

  /** The columns whose label `drop` does not reject, in order, unchanged. */
  function DropColumns(cols: seq<Column>, drop: string -> bool): (r: seq<Column>)
    ensures |r| <= |cols|
    decreases |cols|
  {
    if cols == [] then []
    else
      DropColumns(cols[..|cols| - 1], drop)
        + if drop(cols[|cols| - 1].header) then [] else [cols[|cols| - 1]]
  }

  function RejectedBy(drop: string -> bool, c: Column): bool {
    drop(c.header)
  }

  /** Dropping columns by label is rejecting the columns whose label is rejected. */
  lemma {:induction false} DropColumnsIsReject(cols: seq<Column>, drop: string -> bool)
    ensures DropColumns(cols, drop) == Reject(cols, c => RejectedBy(drop, c))
  {
    if cols != [] {
      DropColumnsIsReject(cols[..|cols| - 1], drop);
    }
  }

  /**
    Dropping columns deletes exactly the columns with rejected labels; the
    others stay whole (label and cells) and in order, and the labels left
    are the input labels with the rejected ones deleted.
   */
  lemma DropColumnsSpec(cols: seq<Column>, drop: string -> bool)
    ensures forall c :: c in DropColumns(cols, drop) <==> c in cols && !drop(c.header)
    ensures IsSubsequence(DropColumns(cols, drop), cols)
    ensures Headers(DropColumns(cols, drop)) == Reject(Headers(cols), drop)
  {
    var rej := c => RejectedBy(drop, c);
    DropColumnsIsReject(cols, drop);
    RejectElements(cols, rej);
    RejectSubsequence(cols, rej);
    MapReject(cols, HeaderOf, rej, drop);
  }

  /** Dropping columns keeps every column's length. */
  lemma DropColumnsHeight(cols: seq<Column>, drop: string -> bool, h: nat)
    requires forall j :: 0 <= j < |cols| ==> |cols[j].cells| == h
    ensures forall j :: 0 <= j < |DropColumns(cols, drop)| ==> |DropColumns(cols, drop)[j].cells| == h
  {
    DropColumnsSpec(cols, drop);
    forall j | 0 <= j < |DropColumns(cols, drop)| ensures |DropColumns(cols, drop)[j].cells| == h {
      assert DropColumns(cols, drop)[j] in cols;
    }
  }

  /** Two drops in a row are one drop by either test. */
  lemma {:induction false} DropColumnsTwice(cols: seq<Column>, p: string -> bool, q: string -> bool, either: string -> bool)
    requires forall x :: either(x) == (p(x) || q(x))
    ensures DropColumns(DropColumns(cols, p), q) == DropColumns(cols, either)
  {
    if cols != [] {
      var init := cols[..|cols| - 1];
      var c := cols[|cols| - 1];
      DropColumnsTwice(init, p, q, either);
      var r := DropColumns(init, p);
      if p(c.header) {
        assert DropColumns(cols, p) == r;
      } else {
        assert DropColumns(cols, p) == r + [c];
        assert (r + [c])[..|r|] == r;
        assert DropColumns(r + [c], q) == DropColumns(r, q) + if q(c.header) then [] else [c];
      }
    }
  }

  /** `df.columns = [f(col) for col in df.columns]`: new labels, same cells. */
  function Relabel(cols: seq<Column>, f: string -> string): (r: seq<Column>)
    ensures |r| == |cols|
    ensures forall j :: 0 <= j < |cols| ==> r[j] == Column(f(cols[j].header), cols[j].cells)
  {
    seq(|cols|, j requires 0 <= j < |cols| => Column(f(cols[j].header), cols[j].cells))
  }

  /** The labels of `wanted` that are not in `have`, in the order of `wanted`. */
  function MissingHeaders(wanted: seq<string>, have: seq<string>): (r: seq<string>)
    ensures forall x :: x in r <==> x in wanted && x !in have
    decreases |wanted|
  {
    if wanted == [] then []
    else
      var p := wanted[..|wanted| - 1];
      var w := wanted[|wanted| - 1];
      assert wanted == p + [w];
      MissingHeaders(p, have) + if w in have then [] else [w]
  }
}
