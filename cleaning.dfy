/**
  `clean_data` and `remove_accents` of scripts/populate.py: the steps that
  turn the downloaded nutrition sheet into a frame with short, lower-case,
  ASCII column names.
 */
module Cleaning {
  import opened Wrappers
  import opened Text
  import opened Seqs
  import opened Patterns
  import opened Sheets

  /** The columns dropped by name; `drop` raises `KeyError` when one is missing. */
  const NamedDrops: seq<string> := ["ID V 4.0", "ID SwissFIR", "Densité", "Entrée modifiée"]

  predicate IsNamedDrop(h: string) {
    h in NamedDrops
  }

  /** `df.filter(regex=r"^Source.*")`. */
  predicate IsSourceColumn(h: string) {
    StartsWith(h, "Source")
  }

  /** `df.filter(regex=r"^Dérivation de la valeur.*")`. */
  predicate IsDerivationColumn(h: string) {
    StartsWith(h, "Dérivation de la valeur")
  }

  /** `df.filter(regex=r"^Activité de *")`; the trailing ` *` also matches nothing. */
  predicate IsActivityColumn(h: string) {
    StartsWith(h, "Activité de")
  }

  /** A column that clean_data removes. */
  predicate IsDroppedColumn(h: string) {
    IsNamedDrop(h) || IsSourceColumn(h) || IsDerivationColumn(h) || IsActivityColumn(h)
  }

  // The drops applied so far, after the first two and the first three steps.
  predicate DroppedByTwo(h: string) {
    IsNamedDrop(h) || IsSourceColumn(h)
  }

  predicate DroppedByThree(h: string) {
    DroppedByTwo(h) || IsDerivationColumn(h)
  }

  /**
    The header comprehension of clean_data: strip the surrounding
    whitespace, delete commas, turn spaces and hyphens into underscores and
    lower-case the result.
   */
  function NormaliseHeader(col: string): (r: string)
    ensures ',' !in r && ' ' !in r && '-' !in r
    ensures IsLower(r)
  {
    var noComma := RemoveChar(StripSpace(col), ',');
    var underscored := ReplaceChar(ReplaceChar(noComma, ' ', '_'), '-', '_');
    LowerAvoidsMark(underscored, ',');
    LowerAvoidsMark(underscored, ' ');
    LowerAvoidsMark(underscored, '-');
    LowerIsLower(underscored);
    Lower(underscored)
  }

  /** A header that is already normal is left as it is. */
  lemma NormaliseHeaderKeepsNormal(col: string)
    requires ',' !in col && ' ' !in col && '-' !in col && IsLower(col)
    requires col != [] ==> !IsSpace(col[0]) && !IsSpace(col[|col| - 1])
    ensures NormaliseHeader(col) == col
  {
    TrimKeeps(col, IsSpace);
    ReplaceAbsent(col, ' ', '_');
    ReplaceAbsent(col, '-', '_');
    LowerOfLower(col);
  }

  /**
    `remove_accents`: NFKD-normalise (`nfkd`, a foreign call here) and keep
    only the ASCII characters of the result.
   */
  function RemoveAccents(nfkd: string -> string, text: string): (r: string)
    ensures IsAscii(r)
    ensures forall c :: c in r <==> c in nfkd(text) && c < '\U{80}'
    ensures IsSubsequence(r, nfkd(text))
  {
    AsciiOnly(nfkd(text))
  }

  /** A text that NFKD leaves alone and that is ASCII already comes back unchanged. */
  lemma RemoveAccentsKeepsAscii(nfkd: string -> string, text: string)
    requires nfkd(text) == text && IsAscii(text)
    ensures RemoveAccents(nfkd, text) == text
  {
  }

  /** What clean_data makes of one surviving column name. */
  function CleanHeader(nfkd: string -> string, col: string): string {
    RemoveAccents(nfkd, NormaliseHeader(StripDoubleGroups(col)))
  }

  /** `clean_data(df)`. */
  function CleanData(s: Sheet, nfkd: string -> string): Result<Sheet, IngestError>
    requires WellFormed(s)
  {
    var deduped := DedupRows(s);
    var missing := MissingHeaders(NamedDrops, Headers(deduped.columns));
    if missing != [] then Failure(MissingColumns(missing))
    else
      var c1 := DropColumns(deduped.columns, IsNamedDrop);
      var c2 := DropColumns(c1, IsSourceColumn);
      var c3 := DropColumns(c2, IsDerivationColumn);
      var c4 := DropColumns(c3, IsActivityColumn);
      var c5 := Relabel(c4, StripDoubleGroups);
      var c6 := Relabel(c5, NormaliseHeader);
      var c7 := Relabel(c6, h => RemoveAccents(nfkd, h));
      Success(Sheet(c7, deduped.height))
  }

  /** The columns that survive clean_data's four drops, taken from the deduplicated frame. */
  function KeptColumns(s: Sheet): seq<Column>
    requires WellFormed(s)
  {
    DropColumns(DedupRows(s).columns, IsDroppedColumn)
  }

  /** The four drops in a row are one drop of every column IsDroppedColumn names. */
  lemma FourDrops(cols: seq<Column>)
    ensures DropColumns(DropColumns(DropColumns(DropColumns(cols, IsNamedDrop), IsSourceColumn), IsDerivationColumn), IsActivityColumn)
         == DropColumns(cols, IsDroppedColumn)
  {
    DropColumnsTwice(cols, IsNamedDrop, IsSourceColumn, DroppedByTwo);
    DropColumnsTwice(cols, DroppedByTwo, IsDerivationColumn, DroppedByThree);
    DropColumnsTwice(cols, DroppedByThree, IsActivityColumn, IsDroppedColumn);
  }

  /**
    clean_data fails exactly when one of the four named columns is missing,
    and then reports the missing ones. Otherwise the result holds the
    deduplicated rows, and its columns are the surviving columns, in order,
    each with its cells untouched and its name cleaned.
   */
  lemma CleanDataSpec(s: Sheet, nfkd: string -> string)
    requires WellFormed(s)
    ensures CleanData(s, nfkd).Failure? <==> exists n :: n in NamedDrops && n !in Headers(s.columns)
    ensures CleanData(s, nfkd).Failure? ==>
      CleanData(s, nfkd) == Failure(MissingColumns(MissingHeaders(NamedDrops, Headers(s.columns))))
    ensures CleanData(s, nfkd).Success? ==>
      var t := CleanData(s, nfkd).value;
      var kept := KeptColumns(s);
      && WellFormed(t)
      && t.height == |Dedup(Rows(s))|
      && |t.columns| == |kept|
      && forall j :: 0 <= j < |kept| ==> t.columns[j] == Column(CleanHeader(nfkd, kept[j].header), kept[j].cells)
  {
    CleanDataFailure(s, nfkd);
    if CleanData(s, nfkd).Success? {
      CleanDataColumns(s, nfkd);
      CleanDataHeight(s, nfkd);
    }
  }

  lemma CleanDataFailure(s: Sheet, nfkd: string -> string)
    requires WellFormed(s)
    ensures CleanData(s, nfkd).Failure? <==> exists n :: n in NamedDrops && n !in Headers(s.columns)
    ensures CleanData(s, nfkd).Failure? ==>
      CleanData(s, nfkd) == Failure(MissingColumns(MissingHeaders(NamedDrops, Headers(s.columns))))
  {
    DedupRowsSpec(s);
    var missing := MissingHeaders(NamedDrops, Headers(s.columns));
    if missing != [] {
      assert missing[0] in missing;
    }
  }

  lemma CleanDataColumns(s: Sheet, nfkd: string -> string)
    requires WellFormed(s) && CleanData(s, nfkd).Success?
    ensures |CleanData(s, nfkd).value.columns| == |KeptColumns(s)|
    ensures forall j :: 0 <= j < |KeptColumns(s)| ==>
      CleanData(s, nfkd).value.columns[j] == Column(CleanHeader(nfkd, KeptColumns(s)[j].header), KeptColumns(s)[j].cells)
  {
    FourDrops(DedupRows(s).columns);
  }

  lemma CleanDataHeight(s: Sheet, nfkd: string -> string)
    requires WellFormed(s) && CleanData(s, nfkd).Success?
    ensures WellFormed(CleanData(s, nfkd).value)
    ensures CleanData(s, nfkd).value.height == |Dedup(Rows(s))|
  {
    var deduped := DedupRows(s);
    DedupHeight(s);
    CleanDataColumns(s, nfkd);
    DropColumnsHeight(deduped.columns, IsDroppedColumn, deduped.height);
  }

  lemma DedupHeight(s: Sheet)
    requires WellFormed(s)
    ensures DedupRows(s).height == |Dedup(Rows(s))|
  {
    DedupRowsSpec(s);
  }

  /**
    The surviving columns: exactly the columns of the input whose name
    IsDroppedColumn does not match, in input order, with their names in
    input order.
   */
  lemma KeptColumnsSpec(s: Sheet)
    requires WellFormed(s)
    ensures Headers(KeptColumns(s)) == Reject(Headers(s.columns), IsDroppedColumn)
    ensures forall c :: c in KeptColumns(s) ==> !IsDroppedColumn(c.header)
    ensures forall j :: 0 <= j < |s.columns| && !IsDroppedColumn(s.columns[j].header) ==> s.columns[j].header in Headers(KeptColumns(s))
  {
    DedupRowsSpec(s);
    var cols := DedupRows(s).columns;
    DropColumnsSpec(cols, IsDroppedColumn);
    RejectElements(Headers(s.columns), IsDroppedColumn);
    forall j | 0 <= j < |s.columns| && !IsDroppedColumn(s.columns[j].header)
      ensures s.columns[j].header in Headers(KeptColumns(s))
    {
      assert Headers(s.columns)[j] == s.columns[j].header;
    }
  }

  /** Every column name clean_data produces is ASCII. */
  lemma CleanHeadersAscii(s: Sheet, nfkd: string -> string)
    requires WellFormed(s) && CleanData(s, nfkd).Success?
    ensures forall j :: 0 <= j < |CleanData(s, nfkd).value.columns| ==> IsAscii(CleanData(s, nfkd).value.columns[j].header)
  {
    CleanDataSpec(s, nfkd);
  }

  /**
    A column name whose normal form is ASCII, given an NFKD that leaves ASCII
    text alone, ends up with no comma, space or hyphen and in lower case.
   */
  lemma CleanHeaderNormal(nfkd: string -> string, col: string)
    requires forall t :: IsAscii(t) ==> nfkd(t) == t
    requires IsAscii(NormaliseHeader(StripDoubleGroups(col)))
    ensures CleanHeader(nfkd, col) == NormaliseHeader(StripDoubleGroups(col))
    ensures var h := CleanHeader(nfkd, col); ',' !in h && ' ' !in h && '-' !in h && IsLower(h)
  {
    RemoveAccentsKeepsAscii(nfkd, NormaliseHeader(StripDoubleGroups(col)));
  }
}
