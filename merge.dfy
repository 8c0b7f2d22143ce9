/** The per-species merge: locating the ID column, the per-row enrichment
    loop (precursor, mature, star, location and the three lengths) and the
    projection onto the fixed output columns. */
module Merge {
  import opened Wrappers
  import opened Strings
  import opened Identifiers
  import opened Resolution

  // ---------------------------------------------------------------------
  // Locating the ID column

  /** The label the ID column's name must contain. */
  const IdLabel: string := "MirGeneDB ID"

  /** Which header row of the CSV file the column names were read from. */
  datatype HeaderRow = SecondRow | FirstRow

  /** `next((c for c in columns if "MirGeneDB ID" in str(c)), None)`, as an
      index: the first column whose name contains the label. */
  function FindIdColumn(columns: seq<string>): (r: Option<nat>)
    ensures r.Some? ==> r.value < |columns| && Contains(IdLabel, columns[r.value])
    ensures r.Some? ==> forall j :: 0 <= j < r.value ==> !Contains(IdLabel, columns[j])
    ensures r.None? <==> forall j :: 0 <= j < |columns| ==> !Contains(IdLabel, columns[j])
  {
    if columns == [] then None
    else if Contains(IdLabel, columns[0]) then Some(0)
    else
      match FindIdColumn(columns[1..])
      case Some(i) =>
        assert forall j :: 1 <= j < |columns| ==> columns[j] == columns[1..][j - 1];
        Some(i + 1)
      case None =>
        assert forall j :: 1 <= j < |columns| ==> columns[j] == columns[1..][j - 1];
        None
  }

  /** The column names under the second header row are tried first, then
      those under the first row; `None` means the species is skipped. */
  function PickIdColumn(second: seq<string>, first: seq<string>): (r: Option<(HeaderRow, string)>)
    ensures r.Some? ==> Contains(IdLabel, r.value.1)
    ensures r.Some? && r.value.0 == SecondRow <==> FindIdColumn(second).Some?
    ensures r.Some? && r.value.0 == SecondRow ==> r.value.1 == second[FindIdColumn(second).value]
    ensures r.Some? && r.value.0 == FirstRow
        ==> FindIdColumn(second).None? && FindIdColumn(first).Some?
            && r.value.1 == first[FindIdColumn(first).value]
    ensures r.None? <==> (forall j :: 0 <= j < |second| ==> !Contains(IdLabel, second[j]))
                         && (forall j :: 0 <= j < |first| ==> !Contains(IdLabel, first[j]))
  {
    match FindIdColumn(second)
    case Some(i) => Some((SecondRow, second[i]))
    case None =>
      match FindIdColumn(first)
      case Some(i) => Some((FirstRow, first[i]))
      case None => None
  }

  // ---------------------------------------------------------------------
  // The per-row loop

  /** One table row as the loop reads it: the (string form of the) ID cell
      and the seed cell, `None` when it is missing (NaN). */
  datatype Row = Row(id: string, seed: Option<string>)

  /** The columns the loop and the length rules add, one entry per row. */
  datatype Columns = Columns(
    precursor: seq<string>, mature: seq<string>, star: seq<string>, location: seq<string>,
    precursorLength: seq<nat>, matureLength: seq<nat>, starLength: seq<nat>)

  /** `df[col].apply(lambda x: len(x) if x != "N/A" ... else 0)`. */
  function Lengths(column: seq<string>): seq<nat>
  {
    seq(|column|, j requires 0 <= j < |column| => SequenceLength(column[j]))
  }

  /** The star lookup of one row: the opposite arm in the mature map, then
      the same key in the star map, then the key built from the location
      label in the star map; "" when all three are empty or missing. */
  method LookupStar(mirId: string, loc: Option<Arm>, mature: SequenceMap, star: SequenceMap)
    returns (sSeq: string)
    ensures sSeq == StarSequence(mirId, loc, mature, star)
  {
    var targetStar := if loc == Some(FiveP) then ThreeP else FiveP;
    var starKey := ArmKey(mirId, targetStar);
    // mature.get(starKey): a missing key (None) and "" are both falsy
    sSeq := if starKey in mature then mature[starKey] else "";
    if sSeq == "" {
      sSeq := if starKey in star then star[starKey] else "";
    }
    var legacyKey := mirId + "_" + LocationLabel(loc);
    if sSeq == "" && legacyKey in star {
      sSeq := star[legacyKey];
    }
    StarPriority(mirId, loc, mature, star);
  }

  /** The mature resolution of one row. */
  function RowMature(row: Row, mature: SequenceMap): Mature
  {
    ResolveMature(CleanCsvId(row.id), row.seed, mature)
  }

  /** The star sequence of one row. */
  function RowStar(row: Row, mature: SequenceMap, star: SequenceMap): string
  {
    StarSequence(CleanCsvId(row.id), RowMature(row, mature).location, mature, star)
  }

  /** The four looked-up columns the loop builds, one entry per row, in row
      order. */
  datatype Lookups = Lookups(precursor: seq<string>, mature: seq<string>, location: seq<string>, star: seq<string>)

  /** What the loop has produced after `rows`. */
  function LookupsOf(rows: seq<Row>, pre: SequenceMap, mature: SequenceMap, star: SequenceMap): (r: Lookups)
    ensures |r.precursor| == |r.mature| == |r.location| == |r.star| == |rows|
  {
    if rows == [] then Lookups([], [], [], [])
    else
      var r := LookupsOf(rows[..|rows| - 1], pre, mature, star);
      var row := rows[|rows| - 1];
      Lookups(r.precursor + [Precursor(pre, CleanCsvId(row.id))],
              r.mature + [RowMature(row, mature).sequence],
              r.location + [LocationLabel(RowMature(row, mature).location)],
              r.star + [RowStar(row, mature, star)])
  }

  /** Entry `j` of each column is what the model prescribes for row `j`. */
  lemma {:induction false} LookupsAt(rows: seq<Row>, pre: SequenceMap, mature: SequenceMap, star: SequenceMap, j: int)
    requires 0 <= j < |rows|
    ensures var r := LookupsOf(rows, pre, mature, star);
            && r.precursor[j] == Precursor(pre, CleanCsvId(rows[j].id))
            && r.mature[j] == RowMature(rows[j], mature).sequence
            && r.location[j] == LocationLabel(RowMature(rows[j], mature).location)
            && r.star[j] == RowStar(rows[j], mature, star)
  {
    if j < |rows| - 1 {
      var init := rows[..|rows| - 1];
      LookupsAt(init, pre, mature, star, j);
      assert init[j] == rows[j];
    }
  }

  /** One more row appends its values to each column. */
  lemma LookupsStep(rows: seq<Row>, i: int, pre: SequenceMap, mature: SequenceMap, star: SequenceMap)
    requires 0 <= i < |rows|
    ensures var r := LookupsOf(rows[..i], pre, mature, star);
            LookupsOf(rows[..i + 1], pre, mature, star)
            == Lookups(r.precursor + [Precursor(pre, CleanCsvId(rows[i].id))],
                       r.mature + [RowMature(rows[i], mature).sequence],
                       r.location + [LocationLabel(RowMature(rows[i], mature).location)],
                       r.star + [RowStar(rows[i], mature, star)])
  {
    assert rows[..i + 1][..i] == rows[..i];
  }

  /** The enrichment loop: every row, in order, gets its precursor (or the
      sentinel), its resolved mature sequence and location, and its star
      sequence from the fallback chain. */
  method LookUpRows(rows: seq<Row>, pre: SequenceMap, mature: SequenceMap, star: SequenceMap)
    returns (r: Lookups)
    ensures r == LookupsOf(rows, pre, mature, star)
  {
    var preSeqs, matSeqs, starSeqs, matLocs := [], [], [], [];
    for i := 0 to |rows|
      invariant Lookups(preSeqs, matSeqs, matLocs, starSeqs) == LookupsOf(rows[..i], pre, mature, star)
    {
      LookupsStep(rows, i, pre, mature, star);
      var mirId := CleanCsvId(rows[i].id);
      preSeqs := preSeqs + [if mirId in pre then pre[mirId] else NotAvailable];
      var m := ResolveMature(mirId, rows[i].seed, mature);
      matSeqs := matSeqs + [m.sequence];
      matLocs := matLocs + [LocationLabel(m.location)];
      var sSeq := LookupStar(mirId, m.location, mature, star);
      starSeqs := starSeqs + [sSeq];
    }
    assert rows[..|rows|] == rows;
    r := Lookups(preSeqs, matSeqs, matLocs, starSeqs);
  }

  /** The merge's added columns: the four looked-up columns and the three
      lengths derived from the sequences. */
  method EnrichRows(rows: seq<Row>, pre: SequenceMap, mature: SequenceMap, star: SequenceMap)
    returns (cols: Columns)
    ensures |cols.precursor| == |cols.mature| == |cols.star| == |cols.location| == |rows|
    ensures |cols.precursorLength| == |cols.matureLength| == |cols.starLength| == |rows|
    ensures forall j :: 0 <= j < |rows| ==>
              var id := CleanCsvId(rows[j].id);
              var m := ResolveMature(id, rows[j].seed, mature);
              && cols.precursor[j] == Precursor(pre, id)
              && cols.mature[j] == m.sequence
              && cols.location[j] == LocationLabel(m.location)
              && cols.star[j] == StarSequence(id, m.location, mature, star)
    ensures forall j :: 0 <= j < |rows| ==>
              && cols.precursorLength[j] == SequenceLength(cols.precursor[j])
              && cols.matureLength[j] == SequenceLength(cols.mature[j])
              && cols.starLength[j] == SequenceLength(cols.star[j])
  {
    var r := LookUpRows(rows, pre, mature, star);
    forall j | 0 <= j < |rows| {
      LookupsAt(rows, pre, mature, star, j);
    }
    cols := Columns(r.precursor, r.mature, r.star, r.location,
                    Lengths(r.precursor), Lengths(r.mature), Lengths(r.star));
  }

  // ---------------------------------------------------------------------
  // Output columns

  /** `FINAL_COLUMNS`: the output columns in their fixed order. */
  const FinalColumns: seq<string> := [
    "MirGeneDB ID", "MiRBase ID", "Family", "Seed", "Chromosome", "Start", "End", "Strand",
    "Precursor sequence", "Mature sequence", "Star sequence", "Mature location",
    "Precursor length", "Mature length", "Star length"]

  /** The columns the merge assigns, in the order it assigns them. */
  const DerivedColumns: seq<string> := [
    "Precursor sequence", "Mature sequence", "Star sequence", "Mature location",
    "Precursor length", "Mature length", "Star length"]

  /** `a` is `b` with some elements left out, order kept. */
  predicate IsSubsequence(a: seq<string>, b: seq<string>)
    decreases |b|
  {
    a == [] || (b != [] && if a[0] == b[0] then IsSubsequence(a[1..], b[1..]) else IsSubsequence(a, b[1..]))
  }

  predicate NoDuplicates(s: seq<string>)
  {
    forall i, j :: 0 <= i < j < |s| ==> s[i] != s[j]
  }

  /** The output list starts with the ID label and names each of its
      fifteen columns once; the seven derived columns are distinct too. */
  lemma ColumnListsDistinct()
    ensures |FinalColumns| == 15 && FinalColumns[0] == IdLabel && NoDuplicates(FinalColumns)
    ensures |DerivedColumns| == 7 && NoDuplicates(DerivedColumns)
  {
  }

  /** Every list is a subsequence of itself. */
  lemma {:induction false} SubsequenceOfSelf(a: seq<string>)
    ensures IsSubsequence(a, a)
  {
    if a != [] {
      SubsequenceOfSelf(a[1..]);
    }
  }

  /** An element put in front keeps a subsequence a subsequence. */
  lemma {:induction false} SubsequenceCons(a: seq<string>, h: string, b: seq<string>)
    requires IsSubsequence(a, b)
    ensures IsSubsequence(a, [h] + b)
    decreases |b|, 1
  {
    assert ([h] + b)[1..] == b;
    if a != [] && a[0] == h {
      SubsequenceDropHead(a, b);
    }
  }

  /** Dropping the first element of a subsequence leaves a subsequence. */
  lemma {:induction false} SubsequenceDropHead(a: seq<string>, b: seq<string>)
    requires a != [] && IsSubsequence(a, b)
    ensures IsSubsequence(a[1..], b)
    decreases |b|, 0
  {
    assert b == [b[0]] + b[1..];
    if a[0] != b[0] {
      SubsequenceDropHead(a, b[1..]);
    }
    SubsequenceCons(a[1..], b[0], b[1..]);
  }

  /** Elements put in front keep a subsequence a subsequence. */
  lemma {:induction false} SubsequencePrepend(a: seq<string>, p: seq<string>, b: seq<string>)
    requires IsSubsequence(a, b)
    ensures IsSubsequence(a, p + b)
  {
    if p == [] {
      assert p + b == b;
    } else {
      SubsequencePrepend(a, p[1..], b);
      assert p + b == [p[0]] + (p[1..] + b);
      SubsequenceCons(a, p[0], p[1..] + b);
    }
  }

  /** The seven derived columns appear in the output list in the order they
      are assigned. */
  lemma DerivedColumnsInOrder()
    ensures IsSubsequence(DerivedColumns, FinalColumns)
  {
    assert FinalColumns[8..] == DerivedColumns;
    assert FinalColumns == FinalColumns[..8] + FinalColumns[8..];
    SubsequenceOfSelf(DerivedColumns);
    SubsequencePrepend(DerivedColumns, FinalColumns[..8], DerivedColumns);
  }

  /** `[c for c in wanted if c in present]`: the wanted columns that are
      present, in the wanted order, each once if listed once. */
  function KeepPresent(wanted: seq<string>, present: seq<string>): (r: seq<string>)
    ensures forall c :: c in r <==> c in wanted && c in present
    ensures IsSubsequence(r, wanted)
    ensures NoDuplicates(wanted) ==> NoDuplicates(r)
  {
    if wanted == [] then []
    else
      var rest := KeepPresent(wanted[1..], present);
      if wanted[0] in present then
        assert ([wanted[0]] + rest)[1..] == rest;
        [wanted[0]] + rest
      else
        assert rest == [] || rest[0] != wanted[0];
        rest
  }

  /** `available_cols`: the output columns present in the working table. */
  function AvailableColumns(present: seq<string>): (r: seq<string>)
    ensures forall c :: c in r <==> c in FinalColumns && c in present
    ensures IsSubsequence(r, FinalColumns)
  {
    KeepPresent(FinalColumns, present)
  }

  /** `df.rename(columns={from: to})`: every column named `from` is renamed. */
  function Rename(columns: seq<string>, from: string, to: string): (r: seq<string>)
    ensures |r| == |columns|
    ensures forall j :: 0 <= j < |columns| ==> r[j] == if columns[j] == from then to else columns[j]
  {
    seq(|columns|, j requires 0 <= j < |columns| => if columns[j] == from then to else columns[j])
  }

  /** `df[c] = values` for each added column: an existing column is
      replaced in place, a new one goes at the end. */
  function WithColumns(columns: seq<string>, added: seq<string>): (r: seq<string>)
    ensures forall c :: c in r <==> c in columns || c in added
    ensures |r| >= |columns| && r[..|columns|] == columns
    decreases |added|
  {
    if added == [] then columns
    else
      var next := if added[0] in columns then columns else columns + [added[0]];
      var r := WithColumns(next, added[1..]);
      assert r[..|columns|] == next[..|columns|];
      r
  }

  /** The working table's columns after the ID column is renamed and the
      derived columns are assigned. */
  function WorkingColumns(csvColumns: seq<string>, idColumn: string): seq<string>
  {
    WithColumns(Rename(csvColumns, idColumn, IdLabel), DerivedColumns)
  }

  /** After the rename the label is there and every column other than the
      ID column is kept. */
  lemma RenamedColumns(csvColumns: seq<string>, idColumn: string)
    requires idColumn in csvColumns
    ensures forall c :: c in Rename(csvColumns, idColumn, IdLabel)
                    <==> c == IdLabel || (c in csvColumns && c != idColumn)
  {
    var renamed := Rename(csvColumns, idColumn, IdLabel);
    forall c ensures c in renamed <==> c == IdLabel || (c in csvColumns && c != idColumn) {
      if c in renamed {
        var j :| 0 <= j < |renamed| && renamed[j] == c;
      }
      if c == IdLabel {
        var j :| 0 <= j < |csvColumns| && csvColumns[j] == idColumn;
        assert renamed[j] == IdLabel;
      } else if c in csvColumns && c != idColumn {
        var j :| 0 <= j < |csvColumns| && csvColumns[j] == c;
        assert renamed[j] == c;
      }
    }
  }

  /** The sheet's columns are exactly the output columns that are the ID
      column, a derived column, or another column of the CSV file; so the ID
      column and all seven derived columns are always there. */
  lemma SheetColumns(csvColumns: seq<string>, idColumn: string)
    requires idColumn in csvColumns
    ensures forall c :: c in AvailableColumns(WorkingColumns(csvColumns, idColumn))
                    <==> c in FinalColumns
                         && (c == IdLabel || c in DerivedColumns || (c in csvColumns && c != idColumn))
    ensures IdLabel in AvailableColumns(WorkingColumns(csvColumns, idColumn))
    ensures forall c :: c in DerivedColumns ==> c in AvailableColumns(WorkingColumns(csvColumns, idColumn))
  {
    RenamedColumns(csvColumns, idColumn);
  }
}
