/** The flat, colour-marked survey sheet (excel_handler/excel_splitter.py): its rows, the
    fill-forward of header labels, the marker rows and the row blocks between them. */
module SurveySheet {
  import opened Wrappers

  /** A cell value as openpyxl reads it: empty (`None`), text, or a number. */
  datatype Cell = Empty | Text(s: string) | Number(n: real)

  /** One row of a sheet: the fill colour (ARGB hex) of its first cell, that cell's value (its caption),
      and the values of the remaining cells. */
  datatype Row = Row(fill: string, caption: Cell, values: seq<Cell>)

  /** The fill colours that mark the first row of a question block. */
  const QuestionCellColors: seq<string> := ["FFFBE4E4", "FFFBE4E4", "FFEEEDEC"]

  /** Rows before this one hold the sheet's headers, not data. */
  const FirstRowOfData: nat := 7

  // ---------------------------------------------------------------------------
  // create_mergable_list

  /** The most recent present element of `s`, or `None` when every element is `None`. */
  function LastPresent<T>(s: seq<Option<T>>): Option<T>
  {
    if s == [] then None
    else if s[|s| - 1].Some? then s[|s| - 1]
    else LastPresent(s[..|s| - 1])
  }

  /** `LastPresent` is `None` exactly when nothing is present, and otherwise is an element
      followed only by `None`s. */
  lemma {:induction false} LastPresentIsMostRecent<T>(s: seq<Option<T>>)
    ensures LastPresent(s).None? <==> forall j :: 0 <= j < |s| ==> s[j].None?
    ensures LastPresent(s).Some? ==>
      exists j :: 0 <= j < |s| && s[j] == LastPresent(s) && forall k :: j < k < |s| ==> s[k].None?
  {
    if s != [] && s[|s| - 1].None? {
      var t := s[..|s| - 1];
      LastPresentIsMostRecent(t);
      if LastPresent(t).Some? {
        var j :| 0 <= j < |t| && t[j] == LastPresent(t) && forall k :: j < k < |t| ==> t[k].None?;
        assert s[j] == LastPresent(s);
      }
    }
  }

  /** create_mergable_list: each `None` is replaced by the most recent earlier value that is
      not `None` (so merged header cells all carry their label); leading `None`s stay. */
  method CreateMergableList<T>(lst: seq<Option<T>>) returns (r: seq<Option<T>>)
    ensures |r| == |lst|
    ensures forall i :: 0 <= i < |lst| && lst[i].Some? ==> r[i] == lst[i]
    ensures forall i :: 0 <= i < |lst| && lst[i].None? ==> r[i] == LastPresent(lst[..i])
  {
    var mostRecent: Option<T> := None;
    r := [];
    for i := 0 to |lst|
      invariant |r| == i
      invariant mostRecent == LastPresent(lst[..i])
      invariant forall j :: 0 <= j < i && lst[j].Some? ==> r[j] == lst[j]
      invariant forall j :: 0 <= j < i && lst[j].None? ==> r[j] == LastPresent(lst[..j])
    {
      assert lst[..i + 1][..i] == lst[..i];
      if lst[i].Some? {
        r := r + [lst[i]];
        mostRecent := lst[i];
      } else {
        r := r + [mostRecent];
      }
    }
  }

  // ---------------------------------------------------------------------------
  // get_list_of_fills

  predicate IsMarker(row: Row)
  {
    row.fill in QuestionCellColors
  }

  /** The indices of the marker rows, in increasing order. */
  function Markers(rows: seq<Row>): (markers: seq<nat>)
    ensures ValidMarkers(markers, |rows|)
  {
    if rows == [] then []
    else Markers(rows[..|rows| - 1]) + (if IsMarker(rows[|rows| - 1]) then [|rows| - 1] else [])
  }

  /** Strictly increasing indices of rows of a sheet with `n` rows. */
  ghost predicate ValidMarkers(markers: seq<nat>, n: nat)
  {
    && (forall k :: 0 <= k < |markers| ==> markers[k] < n)
    && (forall k, l :: 0 <= k < l < |markers| ==> markers[k] < markers[l])
  }

  /** `Markers` lists exactly the marker rows, each once, in increasing order. */
  lemma {:induction false} MarkersAreMarkerRows(rows: seq<Row>)
    ensures ValidMarkers(Markers(rows), |rows|)
    ensures forall j :: 0 <= j < |rows| ==> (j in Markers(rows) <==> IsMarker(rows[j]))
  {
    if rows != [] {
      var t := rows[..|rows| - 1];
      var last := |rows| - 1;
      MarkersAreMarkerRows(t);
      var m := Markers(t);
      assert Markers(rows) == m + (if IsMarker(rows[last]) then [last] else []);
      forall j | 0 <= j < |rows|
        ensures j in Markers(rows) <==> IsMarker(rows[j])
      {
        if j < last {
          assert rows[j] == t[j];
        } else {
          assert j !in m;
        }
      }
    }
  }

  /** get_list_of_fills: the rows whose first cell has a question-marker fill. */
  method GetListOfFills(rows: seq<Row>) returns (colorIdx: seq<nat>)
    ensures colorIdx == Markers(rows)
    ensures ValidMarkers(colorIdx, |rows|)
    ensures forall j :: 0 <= j < |rows| ==> (j in colorIdx <==> rows[j].fill in QuestionCellColors)
  {
    colorIdx := [];
    for rowIdx := 0 to |rows|
      invariant colorIdx == Markers(rows[..rowIdx])
    {
      assert rows[..rowIdx + 1][..rowIdx] == rows[..rowIdx];
      colorIdx := colorIdx + (if rows[rowIdx].fill in QuestionCellColors then [rowIdx] else []);
    }
    assert rows[..|rows|] == rows;
    MarkersAreMarkerRows(rows);
  }

  // ---------------------------------------------------------------------------
  // Block slicing in split_excel

  /** Row `j` survives `df.iloc[first_row_of_data:]` and carries a label in
      `(index + 1) .. next_index` (both ends included) for block `i`. */
  ghost predicate SelectedBy(markers: seq<nat>, n: nat, i: nat, j: int)
    requires i < |markers|
  {
    && FirstRowOfData <= j < n
    && markers[i] + 1 <= j
    && (i + 1 < |markers| ==> j <= markers[i + 1] as int - 1)
  }

  /** The rows of block `i`: after dropping the header rows (`df.iloc[first_row_of_data:]`),
      the label slice `df.loc[(index + 1):next_index]` with `next_index` the next marker
      minus one, or to the end for the last marker. `lo..hi` is the half-open range. */
  function BlockRange(markers: seq<nat>, n: nat, i: nat): (range: (nat, nat))
    requires ValidMarkers(markers, n) && i < |markers|
    ensures range.0 <= range.1 <= n
    ensures forall j :: range.0 <= j < range.1 <==> SelectedBy(markers, n, i, j)
  {
    var start := if markers[i] + 1 < FirstRowOfData then FirstRowOfData else markers[i] + 1;
    var lo := if start < n then start else n;
    var end := if i + 1 < |markers| then markers[i + 1] else n;
    var hi := if end < lo then lo else end;
    (lo, hi)
  }

  /** The rows of block `i`: from its marker up to the next marker or the end of the sheet. */
  function Block(rows: seq<Row>, markers: seq<nat>, i: nat): seq<Row>
    requires ValidMarkers(markers, |rows|) && i < |markers|
  {
    var range := BlockRange(markers, |rows|, i);
    rows[range.0..range.1]
  }

  /** Blocks follow one another in marker order without overlapping; this follows from
      `BlockRange`'s contract alone. */
  lemma BlocksDisjoint(markers: seq<nat>, n: nat, i: nat, k: nat)
    requires ValidMarkers(markers, n) && i < k < |markers|
    ensures BlockRange(markers, n, i).1 <= BlockRange(markers, n, k).0 || BlockRange(markers, n, k).0 == BlockRange(markers, n, k).1
  {
  }

  /** No marker row lies inside any block; this too follows from `BlockRange`'s contract. */
  lemma NoMarkerInBlock(markers: seq<nat>, n: nat, i: nat, k: nat)
    requires ValidMarkers(markers, n) && i < |markers| && k < |markers|
    ensures !(BlockRange(markers, n, i).0 <= markers[k] < BlockRange(markers, n, i).1)
  {
  }

  /** Every data row after the first marker that is not itself a marker row lies in
      exactly one block: the one of the last marker above it. */
  lemma BlocksCoverDataRows(markers: seq<nat>, n: nat, j: nat)
    requires ValidMarkers(markers, n) && |markers| > 0
    requires FirstRowOfData <= j < n && markers[0] < j && j !in markers
    ensures exists i :: 0 <= i < |markers| && BlockRange(markers, n, i).0 <= j < BlockRange(markers, n, i).1
    ensures forall i, k :: 0 <= i < k < |markers| ==>
      !(BlockRange(markers, n, i).0 <= j < BlockRange(markers, n, i).1 && BlockRange(markers, n, k).0 <= j < BlockRange(markers, n, k).1)
  {
    var i := LastMarkerAbove(markers, n, j);
    assert BlockRange(markers, n, i).0 <= j < BlockRange(markers, n, i).1;
    forall i1, k | 0 <= i1 < k < |markers|
      ensures !(BlockRange(markers, n, i1).0 <= j < BlockRange(markers, n, i1).1 && BlockRange(markers, n, k).0 <= j < BlockRange(markers, n, k).1)
    {
      BlocksDisjoint(markers, n, i1, k);
    }
  }

  /** The index of the last marker above row `j`. */
  lemma LastMarkerAbove(markers: seq<nat>, n: nat, j: nat) returns (i: nat)
    requires ValidMarkers(markers, n) && |markers| > 0 && markers[0] < j && j !in markers
    ensures i < |markers| && markers[i] < j
    ensures i + 1 < |markers| ==> j < markers[i + 1]
  {
    i := 0;
    while i + 1 < |markers| && markers[i + 1] < j
      invariant i < |markers| && markers[i] < j
    {
      i := i + 1;
    }
    if i + 1 < |markers| {
      assert markers[i + 1] != j;
    }
  }
}
