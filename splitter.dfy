/** excel_handler/excel_splitter.py, split_excel: every question block of every sheet
    becomes a cleaned frame, the frames are merged by question, and data_cleanup relabels
    the result. A sheet is the list of its rows (`sheet.values`), all of the same width. */
module Splitter {
  import opened Wrappers
  import opened SurveySheet
  import opened QuestionLabels
  import opened Frames
  import opened QuestionBook

  type Sheet = seq<Row>

  const SampleSizeCaption: Cell := Text("Sample Size")

  /** `df.loc[df.index[df[0] == 'Sample Size'].tolist()[0]].values.tolist()`: the first row
      captioned "Sample Size", caption included; `IndexError` when there is none. */
  function SampleRow(rows: Sheet): (r: Result<seq<Cell>>)
    ensures r.Failure? <==> forall j :: 0 <= j < |rows| ==> rows[j].caption != SampleSizeCaption
    ensures r.Failure? ==> r.error == IndexError
    ensures r.Success? ==> exists j ::
      && 0 <= j < |rows| && rows[j].caption == SampleSizeCaption
      && r.value == [rows[j].caption] + rows[j].values
      && forall i :: 0 <= i < j ==> rows[i].caption != SampleSizeCaption
  {
    if rows == [] then Failure(IndexError)
    else if rows[0].caption == SampleSizeCaption then Success([rows[0].caption] + rows[0].values)
    else
      var r := SampleRow(rows[1..]);
      assert r.Success? ==> exists j ::
        && 1 <= j < |rows| && rows[j] == rows[1..][j - 1]
        && rows[j].caption == SampleSizeCaption && r.value == [rows[j].caption] + rows[j].values
        && forall i :: 1 <= i < j ==> rows[i] == rows[1..][i - 1];
      r
  }

  /** One turn of the loop over the markers: the question of marker `k`, parsed by
      clean_up_question, and the cleaned frame of its block. */
  function SectionAt(rows: Sheet, markers: seq<nat>, sample: seq<Cell>, k: nat): Result<Section>
    requires ValidMarkers(markers, |rows|) && k < |markers| && |sample| > 0
  {
    var caption := rows[markers[k]].caption;
    var parsed := if caption.Text? then ParseQuestion(caption.s) else Failure(AttributeError);
    match parsed
    case Failure(e) => Failure(e)
    case Success(parts) =>
      match CleanUpFrame(Block(rows, markers, k), parts.statement, |sample| - 1)
      case Failure(e) => Failure(e)
      case Success(f) => Success(Section(parts.question, f, sample))
  }

  /** The outcome of every marker's turn. */
  function SectionResults(rows: Sheet, markers: seq<nat>, sample: seq<Cell>): (rs: seq<Result<Section>>)
    requires ValidMarkers(markers, |rows|) && |sample| > 0
  {
    seq(|markers|, k requires 0 <= k < |markers| => SectionAt(rows, markers, sample, k))
  }

  /** The values of the first `k` outcomes, or the first exception among them. */
  function Collect<T>(results: seq<Result<T>>, k: nat): Result<seq<T>>
    requires k <= |results|
  {
    if k == 0 then Success([])
    else match Collect(results, k - 1)
      case Failure(e) => Failure(e)
      case Success(xs) =>
        match results[k - 1]
        case Failure(e) => Failure(e)
        case Success(x) => Success(xs + [x])
  }

  /** Collecting succeeds with one value per outcome, in order, or fails with the first
      exception. */
  lemma {:induction false} CollectMeaning<T>(results: seq<Result<T>>, k: nat)
    requires k <= |results|
    ensures Collect(results, k).Success? <==> forall i :: 0 <= i < k ==> results[i].Success?
    ensures Collect(results, k).Success? ==>
      && |Collect(results, k).value| == k
      && forall i :: 0 <= i < k ==> results[i] == Success(Collect(results, k).value[i])
    ensures Collect(results, k).Failure? ==> exists i ::
      && 0 <= i < k
      && results[i] == Failure(Collect(results, k).error)
      && forall j :: 0 <= j < i ==> results[j].Success?
  {
    if k > 0 {
      CollectMeaning(results, k - 1);
      if Collect(results, k - 1).Success? && results[k - 1].Success? {
        var xs := Collect(results, k - 1).value;
        assert Collect(results, k).value == xs + [results[k - 1].value];
      }
    }
  }

  /** One turn of the loop over the markers: a failure is the outcome of the whole loop; a
      success extends both the collected sections and the merged dictionary by one. */
  lemma MergeStep(results: seq<Result<Section>>, k: nat, cur: seq<Section>, b: Book, merged: Book)
    requires k < |results| && Collect(results, k) == Success(cur) && merged == MergeAll(b, cur)
    ensures results[k].Failure? ==> Collect(results, |results|) == Failure(results[k].error)
    ensures results[k].Success? ==>
      && Collect(results, k + 1) == Success(cur + [results[k].value])
      && Merge(merged, results[k].value) == MergeAll(b, cur + [results[k].value])
  {
    if results[k].Failure? {
      CollectStopsAtFailure(results, k + 1);
    } else {
      MergeAllAppend(b, cur, [results[k].value]);
      assert MergeAll(merged, [results[k].value]) == Merge(MergeAll(merged, []), results[k].value);
    }
  }

  /** An exception ends the loop: a failing prefix fails the whole. */
  lemma {:induction false} CollectStopsAtFailure<T>(results: seq<Result<T>>, k: nat)
    requires k <= |results| && Collect(results, k).Failure?
    ensures Collect(results, |results|) == Collect(results, k)
    decreases |results| - k
  {
    if k < |results| {
      CollectStopsAtFailure(results, k + 1);
    }
  }

  /** The sections of the first `k` markers, or the first exception. */
  function SectionsUpTo(rows: Sheet, markers: seq<nat>, sample: seq<Cell>, k: nat): Result<seq<Section>>
    requires ValidMarkers(markers, |rows|) && k <= |markers| && |sample| > 0
  {
    Collect(SectionResults(rows, markers, sample), k)
  }

  /** The sections of one sheet, in the order of its markers. */
  function SheetSections(rows: Sheet): Result<seq<Section>>
  {
    match SampleRow(rows)
    case Failure(e) => Failure(e)
    case Success(sample) =>
      var markers := Markers(rows);
      SectionsUpTo(rows, markers, sample, |markers|)
  }

  /** The sections of all sheets, sheet after sheet, or the first exception. */
  function AllSections(sheets: seq<Sheet>): Result<seq<Section>>
  {
    if sheets == [] then Success([])
    else match AllSections(sheets[..|sheets| - 1])
      case Failure(e) => Failure(e)
      case Success(ss) =>
        match SheetSections(sheets[|sheets| - 1])
        case Failure(e) => Failure(e)
        case Success(more) => Success(ss + more)
  }

  /** What split_excel hands to the workbook writer. */
  function SplitWorkbook(sheets: seq<Sheet>): Result<Book>
  {
    match AllSections(sheets)
    case Failure(e) => Failure(e)
    case Success(ss) => CleanedBook(MergeAll([], ss))
  }

  /** The loop of split_excel over the markers of one sheet, merging each cleaned block
      into the dictionary as it goes. */
  method MergeSheet(newSheets: Book, sheet: Sheet, sample: seq<Cell>, questionIndices: seq<nat>) returns (r: Result<Book>)
    requires ValidMarkers(questionIndices, |sheet|) && |sample| > 0
    ensures var sections := SectionsUpTo(sheet, questionIndices, sample, |questionIndices|);
      && (sections.Failure? ==> r == Failure(sections.error))
      && (sections.Success? ==> r == Success(MergeAll(newSheets, sections.value)))
  {
    var questions := seq(|questionIndices|, k requires 0 <= k < |questionIndices| => sheet[questionIndices[k]].caption);
    ghost var results := SectionResults(sheet, questionIndices, sample);
    ghost var cur: seq<Section> := [];
    var merged := newSheets;
    for indexIdx := 0 to |questionIndices|
      invariant Collect(results, indexIdx) == Success(cur)
      invariant merged == MergeAll(newSheets, cur)
    {
      var section := CleanBlock(sheet, sample, questionIndices, indexIdx, questions[indexIdx]);
      MergeStep(results, indexIdx, cur, newSheets, merged);
      if section.Failure? {
        return Failure(section.error);
      }
      cur := cur + [section.value];
      merged := Merge(merged, section.value);
    }
    r := Success(merged);
  }

  /** The first half of a turn of the loop: parse the question of marker `k` and clean up
      its block. The second half, merging, is `Merge`. */
  method CleanBlock(sheet: Sheet, sample: seq<Cell>, questionIndices: seq<nat>, indexIdx: nat, question: Cell)
    returns (r: Result<Section>)
    requires ValidMarkers(questionIndices, |sheet|) && indexIdx < |questionIndices| && |sample| > 0
    requires question == sheet[questionIndices[indexIdx]].caption
    ensures r == SectionAt(sheet, questionIndices, sample, indexIdx)
  {
    var questionValues := CleanUpQuestion(question);
    TurnOutcome(sheet, questionIndices, sample, indexIdx, questionValues);
    if questionValues.Failure? {
      return Failure(questionValues.error);
    }
    var qDf := CleanUpFrame(Block(sheet, questionIndices, indexIdx), questionValues.value.statement, |sample| - 1);
    if qDf.Failure? {
      return Failure(qDf.error);
    }
    r := Success(Section(questionValues.value.question, qDf.value, sample));
  }

  /** The outcome of marker `k`'s turn, given what clean_up_question made of its caption. */
  lemma TurnOutcome(rows: Sheet, markers: seq<nat>, sample: seq<Cell>, k: nat, parsed: Result<QuestionParts>)
    requires ValidMarkers(markers, |rows|) && k < |markers| && |sample| > 0
    requires rows[markers[k]].caption.Text? ==> parsed == ParseQuestion(rows[markers[k]].caption.s)
    requires !rows[markers[k]].caption.Text? ==> parsed == Failure(AttributeError)
    ensures parsed.Failure? ==> SectionAt(rows, markers, sample, k) == Failure(parsed.error)
    ensures parsed.Success? ==>
      var frame := CleanUpFrame(Block(rows, markers, k), parsed.value.statement, |sample| - 1);
      && (frame.Failure? ==> SectionAt(rows, markers, sample, k) == Failure(frame.error))
      && (frame.Success? ==> SectionAt(rows, markers, sample, k) == Success(Section(parsed.value.question, frame.value, sample)))
  {
  }

  /** split_excel up to `create_new_workbook`. */
  method SplitExcel(sheets: seq<Sheet>) returns (r: Result<Book>)
    ensures r == SplitWorkbook(sheets)
  {
    var newSheets: Book := [];
    ghost var done: seq<Section> := [];
    for s := 0 to |sheets|
      invariant AllSections(sheets[..s]) == Success(done)
      invariant newSheets == MergeAll([], done)
    {
      assert sheets[..s + 1][..s] == sheets[..s];
      assert sheets[..s + 1][s] == sheets[s];
      var sampleSizes := SampleRow(sheets[s]);
      if sampleSizes.Failure? {
        AllSectionsStopAtFailure(sheets, s + 1);
        return Failure(sampleSizes.error);
      }
      var questionIndices := GetListOfFills(sheets[s]);
      var merged := MergeSheet(newSheets, sheets[s], sampleSizes.value, questionIndices);
      if merged.Failure? {
        AllSectionsStopAtFailure(sheets, s + 1);
        return Failure(merged.error);
      }
      ghost var more := SheetSections(sheets[s]).value;
      MergeAllAppend([], done, more);
      newSheets := merged.value;
      done := done + more;
    }
    assert sheets[..|sheets|] == sheets;
    r := DataCleanup(newSheets);
  }

  /** An exception in a sheet ends the whole run. */
  lemma {:induction false} AllSectionsStopAtFailure(sheets: seq<Sheet>, s: nat)
    requires s <= |sheets| && AllSections(sheets[..s]).Failure?
    ensures AllSections(sheets) == AllSections(sheets[..s])
    decreases |sheets| - s
  {
    if s < |sheets| {
      assert sheets[..s + 1][..s] == sheets[..s];
      AllSectionsStopAtFailure(sheets, s + 1);
    } else {
      assert sheets[..s] == sheets;
    }
  }

  /** A sheet yields one section per marker, in order, or the first exception of its
      markers' turns. */
  lemma SectionsPerMarker(rows: Sheet)
    requires SheetSections(rows).Success?
    ensures var ss := SheetSections(rows).value;
      && |ss| == |Markers(rows)|
      && forall i :: 0 <= i < |ss| ==> SectionAt(rows, Markers(rows), SampleRow(rows).value, i) == Success(ss[i])
  {
    MarkersAreMarkerRows(rows);
    var sample := SampleRow(rows).value;
    var results := SectionResults(rows, Markers(rows), sample);
    CollectMeaning(results, |results|);
  }

  /** Every section carries its sheet's sample row and the question text of its marker. */
  lemma SectionSample(rows: Sheet, markers: seq<nat>, sample: seq<Cell>, k: nat)
    requires ValidMarkers(markers, |rows|) && k < |markers| && |sample| > 0
    requires SectionAt(rows, markers, sample, k).Success?
    ensures SectionAt(rows, markers, sample, k).value.sample == sample
    ensures rows[markers[k]].caption.Text?
    ensures SectionAt(rows, markers, sample, k).value.question == ParseQuestion(rows[markers[k]].caption.s).value.question
  {
  }
}
