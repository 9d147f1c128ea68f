/** excel_handler/excel_splitter.py: the frame of one question, `clean_up_frame` and
    `df_question_scrubber`. A frame is a list of labelled rows; its column headers are not
    modelled. */
module Frames {
  import opened Wrappers
  import opened Seqs
  import opened PyText
  import opened UtilityFunctions
  import opened SurveySheet

  /** The row label of a cleaned frame: the response alone, or the pair
      (statement, response) of a two-level index. */
  datatype Key = Label(response: Cell) | Pair(statement: string, response: Cell)

  datatype FrameRow = FrameRow(key: Key, values: seq<Cell>)

  type Frame = seq<FrameRow>

  /** `value_storage`: captions of the rows that hold figures rather than responses. */
  const ValueStorage: seq<string> := ["Sample Size", "Mentions", "% Sample Size", "Count", "Column %", "Mean", "Median"]

  // ---------------------------------------------------------------------------
  // clean_up_frame

  /** `df.set_index(df.columns[0]).index.tolist()`: the first cell of every row. */
  function Captions(block: seq<Row>): seq<Cell>
  {
    seq(|block|, i requires 0 <= i < |block| => block[i].caption)
  }

  /** The names of a header row, as text cells. */
  function AsCells(names: seq<string>): seq<Cell>
  {
    seq(|names|, i requires 0 <= i < |names| => Text(names[i]))
  }

  /** A caption naming a row of figures. */
  predicate IsValueName(c: Cell)
  {
    c.Text? && c.s in ValueStorage
  }

  /** A figure row that is kept: a percentage, the mean or the median. */
  predicate IsTitle(x: string)
  {
    '%' in x || x in ["Median", "Mean"]
  }

  /** A `value_storage` caption that names a figure to keep: a percentage row (one whose
      text contains `%`), or the Mean or Median row. */
  predicate IsTitleRow(c: Cell)
  {
    IsValueName(c) && IsTitle(c.s)
  }

  /** `[x for x in value_storage if x in df.index.tolist()]`. */
  function ValueRowNames(captions: seq<Cell>): seq<string>
  {
    Filter(ValueStorage, x => Text(x) in captions)
  }

  /** `[x for x in value_row_names if any(['%' in x, x in ['Median', 'Mean']])]`. */
  function ValueRowTitles(names: seq<string>): seq<string>
  {
    Filter(names, IsTitle)
  }

  /** The response captions, or the title captions when the block has no response row. */
  function Responses(captions: seq<Cell>): seq<Cell>
  {
    var names := ValueRowNames(captions);
    var responses := Remaining(captions, [Many(AsCells(names))]);
    if |responses| == 0 then AsCells(ValueRowTitles(names)) else responses
  }

  /** `df[df.index.isin(value_row_titles)]`. */
  function KeptRows(block: seq<Row>): seq<Row>
  {
    var titles := AsCells(ValueRowTitles(ValueRowNames(Captions(block))));
    Filter(block, (r: Row) => r.caption in titles)
  }

  /** Assigning a list of `n` items as a new column of the kept rows: the lengths must agree
      (`ValueError`), except that a frame without rows first takes `n` rows of missing
      values in each of its `width` columns. */
  function AlignedValues(kept: seq<Row>, n: nat, width: nat): (r: Result<seq<seq<Cell>>>)
    ensures r.Success? ==> |r.value| == n
  {
    if |kept| == n then Success(seq(n, i requires 0 <= i < n => kept[i].values))
    else if |kept| == 0 then Success(seq(n, i => seq(width, j => Empty)))
    else Failure(ValueError)
  }

  /** clean_up_frame(df, statement) on the rows of one block, whose first column is the
      caption and whose other `width` columns are the figures. */
  function CleanUpFrame(block: seq<Row>, statement: Option<string>, width: nat): (r: Result<Frame>)
    ensures r.Failure? ==> r.error == ValueError
    ensures r.Success? ==> |r.value| == |Responses(Captions(block))|
  {
    var responses := Responses(Captions(block));
    match AlignedValues(KeptRows(block), |responses|, width)
    case Failure(e) => Failure(e)
    case Success(values) =>
      Success(seq(|responses|, i requires 0 <= i < |responses| =>
        match statement
        case Some(st) => FrameRow(Pair(st, responses[i]), values[i] + [Text(st)])
        case None => FrameRow(Label(responses[i]), values[i])))
  }

  /** Which captions are removed as figure rows: exactly the value-storage names. */
  lemma NamesAsCells(captions: seq<Cell>, c: Cell)
    requires c in captions
    ensures c in AsCells(ValueRowNames(captions)) <==> IsValueName(c)
  {
    var names := ValueRowNames(captions);
    if c in AsCells(names) {
      var j :| 0 <= j < |names| && AsCells(names)[j] == c;
      assert names[j] in names;
      FilterMembers(ValueStorage, x => Text(x) in captions, names[j]);
    }
    if IsValueName(c) {
      FilterMembers(ValueStorage, x => Text(x) in captions, c.s);
      var j :| 0 <= j < |names| && names[j] == c.s;
      assert AsCells(names)[j] == c;
    }
  }

  /** When the block has a response row, the responses are its non-figure captions in
      order; otherwise they are the titles of its figure rows. */
  lemma ResponsesRule(captions: seq<Cell>)
    ensures (exists c :: c in captions && !IsValueName(c)) ==>
      Responses(captions) == Filter(captions, c => !IsValueName(c))
    ensures (forall c :: c in captions ==> IsValueName(c)) ==>
      Responses(captions) == AsCells(ValueRowTitles(ValueRowNames(captions)))
  {
    var cells := AsCells(ValueRowNames(captions));
    var args := [Many(cells)];
    forall i | 0 <= i < |captions|
      ensures Survives(args, captions[i]) == !IsValueName(captions[i])
    {
      NamesAsCells(captions, captions[i]);
      assert Survives(args, captions[i]) == !Hits(args[0], captions[i]);
    }
    FilterCongruent(captions, x => Survives(args, x), c => !IsValueName(c));
    var responses := Remaining(captions, args);
    if c :| c in captions && !IsValueName(c) {
      FilterMembers(captions, c => !IsValueName(c), c);
    } else if responses != [] {
      FilterMembers(captions, c => !IsValueName(c), responses[0]);
    }
  }

  /** A row is kept exactly when its caption names a percentage, the mean or the median. */
  lemma KeptRowsRule(block: seq<Row>, row: Row)
    requires row in block
    ensures row in KeptRows(block) <==> IsTitleRow(row.caption)
  {
    var captions := Captions(block);
    var names := ValueRowNames(captions);
    var titles := ValueRowTitles(names);
    FilterMembers(block, (r: Row) => r.caption in AsCells(titles), row);
    var i :| 0 <= i < |block| && block[i] == row;
    assert captions[i] == row.caption;
    if row.caption in AsCells(titles) {
      var j :| 0 <= j < |titles| && AsCells(titles)[j] == row.caption;
      assert titles[j] in titles;
      FilterMembers(names, IsTitle, titles[j]);
      FilterMembers(ValueStorage, x => Text(x) in captions, titles[j]);
    }
    if IsTitleRow(row.caption) {
      FilterMembers(ValueStorage, x => Text(x) in captions, row.caption.s);
      FilterMembers(names, IsTitle, row.caption.s);
      var j :| 0 <= j < |titles| && titles[j] == row.caption.s;
      assert AsCells(titles)[j] == row.caption;
    }
  }

  /** clean_up_frame raises `ValueError` exactly when there are kept rows and their number
      differs from the number of responses; otherwise row `i` carries response `i`, under
      the statement when there is one, with the figures of kept row `i` (missing values
      when no row was kept), followed by the statement column. */
  lemma CleanUpFrameRows(block: seq<Row>, statement: Option<string>, width: nat)
    ensures var kept, responses := KeptRows(block), Responses(Captions(block));
      CleanUpFrame(block, statement, width).Failure? <==> 0 < |kept| && |kept| != |responses|
    ensures var kept, responses := KeptRows(block), Responses(Captions(block));
      var r := CleanUpFrame(block, statement, width);
      r.Success? ==> forall i :: 0 <= i < |r.value| ==>
        var figures := if |kept| == 0 then seq(width, j => Empty) else kept[i].values;
        && r.value[i].key.response == responses[i]
        && (r.value[i].key.Pair? <==> statement.Some?)
        && (statement.Some? ==> r.value[i].key.statement == statement.value)
        && r.value[i].values == figures + (if statement.Some? then [Text(statement.value)] else [])
  {
  }

  // ---------------------------------------------------------------------------
  // df_question_scrubber

  predicate IsTextLabel(k: Key)
  {
    k.Label? && k.response.Text?
  }

  /** `[x.split() for x in df.index.tolist()]`: a label that is not a string (a missing or
      numeric response, a (statement, response) pair) has no `split` (`AttributeError`). */
  function LabelWords(f: Frame): (r: Result<seq<seq<string>>>)
    ensures r.Failure? ==> r.error == AttributeError
  {
    if forall i :: 0 <= i < |f| ==> IsTextLabel(f[i].key) then
      Success(seq(|f|, i requires 0 <= i < |f| && IsTextLabel(f[i].key) => Words(f[i].key.response.s)))
    else Failure(AttributeError)
  }

  /** The number of groups `zip(*split_qs)` produces: the fewest words of any label. */
  function GroupCount(qs: seq<seq<string>>): (n: nat)
    ensures forall k :: 0 <= k < |qs| ==> n <= |qs[k]|
    ensures |qs| > 0 ==> exists k :: 0 <= k < |qs| && n == |qs[k]|
  {
    if qs == [] then 0
    else if |qs| == 1 then |qs[0]|
    else
      var rest := GroupCount(qs[1..]);
      assert exists k :: 0 <= k < |qs[1..]| && rest == |qs[1..][k]|;
      if |qs[0]| < rest then |qs[0]| else rest
  }

  /** `len(set(group)) == 1`: all labels carry the same word at position `g`. */
  predicate GroupAgrees(qs: seq<seq<string>>, g: nat)
    requires g < GroupCount(qs)
  {
    forall k :: 0 <= k < |qs| ==> qs[k][g] == qs[0][g]
  }

  /** The first word group from `g` on where the labels disagree, or `0` when none does. */
  function SplitIndexFrom(qs: seq<seq<string>>, g: nat): nat
    decreases GroupCount(qs) - g
  {
    if g >= GroupCount(qs) then 0
    else if !GroupAgrees(qs, g) then g
    else SplitIndexFrom(qs, g + 1)
  }

  /** The first word position at which the labels disagree, or 0 when they never do. */
  function SplitIndex(qs: seq<seq<string>>): nat
  {
    SplitIndexFrom(qs, 0)
  }

  /** The search loop of df_question_scrubber, leaving at the first disagreement. */
  method FindSplitIndex(qs: seq<seq<string>>) returns (splitIdx: nat)
    ensures splitIdx == SplitIndex(qs)
  {
    splitIdx := 0;
    var wordGroups := GroupCount(qs);
    var groupIdx := 0;
    while groupIdx < wordGroups
      invariant groupIdx <= wordGroups
      invariant SplitIndexFrom(qs, groupIdx) == SplitIndex(qs)
    {
      if !GroupAgrees(qs, groupIdx) {
        splitIdx := groupIdx;
        break;
      }
      groupIdx := groupIdx + 1;
    }
  }

  /** The search from `g` stops at the first disagreeing group, or gives `0` when every group
      agrees. */
  lemma {:induction false} SplitIndexFromMeaning(qs: seq<seq<string>>, g: nat)
    requires g <= GroupCount(qs)
    requires forall h :: 0 <= h < g ==> GroupAgrees(qs, h)
    ensures var r := SplitIndexFrom(qs, g);
      && (r == 0 || (g <= r < GroupCount(qs) && !GroupAgrees(qs, r) && forall h :: 0 <= h < r ==> GroupAgrees(qs, h)))
      && (r == 0 ==> (GroupCount(qs) > 0 && !GroupAgrees(qs, 0)) || forall h :: 0 <= h < GroupCount(qs) ==> GroupAgrees(qs, h))
    decreases GroupCount(qs) - g
  {
    if g < GroupCount(qs) && GroupAgrees(qs, g) {
      SplitIndexFromMeaning(qs, g + 1);
    }
  }

  /** The split index is 0 or the first position where the labels disagree; it is 0 only
      when they disagree at once or agree on every position they all have. */
  lemma SplitIndexMeaning(qs: seq<seq<string>>)
    ensures var r := SplitIndex(qs);
      && (r == 0 || (r < GroupCount(qs) && !GroupAgrees(qs, r)))
      && (forall h :: 0 <= h < r ==> GroupAgrees(qs, h))
      && (r == 0 ==> (GroupCount(qs) > 0 && !GroupAgrees(qs, 0)) || forall h :: 0 <= h < GroupCount(qs) ==> GroupAgrees(qs, h))
  {
    SplitIndexFromMeaning(qs, 0);
  }

  /** `[' '.join(x[split_idx:]) for x in split_qs]`. */
  function NewIndex(qs: seq<seq<string>>, splitIdx: nat): seq<string>
    requires splitIdx <= GroupCount(qs)
  {
    seq(|qs|, k requires 0 <= k < |qs| => Join(qs[k][splitIdx..], " "))
  }

  /** `new_q`: the first label's words before the split index, or `None` when there are
      none. */
  function NewQuestion(qs: seq<seq<string>>, splitIdx: nat): Option<string>
    requires |qs| > 0 && splitIdx <= GroupCount(qs)
  {
    var q := Join(qs[0][..splitIdx], " ");
    if |q| == 0 then None else Some(q)
  }

  /** Row `i` relabelled with `labels[i]`, figures unchanged. */
  function Relabel(f: Frame, labels: seq<string>): Frame
    requires |labels| == |f|
  {
    seq(|f|, i requires 0 <= i < |f| => FrameRow(Label(Text(labels[i])), f[i].values))
  }

  /** df_question_scrubber as evidently intended: row `i` receives `new_index[i]`. The code
      renames by label instead (`Scrubbed`), which can merge labels; the two agree when no
      new label equals a later original label (`ScrubbedAgrees`). */
  function ScrubbedIntended(f: Frame): Result<(Frame, Option<string>)>
  {
    match LabelWords(f)
    case Failure(e) => Failure(e)
    case Success(qs) =>
      if |qs| == 0 then Failure(IndexError)
      else
        var splitIdx := SplitIndex(qs);
        SplitIndexMeaning(qs);
        Success((Relabel(f, NewIndex(qs, splitIdx)), NewQuestion(qs, splitIdx)))
  }

  /** The search and relabelling of df_question_scrubber, each row taking its own new label. */
  method DfQuestionScrubberIntended(f: Frame) returns (r: Result<(Frame, Option<string>)>)
    ensures r == ScrubbedIntended(f)
  {
    var words := LabelWords(f);
    if words.Failure? {
      return Failure(words.error);
    }
    var splitQs := words.value;
    var splitIdx := FindSplitIndex(splitQs);
    SplitIndexMeaning(splitQs);
    var newIndex := NewIndex(splitQs, splitIdx);
    if |splitQs| == 0 {
      return Failure(IndexError);
    }
    r := Success((Relabel(f, newIndex), NewQuestion(splitQs, splitIdx)));
  }

  /** Scrubbing fails with `AttributeError` exactly when a label is not a string, and
      otherwise with `IndexError` exactly when the frame is empty. */
  lemma ScrubbedFailure(f: Frame)
    ensures ScrubbedIntended(f) == Failure(AttributeError) <==> exists i :: 0 <= i < |f| && !IsTextLabel(f[i].key)
    ensures ScrubbedIntended(f) == Failure(IndexError) <==> |f| == 0
  {
  }

  /** All labels share the words before the split index. */
  lemma CommonPrefix(qs: seq<seq<string>>, i: nat)
    requires i < |qs|
    ensures SplitIndex(qs) <= |qs[i]| && SplitIndex(qs) <= |qs[0]|
    ensures qs[i][..SplitIndex(qs)] == qs[0][..SplitIndex(qs)]
  {
    var s := SplitIndex(qs);
    SplitIndexMeaning(qs);
    forall h | 0 <= h < s
      ensures qs[i][h] == qs[0][h]
    {
      assert GroupAgrees(qs, h);
    }
  }

  /** The label words are words. */
  lemma LabelWordsAreWords(f: Frame, i: nat)
    requires LabelWords(f).Success? && i < |f|
    ensures |LabelWords(f).value| == |f| && LabelWords(f).value[i] == Words(f[i].key.response.s)
    ensures forall w :: w in LabelWords(f).value[i] ==> IsWord(w)
  {
  }

  /** The text of the new question, empty when there is none. */
  function QuestionText(newQ: Option<string>): string
  {
    if newQ.Some? then newQ.value else ""
  }

  /** The new question is the first label's words before the split index, missing exactly
      when the split index is 0. */
  lemma ScrubbedQuestionWords(f: Frame)
    requires ScrubbedIntended(f).Success?
    ensures var qs := LabelWords(f).value;
      && |qs| > 0 && SplitIndex(qs) <= |qs[0]|
      && Words(QuestionText(ScrubbedIntended(f).value.1)) == qs[0][..SplitIndex(qs)]
      && (ScrubbedIntended(f).value.1.None? <==> SplitIndex(qs) == 0)
  {
    var qs := LabelWords(f).value;
    var s := SplitIndex(qs);
    SplitIndexMeaning(qs);
    LabelWordsAreWords(f, 0);
    WordsOfJoin(qs[0][..s]);
    JoinOfWordsEmpty(qs[0][..s]);
    assert ScrubbedIntended(f).value.1 == NewQuestion(qs, s);
  }

  /** A scrubbed row keeps its figures, and its old label's words are the shared prefix
      followed by its new label's words. */
  lemma ScrubbedRowWords(f: Frame, i: nat)
    requires ScrubbedIntended(f).Success? && i < |f|
    ensures var qs, g := LabelWords(f).value, ScrubbedIntended(f).value.0;
      && |qs| > 0 && SplitIndex(qs) <= |qs[0]|
      && |g| == |f| && IsTextLabel(g[i].key) && g[i].values == f[i].values
      && Words(f[i].key.response.s) == qs[0][..SplitIndex(qs)] + Words(g[i].key.response.s)
  {
    var qs := LabelWords(f).value;
    var s := SplitIndex(qs);
    SplitIndexMeaning(qs);
    LabelWordsAreWords(f, i);
    var g := ScrubbedIntended(f).value.0;
    assert g == Relabel(f, NewIndex(qs, s));
    assert g[i].key.response.s == Join(qs[i][s..], " ");
    PrefixAndRest(qs, i);
  }

  /** A label's words are the shared prefix followed by the words of its new label. */
  lemma PrefixAndRest(qs: seq<seq<string>>, i: nat)
    requires i < |qs| && forall w :: w in qs[i] ==> IsWord(w)
    ensures SplitIndex(qs) <= |qs[i]| && SplitIndex(qs) <= |qs[0]|
    ensures qs[i] == qs[0][..SplitIndex(qs)] + Words(Join(qs[i][SplitIndex(qs)..], " "))
  {
    var s := SplitIndex(qs);
    CommonPrefix(qs, i);
    WordsOfJoin(qs[i][s..]);
    assert qs[i] == qs[i][..s] + qs[i][s..];
  }

  /** The words of every label are the words of the new question followed by the words of
      its new label; the figures stay as they were, and the new question is missing exactly
      when all labels differ at once or none differ at all. */
  lemma ScrubbedRows(f: Frame)
    requires ScrubbedIntended(f).Success?
    ensures var (g, newQ) := ScrubbedIntended(f).value;
      && |g| == |f|
      && (newQ.None? <==> SplitIndex(LabelWords(f).value) == 0)
      && forall i :: 0 <= i < |f| ==>
        && IsTextLabel(g[i].key) && g[i].values == f[i].values
        && Words(f[i].key.response.s) == Words(QuestionText(newQ)) + Words(g[i].key.response.s)
  {
    ScrubbedQuestionWords(f);
    forall i | 0 <= i < |f|
      ensures var (g, newQ) := ScrubbedIntended(f).value;
        && IsTextLabel(g[i].key) && g[i].values == f[i].values
        && Words(f[i].key.response.s) == Words(QuestionText(newQ)) + Words(g[i].key.response.s)
    {
      ScrubbedRowWords(f, i);
    }
  }

  // ---------------------------------------------------------------------------
  // The rename loop as written

  /** `df.rename(index={pat: repl})`: every label equal to `pat` becomes `repl`. */
  function Rename(labels: seq<string>, pat: string, repl: string): seq<string>
  {
    seq(|labels|, i requires 0 <= i < |labels| => if labels[i] == pat then repl else labels[i])
  }

  /** `for i, n in zip(index, new_index): df = df.rename(index={i: n})`: the renames are
      applied one after the other to the labels as they are by then. */
  function RenameCascade(labels: seq<string>, index: seq<string>, newIndex: seq<string>): (r: seq<string>)
    requires |index| == |newIndex|
    ensures |r| == |labels|
    ensures forall i :: 0 <= i < |labels| && labels[i] !in index ==> r[i] == labels[i]
    ensures forall i :: 0 <= i < |labels| ==> r[i] == labels[i] || r[i] in newIndex
    decreases |index|
  {
    if index == [] then labels
    else RenameCascade(Rename(labels, index[0], newIndex[0]), index[1..], newIndex[1..])
  }

  /** The rename loop, applied to the frame's own labels. */
  method RenameByLabel(index: seq<string>, newIndex: seq<string>) returns (labels: seq<string>)
    requires |index| == |newIndex|
    ensures labels == RenameCascade(index, index, newIndex)
  {
    labels := index;
    for k := 0 to |index|
      invariant RenameCascade(labels, index[k..], newIndex[k..]) == RenameCascade(index, index, newIndex)
    {
      assert index[k..][1..] == index[k + 1..] && newIndex[k..][1..] == newIndex[k + 1..];
      labels := Rename(labels, index[k], newIndex[k]);
    }
  }

  /** The labels of a frame whose labels are all text. */
  function LabelTexts(f: Frame): (labels: seq<string>)
    requires forall i :: 0 <= i < |f| ==> IsTextLabel(f[i].key)
    ensures |labels| == |f| && forall i :: 0 <= i < |f| ==> f[i].key == Label(Text(labels[i]))
  {
    seq(|f|, i requires 0 <= i < |f| && IsTextLabel(f[i].key) => f[i].key.response.s)
  }

  /** `new_index`: each label's words from the split index on. */
  function NewLabels(f: Frame): (labels: seq<string>)
    requires forall i :: 0 <= i < |f| ==> IsTextLabel(f[i].key)
    ensures |labels| == |f|
  {
    var qs := LabelWords(f).value;
    SplitIndexMeaning(qs);
    NewIndex(qs, SplitIndex(qs))
  }

  /** df_question_scrubber as written: the labels are renamed by label, one pair at a time. */
  function Scrubbed(f: Frame): Result<(Frame, Option<string>)>
  {
    match LabelWords(f)
    case Failure(e) => Failure(e)
    case Success(qs) =>
      if |qs| == 0 then Failure(IndexError)
      else
        var splitIdx := SplitIndex(qs);
        SplitIndexMeaning(qs);
        var index := LabelTexts(f);
        Success((Relabel(f, RenameCascade(index, index, NewLabels(f))), NewQuestion(qs, splitIdx)))
  }

  /** df_question_scrubber: the search loop, then the rename loop over the frame's labels. */
  method DfQuestionScrubber(f: Frame) returns (r: Result<(Frame, Option<string>)>)
    ensures r == Scrubbed(f)
  {
    var words := LabelWords(f);
    if words.Failure? {
      return Failure(words.error);
    }
    var splitQs := words.value;
    var splitIdx := FindSplitIndex(splitQs);
    SplitIndexMeaning(splitQs);
    var newIndex := NewIndex(splitQs, splitIdx);
    var index := LabelTexts(f);
    var labels := RenameByLabel(index, newIndex);
    if |splitQs| == 0 {
      return Failure(IndexError);
    }
    r := Success((Relabel(f, labels), NewQuestion(splitQs, splitIdx)));
  }

  /** The renames act by position: the original labels are pairwise different, and no new
      label equals a label renamed after it. */
  ghost predicate RenamesArePositional(index: seq<string>, newIndex: seq<string>)
  {
    && |index| == |newIndex|
    && (forall i, j :: 0 <= i < j < |index| ==> index[i] != index[j])
    && (forall k, j :: 0 <= k < j < |index| ==> newIndex[k] != index[j])
  }

  /** Labels already renamed stay out of the way of the renames still to come. */
  lemma {:induction false} CascadeAfter(done: seq<string>, index: seq<string>, newIndex: seq<string>)
    requires RenamesArePositional(index, newIndex)
    requires forall p, k :: 0 <= p < |done| && 0 <= k < |index| ==> done[p] != index[k]
    ensures RenameCascade(done + index, index, newIndex) == done + newIndex
    decreases |index|
  {
    if index == [] {
      assert done + index == done && done + newIndex == done;
    } else {
      var next := done + [newIndex[0]];
      assert Rename(done + index, index[0], newIndex[0]) == next + index[1..];
      forall p, k | 0 <= p < |next| && 0 <= k < |index[1..]|
        ensures next[p] != index[1..][k]
      {
        assert index[1..][k] == index[k + 1];
      }
      CascadeAfter(next, index[1..], newIndex[1..]);
      assert next + newIndex[1..] == done + newIndex;
    }
  }

  /** When the renames act by position, renaming by label gives each row its own new label. */
  lemma RenameCascadeIsPositional(index: seq<string>, newIndex: seq<string>)
    requires RenamesArePositional(index, newIndex)
    ensures RenameCascade(index, index, newIndex) == newIndex
  {
    var none: seq<string> := [];
    assert none + index == index;
    assert none + newIndex == newIndex;
    CascadeAfter(none, index, newIndex);
  }

  /** The code and the intended relabelling agree on every frame whose renames act by
      position. */
  lemma ScrubbedAgrees(f: Frame)
    requires forall i :: 0 <= i < |f| ==> IsTextLabel(f[i].key)
    requires RenamesArePositional(LabelTexts(f), NewLabels(f))
    ensures Scrubbed(f) == ScrubbedIntended(f)
  {
    RenameCascadeIsPositional(LabelTexts(f), NewLabels(f));
  }

  /** Renaming by label merges rows: the labels "A A B" and "A B" split at position 1 into
      "A B" and "B", but the second rename also catches the first row's new label, and both
      rows end up labelled "B". Relabelling by position keeps them apart. */
  lemma RenameCascadeMergesLabels()
    ensures var qs := [["A", "A", "B"], ["A", "B"]];
      && SplitIndex(qs) == 1
      && NewIndex(qs, 1) == ["A B", "B"]
      && RenameCascade(["A A B", "A B"], ["A A B", "A B"], NewIndex(qs, 1)) == ["B", "B"]
  {
    var qs := [["A", "A", "B"], ["A", "B"]];
    assert GroupCount(qs) == 2 by {
      assert GroupCount(qs[1..]) == 2;
    }
    assert GroupAgrees(qs, 0);
    assert !GroupAgrees(qs, 1);
    assert qs[0][1..] == ["A", "B"] && qs[1][1..] == ["B"];
    assert Join(["A", "B"], " ") == "A B";
    assert Join(["B"], " ") == "B";
    assert NewIndex(qs, 1) == ["A B", "B"];
    assert Rename(["A A B", "A B"], "A A B", "A B") == ["A B", "A B"];
    assert Rename(["A B", "A B"], "A B", "B") == ["B", "B"];
    assert RenameCascade(["B", "B"], [], []) == ["B", "B"];
    assert RenameCascade(["A B", "A B"], ["A B"], ["B"]) == ["B", "B"];
  }
}
