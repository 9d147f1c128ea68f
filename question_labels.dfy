/** Question labels (excel_handler/excel_splitter.py): parsing a marker row's text into
    prefix, question and statement, the heuristic de-duplicator of consecutive questions, and
    the word-by-word comparison of two labels. */
module QuestionLabels {
  import opened Wrappers
  import opened Seqs
  import opened PyText
  import opened UtilityFunctions
  import opened SurveySheet

  /** What `clean_up_question` returns: the text before the first delimiter, the question
      text, and the statement when there is a third component. */
  datatype QuestionParts = QuestionParts(prefix: string, question: string, statement: Option<string>)

  const ComponentSeparator: string := ": "

  /** `generate_delimiters(suffix='\t')`: `a.<tab>` .. `z.<tab>`, `A.<tab>` .. `Z.<tab>`. */
  function OutlineDelimiters(): seq<string>
  {
    GenerateDelimiters("\t", [])
  }

  /** An outline marker such as `A.<tab>`: a letter, a period and a tab. */
  ghost predicate IsOutlineDelimiter(d: string)
  {
    |d| == 3 && IsAsciiLetter(d[0]) && d[1] == '.' && d[2] == '\t'
  }

  /** No outline delimiter occurs in `s`. */
  ghost predicate NoOutlineDelimiter(s: string)
  {
    forall d :: IsOutlineDelimiter(d) ==> !Occurs(s, d)
  }

  /** The generated delimiters are exactly the outline markers. */
  lemma OutlineDelimitersAreMarkers()
    ensures |OutlineDelimiters()| == 52
    ensures forall i :: 0 <= i < 52 ==> IsOutlineDelimiter(OutlineDelimiters()[i])
    ensures forall d :: IsOutlineDelimiter(d) ==> d in OutlineDelimiters()
  {
    var ds := OutlineDelimiters();
    forall d | IsOutlineDelimiter(d)
      ensures d in ds
    {
      var i := if 'a' <= d[0] <= 'z' then d[0] as int - 'a' as int else d[0] as int - 'A' as int + 26;
      assert ds[i] == [LetterAt(i), '.'] + "\t" == d;
    }
  }

  // ---------------------------------------------------------------------------
  // clean_up_question

  /** Each delimiter of `ds` in turn replaced by `": "`, as the loop over
      `outline_delimiters` does. */
  function ReplaceAll(s: string, ds: seq<string>): string
    requires forall i :: 0 <= i < |ds| ==> ds[i] != []
  {
    if ds == [] then s
    else Replace(ReplaceAll(s, ds[..|ds| - 1]), ds[|ds| - 1], ComponentSeparator)
  }

  /** The question text with every outline marker turned into a component separator. */
  function Rewritten(question: string): string
  {
    OutlineDelimitersAreMarkers();
    ReplaceAll(question, OutlineDelimiters())
  }

  /** What `clean_up_question` computes from a text cell: split the rewritten text on
      `": "`, strip every component, and take the first three; fewer than two components
      make `component_lst[1]` raise `IndexError`. */
  function ParseQuestion(question: string): Result<QuestionParts>
  {
    FromComponents(Split(Rewritten(question), ComponentSeparator))
  }

  /** `[x.strip() for x in component_lst]`, then the prefix, question and statement. */
  function FromComponents(parts: seq<string>): Result<QuestionParts>
  {
    var stripped := StripAll(parts);
    if |stripped| < 2 then Failure(IndexError)
    else Success(QuestionParts(stripped[0], stripped[1], if |stripped| >= 3 then Some(stripped[2]) else None))
  }

  /** `[x.strip() for x in component_lst]`. */
  function StripAll(parts: seq<string>): (r: seq<string>)
  {
    seq(|parts|, i requires 0 <= i < |parts| => Strip(parts[i]))
  }

  /** clean_up_question; a cell that is not text has no `replace` (`AttributeError`). */
  method CleanUpQuestion(question: Cell) returns (r: Result<QuestionParts>)
    ensures r == if question.Text? then ParseQuestion(question.s) else Failure(AttributeError)
  {
    if !question.Text? {
      return Failure(AttributeError);
    }
    var outlineDelimiters := GenerateDelimiters("\t", []);
    OutlineDelimitersAreMarkers();
    var q := question.s;
    for i := 0 to |outlineDelimiters|
      invariant q == ReplaceAll(question.s, outlineDelimiters[..i])
    {
      assert outlineDelimiters[..i + 1][..i] == outlineDelimiters[..i];
      q := Replace(q, outlineDelimiters[i], ": ");
    }
    assert outlineDelimiters[..|outlineDelimiters|] == outlineDelimiters;
    var componentLst := Split(q, ": ");
    componentLst := StripAll(componentLst);
    if |componentLst| < 2 {
      return Failure(IndexError);
    }
    var statement := if |componentLst| >= 3 then Some(componentLst[2]) else None;
    r := Success(QuestionParts(componentLst[0], componentLst[1], statement));
  }

  /** The rewritten text holds no outline marker any more. */
  lemma RewrittenHasNoOutlineDelimiter(question: string)
    ensures NoOutlineDelimiter(Rewritten(question))
  {
    OutlineDelimitersAreMarkers();
    var ds := OutlineDelimiters();
    ReplaceAllRemoves(question, ds);
    forall d | IsOutlineDelimiter(d)
      ensures !Occurs(Rewritten(question), d)
    {
      var i :| 0 <= i < |ds| && ds[i] == d;
    }
  }

  /** The component separator and an outline delimiter cannot overlap. */
  lemma SeparatorForeignToMarkers(d: string)
    requires IsOutlineDelimiter(d)
    ensures Disjoint(ComponentSeparator, d)
  {
  }

  /** After replacing every delimiter, none of them occurs any more. */
  lemma {:induction false} ReplaceAllRemoves(s: string, ds: seq<string>)
    requires forall i :: 0 <= i < |ds| ==> IsOutlineDelimiter(ds[i]) && ds[i] != []
    ensures forall i :: 0 <= i < |ds| ==> !Occurs(ReplaceAll(s, ds), ds[i])
  {
    if ds != [] {
      var init, last := ds[..|ds| - 1], ds[|ds| - 1];
      var t := ReplaceAll(s, init);
      ReplaceAllRemoves(s, init);
      SeparatorForeignToMarkers(last);
      ReplaceRemoves(t, last, ComponentSeparator);
      forall i | 0 <= i < |init|
        ensures !Occurs(ReplaceAll(s, ds), ds[i])
      {
        SeparatorForeignToMarkers(ds[i]);
        ReplaceKeepsFree(t, last, ComponentSeparator, ds[i]);
      }
    }
  }

  /** Parsing fails exactly when the rewritten text has no `": "` separator. */
  lemma ParseFailsWithoutSeparator(question: string)
    ensures ParseQuestion(question).Failure? <==> !Occurs(Rewritten(question), ComponentSeparator)
    ensures ParseQuestion(question).Failure? ==> ParseQuestion(question).error == IndexError
  {
    SplitHasTwoPieces(Rewritten(question), ComponentSeparator);
  }

  /** The components come out stripped and free of `": "`. */
  lemma ParsedComponentsClean(question: string)
    requires ParseQuestion(question).Success?
    ensures var p := ParseQuestion(question).value;
      && IsTrimmed(p.prefix) && !Occurs(p.prefix, ComponentSeparator)
      && IsTrimmed(p.question) && !Occurs(p.question, ComponentSeparator)
      && (p.statement.Some? ==> IsTrimmed(p.statement.value) && !Occurs(p.statement.value, ComponentSeparator))
  {
    var t := Rewritten(question);
    var parts := Split(t, ComponentSeparator);
    SplitPiecesFree(t, ComponentSeparator);
    ComponentsClean(parts);
  }

  /** Components free of the separator give parts that are trimmed and free of it. */
  lemma ComponentsClean(parts: seq<string>)
    requires FromComponents(parts).Success?
    requires forall x :: x in parts ==> !Occurs(x, ComponentSeparator)
    ensures var p := FromComponents(parts).value;
      && IsTrimmed(p.prefix) && !Occurs(p.prefix, ComponentSeparator)
      && IsTrimmed(p.question) && !Occurs(p.question, ComponentSeparator)
      && (p.statement.Some? ==> IsTrimmed(p.statement.value) && !Occurs(p.statement.value, ComponentSeparator))
  {
    var stripped := StripAll(parts);
    var p := FromComponents(parts).value;
    assert parts[0] in parts && parts[1] in parts;
    StrippedFree(parts[0]);
    StrippedFree(parts[1]);
    assert p.prefix == Strip(parts[0]) && p.question == Strip(parts[1]);
    if |parts| >= 3 {
      assert parts[2] in parts;
      StrippedFree(parts[2]);
      assert p.statement == Some(Strip(parts[2]));
    }
  }

  /** Stripping whitespace cannot create an occurrence of the separator. */
  lemma StrippedFree(s: string)
    requires !Occurs(s, ComponentSeparator)
    ensures !Occurs(Strip(s), ComponentSeparator)
  {
    var i, j :| 0 <= i <= j <= |s| && Strip(s) == s[i..j];
    FreeSlice(s, ComponentSeparator, i, j);
  }

  /** A label of the sheet's shape, `<letter>.<tab><question>: <statement>`, parses into an
      empty prefix (the text before the outline marker), the question and the statement. */
  lemma ParseOutlinedQuestion(letter: char, q: string, st: string)
    requires IsAsciiLetter(letter)
    requires IsTrimmed(q) && !Occurs(q, ComponentSeparator) && NoOutlineDelimiter(q)
    requires IsTrimmed(st) && !Occurs(st, ComponentSeparator) && NoOutlineDelimiter(st)
    ensures ParseQuestion([letter, '.', '\t'] + q + ": " + st) == Success(QuestionParts("", q, Some(st)))
  {
    var marker := [letter, '.', '\t'];
    var rest := q + ": " + st;
    GluedFree(q, st);
    assert marker + q + ": " + st == marker + rest;
    RewriteOutlined(marker, rest);
    SplitsIntoThree(q, st);
    ThreeComponents(q, st);
  }

  /** An empty prefix, a question and a statement build question parts with an empty prefix. */
  lemma ThreeComponents(q: string, st: string)
    requires IsTrimmed(q) && IsTrimmed(st)
    ensures FromComponents(["", q, st]) == Success(QuestionParts("", q, Some(st)))
  {
    StripTrimmed("");
    StripTrimmed(q);
    StripTrimmed(st);
  }

  /** Joining two texts free of outline delimiters with `": "` creates none. */
  lemma GluedFree(q: string, st: string)
    requires NoOutlineDelimiter(q) && NoOutlineDelimiter(st)
    ensures NoOutlineDelimiter(q + ": " + st)
  {
    forall d | IsOutlineDelimiter(d)
      ensures !Occurs(q + ": " + st, d)
    {
      SeparatorForeignToMarkers(d);
      FreeGlue(q, ": ", st, d);
    }
  }

  /** A rewritten label splits at the separator into the empty prefix, the question and the
      statement. */
  lemma SplitsIntoThree(q: string, st: string)
    requires !Occurs(q, ComponentSeparator) && !Occurs(st, ComponentSeparator)
    ensures Split(": " + (q + ": " + st), ComponentSeparator) == ["", q, st]
  {
    SplitLeadingSeparator(q + ": " + st);
    SplitAtFirst(q, st);
    SplitFree(st, ComponentSeparator);
  }

  /** A text that starts with the separator splits into an empty prefix first. */
  lemma SplitLeadingSeparator(rest: string)
    ensures Split(": " + rest, ComponentSeparator) == [""] + Split(rest, ComponentSeparator)
  {
    var s := ": " + rest;
    assert IsAt(s, ComponentSeparator, 0);
    assert Find(s, ComponentSeparator) == 0;
    assert s[2..] == rest;
  }

  /** A label `<letter>.<tab><question>` without a statement parses with `statement`
      `None`. */
  lemma ParseOutlinedQuestionNoStatement(letter: char, q: string)
    requires IsAsciiLetter(letter)
    requires IsTrimmed(q) && !Occurs(q, ComponentSeparator) && NoOutlineDelimiter(q)
    ensures ParseQuestion([letter, '.', '\t'] + q) == Success(QuestionParts("", q, None))
  {
    var marker := [letter, '.', '\t'];
    RewriteOutlined(marker, q);
    SplitLeadingSeparator(q);
    SplitFree(q, ComponentSeparator);
    assert Split(": " + q, ComponentSeparator) == ["", q];
    StripTrimmed(q);
    StripTrimmed("");
    assert FromComponents(["", q]) == Success(QuestionParts("", q, None));
  }

  /** `q + ": " + st` splits first at the separator after `q`. */
  lemma SplitAtFirst(q: string, st: string)
    requires !Occurs(q, ComponentSeparator)
    ensures Split(q + ": " + st, ComponentSeparator) == [q] + Split(st, ComponentSeparator)
  {
    var s := q + ": " + st;
    forall j | 0 <= j < |q|
      ensures !IsAt(s, ComponentSeparator, j)
    {
      if j + 2 <= |q| {
        assert s[j..j + 2] == q[j..j + 2];
        assert !IsAt(q, ComponentSeparator, j);
      } else {
        assert s[j..j + 2][1] == s[j + 1] == ':';
      }
    }
    assert s[..|q|] == q;
    assert s[|q|..|q| + 2] == ": ";
    assert IsAt(s, ComponentSeparator, |q|);
    assert Find(s, ComponentSeparator) == |q|;
    assert s[|q| + 2..] == st;
  }

  /** Rewriting a marker-led text replaces the leading marker and nothing else. */
  lemma RewriteOutlined(marker: string, rest: string)
    requires IsOutlineDelimiter(marker) && NoOutlineDelimiter(rest)
    ensures Rewritten(marker + rest) == ": " + rest
  {
    OutlineDelimitersAreMarkers();
    ReplaceAllOutlined(marker, rest, OutlineDelimiters());
  }

  /** A leading outline marker becomes `": "` when it is among the delimiters replaced, and
      stays otherwise. */
  lemma {:induction false} ReplaceAllOutlined(marker: string, rest: string, ds: seq<string>)
    requires IsOutlineDelimiter(marker) && NoOutlineDelimiter(rest)
    requires forall i :: 0 <= i < |ds| ==> IsOutlineDelimiter(ds[i]) && ds[i] != []
    ensures marker in ds ==> ReplaceAll(marker + rest, ds) == ": " + rest
    ensures marker !in ds ==> ReplaceAll(marker + rest, ds) == marker + rest
  {
    if ds != [] {
      var init, last := ds[..|ds| - 1], ds[|ds| - 1];
      ReplaceAllOutlined(marker, rest, init);
      assert ds == init + [last];
      if marker in init {
        SeparatorForeignToMarkers(last);
        FreeGlue("", ": ", rest, last);
        assert "" + ": " + rest == ": " + rest;
        ReplaceFree(": " + rest, last, ComponentSeparator);
      } else if last == marker {
        assert Find(marker + rest, marker) == 0;
        assert (marker + rest)[3..] == rest;
        ReplaceFree(rest, marker, ComponentSeparator);
      } else {
        MarkerLedFree(marker, rest, last);
        ReplaceFree(marker + rest, last, ComponentSeparator);
      }
    }
  }

  /** A different outline marker does not occur in a marker-led text. */
  lemma MarkerLedFree(marker: string, rest: string, d: string)
    requires IsOutlineDelimiter(marker) && IsOutlineDelimiter(d) && d != marker
    requires NoOutlineDelimiter(rest)
    ensures !Occurs(marker + rest, d)
  {
    var s := marker + rest;
    forall i
      ensures !IsAt(s, d, i)
    {
      if 3 <= i && i + 3 <= |s| {
        assert s[i..i + 3] == rest[i - 3..i];
        assert !IsAt(rest, d, i - 3);
      } else if 0 < i < 3 && i + 3 <= |s| {
        assert s[i..i + 3][0] == s[i] && !IsAsciiLetter(s[i]);
      } else if i == 0 && 3 <= |s| {
        assert s[0..3] == marker;
      }
    }
  }

  // ---------------------------------------------------------------------------
  // clean_up_questions

  /** A Python value of either type that lands in the rejection lists. */
  datatype PyValue = Str(s: string) | Int(i: int)

  /** `[x == y for x, y in zip(prev, cur)]`. */
  function Agreement(prev: seq<string>, cur: seq<string>): seq<bool>
  {
    var n := if |prev| < |cur| then |prev| else |cur|;
    seq(n, i requires 0 <= i < n => prev[i] == cur[i])
  }

  /** The number of (question, index) pairs that `zip` produces. */
  function Compared(questions: seq<string>, indices: seq<int>): nat
  {
    if |questions| < |indices| then |questions| else |indices|
  }

  /** The comparison of question `k` with question `k - 1` covers no word positions, so the
      threshold check would divide by zero. */
  predicate EmptyComparison(questions: seq<string>, k: nat)
    requires 1 <= k < |questions|
  {
    |Agreement(Words(questions[k - 1]), Words(questions[k]))| == 0
  }

  /** Question `k` repeats question `k - 1`: at least three quarters of the word positions
      they share carry the same word. */
  predicate Repeats(questions: seq<string>, k: nat)
    requires 1 <= k < |questions|
  {
    var a := Agreement(Words(questions[k - 1]), Words(questions[k]));
    |a| > 0 && CheckAgainstTruthThreshold(a, 0.75)
  }

  /** Some compared question shares no word position with its predecessor, so its similarity
      ratio divides by zero. */
  ghost predicate DividesByZero(questions: seq<string>, indices: seq<int>)
  {
    exists k :: 1 <= k < Compared(questions, indices) && EmptyComparison(questions, k)
  }

  /** Questions `1` to `k - 1` each share a word position with their predecessor. */
  ghost predicate ComparableUpTo(questions: seq<string>, k: nat)
  {
    forall j :: 1 <= j < k && j < |questions| ==> !EmptyComparison(questions, j)
  }

  /** One more comparable question extends the comparable prefix; the loop invariant of
      `CleanUpQuestions` advances by it. */
  lemma ComparableStep(questions: seq<string>, k: nat)
    requires 1 <= k < |questions| && ComparableUpTo(questions, k) && !EmptyComparison(questions, k)
    ensures ComparableUpTo(questions, k + 1)
  {
  }

  /** When every compared question is comparable, no ratio divides by zero. */
  lemma ComparableNoDivision(questions: seq<string>, indices: seq<int>)
    requires ComparableUpTo(questions, Compared(questions, indices))
    ensures !DividesByZero(questions, indices)
  {
  }

  /** Every rejected value is an index (an `int`). */
  ghost predicate IndexValuesOnly(vs: seq<PyValue>)
  {
    forall v :: v in vs ==> v.Int?
  }

  /** Appending an integer keeps a list of index values a list of index values. */
  lemma IndexValueAppended(vs: seq<PyValue>, i: int)
    requires IndexValuesOnly(vs)
    ensures IndexValuesOnly(vs + [Int(i)])
  {
  }

  /** A question (a string) never equals a rejected index, so filtering drops none. */
  lemma NoQuestionRejected(questions: seq<string>, rejected: seq<PyValue>)
    requires IndexValuesOnly(rejected)
    ensures Filter(questions, x => Str(x) !in rejected) == questions
  {
    FilterAll(questions, x => Str(x) !in rejected);
  }

  /** The index values rejected among the first `k` pairs, in the order of rejection. */
  function RejectedUpTo(questions: seq<string>, indices: seq<int>, k: nat): seq<int>
    requires k <= Compared(questions, indices)
  {
    if k <= 1 then []
    else RejectedUpTo(questions, indices, k - 1) + (if Repeats(questions, k - 1) then [indices[k - 1]] else [])
  }

  /** The rejected indices grow by index `k` exactly when question `k` repeats its predecessor;
      the loop invariant of `CleanUpQuestions` advances by it. */
  lemma RejectedStep(questions: seq<string>, indices: seq<int>, k: nat)
    requires 1 <= k < Compared(questions, indices)
    ensures RejectedUpTo(questions, indices, k + 1) ==
      RejectedUpTo(questions, indices, k) + (if Repeats(questions, k) then [indices[k]] else [])
  {
  }

  /** The indices of every compared question that repeats its predecessor. */
  function Rejected(questions: seq<string>, indices: seq<int>): seq<int>
  {
    RejectedUpTo(questions, indices, Compared(questions, indices))
  }

  /** The indices that `clean_up_questions` returns: those whose value was not rejected. */
  function KeptIndices(questions: seq<string>, indices: seq<int>): seq<int>
  {
    var rejected := Rejected(questions, indices);
    Filter(indices, x => x !in rejected)
  }

  /** clean_up_questions: compares each question with the one before it and rejects the index
      of a near-repeat. The questions list is filtered against a list of indices, which no
      string equals, so it comes back unchanged. */
  method CleanUpQuestions(questions: seq<string>, questionIndices: seq<int>) returns (r: Result<(seq<string>, seq<int>)>)
    ensures questions == [] ==> r == Failure(IndexError)
    ensures questions != [] && DividesByZero(questions, questionIndices) ==> r == Failure(ZeroDivisionError)
    ensures questions != [] && !DividesByZero(questions, questionIndices) ==>
      r == Success((questions, KeptIndices(questions, questionIndices)))
  {
    if |questions| == 0 {
      return Failure(IndexError);
    }
    var mostRecentQuestion := Words(questions[0]);
    var rejectQuestions: seq<PyValue> := [];
    var rejectIndexes: seq<int> := [];
    var n := Compared(questions, questionIndices);
    for qIdx := 0 to n
      invariant rejectIndexes == RejectedUpTo(questions, questionIndices, qIdx)
      invariant IndexValuesOnly(rejectQuestions)
      invariant mostRecentQuestion == Words(questions[if qIdx == 0 then 0 else qIdx - 1])
      invariant ComparableUpTo(questions, qIdx)
    {
      if qIdx != 0 {
        var qSplit := Words(questions[qIdx]);
        var similarityCheck := Agreement(mostRecentQuestion, qSplit);
        if |similarityCheck| == 0 {
          assert EmptyComparison(questions, qIdx);
          return Failure(ZeroDivisionError);
        }
        assert !EmptyComparison(questions, qIdx);
        ComparableStep(questions, qIdx);
        assert Repeats(questions, qIdx) == CheckAgainstTruthThreshold(similarityCheck, 0.75);
        RejectedStep(questions, questionIndices, qIdx);
        if CheckAgainstTruthThreshold(similarityCheck, 0.75) {
          IndexValueAppended(rejectQuestions, questionIndices[qIdx]);
          rejectQuestions := rejectQuestions + [Int(questionIndices[qIdx])];
          rejectIndexes := rejectIndexes + [questionIndices[qIdx]];
        }
        mostRecentQuestion := qSplit;
      }
    }
    ComparableNoDivision(questions, questionIndices);
    var keptQuestions := Filter(questions, x => Str(x) !in rejectQuestions);
    NoQuestionRejected(questions, rejectQuestions);
    var keptIndices := Filter(questionIndices, x => x !in rejectIndexes);
    r := Success((keptQuestions, keptIndices));
  }

  /** The kept indices keep their order: a subsequence of the input. */
  lemma KeptIndicesSubsequence(questions: seq<string>, indices: seq<int>)
    ensures IsSubsequence(KeptIndices(questions, indices), indices)
  {
    var rejected := Rejected(questions, indices);
    FilterIsSubsequence(indices, x => x !in rejected);
  }

  /** A value is rejected exactly when it is the index of a near-repeat among the pairs
      compared. */
  lemma {:induction false} RejectedMembers(questions: seq<string>, indices: seq<int>, k: nat, x: int)
    requires k <= Compared(questions, indices)
    ensures x in RejectedUpTo(questions, indices, k) <==>
      exists j :: 1 <= j < k && Repeats(questions, j) && indices[j] == x
  {
    if k > 1 {
      RejectedMembers(questions, indices, k - 1, x);
    }
  }

  /** No index appears twice. */
  ghost predicate Distinct(indices: seq<int>)
  {
    forall i, j :: 0 <= i < j < |indices| ==> indices[i] != indices[j]
  }

  /** With distinct index values (as `get_list_of_fills` produces), index `k` is kept
      exactly when it is the first, lies beyond the questions, or question `k` is no
      near-repeat of question `k - 1`. */
  lemma KeptIndexRule(questions: seq<string>, indices: seq<int>, k: nat)
    requires Distinct(indices) && k < |indices|
    ensures indices[k] in KeptIndices(questions, indices) <==>
      k == 0 || k >= Compared(questions, indices) || !Repeats(questions, k)
  {
    var rejected := Rejected(questions, indices);
    RejectedMembers(questions, indices, Compared(questions, indices), indices[k]);
    FilterMembers(indices, x => x !in rejected, indices[k]);
  }

  /** The first question is never rejected: with distinct index values the first index
      comes back first. */
  lemma FirstIndexKept(questions: seq<string>, indices: seq<int>)
    requires Distinct(indices) && |indices| > 0
    ensures |KeptIndices(questions, indices)| > 0 && KeptIndices(questions, indices)[0] == indices[0]
  {
    var rejected := Rejected(questions, indices);
    RejectedMembers(questions, indices, Compared(questions, indices), indices[0]);
    assert indices[0] !in rejected;
  }

  // ---------------------------------------------------------------------------
  // comparative_separation

  /** `[x for x_idx, x in enumerate(text_list) if x == comparative_list[x_idx]]`. */
  function MatchedWords(ws: seq<string>, cs: seq<string>): seq<string>
    requires |ws| <= |cs|
  {
    if ws == [] then []
    else (if ws[0] == cs[0] then [ws[0]] else []) + MatchedWords(ws[1..], cs[1..])
  }

  /** The words of `text` that are not among the matched words, joined by spaces. */
  function ExcludedText(ws: seq<string>, matched: seq<string>): string
  {
    Join(Filter(ws, y => y !in matched), " ")
  }

  /** comparative_separation, as written: the words of `text` that agree position by
      position with `against`, and the rest, which becomes `None` when it is one character
      long. Reading `comparative_list[x_idx]` past its end raises `IndexError`. */
  function ComparativeSeparation(text: string, against: string): (r: Result<(string, Option<string>)>)
    ensures r.Failure? <==> |Words(text)| > |Words(against)|
    ensures r.Failure? ==> r.error == IndexError
    ensures r.Success? && r.value.1.Some? ==> |r.value.1.value| != 1
    ensures r.Success? && (forall w :: w in Words(text) ==> w in MatchedWords(Words(text), Words(against)))
      ==> r.value.1 == Some("")
  {
    var ws, cs := Words(text), Words(against);
    if |ws| > |cs| then Failure(IndexError)
    else
      var matched := MatchedWords(ws, cs);
      var excluded := ExcludedText(ws, matched);
      RestEmptyIffAllMatched(ws, matched);
      Success((Join(matched, " "), if |excluded| == 1 then None else Some(excluded)))
  }

  /** comparative_separation with the evident intent: the rest is `None` when it is empty. */
  function ComparativeSeparationIntended(text: string, against: string): (r: Result<(string, Option<string>)>)
    ensures r.Failure? <==> |Words(text)| > |Words(against)|
    ensures r.Failure? ==> r.error == IndexError
    ensures r.Success? ==>
      (r.value.1.None? <==> forall w :: w in Words(text) ==> w in MatchedWords(Words(text), Words(against)))
    ensures r.Success? && r.value.1.Some? ==> r.value.1.value != ""
  {
    var ws, cs := Words(text), Words(against);
    if |ws| > |cs| then Failure(IndexError)
    else
      var matched := MatchedWords(ws, cs);
      var excluded := ExcludedText(ws, matched);
      RestEmptyIffAllMatched(ws, matched);
      Success((Join(matched, " "), if |excluded| == 0 then None else Some(excluded)))
  }

  /** Nothing is left out exactly when every word of the text is among the matched words. */
  lemma RestEmptyIffAllMatched(ws: seq<string>, matched: seq<string>)
    requires forall w :: w in ws ==> IsWord(w)
    ensures ExcludedText(ws, matched) == "" <==> forall w :: w in ws ==> w in matched
  {
    var rest := Filter(ws, y => y !in matched);
    forall w | w in rest
      ensures IsWord(w) && w in ws && w !in matched
    {
      FilterMembers(ws, y => y !in matched, w);
    }
    JoinOfWordsEmpty(rest);
    if forall w :: w in ws ==> w in matched {
      NothingExcluded(ws, matched);
    } else {
      var w :| w in ws && w !in matched;
      FilterMembers(ws, y => y !in matched, w);
    }
  }

  /** The matched words are the words of `text` that agree with `against` at their
      position, in order: each matched word agrees somewhere, and every agreeing word is
      matched. */
  lemma {:induction false} MatchedWordsAgree(ws: seq<string>, cs: seq<string>)
    requires |ws| <= |cs|
    ensures IsSubsequence(MatchedWords(ws, cs), ws)
    ensures forall w :: w in MatchedWords(ws, cs) ==> exists i :: 0 <= i < |ws| && ws[i] == w && cs[i] == w
    ensures forall i :: 0 <= i < |ws| && ws[i] == cs[i] ==> ws[i] in MatchedWords(ws, cs)
  {
    if ws != [] {
      MatchedWordsAgree(ws[1..], cs[1..]);
      var rest := MatchedWords(ws[1..], cs[1..]);
      if ws[0] == cs[0] {
        assert MatchedWords(ws, cs) == [ws[0]] + rest;
      } else {
        assert MatchedWords(ws, cs) == rest;
        Seqs.SubsequenceOfTail(rest, ws);
      }
      forall w | w in rest
        ensures exists i :: 0 <= i < |ws| && ws[i] == w && cs[i] == w
      {
        var i :| 0 <= i < |ws[1..]| && ws[1..][i] == w && cs[1..][i] == w;
        assert ws[i + 1] == w && cs[i + 1] == w;
      }
      forall i | 0 < i < |ws| && ws[i] == cs[i]
        ensures ws[i] in MatchedWords(ws, cs)
      {
        assert ws[1..][i - 1] == ws[i] && cs[1..][i - 1] == cs[i];
      }
    }
  }

  /** Matched words are words. */
  lemma {:induction false} MatchedWordsAreWords(ws: seq<string>, cs: seq<string>)
    requires |ws| <= |cs| && forall w :: w in ws ==> IsWord(w)
    ensures forall w :: w in MatchedWords(ws, cs) ==> IsWord(w)
  {
    if ws != [] {
      MatchedWordsAreWords(ws[1..], cs[1..]);
    }
  }

  /** Comparing a text with itself matches every word. */
  lemma {:induction false} MatchedWordsSelf(ws: seq<string>)
    ensures MatchedWords(ws, ws) == ws
  {
    if ws != [] {
      MatchedWordsSelf(ws[1..]);
    }
  }

  /** Separation fails exactly when `text` has more words than `against`; otherwise the
      first part splits back into the matched words, every word is matched or excluded, and
      a rest that is kept splits back into exactly the words of `text` that were not
      matched, in order. */
  lemma SeparationParts(text: string, against: string)
    ensures ComparativeSeparation(text, against).Failure? <==> |Words(text)| > |Words(against)|
    ensures ComparativeSeparation(text, against).Success? ==>
      var ws := Words(text);
      var matched := MatchedWords(ws, Words(against));
      && Words(ComparativeSeparation(text, against).value.0) == matched
      && forall w :: w in ws ==> w in matched || w in Words(ExcludedText(ws, matched))
    ensures ComparativeSeparation(text, against).Success? && ComparativeSeparation(text, against).value.1.Some? ==>
      var ws := Words(text);
      var matched := MatchedWords(ws, Words(against));
      var rest := Words(ComparativeSeparation(text, against).value.1.value);
      && rest == Filter(ws, y => y !in matched)
      && forall w :: w in rest <==> w in ws && w !in matched
  {
    var ws, cs := Words(text), Words(against);
    if |ws| <= |cs| {
      var matched := MatchedWords(ws, cs);
      MatchedWordsAreWords(ws, cs);
      WordsOfJoin(matched);
      var rest := Filter(ws, y => y !in matched);
      forall w | w in rest
        ensures IsWord(w)
      {
        FilterMembers(ws, y => y !in matched, w);
      }
      WordsOfJoin(rest);
      forall w
        ensures w in rest <==> w in ws && w !in matched
      {
        FilterMembers(ws, y => y !in matched, w);
      }
    }
  }

  /** As written, a text compared with itself leaves nothing out, yet the rest comes back as
      the empty string rather than `None`. */
  lemma SeparationOfItselfKeepsEmptyRest(text: string)
    ensures ComparativeSeparation(text, text) == Success((Join(Words(text), " "), Some("")))
  {
    var ws := Words(text);
    MatchedWordsSelf(ws);
    NothingExcluded(ws, ws);
  }

  /** As written, a single excluded one-letter word is dropped: `"Q x"` against `"Q y"`
      gives `None` for the rest although `"x"` was left out. */
  lemma SeparationDropsOneLetterRest()
    ensures ComparativeSeparation("Q x", "Q y") == Success(("Q", None))
  {
    TwoLetterWords('Q', 'x');
    TwoLetterWords('Q', 'y');
    assert MatchedWords(["Q", "x"], ["Q", "y"]) == ["Q"];
    assert Filter(["Q", "x"], y => y !in ["Q"]) == ["x"];
  }

  /** Two non-space characters around a space are two one-letter words. */
  lemma TwoLetterWords(a: char, b: char)
    requires !IsSpace(a) && !IsSpace(b)
    ensures Words([a, ' ', b]) == [[a], [b]]
  {
    var s := [a, ' ', b];
    assert WordLength([b]) == 1 by {
      assert [b][1..] == [];
    }
    assert Words([b]) == [[b]] by {
      assert [b][..1] == [b] && [b][1..] == [];
    }
    assert WordLength(s) == 1 by {
      assert s[1..] == [' ', b];
    }
    assert s[..1] == [a] && s[1..] == [' ', b] && [' ', b][1..] == [b];
  }

  /** When every word is matched, the rest is the empty string. */
  lemma {:induction false} NothingExcluded(ws: seq<string>, matched: seq<string>)
    requires forall w :: w in ws ==> w in matched
    ensures ExcludedText(ws, matched) == ""
  {
    FilterNone(ws, y => y !in matched);
  }
}
