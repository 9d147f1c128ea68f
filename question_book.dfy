/** The dictionaries of excel_handler/excel_splitter.py that collect one entry per
    question: the merge step of split_excel and data_cleanup. */
module QuestionBook {
  import opened Wrappers
  import opened SurveySheet
  import opened Frames

  /** `{'frame': ..., 'sample': ...}`. */
  datatype Entry = Entry(frame: Frame, sample: seq<Cell>)

  /** A Python dictionary keyed by question text: its items in insertion order. */
  type Book = seq<(string, Entry)>

  /** The keys of a dictionary, in insertion order. */
  function Keys(b: Book): seq<string>
  {
    seq(|b|, i requires 0 <= i < |b| => b[i].0)
  }

  /** No key appears twice. */
  ghost predicate DistinctKeys(b: Book)
  {
    forall i, j :: 0 <= i < j < |b| ==> b[i].0 != b[j].0
  }

  /** `d.get(q)`. */
  function Lookup(b: Book, q: string): (r: Option<Entry>)
    ensures r.Some? <==> q in Keys(b)
    ensures r.Some? ==> (q, r.value) in b
  {
    if b == [] then None
    else if b[0].0 == q then
      assert Keys(b)[0] == q;
      Some(b[0].1)
    else
      assert Keys(b) == [b[0].0] + Keys(b[1..]);
      Lookup(b[1..], q)
  }

  /** `d[q] = e`: the value is replaced where the key already stands, or the item is
      appended. */
  function Put(b: Book, q: string, e: Entry): Book
  {
    if b == [] then [(q, e)]
    else if b[0].0 == q then [(q, e)] + b[1..]
    else [b[0]] + Put(b[1..], q, e)
  }

  /** After `d[q] = e`, `d[q]` is `e` and every other key keeps its value. */
  lemma {:induction false} PutLookup(b: Book, q: string, e: Entry, k: string)
    ensures Lookup(Put(b, q, e), k) == if k == q then Some(e) else Lookup(b, k)
  {
    if b != [] && b[0].0 != q {
      PutLookup(b[1..], q, e, k);
    }
  }

  /** `d[q] = e` changes the value at `q` only. */
  lemma PutLookupAll(b: Book, q: string, e: Entry)
    ensures Lookup(Put(b, q, e), q) == Some(e)
    ensures forall k :: k != q ==> Lookup(Put(b, q, e), k) == Lookup(b, k)
  {
    PutLookup(b, q, e, q);
    forall k | k != q
      ensures Lookup(Put(b, q, e), k) == Lookup(b, k)
    {
      PutLookup(b, q, e, k);
    }
  }

  /** `d[q] = e` keeps the order of the keys, adding `q` at the end when it is new. */
  lemma {:induction false} PutKeys(b: Book, q: string, e: Entry)
    ensures Keys(Put(b, q, e)) == if q in Keys(b) then Keys(b) else Keys(b) + [q]
  {
    if b != [] {
      assert Keys(b) == [b[0].0] + Keys(b[1..]);
      if b[0].0 != q {
        PutKeys(b[1..], q, e);
        assert Keys(Put(b, q, e)) == [b[0].0] + Keys(Put(b[1..], q, e));
      } else {
        assert Keys(Put(b, q, e)) == [q] + Keys(b[1..]);
      }
    }
  }

  /** A dictionary never holds a key twice. */
  lemma PutDistinct(b: Book, q: string, e: Entry)
    requires DistinctKeys(b)
    ensures DistinctKeys(Put(b, q, e))
  {
    PutKeys(b, q, e);
    var r := Put(b, q, e);
    forall i, j | 0 <= i < j < |r|
      ensures r[i].0 != r[j].0
    {
      assert Keys(r)[i] == r[i].0 && Keys(r)[j] == r[j].0;
      assert Keys(b)[..] == Keys(b);
    }
  }

  // ---------------------------------------------------------------------------
  // The merge step of split_excel

  /** The cleaned frame of one question block, with the sample row of its sheet. */
  datatype Section = Section(question: string, frame: Frame, sample: seq<Cell>)

  /** The frame of a question already present grows by the new block's rows and keeps its
      sample; a new question starts with the block and the sheet's sample. */
  function Merge(b: Book, s: Section): (r: Book)
    ensures Lookup(b, s.question).Some? ==>
      Lookup(r, s.question) == Some(Entry(Lookup(b, s.question).value.frame + s.frame, Lookup(b, s.question).value.sample))
    ensures Lookup(b, s.question).None? ==> Lookup(r, s.question) == Some(Entry(s.frame, s.sample))
    ensures forall k :: k != s.question ==> Lookup(r, k) == Lookup(b, k)
    ensures Keys(r) == if s.question in Keys(b) then Keys(b) else Keys(b) + [s.question]
  {
    var e := match Lookup(b, s.question)
      case Some(e) => Entry(e.frame + s.frame, e.sample)
      case None => Entry(s.frame, s.sample);
    PutLookupAll(b, s.question, e);
    PutKeys(b, s.question, e);
    Put(b, s.question, e)
  }

  /** The questions of a run of sections, in order. */
  function Questions(ss: seq<Section>): (qs: seq<string>)
    ensures |qs| == |ss| && forall i :: 0 <= i < |ss| ==> qs[i] == ss[i].question
  {
    seq(|ss|, i requires 0 <= i < |ss| => ss[i].question)
  }

  /** Every block's question is a key of the merged dictionary, the keys already present
      keep their order at the front, and nothing else is added or changed. */
  function MergeAll(b: Book, ss: seq<Section>): (r: Book)
    ensures Keys(b) <= Keys(r)
    ensures forall q :: q in Questions(ss) ==> q in Keys(r)
    ensures forall k :: k in Keys(r) ==> k in Keys(b) || k in Questions(ss)
    ensures forall k :: k !in Questions(ss) ==> Lookup(r, k) == Lookup(b, k)
  {
    if ss == [] then b
    else
      var init, s := ss[..|ss| - 1], ss[|ss| - 1];
      assert Questions(ss) == Questions(init) + [s.question];
      MergeAllStep(b, MergeAll(b, init), Questions(init), s);
      Merge(MergeAll(b, init), s)
  }

  /** One more merge keeps the facts `MergeAll` promises, with one more question. */
  lemma MergeAllStep(b: Book, cur: Book, qs: seq<string>, s: Section)
    requires Keys(b) <= Keys(cur)
    requires forall q :: q in qs ==> q in Keys(cur)
    requires forall k :: k in Keys(cur) ==> k in Keys(b) || k in qs
    requires forall k :: k !in qs ==> Lookup(cur, k) == Lookup(b, k)
    ensures Keys(b) <= Keys(Merge(cur, s))
    ensures forall q :: q in qs + [s.question] ==> q in Keys(Merge(cur, s))
    ensures forall k :: k in Keys(Merge(cur, s)) ==> k in Keys(b) || k in qs + [s.question]
    ensures forall k :: k !in qs + [s.question] ==> Lookup(Merge(cur, s), k) == Lookup(b, k)
  {
    var r := Merge(cur, s);
    var keys := Keys(r);
    assert keys == if s.question in Keys(cur) then Keys(cur) else Keys(cur) + [s.question];
    assert Keys(cur) <= keys;
    forall q | q in qs + [s.question]
      ensures q in keys
    {
      if q != s.question {
        assert q in qs;
        assert q in Keys(cur);
      }
    }
    forall k | k in keys
      ensures k in Keys(b) || k in qs + [s.question]
    {
      if k != s.question {
        assert k in Keys(cur);
      }
    }
    forall k | k !in qs + [s.question]
      ensures Lookup(r, k) == Lookup(b, k)
    {
      assert k != s.question && k !in qs;
    }
  }

  /** Merging two runs of sections is merging their concatenation. */
  lemma {:induction false} MergeAllAppend(b: Book, xs: seq<Section>, ys: seq<Section>)
    ensures MergeAll(b, xs + ys) == MergeAll(MergeAll(b, xs), ys)
  {
    if ys == [] {
      assert xs + ys == xs;
    } else {
      assert (xs + ys)[..|xs + ys| - 1] == xs + ys[..|ys| - 1];
      MergeAllAppend(b, xs, ys[..|ys| - 1]);
    }
  }

  /** The rows of all sections about `q`, in order. */
  function FramesFor(ss: seq<Section>, q: string): Frame
  {
    if ss == [] then []
    else FramesFor(ss[..|ss| - 1], q) + (if ss[|ss| - 1].question == q then ss[|ss| - 1].frame else [])
  }

  /** The sample of the first section about `q`. */
  function FirstSampleFor(ss: seq<Section>, q: string): Option<seq<Cell>>
  {
    if ss == [] then None
    else match FirstSampleFor(ss[..|ss| - 1], q)
      case Some(sample) => Some(sample)
      case None => if ss[|ss| - 1].question == q then Some(ss[|ss| - 1].sample) else None
  }

  /** After merging every block, each question holds the rows of all its blocks in order
      and the sample of its first block; questions without a block are absent. */
  lemma {:induction false} MergedEntries(ss: seq<Section>, q: string)
    ensures Lookup(MergeAll([], ss), q) ==
      match FirstSampleFor(ss, q)
      case None => None
      case Some(sample) => Some(Entry(FramesFor(ss, q), sample))
  {
    if ss != [] {
      var init, s := ss[..|ss| - 1], ss[|ss| - 1];
      MergedEntries(init, q);
      var b := MergeAll([], init);
      assert MergeAll([], ss) == Merge(b, s);
      if q != s.question {
        assert FramesFor(ss, q) == FramesFor(init, q) + [] == FramesFor(init, q);
        assert FirstSampleFor(ss, q) == FirstSampleFor(init, q);
      }
      match Lookup(b, s.question)
      case Some(e) =>
        PutLookup(b, s.question, Entry(e.frame + s.frame, e.sample), q);
        if q == s.question {
          assert FirstSampleFor(init, q).Some?;
          var sample := FirstSampleFor(init, q).value;
          assert e == Entry(FramesFor(init, q), sample);
          assert FramesFor(ss, q) == FramesFor(init, q) + s.frame;
          assert FirstSampleFor(ss, q) == Some(sample);
          assert Lookup(MergeAll([], ss), q) == Some(Entry(FramesFor(ss, q), sample));
        }
      case None =>
        PutLookup(b, s.question, Entry(s.frame, s.sample), q);
        if q == s.question {
          NoSectionNoFrames(init, q);
          assert FirstSampleFor(ss, q) == Some(s.sample);
          assert FramesFor(ss, q) == [] + s.frame == s.frame;
        }
    }
  }

  /** Without a section about `q` there are no rows for it. */
  lemma {:induction false} NoSectionNoFrames(ss: seq<Section>, q: string)
    requires FirstSampleFor(ss, q).None?
    ensures FramesFor(ss, q) == []
  {
    if ss != [] {
      NoSectionNoFrames(ss[..|ss| - 1], q);
    }
  }

  /** Merging keeps one entry per question. */
  lemma {:induction false} MergedDistinct(ss: seq<Section>)
    ensures DistinctKeys(MergeAll([], ss))
  {
    if ss != [] {
      var init, s := ss[..|ss| - 1], ss[|ss| - 1];
      MergedDistinct(init);
      var b := MergeAll([], init);
      match Lookup(b, s.question)
      case Some(e) =>
        PutDistinct(b, s.question, Entry(e.frame + s.frame, e.sample));
      case None =>
        PutDistinct(b, s.question, Entry(s.frame, s.sample));
    }
  }

  // ---------------------------------------------------------------------------
  // data_cleanup

  /** Where one entry lands: under the question its frame's labels share, when scrubbing
      finds one, else under its own question. A label that is not a string makes scrubbing
      raise `AttributeError`, which is caught: the entry stays as it is. */
  function Cleaned(q: string, e: Entry): Result<(string, Entry)>
  {
    match ScrubbedIntended(e.frame)
    case Failure(err) => if err == AttributeError then Success((q, e)) else Failure(err)
    case Success((f, newQ)) => Success((if newQ.Some? then newQ.value else q, Entry(f, e.sample)))
  }

  /** The cleanup of every entry in key order, stopping at the first failure. */
  function CleanedBook(b: Book): Result<Book>
  {
    if b == [] then Success([])
    else match CleanedBook(b[..|b| - 1])
      case Failure(err) => Failure(err)
      case Success(t) =>
        match Cleaned(b[|b| - 1].0, b[|b| - 1].1)
        case Failure(err) => Failure(err)
        case Success((k, e)) => Success(Put(t, k, e))
  }

  /** data_cleanup: rebuilds the dictionary entry by entry. */
  method DataCleanup(dataDict: Book) returns (r: Result<Book>)
    ensures r == CleanedBook(dataDict)
  {
    var tempSheets: Book := [];
    for k := 0 to |dataDict|
      invariant CleanedBook(dataDict[..k]) == Success(tempSheets)
    {
      assert dataDict[..k + 1][..k] == dataDict[..k];
      var (question, info) := dataDict[k];
      var scrubbed := DfQuestionScrubberIntended(info.frame);
      var newQ: Option<string>;
      if scrubbed.Failure? {
        if scrubbed.error != AttributeError {
          CleanedBookStopsAtFailure(dataDict, k + 1);
          return Failure(scrubbed.error);
        }
        newQ := None;
      } else {
        info := Entry(scrubbed.value.0, info.sample);
        newQ := scrubbed.value.1;
      }
      if newQ.None? {
        tempSheets := Put(tempSheets, question, info);
      } else {
        tempSheets := Put(tempSheets, newQ.value, info);
      }
    }
    assert dataDict[..|dataDict|] == dataDict;
    r := Success(tempSheets);
  }

  /** An exception ends data_cleanup: a failing prefix fails the whole dictionary. */
  lemma {:induction false} CleanedBookStopsAtFailure(b: Book, k: nat)
    requires k <= |b| && CleanedBook(b[..k]).Failure?
    ensures CleanedBook(b) == CleanedBook(b[..k])
    decreases |b| - k
  {
    if k < |b| {
      assert b[..k + 1][..k] == b[..k];
      CleanedBookStopsAtFailure(b, k + 1);
    } else {
      assert b[..k] == b;
    }
  }

  /** The cleaned entry that lands last under `k`, if any. */
  function LastLanding(b: Book, k: string): Option<Entry>
  {
    if b == [] then None
    else
      var c := Cleaned(b[|b| - 1].0, b[|b| - 1].1);
      if c.Success? && c.value.0 == k then Some(c.value.1) else LastLanding(b[..|b| - 1], k)
  }

  /** Some entry of `b` has an empty frame. */
  ghost predicate HasEmptyFrame(b: Book)
  {
    exists i :: 0 <= i < |b| && b[i].1.frame == []
  }

  /** A dictionary has an empty frame exactly when its earlier entries have one or its last
      entry is one. */
  lemma HasEmptyFrameSnoc(b: Book)
    requires b != []
    ensures HasEmptyFrame(b) <==> HasEmptyFrame(b[..|b| - 1]) || b[|b| - 1].1.frame == []
  {
    var init := b[..|b| - 1];
    if HasEmptyFrame(init) {
      var i :| 0 <= i < |init| && init[i].1.frame == [];
      assert b[i] == init[i];
    }
    if HasEmptyFrame(b) {
      var i :| 0 <= i < |b| && b[i].1.frame == [];
      if i < |init| {
        assert b[i] == init[i];
      }
    }
  }

  /** Cleaning one entry fails exactly on an empty frame, with `IndexError`. */
  lemma CleanedFailure(q: string, e: Entry)
    ensures Cleaned(q, e).Failure? <==> e.frame == []
    ensures Cleaned(q, e).Failure? ==> Cleaned(q, e).error == IndexError
  {
    ScrubbedFailure(e.frame);
  }

  /** data_cleanup fails exactly when some frame is empty (`IndexError`, which it does not
      catch). */
  lemma {:induction false} CleanedBookFailure(b: Book)
    ensures CleanedBook(b).Failure? <==> HasEmptyFrame(b)
    ensures CleanedBook(b).Failure? ==> CleanedBook(b).error == IndexError
  {
    if b != [] {
      CleanedBookFailure(b[..|b| - 1]);
      HasEmptyFrameSnoc(b);
      CleanedFailure(b[|b| - 1].0, b[|b| - 1].1);
    }
  }

  /** When two entries land on the same question, the later one wins; every other entry
      can be found under the question it lands on. */
  lemma {:induction false} CleanedBookLookup(b: Book, k: string)
    requires CleanedBook(b).Success?
    ensures Lookup(CleanedBook(b).value, k) == LastLanding(b, k)
  {
    if b != [] {
      var init := b[..|b| - 1];
      CleanedBookLookup(init, k);
      var c := Cleaned(b[|b| - 1].0, b[|b| - 1].1);
      PutLookup(CleanedBook(init).value, c.value.0, c.value.1, k);
    }
  }

  /** The cleaned dictionary holds each question once. */
  lemma {:induction false} CleanedBookDistinct(b: Book)
    requires CleanedBook(b).Success?
    ensures DistinctKeys(CleanedBook(b).value)
  {
    if b != [] {
      var init := b[..|b| - 1];
      CleanedBookDistinct(init);
      var c := Cleaned(b[|b| - 1].0, b[|b| - 1].1);
      PutDistinct(CleanedBook(init).value, c.value.0, c.value.1);
    }
  }
}
