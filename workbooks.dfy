/** excel_handler/excel_splitter.py, move_worksheet: reorders the sheets of an openpyxl
    workbook in place. */
module Workbooks {
  import opened Wrappers

  /** A worksheet, known here by its title; its cells play no part in reordering. */
  datatype Worksheet = Worksheet(title: string)

  /** `lst.index(x)`: the first position of `x`. */
  function IndexOf<T(==)>(lst: seq<T>, x: T): (k: nat)
    requires x in lst
    ensures k < |lst| && lst[k] == x && x !in lst[..k]
  {
    if lst[0] == x then 0
    else
      var k := 1 + IndexOf(lst[1..], x);
      assert lst[..k] == [lst[0]] + lst[1..][..k - 1];
      k
  }

  /** `lst.pop(i)` leaves this behind. */
  function Pop<T>(lst: seq<T>, i: nat): seq<T>
    requires i < |lst|
  {
    lst[..i] + lst[i + 1..]
  }

  /** Where `lst.insert(i, x)` puts `x` in a list of length `n`: a negative `i` counts from
      the end, and positions outside the list are clamped to its ends. */
  function InsertPosition(n: nat, i: int): (p: nat)
    ensures p <= n
    ensures 0 <= i <= n ==> p == i
    ensures i < 0 && 0 <= n + i ==> p == n + i
    ensures n + i < 0 ==> p == 0
    ensures n < i ==> p == n
  {
    if i < 0 then (if i + n < 0 then 0 else i + n)
    else if i > n then n
    else i
  }

  /** `lst.insert(i, x)`. */
  function Insert<T>(lst: seq<T>, i: int, x: T): seq<T>
  {
    var p := InsertPosition(|lst|, i);
    lst[..p] + [x] + lst[p..]
  }

  /** The list with its element at `from` taken out and put back at `to`. */
  function Moved<T>(lst: seq<T>, from: nat, to: int): seq<T>
    requires from < |lst|
  {
    Insert(Pop(lst, from), to, lst[from])
  }

  /** Position `k` of `Moved(lst, from, to)` comes from this position of `lst`, when `to`
      lands at `p`. */
  function Source(from: nat, p: nat, k: nat): nat
  {
    var popped := if k < p then k else if k == p then 0 else k - 1;
    if k == p then from else if popped < from then popped else popped + 1
  }

  /** Every element of the moved list is the element at its source position, and no two
      positions share a source: the move is a bijection on positions. */
  lemma MovedSources<T>(lst: seq<T>, from: nat, to: int)
    requires from < |lst|
    ensures var p := InsertPosition(|lst| - 1, to);
      && |Moved(lst, from, to)| == |lst|
      && (forall k :: 0 <= k < |lst| ==> Source(from, p, k) < |lst| && Moved(lst, from, to)[k] == lst[Source(from, p, k)])
      && (forall k, l :: 0 <= k < l < |lst| ==> Source(from, p, k) != Source(from, p, l))
  {
    var p := InsertPosition(|lst| - 1, to);
    forall k | 0 <= k < |lst|
      ensures Source(from, p, k) < |lst| && Moved(lst, from, to)[k] == lst[Source(from, p, k)]
    {
      MovedAt(lst, from, to, k);
    }
    SourcesDistinct(from, p, |lst|);
  }

  /** Position `k` after the move holds the sheet that stood at its source position. */
  lemma MovedAt<T>(lst: seq<T>, from: nat, to: int, k: nat)
    requires from < |lst| && k < |lst|
    ensures var p := InsertPosition(|lst| - 1, to);
      Source(from, p, k) < |lst| && Moved(lst, from, to)[k] == lst[Source(from, p, k)]
  {
    var popped := Pop(lst, from);
    var p := InsertPosition(|popped|, to);
    var m := Moved(lst, from, to);
    assert m == popped[..p] + [lst[from]] + popped[p..];
    if k < p {
      assert m[k] == popped[k];
    } else if k > p {
      assert m[k] == popped[k - 1];
    }
  }

  /** Different positions after the move come from different positions before it. */
  lemma SourcesDistinct(from: nat, p: nat, n: nat)
    requires from < n && p < n
    ensures forall k, l :: 0 <= k < l < n ==> Source(from, p, k) != Source(from, p, l)
  {
  }

  /** Moving reorders the list and nothing else. */
  lemma MovedIsPermutation<T>(lst: seq<T>, from: nat, to: int)
    requires from < |lst|
    ensures multiset(Moved(lst, from, to)) == multiset(lst)
  {
    var popped := Pop(lst, from);
    var p := InsertPosition(|popped|, to);
    assert popped[..p] + popped[p..] == popped;
    calc {
      multiset(Moved(lst, from, to));
      multiset(popped[..p]) + multiset([lst[from]]) + multiset(popped[p..]);
      multiset(popped) + multiset([lst[from]]);
      multiset(lst[..from]) + multiset(lst[from + 1..]) + multiset([lst[from]]);
      { assert lst == lst[..from] + [lst[from]] + lst[from + 1..]; }
      multiset(lst);
    }
  }

  /** The moved element lands at the clamped position, and the others keep their order:
      taking it out again gives back the list without it. */
  lemma MovedPlacement<T>(lst: seq<T>, from: nat, to: int)
    requires from < |lst|
    ensures var p := InsertPosition(|lst| - 1, to);
      && Moved(lst, from, to)[p] == lst[from]
      && Pop(Moved(lst, from, to), p) == Pop(lst, from)
  {
    var popped := Pop(lst, from);
    var p := InsertPosition(|popped|, to);
    assert Moved(lst, from, to) == popped[..p] + [lst[from]] + popped[p..];
    assert Pop(Moved(lst, from, to), p) == popped[..p] + popped[p..];
    assert popped[..p] + popped[p..] == popped;
  }

  /** The titles are pairwise different, as openpyxl keeps them. */
  ghost predicate DistinctTitles(sheets: seq<Worksheet>)
  {
    forall i, j :: 0 <= i < j < |sheets| ==> sheets[i].title != sheets[j].title
  }

  /** Moving keeps the titles pairwise different. */
  lemma MovedDistinct(sheets: seq<Worksheet>, from: nat, to: int)
    requires from < |sheets| && DistinctTitles(sheets)
    ensures DistinctTitles(Moved(sheets, from, to))
  {
    MovedSources(sheets, from, to);
  }

  /** `0, 1, ..., n - 1`. */
  function Positions(n: nat): (r: seq<nat>)
    ensures |r| == n && forall i :: 0 <= i < n ==> r[i] == i
  {
    seq(n, i => i)
  }

  /** `[lst[i] for i in order]`. */
  function Pick<T>(lst: seq<T>, order: seq<nat>): seq<T>
    requires forall i :: 0 <= i < |order| ==> order[i] < |lst|
  {
    seq(|order|, i requires 0 <= i < |order| => lst[order[i]])
  }

  /** Reordering through the moved list of positions is moving the list itself. */
  lemma PickMoved<T>(lst: seq<T>, from: nat, to: int)
    requires from < |lst|
    ensures var order := Moved(Positions(|lst|), from, to);
      && (forall i :: 0 <= i < |order| ==> order[i] < |lst|)
      && Pick(lst, order) == Moved(lst, from, to)
  {
    MovedSources(Positions(|lst|), from, to);
    MovedSources(lst, from, to);
  }

  /** In a list without repeats, each element's first position is its own position. */
  lemma IndexOfDistinct<T>(names: seq<T>, i: nat)
    requires i < |names|
    requires forall k, l :: 0 <= k < l < |names| ==> names[k] != names[l]
    ensures IndexOf(names, names[i]) == i
  {
  }

  /** With distinct titles, `[names.index(x) for x in names]` lists the positions in order. */
  lemma IdentityOrder<T>(names: seq<T>, order: seq<nat>)
    requires forall k, l :: 0 <= k < l < |names| ==> names[k] != names[l]
    requires |order| == |names| && forall i :: 0 <= i < |names| ==> order[i] == IndexOf(names, names[i])
    ensures order == Positions(|names|)
  {
    forall i | 0 <= i < |names|
      ensures order[i] == i
    {
      IndexOfDistinct(names, i);
    }
  }

  class Workbook {
    var sheets: seq<Worksheet>

    /** `wb.sheetnames`. */
    function SheetNames(): (names: seq<string>)
      reads this
      ensures |names| == |sheets|
      ensures forall i :: 0 <= i < |sheets| ==> names[i] == sheets[i].title
    {
      seq(|sheets|, i requires 0 <= i < |sheets| reads this => sheets[i].title)
    }

    /** No two sheets share a title. */
    ghost predicate Valid()
      reads this
    {
      DistinctTitles(sheets)
    }

    constructor(sheets: seq<Worksheet>)
      requires DistinctTitles(sheets)
      ensures this.sheets == sheets && Valid()
    {
      this.sheets := sheets;
    }

    /** move_worksheet(wb, worksheet_to_move, new_position): `ValueError` when no sheet has
        that title. */
    method MoveWorksheet(worksheetToMove: string, newPosition: int) returns (r: Result<()>)
      requires Valid()
      modifies this
      ensures Valid()
      ensures r.Failure? <==> worksheetToMove !in old(SheetNames())
      ensures r.Failure? ==> r.error == ValueError && sheets == old(sheets)
      ensures r.Success? ==> sheets == Moved(old(sheets), IndexOf(old(SheetNames()), worksheetToMove), newPosition)
    {
      var sheetnames := SheetNames();
      var order: seq<nat> := seq(|sheetnames|, i requires 0 <= i < |sheetnames| => IndexOf(sheetnames, sheetnames[i]));
      if worksheetToMove !in sheetnames {
        return Failure(ValueError);
      }
      var from := IndexOf(sheetnames, worksheetToMove);
      IdentityOrder(sheetnames, order);
      var popped := order[from];
      order := order[..from] + order[from + 1..];
      order := Insert(order, newPosition, popped);
      assert order == Moved(Positions(|sheets|), from, newPosition);
      PickMoved(sheets, from, newPosition);
      MovedDistinct(sheets, from, newPosition);
      sheets := Pick(sheets, order);
      r := Success(());
    }
  }
}
