/** utilities/utility_functions.py: list removal, the truth threshold and outline delimiters. */
module UtilityFunctions {
  import opened Seqs

  // ---------------------------------------------------------------------------
  // remove_items_from_list

  /** One of the `*args` of `remove_items_from_list`: a list, all of whose members are
      removed, or any other value, whose equal copies are removed. */
  datatype Removal<T> = Many(items: seq<T>) | One(item: T)

  /** Does the argument `a` remove the element `x`? */
  predicate Hits<T(==)>(a: Removal<T>, x: T)
  {
    match a
    case Many(items) => x in items
    case One(item) => x == item
  }

  /** The element `x` is removed by none of `args`. */
  predicate Survives<T(==)>(args: seq<Removal<T>>, x: T)
  {
    forall k :: 0 <= k < |args| ==> !Hits(args[k], x)
  }

  /** What the list should become: the elements of `lst` that no argument removes,
      in their original order. */
  function Remaining<T(==)>(lst: seq<T>, args: seq<Removal<T>>): seq<T>
  {
    Filter(lst, x => Survives(args, x))
  }

  /** One step of the loop: `[x for x in lst if x not in arg]` or `[x for x in lst if x != arg]`. */
  function RemoveOne<T(==)>(lst: seq<T>, a: Removal<T>): seq<T>
  {
    Filter(lst, x => !Hits(a, x))
  }

  /** remove_items_from_list(lst, *args): rebinds `lst` once per argument. */
  method RemoveItemsFromList<T(==)>(lst: seq<T>, args: seq<Removal<T>>) returns (r: seq<T>)
    ensures r == Remaining(lst, args)
  {
    r := lst;
    assert Remaining(lst, args[..0]) == lst by {
      FilterAll(lst, x => Survives(args[..0], x));
    }
    for i := 0 to |args|
      invariant r == Remaining(lst, args[..i])
    {
      FilterFilter(lst, x => Survives(args[..i], x), x => !Hits(args[i], x), x => Survives(args[..i + 1], x));
      r := RemoveOne(r, args[i]);
    }
    assert args[..|args|] == args;
  }

  /** A test that everything passes keeps everything. */
  lemma {:induction false} FilterAll<T>(s: seq<T>, p: T -> bool)
    requires forall x :: p(x)
    ensures Filter(s, p) == s
  {
    if s != [] {
      FilterAll(s[1..], p);
    }
  }

  /** The result keeps the order of `lst`: it is a subsequence of it. */
  lemma RemainingIsSubsequence<T>(lst: seq<T>, args: seq<Removal<T>>)
    ensures IsSubsequence(Remaining(lst, args), lst)
  {
    FilterIsSubsequence(lst, x => Survives(args, x));
  }

  /** An element is kept exactly when it is in `lst` and no argument removes it:
      a list argument removes its members, any other argument removes its equals. */
  lemma RemainingMembers<T>(lst: seq<T>, args: seq<Removal<T>>, x: T)
    ensures x in Remaining(lst, args) <==>
      x in lst && forall k :: 0 <= k < |args| ==>
        (if args[k].Many? then x !in args[k].items else x != args[k].item)
  {
    FilterMembers(lst, y => Survives(args, y), x);
  }

  /** Removing the same items a second time changes nothing. */
  lemma RemainingIdempotent<T>(lst: seq<T>, args: seq<Removal<T>>)
    ensures Remaining(Remaining(lst, args), args) == Remaining(lst, args)
  {
    FilterIdempotent(lst, x => Survives(args, x));
  }

  // ---------------------------------------------------------------------------
  // check_against_truth_threshold

  /** `list_of_bools.count(True)`. */
  function CountTrue(bs: seq<bool>): (n: nat)
    ensures n <= |bs|
    ensures n == |bs| <==> forall i :: 0 <= i < |bs| ==> bs[i]
    ensures n == 0 <==> forall i :: 0 <= i < |bs| ==> !bs[i]
  {
    if bs == [] then 0 else (if bs[0] then 1 else 0) + CountTrue(bs[1..])
  }

  /** check_against_truth_threshold: the share of `True` entries reaches `threshold`.
      The quotient is taken exactly (Python divides in floating point); an empty list
      divides by zero, so the caller must supply a non-empty one. */
  function CheckAgainstTruthThreshold(bs: seq<bool>, threshold: real): (r: bool)
    requires |bs| > 0
    ensures threshold <= 0.0 ==> r
    ensures threshold > 1.0 ==> !r
  {
    QuotientBounds(CountTrue(bs) as real, |bs| as real);
    (CountTrue(bs) as real) / (|bs| as real) >= threshold
  }

  /** Reaching a threshold is a comparison of the count of `True` entries with the
      threshold's share of the length, without division. */
  lemma ThresholdByCounting(bs: seq<bool>, threshold: real)
    requires |bs| > 0
    ensures CheckAgainstTruthThreshold(bs, threshold) <==> (CountTrue(bs) as real) >= threshold * (|bs| as real)
  {
    QuotientCompare(CountTrue(bs) as real, |bs| as real, threshold);
  }

  /** Comparing a quotient with `t` is comparing the dividend with `t` times the divisor. */
  lemma QuotientCompare(c: real, n: real, t: real)
    requires n > 0.0
    ensures c / n >= t <==> c >= t * n
  {
    var q := c / n;
    assert q * n == c;
    assert q * n - t * n == (q - t) * n;
  }

  /** A share of a positive whole lies between 0 and 1. */
  lemma QuotientBounds(c: real, n: real)
    requires n > 0.0 && 0.0 <= c <= n
    ensures 0.0 <= c / n <= 1.0
  {
    var q := c / n;
    assert q * n == c;
    assert (1.0 - q) * n == n - c;
  }

  /** Passing is monotone: a list that reaches a threshold reaches every lower one. */
  lemma ThresholdMonotone(bs: seq<bool>, lower: real, higher: real)
    requires |bs| > 0 && lower <= higher
    requires CheckAgainstTruthThreshold(bs, higher)
    ensures CheckAgainstTruthThreshold(bs, lower)
  {
  }

  /** A list of `True` only reaches every threshold up to one; one of `False` only reaches
      no positive threshold. */
  lemma ThresholdExtremes(bs: seq<bool>, threshold: real)
    requires |bs| > 0
    ensures (forall i :: 0 <= i < |bs| ==> bs[i]) && threshold <= 1.0 ==> CheckAgainstTruthThreshold(bs, threshold)
    ensures (forall i :: 0 <= i < |bs| ==> !bs[i]) && threshold > 0.0 ==> !CheckAgainstTruthThreshold(bs, threshold)
  {
    var n := |bs| as real;
    ThresholdByCounting(bs, threshold);
    if threshold <= 1.0 {
      assert threshold * n <= n by {
        assert n - threshold * n == (1.0 - threshold) * n;
      }
    }
    if threshold > 0.0 {
      assert threshold * n > 0.0;
    }
  }

  // ---------------------------------------------------------------------------
  // generate_delimiters

  /** Python's `string.ascii_lowercase`, `string.ascii_uppercase` and `string.ascii_letters`. */
  const AsciiLowercase: string := "abcdefghijklmnopqrstuvwxyz"
  const AsciiUppercase: string := "ABCDEFGHIJKLMNOPQRSTUVWXYZ"
  const AsciiLetters: string := AsciiLowercase + AsciiUppercase

  /** The i-th of `a`..`z` then `A`..`Z`, by character code. */
  function LetterAt(i: nat): char
    requires i < 52
  {
    if i < 26 then ('a' as int + i) as char else ('A' as int + i - 26) as char
  }

  /** One of `a`..`z` or `A`..`Z`. */
  predicate IsAsciiLetter(c: char)
  {
    'a' <= c <= 'z' || 'A' <= c <= 'Z'
  }

  /** generate_delimiters(suffix, *args): `letter + "." + suffix` for every ASCII letter,
      then the extra arguments. */
  function GenerateDelimiters(suffix: string, args: seq<string>): (r: seq<string>)
    ensures |r| == 52 + |args|
    ensures forall i :: 0 <= i < 52 ==> r[i] == [LetterAt(i), '.'] + suffix
    ensures r[52..] == args
  {
    AsciiLettersInOrder();
    seq(|AsciiLetters|, i requires 0 <= i < |AsciiLetters| => [AsciiLetters[i]] + "." + suffix) + args
  }

  /** `string.ascii_letters` is `a`..`z` followed by `A`..`Z`. */
  lemma AsciiLettersInOrder()
    ensures |AsciiLetters| == 52
    ensures forall i :: 0 <= i < 52 ==> AsciiLetters[i] == LetterAt(i)
  {
    assert AsciiLowercase == seq(26, i requires 0 <= i < 26 => ('a' as int + i) as char);
    assert AsciiUppercase == seq(26, i requires 0 <= i < 26 => ('A' as int + i) as char);
  }

  /** The 52 letter delimiters are pairwise different and each is a letter, a period and
      the suffix. */
  lemma DelimitersDistinct(suffix: string, args: seq<string>)
    ensures var r := GenerateDelimiters(suffix, args);
      (forall i, j :: 0 <= i < j < 52 ==> r[i] != r[j]) &&
      (forall i :: 0 <= i < 52 ==> IsAsciiLetter(r[i][0]) && r[i][1..] == "." + suffix)
  {
    var r := GenerateDelimiters(suffix, args);
    forall i, j | 0 <= i < j < 52
      ensures r[i] != r[j]
    {
      assert r[i][0] == LetterAt(i) && r[j][0] == LetterAt(j);
    }
  }
}
