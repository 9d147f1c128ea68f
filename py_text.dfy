/** The Python `str` operations the splitter relies on, over `seq<char>`:
    `s.split()`, `s.split(sep)`, `s.replace(old, new)`, `s.strip()` and `sep.join(parts)`. */
module PyText {

  /** The characters for which Python's `str.isspace()` holds. */
  predicate IsSpace(c: char)
  {
    || c == ' '
    || ('\t' <= c <= '\r')
    || ('\U{1C}' <= c <= '\U{1F}')
    || c == '\U{85}' || c == '\U{A0}' || c == '\U{1680}'
    || ('\U{2000}' <= c <= '\U{200A}')
    || c == '\U{2028}' || c == '\U{2029}' || c == '\U{202F}' || c == '\U{205F}' || c == '\U{3000}'
  }

  /** Every character of `s` is whitespace. */
  ghost predicate AllSpace(s: string)
  {
    forall i :: 0 <= i < |s| ==> IsSpace(s[i])
  }

  /** A word of `s.split()`: non-empty and free of whitespace. */
  ghost predicate IsWord(w: string)
  {
    w != [] && forall i :: 0 <= i < |w| ==> !IsSpace(w[i])
  }

  /** No whitespace at either end, as `s.strip()` leaves it. */
  ghost predicate IsTrimmed(s: string)
  {
    s == [] || (!IsSpace(s[0]) && !IsSpace(s[|s| - 1]))
  }

  // ---------------------------------------------------------------------------
  // Occurrences of a separator

  predicate IsAt(s: string, sep: string, i: int)
  {
    0 <= i && i + |sep| <= |s| && s[i..i + |sep|] == sep
  }

  /** `sep` occurs somewhere in `s`. */
  ghost predicate Occurs(s: string, sep: string)
  {
    exists i :: IsAt(s, sep, i)
  }

  /** `s.find(sep)`: the leftmost position of `sep` in `s`, or -1. */
  function Find(s: string, sep: string): (k: int)
    requires sep != []
    ensures -1 <= k <= |s|
    ensures k >= 0 ==> IsAt(s, sep, k) && forall j :: 0 <= j < k ==> !IsAt(s, sep, j)
    ensures k < 0 ==> !Occurs(s, sep)
    decreases |s|
  {
    if |s| < |sep| then -1
    else if s[..|sep|] == sep then 0
    else
      var k := Find(s[1..], sep);
      assert forall j :: 1 <= j ==> (IsAt(s, sep, j) <==> IsAt(s[1..], sep, j - 1));
      if k < 0 then -1 else k + 1
  }

  // ---------------------------------------------------------------------------
  // split, replace, join

  /** `s.split(sep)`: the pieces between the leftmost non-overlapping occurrences of `sep`. */
  function Split(s: string, sep: string): (parts: seq<string>)
    requires sep != []
    ensures |parts| >= 1
    decreases |s|
  {
    var k := Find(s, sep);
    if k < 0 then [s] else [s[..k]] + Split(s[k + |sep|..], sep)
  }

  /** `sep.join(parts)`. */
  function Join(parts: seq<string>, sep: string): string
  {
    if parts == [] then []
    else if |parts| == 1 then parts[0]
    else parts[0] + sep + Join(parts[1..], sep)
  }

  /** `s.replace(old, new)`: every leftmost non-overlapping occurrence of `pat` becomes `repl`. */
  function Replace(s: string, pat: string, repl: string): string
    requires pat != []
    decreases |s|
  {
    var k := Find(s, pat);
    if k < 0 then s else s[..k] + repl + Replace(s[k + |pat|..], pat, repl)
  }

  /** Joining the pieces of a split with the same separator gives back the string. */
  lemma {:induction false} JoinSplit(s: string, sep: string)
    requires sep != []
    ensures Join(Split(s, sep), sep) == s
    decreases |s|
  {
    var k := Find(s, sep);
    if k >= 0 {
      var rest := s[k + |sep|..];
      SplitStep(s, sep);
      JoinSplit(rest, sep);
      JoinAround(s, sep, k, Split(rest, sep));
    } else {
      assert Split(s, sep) == [s];
    }
  }

  /** The first piece of a split ends at the first occurrence of the separator. */
  lemma SplitStep(s: string, sep: string)
    requires sep != [] && Find(s, sep) >= 0
    ensures Split(s, sep) == [s[..Find(s, sep)]] + Split(s[Find(s, sep) + |sep|..], sep)
  {
  }

  /** Pieces that join back into the text after an occurrence, behind the text before it,
      join back into the whole string. */
  lemma JoinAround(s: string, sep: string, k: nat, parts: seq<string>)
    requires IsAt(s, sep, k) && parts != [] && Join(parts, sep) == s[k + |sep|..]
    ensures Join([s[..k]] + parts, sep) == s
  {
    JoinCons(s[..k], parts, sep);
    SplitAround(s, sep, k);
  }

  /** An occurrence cuts the string into the text before it, itself and the text after it. */
  lemma SplitAround(s: string, sep: string, k: nat)
    requires IsAt(s, sep, k)
    ensures s == s[..k] + sep + s[k + |sep|..]
  {
    assert s[..k] + s[k..k + |sep|] + s[k + |sep|..] == s;
  }

  /** Joining a piece in front of a non-empty list puts one separator between them. */
  lemma JoinCons(x: string, parts: seq<string>, sep: string)
    requires parts != []
    ensures Join([x] + parts, sep) == x + sep + Join(parts, sep)
  {
    assert ([x] + parts)[1..] == parts;
  }

  /** `s.replace(old, new) == new.join(s.split(old))`. */
  lemma {:induction false} ReplaceIsJoinOfSplit(s: string, pat: string, repl: string)
    requires pat != []
    ensures Replace(s, pat, repl) == Join(Split(s, pat), repl)
    decreases |s|
  {
    var k := Find(s, pat);
    if k >= 0 {
      var rest := s[k + |pat|..];
      calc {
        Replace(s, pat, repl);
        s[..k] + repl + Replace(rest, pat, repl);
        { ReplaceIsJoinOfSplit(rest, pat, repl); }
        s[..k] + repl + Join(Split(rest, pat), repl);
        { JoinCons(s[..k], Split(rest, pat), repl); }
        Join([s[..k]] + Split(rest, pat), repl);
        Join(Split(s, pat), repl);
      }
    }
  }

  /** No piece of a split contains the separator. */
  lemma {:induction false} SplitPiecesFree(s: string, sep: string)
    requires sep != []
    ensures forall p :: p in Split(s, sep) ==> !Occurs(p, sep)
    decreases |s|
  {
    var k := Find(s, sep);
    if k >= 0 {
      SplitPiecesFree(s[k + |sep|..], sep);
      FirstPieceFree(s, sep, k);
    }
  }

  /** The text before the leftmost occurrence holds no occurrence. */
  lemma FirstPieceFree(s: string, sep: string, k: int)
    requires sep != [] && 0 <= k <= |s|
    requires forall j :: 0 <= j < k ==> !IsAt(s, sep, j)
    ensures !Occurs(s[..k], sep)
  {
    forall j | IsAt(s[..k], sep, j)
      ensures false
    {
      assert s[..k][j..j + |sep|] == s[j..j + |sep|];
      assert IsAt(s, sep, j);
    }
  }

  /** A split yields at least two pieces exactly when the separator occurs. */
  lemma SplitHasTwoPieces(s: string, sep: string)
    requires sep != []
    ensures |Split(s, sep)| >= 2 <==> Occurs(s, sep)
  {
  }

  /** A string with no occurrence splits into itself alone. */
  lemma SplitFree(s: string, sep: string)
    requires sep != [] && !Occurs(s, sep)
    ensures Split(s, sep) == [s]
  {
  }

  /** A string with no occurrence of `pat` is left alone by `replace`. */
  lemma ReplaceFree(s: string, pat: string, repl: string)
    requires pat != [] && !Occurs(s, pat)
    ensures Replace(s, pat, repl) == s
  {
  }

  // ---------------------------------------------------------------------------
  // Occurrences across a glued-in separator

  /** No character of `r` appears anywhere in `p`. */
  ghost predicate Disjoint(r: string, p: string)
  {
    forall i, j :: 0 <= i < |r| && 0 <= j < |p| ==> r[i] != p[j]
  }

  /** Part of a string free of `p` is free of `p`. */
  lemma FreeSlice(s: string, p: string, lo: int, hi: int)
    requires 0 <= lo <= hi <= |s| && !Occurs(s, p)
    ensures !Occurs(s[lo..hi], p)
  {
    forall j
      ensures !IsAt(s[lo..hi], p, j)
    {
      if 0 <= j && j + |p| <= hi - lo {
        var w := s[lo..hi][j..j + |p|];
        assert forall t :: 0 <= t < |p| ==> w[t] == s[lo + j + t];
        assert w == s[lo + j..lo + j + |p|];
        assert !IsAt(s, p, lo + j);
      }
    }
  }

  /** Gluing two `p`-free strings with a piece made of characters foreign to `p`
      cannot create an occurrence of `p`. */
  lemma FreeGlue(a: string, r: string, b: string, p: string)
    requires p != [] && r != [] && Disjoint(r, p)
    requires !Occurs(a, p) && !Occurs(b, p)
    ensures !Occurs(a + r + b, p)
  {
    var s := a + r + b;
    forall i
      ensures !IsAt(s, p, i)
    {
      if 0 <= i && i + |p| <= |s| {
        if i + |p| <= |a| {
          assert s[i..i + |p|] == a[i..i + |p|];
          assert !IsAt(a, p, i);
        } else if i >= |a| + |r| {
          var i' := i - |a| - |r|;
          assert s[i..i + |p|] == b[i'..i' + |p|];
          assert !IsAt(b, p, i');
        } else {
          var t := if i < |a| then |a| else i;
          assert s[i..i + |p|][t - i] == r[t - |a|] != p[t - i];
        }
      }
    }
  }

  /** After `replace`, the replaced text no longer occurs, provided the replacement is
      made of characters foreign to it. */
  lemma {:induction false} ReplaceRemoves(s: string, pat: string, repl: string)
    requires pat != [] && repl != [] && Disjoint(repl, pat)
    ensures !Occurs(Replace(s, pat, repl), pat)
    decreases |s|
  {
    var k := Find(s, pat);
    if k >= 0 {
      ReplaceRemoves(s[k + |pat|..], pat, repl);
      FirstPieceFree(s, pat, k);
      FreeGlue(s[..k], repl, Replace(s[k + |pat|..], pat, repl), pat);
    }
  }

  /** `replace` does not create an occurrence of some other text `q` foreign to the
      replacement. */
  lemma {:induction false} ReplaceKeepsFree(s: string, pat: string, repl: string, q: string)
    requires pat != [] && q != [] && repl != [] && Disjoint(repl, q) && !Occurs(s, q)
    ensures !Occurs(Replace(s, pat, repl), q)
    decreases |s|
  {
    var k := Find(s, pat);
    if k >= 0 {
      FreeSlice(s, q, k + |pat|, |s|);
      assert s[k + |pat|..|s|] == s[k + |pat|..];
      ReplaceKeepsFree(s[k + |pat|..], pat, repl, q);
      FreeSlice(s, q, 0, k);
      FreeGlue(s[..k], repl, Replace(s[k + |pat|..], pat, repl), q);
    }
  }

  // ---------------------------------------------------------------------------
  // strip()

  /** The whitespace at the front of `s` ends at this position. */
  function LeadingEnd(s: string, i: nat): (k: nat)
    requires i <= |s|
    ensures i <= k <= |s|
    ensures forall m :: i <= m < k ==> IsSpace(s[m])
    ensures k == |s| || !IsSpace(s[k])
    decreases |s| - i
  {
    if i < |s| && IsSpace(s[i]) then LeadingEnd(s, i + 1) else i
  }

  /** The whitespace at the back of `s[..j]`, not reaching below `lo`, starts at this
      position. */
  function TrailingStart(s: string, lo: nat, j: nat): (k: nat)
    requires lo <= j <= |s|
    ensures lo <= k <= j
    ensures forall m :: k <= m < j ==> IsSpace(s[m])
    ensures k == lo || !IsSpace(s[k - 1])
  {
    if lo < j && IsSpace(s[j - 1]) then TrailingStart(s, lo, j - 1) else j
  }

  /** `r` is `s` with some whitespace taken off each end. */
  ghost predicate StrippedFrom(r: string, s: string)
  {
    exists i, j :: 0 <= i <= j <= |s| && r == s[i..j] && AllSpace(s[..i]) && AllSpace(s[j..])
  }

  /** `s.strip()`: `s` without its leading and trailing whitespace. */
  function Strip(s: string): (r: string)
    ensures IsTrimmed(r)
    ensures StrippedFrom(r, s)
  {
    var i := LeadingEnd(s, 0);
    var j := TrailingStart(s, i, |s|);
    assert AllSpace(s[..i]) && AllSpace(s[j..]);
    s[i..j]
  }

  /** Stripping a trimmed string changes nothing. */
  lemma StripTrimmed(s: string)
    requires IsTrimmed(s)
    ensures Strip(s) == s
  {
  }

  // ---------------------------------------------------------------------------
  // split() on whitespace

  /** The length of the word at the front of `s`. */
  function WordLength(s: string): (n: nat)
    ensures n <= |s|
    ensures forall i :: 0 <= i < n ==> !IsSpace(s[i])
    ensures n < |s| ==> IsSpace(s[n])
  {
    if s == [] || IsSpace(s[0]) then 0 else 1 + WordLength(s[1..])
  }

  /** `s.split()`: the maximal runs of non-whitespace, in order. */
  function Words(s: string): (ws: seq<string>)
    ensures forall w :: w in ws ==> IsWord(w)
    decreases |s|
  {
    if s == [] then []
    else if IsSpace(s[0]) then Words(s[1..])
    else
      var n := WordLength(s);
      [s[..n]] + Words(s[n..])
  }

  /** `' '.join(ws).split() == ws` for a list of words. */
  lemma {:induction false} WordsOfJoin(ws: seq<string>)
    requires forall w :: w in ws ==> IsWord(w)
    ensures Words(Join(ws, " ")) == ws
  {
    if ws != [] {
      var w := ws[0];
      if |ws| == 1 {
        WordAtFront(w, []);
        assert w + [] == w;
      } else {
        var rest := Join(ws[1..], " ");
        WordsOfJoin(ws[1..]);
        assert Join(ws, " ") == w + (" " + rest);
        WordAtFront(w, " " + rest);
        assert (" " + rest)[1..] == rest;
        assert Words(" " + rest) == Words(rest);
      }
    }
  }

  /** The first word of `w + t` is `w` when `t` starts with whitespace or is empty. */
  lemma {:induction false} WordAtFront(w: string, t: string)
    requires IsWord(w) && (t == [] || IsSpace(t[0]))
    ensures Words(w + t) == [w] + Words(t)
  {
    WordLengthOf(w, t);
    assert (w + t)[..|w|] == w;
    assert (w + t)[|w|..] == t;
  }

  /** A word followed by whitespace or nothing is read whole. */
  lemma {:induction false} WordLengthOf(w: string, t: string)
    requires forall i :: 0 <= i < |w| ==> !IsSpace(w[i])
    requires t == [] || IsSpace(t[0])
    ensures WordLength(w + t) == |w|
  {
    if w != [] {
      assert (w + t)[1..] == w[1..] + t;
      WordLengthOf(w[1..], t);
    }
  }

  /** Joining words gives the empty string only when there are no words. */
  lemma JoinOfWordsEmpty(ws: seq<string>)
    requires forall w :: w in ws ==> IsWord(w)
    ensures Join(ws, " ") == [] <==> ws == []
  {
    if ws != [] {
      assert IsWord(ws[0]);
      if |ws| > 1 {
        assert |Join(ws, " ")| >= |ws[0]|;
      }
    }
  }
}
