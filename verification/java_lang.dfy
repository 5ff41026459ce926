/**
  The slice of Java and Apache Commons Lang semantics the gray-routing code
  relies on: nullable strings, caught exceptions, `StringUtils.isEmpty`,
  `StringUtils.isBlank`, `String.equalsIgnoreCase`, `Map.get`,
  `String.split` and `StringUtils.split`.
 */
module JavaLang {

  datatype Option<+T> = None | Some(value: T)

  /** The outcome of a constructor call: an object or the exception it throws. */
  datatype Result<+T, +E> = Success(value: T) | Failure(error: E)

  /** The outcome of a call: the value it returns, or `Threw` when it throws. */
  datatype Try<+T> = Threw | Returned(value: T)

  /** A Java `String` reference; `None` stands for `null`. */
  type JString = Option<string>

  /** `StringUtils.isEmpty`: null or of length zero. */
  predicate IsEmpty(s: JString) {
    s.None? || s.value == ""
  }

  /**
    `Character.isWhitespace` on a UTF-16 unit: the Unicode space, line and
    paragraph separators except the non-breaking ones (U+00A0, U+2007,
    U+202F), plus the ASCII controls U+0009..U+000D and U+001C..U+001F.
   */
  predicate IsWhitespace(c: char) {
    || c == ' '
    || ('\t' <= c <= '\r')
    || ('\U{1C}' <= c <= '\U{1F}')
    || c == '\U{1680}'
    || ('\U{2000}' <= c <= '\U{2006}')
    || ('\U{2008}' <= c <= '\U{200A}')
    || c == '\U{2028}'
    || c == '\U{2029}'
    || c == '\U{205F}'
    || c == '\U{3000}'
  }

  /** `StringUtils.isBlank`: null, empty, or whitespace only. */
  predicate IsBlank(s: JString) {
    s.None? || forall i :: 0 <= i < |s.value| ==> IsWhitespace(s.value[i])
  }

  function LowerAscii(c: char): (l: char)
    ensures 'A' <= c <= 'Z' ==> 'a' <= l <= 'z'
    ensures !('A' <= c <= 'Z') ==> l == c
  {
    if 'A' <= c <= 'Z' then (c as int + 32) as char else c
  }

  /** `String.equalsIgnoreCase` for a non-null argument, with ASCII case folding. */
  predicate EqualsIgnoreCase(a: string, b: string) {
    |a| == |b| && forall i :: 0 <= i < |a| ==> LowerAscii(a[i]) == LowerAscii(b[i])
  }

  /** `Map.get`: null both for an absent key and for a key bound to null. */
  function Get<K>(m: map<K, JString>, k: K): (v: JString)
    ensures v.Some? ==> k in m && m[k] == v
  {
    if k in m then m[k] else None
  }

  /**
    The elements of `xs` that satisfy `p`, in their original order: what a
    Java loop that appends the accepted elements to a fresh list produces.
   */
  function Filter<T(!new)>(xs: seq<T>, p: T -> bool): (r: seq<T>)
    ensures |r| <= |xs|
    ensures forall x :: x in r <==> x in xs && p(x)
    decreases |xs|
  {
    if |xs| == 0 then []
    else
      var init := xs[..|xs| - 1];
      assert forall x :: x in xs <==> x in init || x == xs[|xs| - 1];
      Filter(init, p) + (if p(xs[|xs| - 1]) then [xs[|xs| - 1]] else [])
  }

  /** A predicate no element satisfies keeps nothing. */
  lemma {:induction false} FilterRejectingAll<T(!new)>(xs: seq<T>, p: T -> bool)
    requires forall i :: 0 <= i < |xs| ==> !p(xs[i])
    ensures Filter(xs, p) == []
    decreases |xs|
  {
    if |xs| != 0 {
      FilterRejectingAll(xs[..|xs| - 1], p);
    }
  }

  /** Filtering preserves order: it distributes over concatenation. */
  lemma {:induction false} FilterAppend<T(!new)>(a: seq<T>, b: seq<T>, p: T -> bool)
    ensures Filter(a + b, p) == Filter(a, p) + Filter(b, p)
    decreases |b|
  {
    if |b| == 0 {
      assert a + b == a;
    } else {
      var b' := b[..|b| - 1];
      assert (a + b)[..|a + b| - 1] == a + b';
      FilterAppend(a, b', p);
    }
  }

  /** A one-element sequence is kept exactly when its element is accepted. */
  lemma FilterSingleton<T(!new)>(x: T, p: T -> bool)
    ensures Filter([x], p) == if p(x) then [x] else []
  {
    assert [x][..0] == [];
  }

  /** Some element of `xs` satisfies `p`. */
  predicate AnySatisfies<T>(xs: seq<T>, p: T -> bool) {
    exists i :: 0 <= i < |xs| && p(xs[i])
  }

  /** Some element of `xs` satisfies `p` exactly when one of its prefix or its last element does. */
  lemma ExistsInPrefixOrLast<T>(xs: seq<T>, p: T -> bool)
    requires |xs| > 0
    ensures AnySatisfies(xs, p) <==> AnySatisfies(xs[..|xs| - 1], p) || p(xs[|xs| - 1])
  {
    var init := xs[..|xs| - 1];
    if exists i :: 0 <= i < |xs| && p(xs[i]) {
      var i :| 0 <= i < |xs| && p(xs[i]);
      if i < |init| {
        assert p(init[i]);
      }
    }
    if exists i :: 0 <= i < |init| && p(init[i]) {
      var i :| 0 <= i < |init| && p(init[i]);
      assert p(xs[i]);
    }
  }

  // ---------------------------------------------------------------------
  // Tokenising
  // ---------------------------------------------------------------------

  predicate SepFree(t: string, isSep: char -> bool) {
    forall k :: 0 <= k < |t| ==> !isSep(t[k])
  }

  function SepCount(s: string, isSep: char -> bool): nat
    decreases |s|
  {
    if |s| == 0 then 0 else (if isSep(s[0]) then 1 else 0) + SepCount(s[1..], isSep)
  }

  /**
    The pieces of `s` between separators, keeping empty pieces: one more
    piece than there are separators, none of them holding a separator.
   */
  function Tokens(s: string, isSep: char -> bool): (r: seq<string>)
    ensures |r| == 1 + SepCount(s, isSep)
    ensures forall i :: 0 <= i < |r| ==> SepFree(r[i], isSep)
    decreases |s|
  {
    if |s| == 0 then [""]
    else
      var rest := Tokens(s[1..], isSep);
      if isSep(s[0]) then [""] + rest
      else [[s[0]] + rest[0]] + rest[1..]
  }

  lemma {:induction false} TokensOfSepFree(t: string, isSep: char -> bool)
    requires SepFree(t, isSep)
    ensures Tokens(t, isSep) == [t]
    decreases |t|
  {
    if |t| != 0 {
      assert !isSep(t[0]);
      TokensOfSepFree(t[1..], isSep);
      assert [t[0]] + t[1..] == t;
    }
  }

  lemma {:induction false} TokensAfterPiece(t: string, sep: char, rest: string, isSep: char -> bool)
    requires SepFree(t, isSep) && isSep(sep)
    ensures Tokens(t + [sep] + rest, isSep) == [t] + Tokens(rest, isSep)
    decreases |t|
  {
    var s := t + [sep] + rest;
    if |t| == 0 {
      assert s[1..] == rest;
    } else {
      assert s[1..] == t[1..] + [sep] + rest;
      TokensAfterPiece(t[1..], sep, rest, isSep);
      assert [t[0]] + t[1..] == t;
    }
  }

  /** A character that is not a separator lies in a non-empty piece. */
  lemma {:induction false} NonEmptyTokenAt(s: string, k: nat, isSep: char -> bool) returns (t: string)
    requires k < |s| && !isSep(s[k])
    ensures t in Tokens(s, isSep) && t != ""
    decreases |s|
  {
    var rest := Tokens(s[1..], isSep);
    if !isSep(s[0]) {
      t := [s[0]] + rest[0];
      assert Tokens(s, isSep)[0] == t;
    } else {
      t := NonEmptyTokenAt(s[1..], k - 1, isSep);
      assert Tokens(s, isSep) == [""] + rest;
    }
  }

  /**
    `w` stands in `s` as a whole piece: it holds no separator and is bounded
    on each side by a separator or by an end of `s`.
   */
  ghost predicate OccursAsPiece(s: string, w: string, isSep: char -> bool) {
    && SepFree(w, isSep)
    && exists i, j :: Bounded(s, i, j, isSep) && s[i..j] == w
  }

  /** `s[i..j]` is bounded on each side by a separator or by an end of `s`. */
  predicate Bounded(s: string, i: int, j: int, isSep: char -> bool) {
    0 <= i <= j <= |s| && (i == 0 || isSep(s[i - 1])) && (j == |s| || isSep(s[j]))
  }

  /** The index of the first separator in `s`, or `|s|` when there is none. */
  function FirstSep(s: string, isSep: char -> bool): (p: nat)
    ensures p <= |s| && SepFree(s[..p], isSep)
    ensures p < |s| ==> isSep(s[p])
    decreases |s|
  {
    if |s| == 0 then 0
    else if isSep(s[0]) then 0
    else
      var q := FirstSep(s[1..], isSep);
      assert s[..q + 1] == [s[0]] + s[1..][..q];
      q + 1
  }

  /** `Tokens` peels off the piece before the first separator. */
  lemma {:induction false} TokensUnfold(s: string, isSep: char -> bool)
    ensures var p := FirstSep(s, isSep);
            Tokens(s, isSep) == if p == |s| then [s] else [s[..p]] + Tokens(s[p + 1..], isSep)
  {
    var p := FirstSep(s, isSep);
    if p == |s| {
      assert s[..p] == s;
      TokensOfSepFree(s, isSep);
    } else {
      assert s == s[..p] + [s[p]] + s[p + 1..];
      TokensAfterPiece(s[..p], s[p], s[p + 1..], isSep);
    }
  }

  /** No character before the first separator is a separator. */
  lemma HeadIsSepFree(s: string, isSep: char -> bool)
    ensures forall k :: 0 <= k < FirstSep(s, isSep) ==> !isSep(s[k])
  {
    var p := FirstSep(s, isSep);
    forall k | 0 <= k < p
      ensures !isSep(s[k])
    {
      assert s[..p][k] == s[k];
    }
  }

  /** A piece of `s` starting at index 0 is the head before the first separator. */
  lemma {:induction false} PieceAtStartIsHead(s: string, j: int, isSep: char -> bool)
    requires Bounded(s, 0, j, isSep) && SepFree(s[0..j], isSep)
    ensures s[0..j] == s[..FirstSep(s, isSep)]
  {
    var p := FirstSep(s, isSep);
    HeadIsSepFree(s, isSep);
    forall k | 0 <= k < j
      ensures !isSep(s[k])
    {
      assert s[0..j][k] == s[k];
    }
  }

  /** A piece of `s` starting after index 0 is a piece of what follows the first separator. */
  lemma {:induction false} LaterPieceIsInTail(s: string, i: int, j: int, isSep: char -> bool)
    requires Bounded(s, i, j, isSep) && i > 0
    ensures FirstSep(s, isSep) < |s|
    ensures var p := FirstSep(s, isSep);
            Bounded(s[p + 1..], i - p - 1, j - p - 1, isSep) && s[p + 1..][i - p - 1..j - p - 1] == s[i..j]
  {
    var p := FirstSep(s, isSep);
    HeadIsSepFree(s, isSep);
    var tail := s[p + 1..];
    var i', j' := i - p - 1, j - p - 1;
    assert tail[i'..j'] == s[i..j];
    assert i' > 0 ==> tail[i' - 1] == s[i - 1];
    assert j' < |tail| ==> tail[j'] == s[j];
  }

  /** A piece of `s` is the head before the first separator or a piece of what follows it. */
  lemma {:induction false} PieceIsHeadOrInTail(s: string, w: string, isSep: char -> bool)
    requires OccursAsPiece(s, w, isSep)
    ensures var p := FirstSep(s, isSep);
            w == s[..p] || (p < |s| && OccursAsPiece(s[p + 1..], w, isSep))
  {
    var i, j :| Bounded(s, i, j, isSep) && s[i..j] == w;
    if i == 0 {
      PieceAtStartIsHead(s, j, isSep);
    } else {
      LaterPieceIsInTail(s, i, j, isSep);
    }
  }

  /** The head before the first separator is a piece. */
  lemma {:induction false} HeadIsPiece(s: string, isSep: char -> bool)
    ensures OccursAsPiece(s, s[..FirstSep(s, isSep)], isSep)
  {
    var p := FirstSep(s, isSep);
    assert s[0..p] == s[..p];
    assert Bounded(s, 0, p, isSep);
  }

  /** A piece of what follows the first separator is a piece of `s`. */
  lemma {:induction false} TailPieceIsPiece(s: string, w: string, isSep: char -> bool)
    requires FirstSep(s, isSep) < |s|
    requires OccursAsPiece(s[FirstSep(s, isSep) + 1..], w, isSep)
    ensures OccursAsPiece(s, w, isSep)
  {
    var p := FirstSep(s, isSep);
    var tail := s[p + 1..];
    var i', j' :| Bounded(tail, i', j', isSep) && tail[i'..j'] == w;
    var i, j := i' + p + 1, j' + p + 1;
    assert s[i..j] == tail[i'..j'];
    assert i' > 0 ==> tail[i' - 1] == s[i - 1];
    assert j' < |tail| ==> tail[j'] == s[j];
    assert Bounded(s, i, j, isSep);
  }

  /** A string is a piece of `Tokens(s)` exactly when it stands in `s` as a whole piece. */
  lemma {:induction false} TokensAreThePieces(s: string, w: string, isSep: char -> bool)
    ensures w in Tokens(s, isSep) <==> OccursAsPiece(s, w, isSep)
    decreases |s|
  {
    var p := FirstSep(s, isSep);
    TokensUnfold(s, isSep);
    HeadIsPiece(s, isSep);
    if p < |s| {
      TokensAreThePieces(s[p + 1..], w, isSep);
      if OccursAsPiece(s[p + 1..], w, isSep) {
        TailPieceIsPiece(s, w, isSep);
      }
    } else {
      assert s[..p] == s;
    }
    if OccursAsPiece(s, w, isSep) {
      PieceIsHeadOrInTail(s, w, isSep);
    }
  }

  /** Drops the empty strings at the end of a `String.split` result. */
  function DropTrailingEmpty(ts: seq<string>): (r: seq<string>)
    ensures |r| <= |ts| && r == ts[..|r|]
    ensures |r| > 0 ==> r[|r| - 1] != ""
    ensures forall i :: |r| <= i < |ts| ==> ts[i] == ""
    decreases |ts|
  {
    if |ts| > 0 && ts[|ts| - 1] == "" then DropTrailingEmpty(ts[..|ts| - 1]) else ts
  }

  predicate IsListSeparator(c: char) {
    c == ';' || c == ','
  }

  /**
    `s.split(";|,")`: a string with no match, the empty string included, is
    its own only piece; otherwise the pieces between separators with the
    trailing empty ones removed.
   */
  function SplitListEntries(s: string): (r: seq<string>)
    ensures forall i :: 0 <= i < |r| ==> SepFree(r[i], IsListSeparator)
  {
    if s == "" then [""] else DropTrailingEmpty(Tokens(s, IsListSeparator))
  }

  predicate NonEmptyString(t: string) {
    t != ""
  }

  /**
    `StringUtils.split(s, separatorChars)` for a non-null `s`: the non-empty
    pieces between separators (adjacent separators count as one).
   */
  function SplitDroppingEmpty(s: string, isSep: char -> bool): (r: seq<string>)
    ensures forall i :: 0 <= i < |r| ==> r[i] != "" && SepFree(r[i], isSep)
  {
    var ts := Tokens(s, isSep);
    var r := Filter(ts, NonEmptyString);
    assert forall i :: 0 <= i < |r| ==> r[i] in ts;
    r
  }

  /** A non-empty entry of `s.split(";|,")` is exactly a non-empty piece of `s`. */
  lemma ListEntriesAreThePieces(s: string, w: string)
    requires w != ""
    ensures w in SplitListEntries(s) <==> OccursAsPiece(s, w, IsListSeparator)
  {
    TokensAreThePieces(s, w, IsListSeparator);
    if s != "" {
      var ts := Tokens(s, IsListSeparator);
      var r := DropTrailingEmpty(ts);
      if w in ts {
        var k :| 0 <= k < |ts| && ts[k] == w;
        assert k < |r| && r[k] == w;
      }
    }
  }

  /** The entries of `StringUtils.split(s, …)` are exactly the non-empty pieces of `s`. */
  lemma SplitDroppingEmptyAreThePieces(s: string, w: string, isSep: char -> bool)
    ensures w in SplitDroppingEmpty(s, isSep) <==> w != "" && OccursAsPiece(s, w, isSep)
  {
    TokensAreThePieces(s, w, isSep);
  }

  /** A non-empty, separator-free leading piece comes first in the split, then the rest's pieces. */
  lemma SplitDroppingEmptyAfterPiece(t: string, sep: char, rest: string, isSep: char -> bool)
    requires t != "" && SepFree(t, isSep) && isSep(sep)
    ensures SplitDroppingEmpty(t + [sep] + rest, isSep) == [t] + SplitDroppingEmpty(rest, isSep)
  {
    var tail := Tokens(rest, isSep);
    TokensAfterPiece(t, sep, rest, isSep);
    FilterAppend([t], tail, NonEmptyString);
    FilterSingleton(t, NonEmptyString);
  }
}
