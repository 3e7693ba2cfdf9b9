/**
  The string functions of Go's `strings` package that the scraper relies on:
  `strings.Index`, `strings.Split`, `strings.Join` and `strings.TrimSpace`.
  A Go string is modelled as the sequence of its runes.
 */
module GoStrings {

  /** `unicode.IsSpace`: the Latin-1 spaces plus the Unicode White_Space characters above Latin-1. */
  predicate IsSpace(c: char) {
    || c == '\t' || c == '\n' || c == '\U{000B}' || c == '\U{000C}' || c == '\r' || c == ' '
    || c == '\U{0085}' || c == '\U{00A0}' || c == '\U{1680}'
    || ('\U{2000}' <= c <= '\U{200A}')
    || c == '\U{2028}' || c == '\U{2029}' || c == '\U{202F}' || c == '\U{205F}' || c == '\U{3000}'
  }

  /** Every character of `s` is a space. */
  ghost predicate AllSpace(s: string) {
    forall i :: 0 <= i < |s| ==> IsSpace(s[i])
  }

  /** `sep` occurs in `s` starting at position `i`. */
  ghost predicate OccursAt(s: string, sep: string, i: nat) {
    i + |sep| <= |s| && s[i..i + |sep|] == sep
  }

  /** `strings.Contains`. */
  ghost predicate Contains(s: string, sep: string) {
    exists i: nat :: OccursAt(s, sep, i)
  }

  /** `sep` is non-empty and its first character never recurs in it. Then no proper suffix of
      `sep` is also a prefix of it, so two occurrences of `sep` can never overlap. */
  ghost predicate FirstCharUnique(sep: string) {
    |sep| > 0 && forall m :: 0 < m < |sep| ==> sep[m] != sep[0]
  }

  /** `strings.Index`: the position of the first occurrence of `sep` in `s`, or -1. */
  function IndexOf(s: string, sep: string): (r: int)
    ensures r >= 0 ==> OccursAt(s, sep, r)
    ensures forall j: nat :: OccursAt(s, sep, j) ==> 0 <= r <= j
    ensures r < 0 <==> !Contains(s, sep)
    decreases |s|
  {
    if |s| < |sep| then -1
    else if s[..|sep|] == sep then 0
    else
      var k := IndexOf(s[1..], sep);
      ShiftOccurrence(s, sep);
      if k < 0 then -1 else k + 1
  }

  /** An occurrence in `s` past the first character is an occurrence in `s[1..]`, and back. */
  lemma {:induction false} ShiftOccurrence(s: string, sep: string)
    requires |s| > 0
    ensures forall j: nat :: 1 <= j ==> (OccursAt(s, sep, j) <==> OccursAt(s[1..], sep, j - 1))
  {
    forall j: nat | 1 <= j
      ensures OccursAt(s, sep, j) <==> OccursAt(s[1..], sep, j - 1)
    {
      if j + |sep| <= |s| {
        assert s[1..][j - 1..j - 1 + |sep|] == s[j..j + |sep|];
      }
    }
  }

  /** Go's split of a string around the empty separator: one string per rune. */
  function Explode(s: string): (parts: seq<string>)
    ensures |parts| == |s|
    ensures forall k :: 0 <= k < |parts| ==> parts[k] == [s[k]]
  {
    seq(|s|, k requires 0 <= k < |s| => [s[k]])
  }

  /** `strings.Split(s, sep)`: the pieces of `s` between the non-overlapping occurrences of `sep`,
      found left to right. */
  function Split(s: string, sep: string): seq<string>
    decreases |s|
  {
    if |sep| == 0 then Explode(s)
    else
      var i := IndexOf(s, sep);
      if i < 0 then [s]
      else [s[..i]] + Split(s[i + |sep|..], sep)
  }

  /** A split around a separator that occurs: the text before its first occurrence, then the
      pieces of the text after it. */
  lemma {:induction false} SplitAtFirst(s: string, sep: string)
    requires |sep| > 0 && IndexOf(s, sep) >= 0
    ensures Split(s, sep) == [s[..IndexOf(s, sep)]] + Split(s[IndexOf(s, sep) + |sep|..], sep)
  {
  }

  /** A split around a non-empty separator has a first piece. */
  lemma {:induction false} SplitNonEmpty(s: string, sep: string)
    requires |sep| > 0
    ensures |Split(s, sep)| >= 1
  {
  }

  /** A split has two or more pieces exactly when the separator occurs. */
  lemma {:induction false} SplitInTwoIff(s: string, sep: string)
    requires |sep| > 0
    ensures |Split(s, sep)| >= 2 <==> Contains(s, sep)
  {
    var i := IndexOf(s, sep);
    if i >= 0 {
      SplitAtFirst(s, sep);
      SplitNonEmpty(s[i + |sep|..], sep);
    }
  }

  /** No piece of a split contains the separator. */
  lemma {:induction false} SplitPiecesFree(s: string, sep: string)
    requires |sep| > 0
    ensures forall k :: 0 <= k < |Split(s, sep)| ==> !Contains(Split(s, sep)[k], sep)
    decreases |s|
  {
    var i := IndexOf(s, sep);
    if i >= 0 {
      var rest := s[i + |sep|..];
      SplitPiecesFree(rest, sep);
      PrefixBeforeFirst(s, sep, i);
      SplitAtFirst(s, sep);
      PiecesFreeCons(s[..i], Split(rest, sep), sep);
    }
  }

  lemma {:induction false} PiecesFreeCons(head: string, tail: seq<string>, sep: string)
    requires !Contains(head, sep)
    requires forall k :: 0 <= k < |tail| ==> !Contains(tail[k], sep)
    ensures forall k :: 0 <= k < |[head] + tail| ==> !Contains(([head] + tail)[k], sep)
  {
    forall k | 0 <= k < |[head] + tail|
      ensures !Contains(([head] + tail)[k], sep)
    {
      if k > 0 {
        assert ([head] + tail)[k] == tail[k - 1];
      }
    }
  }

  /** A split yields at least one piece, two or more exactly when the separator occurs, and no
      piece contains the separator. */
  lemma {:induction false} SplitSpec(s: string, sep: string)
    requires |sep| > 0
    ensures |Split(s, sep)| >= 1
    ensures |Split(s, sep)| >= 2 <==> Contains(s, sep)
    ensures forall k :: 0 <= k < |Split(s, sep)| ==> !Contains(Split(s, sep)[k], sep)
  {
    SplitNonEmpty(s, sep);
    SplitInTwoIff(s, sep);
    SplitPiecesFree(s, sep);
  }

  /** The text before the first occurrence of `sep` does not contain `sep`. */
  lemma {:induction false} PrefixBeforeFirst(s: string, sep: string, i: nat)
    requires |sep| > 0
    requires OccursAt(s, sep, i)
    requires forall j: nat :: OccursAt(s, sep, j) ==> i <= j
    ensures !Contains(s[..i], sep)
  {
    if Contains(s[..i], sep) {
      var j: nat :| OccursAt(s[..i], sep, j);
      assert s[..i][j..j + |sep|] == s[j..j + |sep|];
      assert OccursAt(s, sep, j);
    }
  }

  /** `strings.Join(parts, sep)`: the parts in order with `sep` between neighbours. */
  function Join(parts: seq<string>, sep: string): (s: string)
    ensures |parts| == 1 ==> s == parts[0]
  {
    if |parts| == 0 then []
    else if |parts| == 1 then parts[0]
    else parts[0] + sep + Join(parts[1..], sep)
  }

  /** Joining a first part onto a non-empty list of parts puts `sep` after it. */
  lemma {:induction false} JoinCons(head: string, tail: seq<string>, sep: string)
    requires |tail| >= 1
    ensures Join([head] + tail, sep) == head + sep + Join(tail, sep)
  {
    assert ([head] + tail)[1..] == tail;
  }

  /** A string is the text before an occurrence of `sep`, `sep`, and the text after it. */
  lemma {:induction false} AroundOccurrence(s: string, sep: string, i: nat)
    requires OccursAt(s, sep, i)
    ensures s == s[..i] + sep + s[i + |sep|..]
  {
    assert s == s[..i] + s[i..i + |sep|] + s[i + |sep|..];
  }

  /** Joining the pieces of a split gives back the original string. */
  lemma {:induction false} JoinSplit(s: string, sep: string)
    requires |sep| > 0
    ensures Join(Split(s, sep), sep) == s
    decreases |s|
  {
    var i := IndexOf(s, sep);
    if i >= 0 {
      var rest := s[i + |sep|..];
      JoinSplit(rest, sep);
      SplitNonEmpty(rest, sep);
      SplitAtFirst(s, sep);
      JoinCons(s[..i], Split(rest, sep), sep);
      AroundOccurrence(s, sep, i);
    }
  }

  /** When `sep`'s first character is unique and `a` does not contain `sep`, the first occurrence
      of `sep` in `a + sep + b` is the one written right after `a`. */
  lemma {:induction false} FirstOccurrenceAfter(a: string, sep: string, b: string)
    requires FirstCharUnique(sep)
    requires !Contains(a, sep)
    ensures IndexOf(a + sep + b, sep) == |a|
  {
    var s := a + sep + b;
    assert s[|a|..|a| + |sep|] == sep;
    assert OccursAt(s, sep, |a|);
    forall j: nat | j < |a|
      ensures !OccursAt(s, sep, j)
    {
      if j + |sep| <= |a| {
        assert s[j..j + |sep|] == a[j..j + |sep|];
        assert !OccursAt(a, sep, j);
      } else if j + |sep| <= |s| {
        var m := |a| - j;
        assert s[j..j + |sep|][m] == s[|a|] == sep[0] != sep[m];
      }
    }
  }

  /** A string without the separator's first character does not contain the separator. */
  lemma {:induction false} NotContainsWithoutFirst(s: string, sep: string)
    requires |sep| > 0
    requires forall i :: 0 <= i < |s| ==> s[i] != sep[0]
    ensures !Contains(s, sep)
  {
    forall j: nat | j + |sep| <= |s|
      ensures !OccursAt(s, sep, j)
    {
      assert s[j..j + |sep|][0] == s[j];
    }
  }

  /** Splitting `a + sep + b` yields `a` followed by the pieces of `b`, when `a` holds no `sep`. */
  lemma {:induction false} SplitAfterPiece(a: string, sep: string, b: string)
    requires FirstCharUnique(sep)
    requires !Contains(a, sep)
    ensures Split(a + sep + b, sep) == [a] + Split(b, sep)
  {
    var s := a + sep + b;
    FirstOccurrenceAfter(a, sep, b);
    assert s[..|a|] == a;
    assert s[|a| + |sep|..] == b;
  }

  /** A string without `sep` splits into itself alone. */
  lemma {:induction false} SplitWithout(s: string, sep: string)
    requires |sep| > 0
    requires !Contains(s, sep)
    ensures Split(s, sep) == [s]
  {
  }

  /** Splitting a join gives back the parts, when no part contains the separator and the
      separator's first character is unique. */
  lemma {:induction false} SplitJoin(parts: seq<string>, sep: string)
    requires FirstCharUnique(sep)
    requires |parts| >= 1
    requires forall k :: 0 <= k < |parts| ==> !Contains(parts[k], sep)
    ensures Split(Join(parts, sep), sep) == parts
    decreases |parts|
  {
    if |parts| == 1 {
      SplitWithout(parts[0], sep);
    } else {
      SplitJoin(parts[1..], sep);
      SplitAfterPiece(parts[0], sep, Join(parts[1..], sep));
      assert [parts[0]] + parts[1..] == parts;
    }
  }

  /** `strings.TrimLeftFunc(s, unicode.IsSpace)`. */
  function TrimLeft(s: string): string {
    if |s| > 0 && IsSpace(s[0]) then TrimLeft(s[1..]) else s
  }

  /** `strings.TrimRightFunc(s, unicode.IsSpace)`. */
  function TrimRight(s: string): string {
    if |s| > 0 && IsSpace(s[|s| - 1]) then TrimRight(s[..|s| - 1]) else s
  }

  /** `strings.TrimSpace`: `s` without its leading and trailing spaces. */
  function TrimSpace(s: string): string {
    TrimRight(TrimLeft(s))
  }

  /** TrimLeft drops a prefix of spaces and stops at the first non-space. */
  lemma {:induction false} TrimLeftSpec(s: string)
    ensures |TrimLeft(s)| <= |s| && TrimLeft(s) == s[|s| - |TrimLeft(s)|..]
    ensures forall i :: 0 <= i < |s| - |TrimLeft(s)| ==> IsSpace(s[i])
    ensures TrimLeft(s) == [] || !IsSpace(TrimLeft(s)[0])
    decreases |s|
  {
    if |s| > 0 && IsSpace(s[0]) {
      TrimLeftSpec(s[1..]);
    }
  }

  /** TrimRight drops a suffix of spaces and stops at the last non-space. */
  lemma {:induction false} TrimRightSpec(s: string)
    ensures |TrimRight(s)| <= |s| && TrimRight(s) == s[..|TrimRight(s)|]
    ensures forall i :: |TrimRight(s)| <= i < |s| ==> IsSpace(s[i])
    ensures TrimRight(s) == [] || !IsSpace(TrimRight(s)[|TrimRight(s)| - 1])
    decreases |s|
  {
    if |s| > 0 && IsSpace(s[|s| - 1]) {
      TrimRightSpec(s[..|s| - 1]);
    }
  }

  /** TrimSpace keeps a stretch of `s` whose ends are not spaces, and is empty exactly when
      `s` is all spaces. */
  lemma {:induction false} TrimSpaceSpec(s: string)
    ensures |TrimSpace(s)| <= |s|
    ensures TrimSpace(s) == [] || (!IsSpace(TrimSpace(s)[0]) && !IsSpace(TrimSpace(s)[|TrimSpace(s)| - 1]))
    ensures TrimSpace(s) == [] <==> AllSpace(s)
  {
    var l := TrimLeft(s);
    TrimLeftSpec(s);
    TrimRightSpec(l);
    if TrimSpace(s) == [] {
      assert l == [];
    } else {
      assert TrimSpace(s)[0] == l[0];
      assert !IsSpace(s[|s| - |l|]);
    }
  }

  /** TrimSpace removes exactly the surrounding spaces: a string whose ends are not spaces,
      wrapped in spaces, trims back to itself. */
  lemma {:induction false} TrimSpaceOfPadded(lead: string, core: string, trail: string)
    requires AllSpace(lead) && AllSpace(trail)
    requires core == [] || (!IsSpace(core[0]) && !IsSpace(core[|core| - 1]))
    requires core != [] || trail == []
    ensures TrimSpace(lead + core + trail) == core
  {
    var s := lead + core + trail;
    assert forall i :: 0 <= i < |lead| ==> s[i] == lead[i];
    assert core != [] ==> s[|lead|] == core[0];
    var l := TrimLeft(s);
    TrimLeftSpec(s);
    assert l == core + trail;
    TrimRightSpec(l);
    assert forall i :: |core| <= i < |l| ==> l[i] == trail[i - |core|];
    assert core != [] ==> l[|core| - 1] == core[|core| - 1];
  }

  /** A string that neither starts nor ends with a space trims to itself. */
  lemma {:induction false} TrimSpaceUnpadded(s: string)
    requires s == [] || (!IsSpace(s[0]) && !IsSpace(s[|s| - 1]))
    ensures TrimSpace(s) == s
  {
    assert [] + s + [] == s;
    TrimSpaceOfPadded([], s, []);
  }

  /** Each of a list of strings that neither start nor end with a space trims to itself. */
  lemma {:induction false} TrimSpaceUnpaddedAll(ss: seq<string>)
    requires forall k :: 0 <= k < |ss| ==> ss[k] == [] || (!IsSpace(ss[k][0]) && !IsSpace(ss[k][|ss[k]| - 1]))
    ensures forall k :: 0 <= k < |ss| ==> TrimSpace(ss[k]) == ss[k]
  {
    forall k | 0 <= k < |ss| ensures TrimSpace(ss[k]) == ss[k] {
      TrimSpaceUnpadded(ss[k]);
    }
  }

  /** Trimming twice is trimming once. */
  lemma {:induction false} TrimSpaceIdempotent(s: string)
    ensures TrimSpace(TrimSpace(s)) == TrimSpace(s)
  {
    TrimSpaceSpec(s);
    TrimSpaceUnpadded(TrimSpace(s));
  }
}
