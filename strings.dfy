/** The JavaScript string operations the resolver is built from:
    `String.prototype.includes`, `String.prototype.split` with a non-empty
    string separator, and indexing the last element of the resulting array.
    Strings are `seq<char>`, sequences of Unicode scalar values; JavaScript
    strings are UTF-16 code units, which differ only on astral characters. */
module Strings {

  import opened Wrappers

  /** `t` occurs in `s` starting at index `i`. */
  predicate OccursAt(s: string, t: string, i: int) {
    0 <= i && i + |t| <= |s| && s[i..i + |t|] == t
  }

  lemma OccursAtTail(s: string, t: string)
    requires |s| > 0
    ensures forall j :: 1 <= j ==> (OccursAt(s, t, j) <==> OccursAt(s[1..], t, j - 1))
  {
    forall j | 1 <= j ensures OccursAt(s, t, j) <==> OccursAt(s[1..], t, j - 1) {
      if j + |t| <= |s| {
        assert s[1..][j - 1..j - 1 + |t|] == s[j..j + |t|];
      }
    }
  }

  /** The index of the first occurrence of `t` in `s` (JavaScript `indexOf`,
      with `None` in place of -1). */
  function IndexOf(s: string, t: string): (r: Option<nat>)
    ensures r.Some? ==> OccursAt(s, t, r.value)
    ensures r.Some? ==> forall j :: 0 <= j < r.value ==> !OccursAt(s, t, j)
    ensures r.None? ==> forall j :: !OccursAt(s, t, j)
    decreases |s|
  {
    if |s| < |t| then None
    else if s[..|t|] == t then Some(0)
    else
      OccursAtTail(s, t);
      match IndexOf(s[1..], t)
      case None => None
      case Some(k) => Some(k + 1)
  }

  /** JavaScript `s.includes(t)`. */
  predicate Contains(s: string, t: string) {
    IndexOf(s, t).Some?
  }

  lemma ContainsIff(s: string, t: string)
    ensures Contains(s, t) <==> exists i :: OccursAt(s, t, i)
  {
  }

  /** With a one-character needle, containment is membership. */
  lemma {:induction false} ContainsChar(s: string, c: char)
    ensures Contains(s, [c]) <==> c in s
  {
    if c in s {
      var i :| 0 <= i < |s| && s[i] == c;
      assert s[i..i + 1] == [c];
      assert OccursAt(s, [c], i);
    }
    if Contains(s, [c]) {
      var i := IndexOf(s, [c]).value;
      assert s[i..i + 1] == [c];
      assert s[i] == c;
    }
  }

  /** Reassembles split parts: the inverse of `Split`. */
  function Join(parts: seq<string>, sep: string): string
    decreases |parts|
  {
    if |parts| == 0 then ""
    else if |parts| == 1 then parts[0]
    else parts[0] + sep + Join(parts[1..], sep)
  }

  lemma PrefixFree(s: string, t: string, i: nat)
    requires i <= |s| && |t| > 0
    requires forall j :: 0 <= j < i ==> !OccursAt(s, t, j)
    ensures !Contains(s[..i], t)
  {
    if Contains(s[..i], t) {
      var j := IndexOf(s[..i], t).value;
      assert s[..i][j..j + |t|] == s[j..j + |t|];
      assert OccursAt(s, t, j);
    }
  }

  /** JavaScript `s.split(sep)` for a non-empty separator: the pieces between
      successive non-overlapping occurrences of `sep`, scanned from the left.
      There is always at least one piece, and there are at least two exactly
      when `sep` occurs. */
  function Split(s: string, sep: string): (parts: seq<string>)
    requires |sep| > 0
    ensures |parts| >= 1
    ensures |parts| >= 2 <==> Contains(s, sep)
    decreases |s|
  {
    match IndexOf(s, sep)
    case None => [s]
    case Some(i) => [s[..i]] + Split(s[i + |sep|..], sep)
  }

  /** No piece of a split contains the separator, and joining the pieces
      with the separator gives back the string. */
  lemma {:induction false} JoinSplit(s: string, sep: string)
    requires |sep| > 0
    ensures forall k :: 0 <= k < |Split(s, sep)| ==> !Contains(Split(s, sep)[k], sep)
    ensures Join(Split(s, sep), sep) == s
    decreases |s|
  {
    match IndexOf(s, sep)
    case None =>
    case Some(i) =>
      PrefixFree(s, sep, i);
      var rest := s[i + |sep|..];
      JoinSplit(rest, sep);
      assert s == s[..i] + sep + rest;
      assert Split(s, sep)[1..] == Split(rest, sep);
  }

  /** The first piece of a split is the text before the first occurrence of
      the separator, or the whole string when there is none. */
  lemma SplitHead(s: string, sep: string)
    requires |sep| > 0
    ensures IndexOf(s, sep).None? ==> Split(s, sep) == [s]
    ensures IndexOf(s, sep).Some? ==>
      var i := IndexOf(s, sep).value;
      Split(s, sep)[0] == s[..i] && Split(s, sep)[1..] == Split(s[i + |sep|..], sep)
  {
    match IndexOf(s, sep)
    case None =>
      SplitNone(s, sep);
    case Some(i) =>
      SplitSome(s, sep, i);
      ConsTail(s[..i], Split(s[i + |sep|..], sep));
  }

  lemma SplitNone(s: string, sep: string)
    requires |sep| > 0 && IndexOf(s, sep).None?
    ensures Split(s, sep) == [s]
  {
  }

  lemma ConsTail(first: string, rest: seq<string>)
    ensures ([first] + rest)[0] == first && ([first] + rest)[1..] == rest
  {
  }

  /** Unfolding a split at its first separator. */
  lemma SplitSome(s: string, sep: string, i: nat)
    requires |sep| > 0 && IndexOf(s, sep) == Some(i)
    ensures Split(s, sep) == [s[..i]] + Split(s[i + |sep|..], sep)
  {
  }

  /** The last element of a non-empty sequence (`parts[parts.length - 1]`). */
  function Last(parts: seq<string>): string
    requires |parts| > 0
  {
    parts[|parts| - 1]
  }

  lemma LastCons(first: string, rest: seq<string>)
    requires |rest| > 0
    ensures Last([first] + rest) == Last(rest)
  {
  }

  lemma NotInPrefix(s: string, c: char, j: nat)
    requires j <= |s| && c !in s[..j]
    ensures forall p :: 0 <= p < j ==> s[p] != c
  {
    forall p | 0 <= p < j ensures s[p] != c { assert s[..j][p] == s[p]; }
  }

  lemma NotInSuffix(s: string, c: char, k: nat)
    requires k <= |s| && c !in s[k..]
    ensures forall p :: k <= p < |s| ==> s[p] != c
  {
    forall p | k <= p < |s| ensures s[p] != c { assert s[k..][p - k] == s[p]; }
  }

  /** The first piece of splitting at a character is the longest prefix free
      of that character. Holds for every `j` meeting the condition, so it
      also says that such a `j` is unique. */
  lemma SplitCharHead(s: string, c: char, j: nat)
    requires j <= |s| && c !in s[..j]
    requires j == |s| || s[j] == c
    ensures Split(s, [c])[0] == s[..j]
  {
    var sep := [c];
    SplitFirstPiece(s, sep);
    forall p | 0 <= p < j ensures !OccursAt(s, sep, p) {
      assert s[..j][p] == s[p];
      OccursAtSingle(s, c, p);
    }
    assert j == |s| || OccursAt(s, sep, j) by {
      if j < |s| {
        OccursAtSingle(s, c, j);
      }
    }
    PieceUnique(s, sep, 0, Split(s, sep)[0], j);
  }

  lemma OccursAtSingle(s: string, c: char, p: int)
    ensures OccursAt(s, [c], p) <==> 0 <= p < |s| && s[p] == c
  {
    if 0 <= p < |s| {
      assert s[p..p + 1] == [s[p]];
    }
  }

  /** After the first separator, the last piece is that of the remainder. */
  lemma SplitLastTail(s: string, sep: string, i: nat)
    requires |sep| > 0 && IndexOf(s, sep) == Some(i)
    ensures Last(Split(s, sep)) == Last(Split(s[i + |sep|..], sep))
  {
    SplitSome(s, sep, i);
    LastCons(s[..i], Split(s[i + |sep|..], sep));
  }

  /** The last piece of splitting at a character is the longest suffix free
      of that character. Holds for every `k` meeting the condition. */
  lemma {:induction false} SplitCharLast(s: string, c: char, k: nat)
    requires k <= |s| && c !in s[k..]
    requires k == 0 || s[k - 1] == c
    ensures Last(Split(s, [c])) == s[k..]
    decreases |s|
  {
    NotInSuffix(s, c, k);
    match IndexOf(s, [c])
    case None =>
      SplitHead(s, [c]);
      OccursAtSingle(s, c, k - 1);
    case Some(i) =>
      OccursAtSingle(s, c, i);
      var rest := s[i + 1..];
      var k' := k - (i + 1);
      assert rest[k'..] == s[k..];
      assert k' == 0 || rest[k' - 1] == c by {
        if k' > 0 { assert rest[k' - 1] == s[k - 1]; }
      }
      SplitCharLast(rest, c, k');
      SplitLastTail(s, [c], i);
  }

  /** Each character of an occurrence matches the needle. */
  lemma OccursAtChar(s: string, t: string, i: int, k: nat)
    requires OccursAt(s, t, i) && k < |t|
    ensures s[i + k] == t[k]
  {
    assert s[i..i + |t|][k] == s[i + k];
  }

  /** A needle with a character the haystack lacks does not occur in it. */
  lemma MissingChar(s: string, t: string, k: nat)
    requires k < |t| && t[k] !in s
    ensures !Contains(s, t)
  {
    if Contains(s, t) {
      OccursAtChar(s, t, IndexOf(s, t).value, k);
    }
  }

  /** An occurrence in `a + [c] + b` lies inside `a`, inside `b`, or
      covers the `c`, which the needle then has at the matching place. */
  lemma {:induction false} OccursAround(a: string, c: char, b: string, t: string, i: int)
    requires OccursAt(a + [c] + b, t, i)
    ensures OccursAt(a, t, i) || OccursAt(b, t, i - |a| - 1)
         || (i <= |a| < i + |t| && t[|a| - i] == c)
  {
    var s := a + [c] + b;
    if i + |t| <= |a| {
      assert s[i..i + |t|] == a[i..i + |t|];
    } else if i > |a| {
      assert s[i..i + |t|] == b[i - |a| - 1..i - |a| - 1 + |t|];
    } else {
      OccursAtChar(s, t, i, |a| - i);
    }
  }

  lemma AroundAppend(a: string, c: char, b: string, x: string)
    ensures (a + [c] + b) + x == a + [c] + (b + x)
  {
  }

  /** A separator the needle does not contain cuts every occurrence off
      from the other side. */
  lemma NotContainsAround(a: string, c: char, b: string, t: string)
    requires !Contains(a, t) && !Contains(b, t) && c !in t
    ensures !Contains(a + [c] + b, t)
  {
    if Contains(a + [c] + b, t) {
      var i := IndexOf(a + [c] + b, t).value;
      OccursAround(a, c, b, t, i);
    }
  }

  /** Containment in a piece of a string implies containment in it. */
  lemma ContainsInSlice(s: string, t: string, lo: nat, hi: nat)
    requires lo <= hi <= |s| && Contains(s[lo..hi], t)
    ensures Contains(s, t)
  {
    var u := s[lo..hi];
    var i := IndexOf(u, t).value;
    forall k | 0 <= k < |t| ensures s[lo + i + k] == t[k] {
      OccursAtChar(u, t, i, k);
    }
    assert s[lo + i..lo + i + |t|] == t;
    assert OccursAt(s, t, lo + i);
  }

  /** The character `c` at `j` with none before it is the first one. */
  lemma IndexOfChar(s: string, c: char, j: nat)
    requires j < |s| && s[j] == c && c !in s[..j]
    ensures IndexOf(s, [c]) == Some(j)
  {
    assert OccursAt(s, [c], j) by { assert s[j..j + 1] == [c]; }
    NotInPrefix(s, c, j);
    var i := IndexOf(s, [c]).value;
    OccursAtChar(s, [c], i, 0);
  }

  /** A character that occurs once in a string is nowhere else in it. */
  lemma CharElsewhere(a: string, c: char, b: string, m: int)
    requires c !in a && c !in b
    requires 0 <= m < |a| + 1 + |b| && m != |a|
    ensures (a + [c] + b)[m] != c
  {
    if m < |a| {
      assert (a + [c] + b)[m] == a[m];
    } else {
      assert (a + [c] + b)[m] == b[m - |a| - 1];
    }
  }

  /** One mismatching character rules an occurrence out. */
  lemma MismatchAt(s: string, t: string, i: int, k: nat)
    requires k < |t| && 0 <= i && i + k < |s| && s[i + k] != t[k]
    ensures !OccursAt(s, t, i)
  {
    if i + |t| <= |s| {
      assert s[i..i + |t|][k] == s[i + k];
    }
  }

  /** A needle whose first character a prefix lacks, and which the rest
      lacks, is not in the whole string. */
  lemma NotContainsPrefixed(a: string, b: string, t: string)
    requires |t| > 0 && t[0] !in a && !Contains(b, t)
    ensures !Contains(a + b, t)
  {
    var s := a + b;
    forall i | 0 <= i <= |s| - |t| ensures !OccursAt(s, t, i) {
      if i < |a| {
        assert s[i] == a[i];
        MismatchAt(s, t, i, 0);
      } else {
        assert s[|a|..] == b;
        OccursAtSuffix(s, t, |a|, i - |a|);
      }
    }
    NotContainsAt(s, t);
  }

  /** A string holds every piece of it. */
  lemma ContainsInMiddle(a: string, t: string, b: string)
    ensures Contains(a + t + b, t)
  {
    assert (a + t + b)[|a|..|a| + |t|] == t;
    assert OccursAt(a + t + b, t, |a|);
  }

  /** A needle that occurs at no position is not contained. */
  lemma NotContainsAt(s: string, t: string)
    requires forall i :: 0 <= i <= |s| - |t| ==> !OccursAt(s, t, i)
    ensures !Contains(s, t)
  {
  }

  /** A string without the needle has no slice with it. */
  lemma NotContainsSlice(s: string, t: string, lo: nat, hi: nat)
    requires lo <= hi <= |s| && !Contains(s, t)
    ensures !Contains(s[lo..hi], t)
  {
    if Contains(s[lo..hi], t) {
      ContainsInSlice(s, t, lo, hi);
    }
  }

  /** Splitting joined pieces at a character none of them holds gives the
      pieces back: `Split` is the inverse of `Join`. */
  lemma {:induction false} SplitJoin(parts: seq<string>, c: char)
    requires |parts| >= 1
    requires forall k :: 0 <= k < |parts| ==> c !in parts[k]
    ensures Split(Join(parts, [c]), [c]) == parts
    decreases |parts|
  {
    var s := Join(parts, [c]);
    if |parts| == 1 {
      ContainsChar(s, c);
      SplitHead(s, [c]);
    } else {
      var rest := Join(parts[1..], [c]);
      assert s == parts[0] + [c] + rest;
      assert s[..|parts[0]|] == parts[0];
      IndexOfChar(s, c, |parts[0]|);
      SplitHead(s, [c]);
      assert s[|parts[0]| + 1..] == rest;
      SplitJoin(parts[1..], c);
    }
  }

  /** The index just after the last `c` in `s`, or 0 when there is none:
      where the last piece of a split at `c` starts. */
  function AfterLast(s: string, c: char): (k: nat)
    ensures k <= |s| && c !in s[k..]
    ensures k == 0 || s[k - 1] == c
  {
    if s == [] then 0
    else if s[|s| - 1] == c then |s|
    else
      var k := AfterLast(s[..|s| - 1], c);
      assert s[k..] == s[..|s| - 1][k..] + [s[|s| - 1]];
      k
  }

  /** The first piece of a split at a character is a prefix free of the
      character, followed by it or by the end of the string. */
  lemma SplitCharHeadShape(s: string, c: char)
    ensures var r := Split(s, [c])[0];
      |r| <= |s| && r == s[..|r|] && c !in r && (|r| == |s| || s[|r|] == c)
  {
    SplitHead(s, [c]);
    JoinSplit(s, [c]);
    ContainsChar(Split(s, [c])[0], c);
    match IndexOf(s, [c])
    case None =>
    case Some(i) => OccursAtChar(s, [c], i, 0);
  }

  /** A prefix of a suffix, read in the whole string. */
  lemma PrefixOfSuffix(s: string, k: nat, r: string, c: char)
    requires k <= |s| && |r| <= |s| - k && r == s[k..][..|r|]
    requires |r| == |s| - k || s[k..][|r|] == c
    ensures s[k..k + |r|] == r && (k + |r| == |s| || s[k + |r|] == c)
  {
    assert s[k..][..|r|] == s[k..k + |r|];
    if k + |r| < |s| {
      assert s[k..][|r|] == s[k + |r|];
    }
  }

  /** `piece` starts at `start` in `s` and runs up to the next occurrence
      of `sep` or the end. */
  predicate PieceAt(s: string, sep: string, start: int, piece: string) {
    0 <= start && start + |piece| <= |s| && s[start..start + |piece|] == piece
    && (forall p :: start <= p < start + |piece| ==> !OccursAt(s, sep, p))
    && (start + |piece| == |s| || OccursAt(s, sep, start + |piece|))
  }

  /** The first piece of a split runs up to the first occurrence of the
      separator, or to the end when there is none. */
  lemma SplitFirstPiece(s: string, sep: string)
    requires |sep| > 0
    ensures PieceAt(s, sep, 0, Split(s, sep)[0])
  {
    SplitHead(s, sep);
  }

  /** Where a piece ends is determined. */
  lemma PieceUnique(s: string, sep: string, start: nat, piece: string, j: nat)
    requires PieceAt(s, sep, start, piece)
    requires start <= j <= |s|
    requires forall p :: start <= p < j ==> !OccursAt(s, sep, p)
    requires j == |s| || OccursAt(s, sep, j)
    ensures piece == s[start..j]
  {
  }

  /** The second piece of a split is the first piece of the text after
      the first separator. */
  lemma SplitSecondHead(s: string, sep: string)
    requires |sep| > 0 && Contains(s, sep)
    ensures Split(s, sep)[1] == Split(s[IndexOf(s, sep).value + |sep|..], sep)[0]
  {
  }

  /** A piece at the start of a suffix is a piece of the whole string. */
  lemma PieceShift(s: string, sep: string, start: nat, piece: string)
    requires start <= |s| && PieceAt(s[start..], sep, 0, piece)
    ensures PieceAt(s, sep, start, piece)
  {
    var rest := s[start..];
    assert s[start..start + |piece|] == rest[..|piece|];
    forall p | start <= p < start + |piece|
      ensures !OccursAt(s, sep, p)
    {
      OccursAtSuffix(s, sep, start, p - start);
    }
    if |piece| < |rest| {
      OccursAtSuffix(s, sep, start, |piece|);
    }
  }

  /** The second piece of a split is the text from just after the first
      occurrence of the separator up to its next occurrence or the end. */
  lemma SplitSecond(s: string, sep: string)
    requires |sep| > 0 && Contains(s, sep)
    ensures PieceAt(s, sep, IndexOf(s, sep).value + |sep|, Split(s, sep)[1])
  {
    var start := IndexOf(s, sep).value + |sep|;
    SplitSecondHead(s, sep);
    SplitFirstPiece(s[start..], sep);
    PieceShift(s, sep, start, Split(s[start..], sep)[0]);
  }

  lemma OccursAtSuffix(s: string, t: string, start: nat, m: nat)
    requires start <= |s|
    ensures OccursAt(s[start..], t, m) <==> OccursAt(s, t, start + m)
  {
    if start + m + |t| <= |s| {
      assert s[start..][m..m + |t|] == s[start + m..start + m + |t|];
    }
  }

  /** `id` starts at `start` in `s` and runs up to the next `c`, the next
      occurrence of `sep`, or the end. */
  predicate CutPieceAt(s: string, sep: string, c: char, start: int, id: string) {
    0 <= start && start + |id| <= |s| && s[start..start + |id|] == id && c !in id
    && (forall p :: start <= p < start + |id| ==> !OccursAt(s, sep, p))
    && (start + |id| == |s| || s[start + |id|] == c || OccursAt(s, sep, start + |id|))
  }

  /** Where such a piece ends is determined. */
  lemma CutPieceUnique(s: string, sep: string, c: char, start: nat, id: string, j: nat)
    requires CutPieceAt(s, sep, c, start, id)
    requires start <= j <= |s| && c !in s[start..j]
    requires forall p :: start <= p < j ==> !OccursAt(s, sep, p)
    requires j == |s| || s[j] == c || OccursAt(s, sep, j)
    ensures id == s[start..j]
  {
  }

  /** The second piece of a split at `sep`, cut at the first `c`: the text
      from just after the first `sep` up to the next `c` or `sep`. */
  lemma SecondPieceCutAt(s: string, sep: string, c: char)
    requires |sep| > 0 && Contains(s, sep)
    ensures CutPieceAt(s, sep, c, IndexOf(s, sep).value + |sep|, Split(Split(s, sep)[1], [c])[0])
  {
    var start := IndexOf(s, sep).value + |sep|;
    var piece := Split(s, sep)[1];
    SplitSecond(s, sep);
    SplitCharHeadShape(piece, c);
    var id := Split(piece, [c])[0];
    assert s[start..start + |id|] == piece[..|id|];
    if |id| < |piece| {
      assert s[start + |id|] == piece[|id|];
    }
    assert CutPieceAt(s, sep, c, start, id);
  }

  /** The converse: the end of that cut piece is determined. */
  lemma SecondPieceCutExact(s: string, sep: string, c: char, start: nat, j: nat)
    requires |sep| > 0 && Contains(s, sep)
    requires start == IndexOf(s, sep).value + |sep|
    requires start <= j <= |s| && c !in s[start..j]
    requires forall p :: start <= p < j ==> !OccursAt(s, sep, p)
    requires j == |s| || s[j] == c || OccursAt(s, sep, j)
    ensures Split(Split(s, sep)[1], [c])[0] == s[start..j]
  {
    SecondPieceCutAt(s, sep, c);
    CutPieceUnique(s, sep, c, start, Split(Split(s, sep)[1], [c])[0], j);
  }
}
