/** What the watch-page branch asks of the WHATWG URL Standard:
    `new URL(url)` (the basic URL parser of section 4.4, called without a
    base URL) and `url.searchParams.get(name)` (the
    application/x-www-form-urlencoded parser of section 5.1 applied to the
    URL's query). The model is simplified: a parse fails exactly when the
    input has no scheme, and values are not percent-decoded. */
module UrlQuery {

  import opened Wrappers
  import opened Strings

  predicate IsAsciiAlpha(c: char) {
    'a' <= c <= 'z' || 'A' <= c <= 'Z'
  }

  predicate IsSchemeChar(c: char) {
    IsAsciiAlpha(c) || '0' <= c <= '9' || c == '+' || c == '-' || c == '.'
  }

  /** A scheme: an ASCII letter followed by letters, digits, `+`, `-`, `.`. */
  predicate IsScheme(s: string) {
    |s| >= 1 && IsAsciiAlpha(s[0]) && forall c :: c in s ==> IsSchemeChar(c)
  }

  /** The scheme of `url`: the text before its first `:`, when that text is
      a scheme. Without a base URL the parser fails on any other input. */
  function Scheme(url: string): (r: Option<string>)
    ensures r.Some? ==> IsScheme(r.value) && |r.value| < |url|
                        && url == r.value + ":" + url[|r.value| + 1..]
  {
    match IndexOf(url, ":")
    case None => None
    case Some(k) =>
      if IsScheme(url[..k]) then
        assert url == url[..k] + ":" + url[k + 1..] by {
          assert url[k..k + 1] == ":";
        }
        Some(url[..k])
      else None
  }

  /** Every scheme followed by `:` is recognised as the scheme. */
  lemma SchemeOf(scheme: string, rest: string)
    requires IsScheme(scheme)
    ensures Scheme(scheme + ":" + rest) == Some(scheme)
  {
    var url := scheme + ":" + rest;
    assert ':' !in scheme;
    assert url[..|scheme|] == scheme;
    IndexOfChar(url, ':', |scheme|);
  }

  /** `new URL(url)` succeeds. */
  predicate Parses(url: string) {
    Scheme(url).Some?
  }

  /** The URL's query, without its `?`: the text after the first `?` that
      comes before any `#`. `None` when there is no query. */
  function Query(url: string): (q: Option<string>)
    ensures q.Some? ==> '#' !in q.value
  {
    var beforeFragment := Split(url, "#")[0];
    JoinSplit(url, "#");
    ContainsChar(beforeFragment, '#');
    match IndexOf(beforeFragment, "?")
    case None => None
    case Some(i) => Some(beforeFragment[i + 1..])
  }

  /** The query is exactly the text between the first `?` and the first `#`
      (or the end), when the `?` comes first. */
  lemma QueryAt(url: string, i: nat, h: nat)
    requires i < h <= |url| && url[i] == '?' && '?' !in url[..i]
    requires '#' !in url[..h] && (h == |url| || url[h] == '#')
    ensures Query(url) == Some(url[i + 1..h])
  {
    SplitCharHead(url, '#', h);
    var pre := url[..h];
    assert pre[..i] == url[..i];
    IndexOfChar(pre, '?', i);
  }

  /** Text after a `?` that follows a `?`-free, `#`-free start is the
      query, when it holds no `#`. */
  lemma QueryAfter(start: string, rest: string)
    requires '?' !in start && '#' !in start && '#' !in rest
    ensures Query(start + "?" + rest) == Some(rest)
  {
    var url := start + "?" + rest;
    assert url[..|start|] == start;
    assert url[..|url|] == url;
    QueryAt(url, |start|, |url|);
    assert url[|start| + 1..] == rest;
  }

  /** No `?` before the fragment means no query. */
  lemma NoQuery(url: string, h: nat)
    requires h <= |url| && '#' !in url[..h] && (h == |url| || url[h] == '#')
    requires '?' !in url[..h]
    ensures Query(url).None?
  {
    SplitCharHead(url, '#', h);
    ContainsChar(url[..h], '?');
  }

  /** The `+` to space replacement of the form-urlencoded parser. */
  function PlusToSpace(s: string): (r: string)
    ensures |r| == |s| && '+' !in r
    ensures forall i :: 0 <= i < |s| && s[i] != '+' ==> r[i] == s[i]
    ensures forall i :: 0 <= i < |s| && s[i] == '+' ==> r[i] == ' '
  {
    if s == [] then []
    else [if s[0] == '+' then ' ' else s[0]] + PlusToSpace(s[1..])
  }

  lemma PlusFree(s: string)
    requires '+' !in s
    ensures PlusToSpace(s) == s
  {
  }

  /** One name-value pair: the name is the text before the first `=`, the
      value the text after it (empty when there is no `=`). */
  function ParsePair(piece: string): (string, string) {
    match IndexOf(piece, "=")
    case None => (PlusToSpace(piece), "")
    case Some(i) => (PlusToSpace(piece[..i]), PlusToSpace(piece[i + 1..]))
  }

  /** A name without `=` is read back from `name=value`, whatever the value
      holds (further `=` included). */
  lemma ParsePairOf(name: string, value: string)
    requires '=' !in name
    ensures ParsePair(name + "=" + value) == (PlusToSpace(name), PlusToSpace(value))
  {
    var piece := name + "=" + value;
    assert piece[..|name|] == name;
    IndexOfChar(piece, '=', |name|);
    assert piece[|name| + 1..] == value;
  }

  /** A piece without `=` is a name with the empty value. */
  lemma ParsePairBare(piece: string)
    requires '=' !in piece
    ensures ParsePair(piece) == (PlusToSpace(piece), "")
  {
    ContainsChar(piece, '=');
  }

  /** The pairs of the non-empty pieces, in order: empty pieces are skipped. */
  function FormPairs(pieces: seq<string>): (pairs: seq<(string, string)>)
    ensures |pairs| <= |pieces|
    ensures (forall k :: 0 <= k < |pieces| ==> pieces[k] != "") ==> |pairs| == |pieces|
    ensures pieces == [] ==> pairs == []
  {
    if pieces == [] then []
    else if pieces[0] == "" then FormPairs(pieces[1..])
    else [ParsePair(pieces[0])] + FormPairs(pieces[1..])
  }

  /** One piece gives its pair, or nothing when it is empty. */
  lemma FormPairsOne(piece: string)
    ensures FormPairs([piece]) == if piece == "" then [] else [ParsePair(piece)]
  {
    assert [piece][1..] == [];
  }

  /** Pieces are read independently and in order: the pairs of `a + b` are
      those of `a` followed by those of `b`. With `FormPairsOne` this fixes
      the result on every list of pieces. */
  lemma {:induction false} FormPairsAppend(a: seq<string>, b: seq<string>)
    ensures FormPairs(a + b) == FormPairs(a) + FormPairs(b)
    decreases |a|
  {
    if a == [] {
      assert a + b == b;
    } else {
      assert (a + b)[0] == a[0];
      assert (a + b)[1..] == a[1..] + b;
      FormPairsAppend(a[1..], b);
    }
  }

  /** The application/x-www-form-urlencoded parser: split at `&`, skip
      empty pieces, read a pair from each. */
  function ParseForm(query: string): seq<(string, string)> {
    FormPairs(Split(query, "&"))
  }

  /** `URLSearchParams.get`: the value of the first pair with this name. */
  function Get(pairs: seq<(string, string)>, name: string): (r: Option<string>)
    ensures r.Some? ==> exists i :: 0 <= i < |pairs| && pairs[i] == (name, r.value)
                          && forall j :: 0 <= j < i ==> pairs[j].0 != name
    ensures r.None? <==> forall i :: 0 <= i < |pairs| ==> pairs[i].0 != name
  {
    if pairs == [] then None
    else if pairs[0].0 == name then Some(pairs[0].1)
    else
      var r := Get(pairs[1..], name);
      assert forall i :: 1 <= i < |pairs| ==> pairs[i] == pairs[1..][i - 1];
      if r.Some? then
        var i :| 0 <= i < |pairs[1..]| && pairs[1..][i] == (name, r.value)
                 && forall j :: 0 <= j < i ==> pairs[1..][j].0 != name;
        assert pairs[i + 1] == (name, r.value);
        r
      else r
  }

  /** Serialising pairs whose names hold no `=`, `&`, `+` and whose values
      hold no `&`, `+`. */
  function Serialize(pairs: seq<(string, string)>): string {
    Join(Pieces(pairs), "&")
  }

  function Pieces(pairs: seq<(string, string)>): (pieces: seq<string>)
    ensures |pieces| == |pairs|
    ensures forall k :: 0 <= k < |pairs| ==> pieces[k] == pairs[k].0 + "=" + pairs[k].1
  {
    if pairs == [] then [] else [pairs[0].0 + "=" + pairs[0].1] + Pieces(pairs[1..])
  }

  predicate Serializable(pairs: seq<(string, string)>) {
    forall k :: 0 <= k < |pairs| ==>
      '=' !in pairs[k].0 && '&' !in pairs[k].0 && '+' !in pairs[k].0
      && '&' !in pairs[k].1 && '+' !in pairs[k].1
  }

  lemma {:induction false} FormPairsOfPieces(pairs: seq<(string, string)>)
    requires Serializable(pairs)
    ensures FormPairs(Pieces(pairs)) == pairs
    decreases |pairs|
  {
    if pairs != [] {
      var n, v := pairs[0].0, pairs[0].1;
      ParsePairOf(n, v);
      PlusFree(n);
      PlusFree(v);
      assert Pieces(pairs)[0] == n + "=" + v;
      assert Pieces(pairs)[1..] == Pieces(pairs[1..]);
      assert Serializable(pairs[1..]) by {
        forall k | 0 <= k < |pairs[1..]| ensures pairs[1..][k] == pairs[k + 1] { }
      }
      FormPairsOfPieces(pairs[1..]);
    }
  }

  /** The form parser reads serialised pairs back unchanged. */
  lemma ParseSerialize(pairs: seq<(string, string)>)
    requires Serializable(pairs)
    ensures ParseForm(Serialize(pairs)) == pairs
  {
    var pieces := Pieces(pairs);
    if pairs == [] {
      assert Split("", "&") == [""];
    } else {
      forall k | 0 <= k < |pieces| ensures '&' !in pieces[k] {
        assert pieces[k] == pairs[k].0 + "=" + pairs[k].1;
      }
      SplitJoin(pieces, '&');
      FormPairsOfPieces(pairs);
    }
  }

  /** The outcome of `new URL(url).searchParams.get(name)`. */
  datatype Lookup = Found(value: string) | Absent | Invalid

  function SearchParam(url: string, name: string): (r: Lookup)
    ensures r.Invalid? <==> !Parses(url)
  {
    if !Parses(url) then Invalid
    else match Query(url)
      case None => Absent
      case Some(q) =>
        match Get(ParseForm(q), name)
        case None => Absent
        case Some(v) => Found(v)
  }
}
