/**
 * The string operations the pipeline relies on: Python's `str.strip()`,
 * `s.split("/")[-1]`, `s.split(",")` and the substring test `sub in s`.
 */
module Text {

  /** Namespace that turns a bare Wikidata identifier into an entity URI. */
  const EntityPrefix: string := "http://www.wikidata.org/entity/"

  /** Python's `str.isspace()` for one character: the complete list of
      Unicode code points it accepts. */
  predicate IsSpace(c: char)
  {
    ('\t' <= c <= '\r') || ('\U{1C}' <= c <= '\U{1F}') || c == ' '
    || c == '\U{85}' || c == '\U{A0}' || c == '\U{1680}'
    || ('\U{2000}' <= c <= '\U{200A}') || c == '\U{2028}' || c == '\U{2029}'
    || c == '\U{202F}' || c == '\U{205F}' || c == '\U{3000}'
  }

  /** Position of the first non-whitespace character at or after `i`
      (`|s|` when there is none): where `lstrip()` cuts. */
  function SkipSpaceFrom(s: string, i: nat): (a: nat)
    requires i <= |s|
    ensures i <= a <= |s|
    ensures forall k :: i <= k < a ==> IsSpace(s[k])
    ensures a == |s| || !IsSpace(s[a])
    decreases |s| - i
  {
    if i < |s| && IsSpace(s[i]) then SkipSpaceFrom(s, i + 1) else i
  }

  /** Position just after the last non-whitespace character below `j` and
      not below `lo` (`lo` when there is none): where `rstrip()` cuts. */
  function SkipSpaceBack(s: string, lo: nat, j: nat): (b: nat)
    requires lo <= j <= |s|
    ensures lo <= b <= j
    ensures forall k :: b <= k < j ==> IsSpace(s[k])
    ensures b == lo || !IsSpace(s[b - 1])
    decreases j - lo
  {
    if lo < j && IsSpace(s[j - 1]) then SkipSpaceBack(s, lo, j - 1) else j
  }

  /** Python's `s.strip()`: the infix of `s` left once whitespace is removed
      from both ends. */
  function Trim(s: string): (r: string)
    ensures exists a :: InfixAt(s, r, a)
                        && (forall i :: 0 <= i < a ==> IsSpace(s[i]))
                        && (forall i :: a + |r| <= i < |s| ==> IsSpace(s[i]))
    ensures r != [] ==> !IsSpace(r[0]) && !IsSpace(r[|r| - 1])
    ensures r == [] <==> forall i :: 0 <= i < |s| ==> IsSpace(s[i])
  {
    var a := SkipSpaceFrom(s, 0);
    var b := SkipSpaceBack(s, a, |s|);
    assert InfixAt(s, s[a..b], a);
    assert a < b ==> s[a..b][0] == s[a] && s[a..b][b - a - 1] == s[b - 1];
    s[a..b]
  }

  /** Python's `s.split("/")[-1]`: the longest suffix of `s` holding no '/'. */
  function LastSegment(s: string): (r: string)
    ensures '/' !in r
    ensures |r| <= |s| && r == s[|s| - |r|..]
    ensures |r| < |s| ==> s[|s| - |r| - 1] == '/'
  {
    if s == [] then []
    else if s[|s| - 1] == '/' then []
    else LastSegment(s[..|s| - 1]) + [s[|s| - 1]]
  }

  /** Prefixing a namespace that ends in '/' and then taking the last
      segment gives back any identifier free of '/'. */
  lemma LastSegmentOfPrefixed(prefix: string, id: string)
    requires prefix != [] && prefix[|prefix| - 1] == '/'
    requires '/' !in id
    ensures LastSegment(prefix + id) == id
  {
    var s := prefix + id;
    assert s[|s| - |id|..] == id;
  }

  /** The round trip used by the pipeline: an entity URI built from a bare
      identifier yields that identifier again. */
  lemma EntityUriRoundTrip(id: string)
    requires '/' !in id
    ensures LastSegment(EntityPrefix + id) == id
  {
    LastSegmentOfPrefixed(EntityPrefix, id);
  }

  /** `sub` occurs in `s` starting at index `a`. */
  predicate InfixAt(s: string, sub: string, a: int)
  {
    0 <= a <= |s| - |sub| && s[a..a + |sub|] == sub
  }

  /** Python's `sub in s` for strings. */
  predicate Contains(s: string, sub: string)
  {
    exists a | 0 <= a <= |s| - |sub| :: InfixAt(s, sub, a)
  }

  /** Index of the first occurrence of `c` in `s`. */
  function IndexOf(s: string, c: char): (i: nat)
    requires c in s
    ensures i < |s| && s[i] == c && c !in s[..i]
  {
    if s[0] == c then 0 else 1 + IndexOf(s[1..], c)
  }

  /** Python's `s.split(sep)` for a one-character separator. */
  function Split(s: string, sep: char): (r: seq<string>)
    ensures |r| >= 1
    ensures forall i :: 0 <= i < |r| ==> sep !in r[i]
    ensures Join(r, sep) == s
    decreases |s|
  {
    if sep !in s then [s]
    else
      var i := IndexOf(s, sep);
      var rest := Split(s[i + 1..], sep);
      assert s == s[..i] + [sep] + s[i + 1..];
      [s[..i]] + rest
  }

  /** Python's `sep.join(pieces)`. */
  function Join(pieces: seq<string>, sep: char): string
  {
    if pieces == [] then []
    else if |pieces| == 1 then pieces[0]
    else pieces[0] + [sep] + Join(pieces[1..], sep)
  }

  /** Splitting a joined list of separator-free pieces recovers the pieces. */
  lemma {:induction false} SplitJoin(pieces: seq<string>, sep: char)
    requires |pieces| >= 1
    requires forall i :: 0 <= i < |pieces| ==> sep !in pieces[i]
    ensures Split(Join(pieces, sep), sep) == pieces
  {
    if |pieces| > 1 {
      var s := Join(pieces, sep);
      var head := pieces[0];
      assert s == head + [sep] + Join(pieces[1..], sep);
      assert s[|head|] == sep;
      assert s[..|head|] == head;
      assert IndexOf(s, sep) == |head|;
      assert s[|head| + 1..] == Join(pieces[1..], sep);
      SplitJoin(pieces[1..], sep);
      assert pieces == [head] + pieces[1..];
    }
  }
}
