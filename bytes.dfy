/**
 * The three byte-slice helpers of Go's `bytes` package that the `.env` parser
 * relies on: `TrimSpace`, `Split` and `SplitN(s, sep, 2)`. Text is the sequence
 * of characters the bytes decode to as UTF-8.
 */
module Bytes {
  import opened Wrappers

  /**
   * Unicode white space as Go's `unicode.IsSpace` defines it, which is what
   * `bytes.TrimSpace` strips: tab, newline, vertical tab, form feed, carriage
   * return and space, then U+0085, U+00A0 and the Unicode space separators.
   */
  predicate IsSpace(c: char) {
    c == '\t' || c == '\n' || c == '\U{000B}' || c == '\U{000C}' || c == '\r' || c == ' ' ||
    c == '\U{0085}' || c == '\U{00A0}' || c == '\U{1680}' || ('\U{2000}' <= c <= '\U{200A}') ||
    c == '\U{2028}' || c == '\U{2029}' || c == '\U{202F}' || c == '\U{205F}' || c == '\U{3000}'
  }

  predicate AllSpace(s: string) {
    forall i :: 0 <= i < |s| ==> IsSpace(s[i])
  }

  /** Neither the first nor the last character is white space. */
  predicate NoEdgeSpace(s: string) {
    s == [] || (!IsSpace(s[0]) && !IsSpace(s[|s| - 1]))
  }

  /** The first index at or after `i` that is not white space (or `|s|`). */
  function LeftEdge(s: string, i: nat): (k: nat)
    requires i <= |s|
    ensures i <= k <= |s|
    decreases |s| - i
  {
    if i < |s| && IsSpace(s[i]) then LeftEdge(s, i + 1) else i
  }

  lemma {:induction false} LeftEdgeSpec(s: string, i: nat)
    requires i <= |s|
    ensures forall j :: i <= j < LeftEdge(s, i) ==> IsSpace(s[j])
    ensures LeftEdge(s, i) == |s| || !IsSpace(s[LeftEdge(s, i)])
    decreases |s| - i
  {
    if i < |s| && IsSpace(s[i]) { LeftEdgeSpec(s, i + 1); }
  }

  /** The end of the text in `s[lo..j]` once its trailing white space is dropped. */
  function RightEdge(s: string, lo: nat, j: nat): (k: nat)
    requires lo <= j <= |s|
    ensures lo <= k <= j
    decreases j
  {
    if j > lo && IsSpace(s[j - 1]) then RightEdge(s, lo, j - 1) else j
  }

  lemma {:induction false} RightEdgeSpec(s: string, lo: nat, j: nat)
    requires lo <= j <= |s|
    ensures forall m :: RightEdge(s, lo, j) <= m < j ==> IsSpace(s[m])
    ensures RightEdge(s, lo, j) == lo || !IsSpace(s[RightEdge(s, lo, j) - 1])
    decreases j
  {
    if j > lo && IsSpace(s[j - 1]) { RightEdgeSpec(s, lo, j - 1); }
  }

  /**
   * `bytes.TrimSpace`: the infix of `s` left once its leading and trailing white
   * space are gone.
   */
  function TrimSpace(s: string): (r: string)
    ensures NoEdgeSpace(r)
    ensures |r| <= |s|
  {
    var lo := LeftEdge(s, 0);
    LeftEdgeSpec(s, 0);
    RightEdgeSpec(s, lo, |s|);
    s[lo..RightEdge(s, lo, |s|)]
  }

  /**
   * The trimmed text is unique: any white-space padding around a core with no
   * edge white space trims back to that core.
   */
  lemma TrimSpaceOfPadded(pre: string, core: string, post: string)
    requires AllSpace(pre) && AllSpace(post) && NoEdgeSpace(core)
    ensures TrimSpace(pre + core + post) == core
  {
    var s := pre + core + post;
    var lo := LeftEdge(s, 0);
    var hi := RightEdge(s, lo, |s|);
    LeftEdgeSpec(s, 0);
    RightEdgeSpec(s, lo, |s|);
    assert forall j :: 0 <= j < |pre| ==> s[j] == pre[j];
    assert forall j :: 0 <= j < |core| ==> s[|pre| + j] == core[j];
    assert forall j :: 0 <= j < |post| ==> s[|pre| + |core| + j] == post[j];
    if core != [] {
      assert lo == |pre|;
      assert hi == |pre| + |core|;
    }
    assert s[lo..hi] == core;
  }

  /**
   * Trimming is a decomposition: `s` is white space up to `start`, then the
   * result, then white space.
   */
  lemma TrimSpaceSplits(s: string) returns (start: nat)
    ensures start + |TrimSpace(s)| <= |s|
    ensures s[start..start + |TrimSpace(s)|] == TrimSpace(s)
    ensures AllSpace(s[..start]) && AllSpace(s[start + |TrimSpace(s)|..])
  {
    start := LeftEdge(s, 0);
    var hi := RightEdge(s, start, |s|);
    LeftEdgeSpec(s, 0);
    RightEdgeSpec(s, start, |s|);
    assert TrimSpace(s) == s[start..hi];
    assert forall j :: 0 <= j < hi - start ==> s[start..hi][j] == s[start + j];
  }

  /** Text with no edge white space is left as it is. */
  lemma TrimSpaceOfTrimmed(s: string)
    requires NoEdgeSpace(s)
    ensures TrimSpace(s) == s
  {
    TrimSpaceOfPadded([], s, []);
    assert [] + s + [] == s;
  }

  lemma TrimSpaceIdempotent(s: string)
    ensures TrimSpace(TrimSpace(s)) == TrimSpace(s)
  {
    TrimSpaceOfTrimmed(TrimSpace(s));
  }

  /** Joins pieces with `sep` between consecutive ones: the inverse of `Split`. */
  function Join(pieces: seq<string>, sep: char): string
    requires |pieces| >= 1
  {
    if |pieces| == 1 then pieces[0] else pieces[0] + [sep] + Join(pieces[1..], sep)
  }

  /**
   * `bytes.Split(s, sep)` for a one-character separator: the maximal pieces of
   * `s` between separators. There is always at least one piece (`Split("")` is
   * `[""]`), and no piece holds the separator.
   */
  function Split(s: string, sep: char): (r: seq<string>)
    ensures |r| >= 1
    ensures forall i :: 0 <= i < |r| ==> sep !in r[i]
    decreases |s|
  {
    if s == [] then [[]]
    else
      var rest := Split(s[1..], sep);
      if s[0] == sep then [[]] + rest
      else [[s[0]] + rest[0]] + rest[1..]
  }

  lemma {:induction false} JoinSplit(s: string, sep: char)
    ensures Join(Split(s, sep), sep) == s
    decreases |s|
  {
    if s != [] {
      var rest := Split(s[1..], sep);
      JoinSplit(s[1..], sep);
      if s[0] == sep {
        assert ([[]] + rest)[1..] == rest;
      } else {
        var r := [[s[0]] + rest[0]] + rest[1..];
        if |rest| > 1 {
          assert r[1..] == rest[1..];
          assert Join(rest, sep) == rest[0] + [sep] + Join(rest[1..], sep);
        }
        assert [s[0]] + s[1..] == s;
      }
    }
  }

  lemma {:induction false} SplitJoin(pieces: seq<string>, sep: char)
    requires |pieces| >= 1
    requires forall i :: 0 <= i < |pieces| ==> sep !in pieces[i]
    ensures Split(Join(pieces, sep), sep) == pieces
    decreases |pieces|, |pieces[0]|
  {
    if pieces[0] == [] {
      if |pieces| == 1 {
      } else {
        var j := Join(pieces, sep);
        assert j == [sep] + Join(pieces[1..], sep);
        assert j[1..] == Join(pieces[1..], sep);
        SplitJoin(pieces[1..], sep);
        assert [[]] + pieces[1..] == pieces;
      }
    } else {
      var p := pieces[0];
      var shorter := [p[1..]] + pieces[1..];
      forall i | 0 <= i < |shorter| ensures sep !in shorter[i] {
        if i == 0 { assert forall c :: c in p[1..] ==> c in p; } else { assert shorter[i] == pieces[i]; }
      }
      var j := Join(pieces, sep);
      assert j[0] == p[0] && p[0] != sep;
      assert j[1..] == Join(shorter, sep) by {
        if |pieces| == 1 {
        } else {
          assert shorter[1..] == pieces[1..];
          assert j == p + [sep] + Join(pieces[1..], sep);
          assert p == [p[0]] + p[1..];
        }
      }
      SplitJoin(shorter, sep);
      assert Split(j, sep) == [[p[0]] + shorter[0]] + shorter[1..];
      assert [p[0]] + p[1..] == p;
      assert [p] + pieces[1..] == pieces;
    }
  }

  /** The first index at or after `i` holding `c` (or `|s|` when there is none). */
  function IndexFrom(s: string, c: char, i: nat): (k: nat)
    requires i <= |s|
    ensures i <= k <= |s|
    decreases |s| - i
  {
    if i < |s| && s[i] != c then IndexFrom(s, c, i + 1) else i
  }

  lemma {:induction false} IndexFromSpec(s: string, c: char, i: nat)
    requires i <= |s|
    ensures forall j :: i <= j < IndexFrom(s, c, i) ==> s[j] != c
    ensures IndexFrom(s, c, i) == |s| || s[IndexFrom(s, c, i)] == c
    decreases |s| - i
  {
    if i < |s| && s[i] != c { IndexFromSpec(s, c, i + 1); }
  }

  /**
   * `bytes.SplitN(s, [sep], 2)`: `None` when `sep` does not occur (a single part),
   * otherwise the text before and after the FIRST occurrence of `sep`.
   */
  function SplitAtFirst(s: string, sep: char): (r: Option<(string, string)>)
    ensures r.None? <==> sep !in s
    ensures r.Some? ==> s == r.value.0 + [sep] + r.value.1 && sep !in r.value.0
  {
    var k := IndexFrom(s, sep, 0);
    IndexFromSpec(s, sep, 0);
    if k == |s| then None
    else
      assert s == s[..k] + [sep] + s[k + 1..];
      Some((s[..k], s[k + 1..]))
  }

  /** The split is unique: only the first occurrence of `sep` qualifies. */
  lemma SplitAtFirstUnique(before: string, sep: char, after: string)
    requires sep !in before
    ensures SplitAtFirst(before + [sep] + after, sep) == Some((before, after))
  {
    var s := before + [sep] + after;
    var k := IndexFrom(s, sep, 0);
    IndexFromSpec(s, sep, 0);
    assert s[|before|] == sep;
    assert forall j :: 0 <= j < |before| ==> s[j] == before[j];
    assert k == |before|;
    assert s[..k] == before && s[k + 1..] == after;
  }
}
