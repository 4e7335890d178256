/** The `str` operations the service code relies on: `trim_end`, `rsplit_once` and `join`. */
module Strings {
  import opened Wrappers

  /**
   * Rust's `char::is_whitespace`: the characters with the Unicode White_Space
   * property.
   */
  predicate IsWhitespace(c: char) {
    || '\t' <= c <= '\r'                  // U+0009 .. U+000D
    || c == ' '
    || c == '\U{85}' || c == '\U{A0}' || c == '\U{1680}'
    || '\U{2000}' <= c <= '\U{200A}'
    || c == '\U{2028}' || c == '\U{2029}' || c == '\U{202F}' || c == '\U{205F}' || c == '\U{3000}'
  }

  predicate AllWhitespace(s: string) {
    forall i :: 0 <= i < |s| ==> IsWhitespace(s[i])
  }

  /** `str::trim_end`: the longest prefix of `s` that does not end in whitespace. */
  function TrimEnd(s: string): (r: string)
    ensures r <= s
    ensures r == [] || !IsWhitespace(r[|r| - 1])
    ensures AllWhitespace(s[|r|..])
    decreases |s|
  {
    if s != [] && IsWhitespace(s[|s| - 1]) then
      var front := s[..|s| - 1];
      var r := TrimEnd(front);
      assert s[|r|..] == front[|r|..] + [s[|s| - 1]];
      assert r <= front <= s;
      r
    else s
  }

  /** Trimming removes exactly a whitespace tail and nothing of what precedes it. */
  lemma TrimEndOfPadded(t: string, w: string)
    requires t == [] || !IsWhitespace(t[|t| - 1])
    requires AllWhitespace(w)
    ensures TrimEnd(t + w) == t
  {
    var s := t + w;
    var r := TrimEnd(s);
    assert r == s[..|r|];
    assert s[..|t|] == t;
  }

  /**
   * `str::rsplit_once(sep)`: the text before and after the LAST occurrence of
   * `sep`, or None when `sep` does not occur.
   */
  function RSplitOnce(s: string, sep: char): (r: Option<(string, string)>)
    ensures r.Some? <==> sep in s
    ensures r.Some? ==> r.value.0 + [sep] + r.value.1 == s && sep !in r.value.1
    decreases |s|
  {
    if s == [] then None
    else if s[|s| - 1] == sep then Some((s[..|s| - 1], []))
    else
      match RSplitOnce(s[..|s| - 1], sep)
      case None => None
      case Some((before, after)) => Some((before, after + [s[|s| - 1]]))
  }

  /** The split is unique: any decomposition around a last separator is the one `RSplitOnce` finds. */
  lemma RSplitOnceUnique(s: string, sep: char, before: string, after: string)
    requires s == before + [sep] + after && sep !in after
    ensures RSplitOnce(s, sep) == Some((before, after))
  {
    var r := RSplitOnce(s, sep).value;
    assert s[|r.0|] == sep && s[|before|] == sep;
    assert forall i :: |before| < i < |s| ==> s[i] == after[i - |before| - 1];
    assert forall i :: |r.0| < i < |s| ==> s[i] == r.1[i - |r.0| - 1];
    assert |r.0| == |before|;
    assert r.1 == s[|s| - |r.1|..] && after == s[|s| - |after|..];
    assert r.0 == s[..|r.0|] && before == s[..|before|];
  }

  /** `[String]::join(sep)`. */
  function Join(parts: seq<string>, sep: string): (s: string)
    ensures parts == [] ==> s == []
    ensures parts != [] ==> parts[0] <= s
    decreases |parts|
  {
    if parts == [] then []
    else if |parts| == 1 then parts[0]
    else parts[0] + sep + Join(parts[1..], sep)
  }

  /** `str::split(c)`: the pieces between occurrences of `c` (the partner of `Join`). */
  function Split(s: string, c: char): (pieces: seq<string>)
    ensures |pieces| >= 1
    decreases |s|
  {
    if s == [] then [[]]
    else
      var rest := Split(s[1..], c);
      if s[0] == c then [[]] + rest else [[s[0]] + rest[0]] + rest[1..]
  }

  lemma {:induction false} SplitPrefix(p: string, c: char, rest: string)
    requires c !in p
    ensures Split(p + [c] + rest, c) == [p] + Split(rest, c)
    decreases |p|
  {
    if p == [] {
      assert ([c] + rest)[1..] == rest;
    } else {
      SplitPrefix(p[1..], c, rest);
      assert (p + [c] + rest)[1..] == p[1..] + [c] + rest;
      assert [p[0]] + p[1..] == p;
    }
  }

  lemma {:induction false} SplitWhole(p: string, c: char)
    requires c !in p
    ensures Split(p, c) == [p]
    decreases |p|
  {
    if p != [] {
      SplitWhole(p[1..], c);
      assert [p[0]] + p[1..] == p;
    }
  }

  /** Round trip: joining pieces that do not contain the separator and splitting again gives the pieces back. */
  lemma {:induction false} SplitJoin(parts: seq<string>, c: char)
    requires |parts| >= 1
    requires forall i :: 0 <= i < |parts| ==> c !in parts[i]
    ensures Split(Join(parts, [c]), c) == parts
    decreases |parts|
  {
    if |parts| == 1 {
      SplitWhole(parts[0], c);
    } else {
      SplitJoin(parts[1..], c);
      SplitPrefix(parts[0], c, Join(parts[1..], [c]));
      assert [parts[0]] + parts[1..] == parts;
    }
  }
}
