/** The string operations the dashboard borrows from Python and pandas:
    whitespace stripping (`str.strip`), case mapping (`str.upper`,
    `str.lower`), prefix and suffix tests, and the text pandas gives a
    spreadsheet cell after `astype(str)`. */
module Text {

  /** A spreadsheet cell: `None` is a missing value (NaN). */
  datatype Option<+T> = None | Some(value: T)

  /** The text of a cell after `astype(str)`: a missing cell reads "nan". */
  function CellText(c: Option<string>): (r: string)
    ensures c.Some? ==> r == c.value
    ensures c.None? ==> r == "nan"
  {
    match c
    case None => "nan"
    case Some(s) => s
  }

  /** Python's `str.isspace` for a single character. */
  predicate IsSpace(c: char) {
    c == ' ' || ('\t' <= c <= '\r') || ('\U{1c}' <= c <= '\U{1f}')
    || c == '\U{85}' || c == '\U{a0}' || c == '\U{1680}'
    || ('\U{2000}' <= c <= '\U{200a}') || c == '\U{2028}' || c == '\U{2029}'
    || c == '\U{202f}' || c == '\U{205f}' || c == '\U{3000}'
  }

  /** The index of the first non-whitespace character at or after `i`
      (or `|s|`): where `str.strip` starts its result. */
  function LeadEnd(s: string, i: nat): (r: nat)
    requires i <= |s|
    ensures i <= r <= |s|
    decreases |s| - i
  {
    if i < |s| && IsSpace(s[i]) then LeadEnd(s, i + 1) else i
  }

  /** The index just past the last non-whitespace character in `s[lo..j]`
      (or `lo`): where `str.strip` ends its result. */
  function TrailStart(s: string, lo: nat, j: nat): (r: nat)
    requires lo <= j <= |s|
    ensures lo <= r <= j
    decreases j
  {
    if lo < j && IsSpace(s[j - 1]) then TrailStart(s, lo, j - 1) else j
  }

  /** Python's `str.strip()` without arguments. */
  function Trim(s: string): string {
    var a := LeadEnd(s, 0);
    s[a..TrailStart(s, a, |s|)]
  }

  /** `LeadEnd` skips whitespace only, and stops at a non-space. */
  lemma {:induction false} LeadEndSpec(s: string, i: nat)
    requires i <= |s|
    ensures var r := LeadEnd(s, i);
      && (r == |s| || !IsSpace(s[r]))
      && forall n :: i <= n < r ==> IsSpace(s[n])
    decreases |s| - i
  {
    if i < |s| && IsSpace(s[i]) {
      LeadEndSpec(s, i + 1);
    }
  }

  /** `TrailStart` skips whitespace only, and stops after a non-space. */
  lemma {:induction false} TrailStartSpec(s: string, lo: nat, j: nat)
    requires lo <= j <= |s|
    ensures var r := TrailStart(s, lo, j);
      && (r == lo || !IsSpace(s[r - 1]))
      && forall n :: r <= n < j ==> IsSpace(s[n])
    decreases j
  {
    if lo < j && IsSpace(s[j - 1]) {
      TrailStartSpec(s, lo, j - 1);
    }
  }

  /** `strip` keeps the slice `s[a..a + |r|]` of its argument, which
      neither starts nor ends with whitespace, and everything it drops is
      whitespace. */
  lemma TrimSpec(s: string) returns (a: nat)
    ensures var r := Trim(s);
      && a + |r| <= |s| && r == s[a..a + |r|]
      && (r == [] || (!IsSpace(r[0]) && !IsSpace(r[|r| - 1])))
      && (forall i :: 0 <= i < a ==> IsSpace(s[i]))
      && (forall i :: a + |r| <= i < |s| ==> IsSpace(s[i]))
  {
    a := LeadEnd(s, 0);
    var e := TrailStart(s, a, |s|);
    LeadEndSpec(s, 0);
    TrailStartSpec(s, a, |s|);
    var r := Trim(s);
    assert r == s[a..e];
    if r != [] {
      assert r[0] == s[a];
      assert r[|r| - 1] == s[e - 1];
    }
  }

  /** A string that neither starts nor ends with whitespace is its own
      `strip`. */
  lemma TrimStripped(t: string)
    requires t == [] || (!IsSpace(t[0]) && !IsSpace(t[|t| - 1]))
    ensures Trim(t) == t
  {
    assert LeadEnd(t, 0) == 0;
    assert TrailStart(t, 0, |t|) == |t|;
  }

  /** Stripping a stripped string changes nothing. */
  lemma TrimIdempotent(s: string)
    ensures Trim(Trim(s)) == Trim(s)
  {
    var _ := TrimSpec(s);
    TrimStripped(Trim(s));
  }

  /** `str.upper` on one character (ASCII letters only). */
  function UpperChar(c: char): char {
    if 'a' <= c <= 'z' then (c as int - 32) as char else c
  }

  /** `str.lower` on one character (ASCII letters only). */
  function LowerChar(c: char): char {
    if 'A' <= c <= 'Z' then (c as int + 32) as char else c
  }

  function Upper(s: string): string {
    seq(|s|, i requires 0 <= i < |s| => UpperChar(s[i]))
  }

  function Lower(s: string): string {
    seq(|s|, i requires 0 <= i < |s| => LowerChar(s[i]))
  }

  /** No character of `s` is changed by `str.upper`. */
  predicate IsUpperText(s: string) {
    forall i :: 0 <= i < |s| ==> UpperChar(s[i]) == s[i]
  }

  /** `s.startswith(p)`. */
  predicate StartsWith(s: string, p: string) {
    |p| <= |s| && s[..|p|] == p
  }

  /** `s.endswith(x)`. */
  predicate EndsWith(s: string, x: string) {
    |x| <= |s| && s[|s| - |x|..] == x
  }

  /** `s.startswith(prefixes)` with a tuple of prefixes. */
  predicate StartsWithAny(s: string, prefixes: seq<string>) {
    exists i :: 0 <= i < |prefixes| && StartsWith(s, prefixes[i])
  }

  /** `s.replace(c, '')` for a single character `c`. */
  function RemoveChar(s: string, c: char): (r: string)
    ensures c !in r
    ensures forall d :: d != c ==> multiset(r)[d] == multiset(s)[d]
  {
    if s == [] then []
    else
      assert s == s[..|s| - 1] + [s[|s| - 1]];
      RemoveChar(s[..|s| - 1], c) + (if s[|s| - 1] == c then [] else [s[|s| - 1]])
  }

  /** Removal works piece by piece, so the characters it keeps stay in
      their order. */
  lemma {:induction false} RemoveCharConcat(a: string, b: string, c: char)
    ensures RemoveChar(a + b, c) == RemoveChar(a, c) + RemoveChar(b, c)
    decreases |b|
  {
    if b == [] {
      assert a + b == a;
    } else {
      var b', x := b[..|b| - 1], b[|b| - 1];
      assert (a + b)[..|a + b| - 1] == a + b';
      assert (a + b)[|a + b| - 1] == x;
      RemoveCharConcat(a, b', c);
    }
  }

  /** Text without the character is left as it is. */
  lemma {:induction false} RemoveCharAbsent(s: string, c: char)
    requires c !in s
    ensures RemoveChar(s, c) == s
    decreases |s|
  {
    if s != [] {
      assert s == s[..|s| - 1] + [s[|s| - 1]];
      RemoveCharAbsent(s[..|s| - 1], c);
    }
  }
}
