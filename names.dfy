/** Name normalisation: `standardize_name` (upper-case a name, split it into
    whitespace-separated words, sort them and rejoin them with single spaces)
    and the word-sorted full name the duplicate-name screen builds without
    upper-casing. Python's `str.split()`, `' '.join` and `sorted` on strings
    are modelled here. */
module Names {
  import opened Text
  import opened Seqs

  /** A word as `str.split()` yields it: non-empty, no whitespace. */
  predicate IsWord(w: string) {
    w != [] && forall i :: 0 <= i < |w| ==> !IsSpace(w[i])
  }

  predicate AllWords(ws: seq<string>) {
    forall w :: w in ws ==> IsWord(w)
  }

  predicate AllUpper(ws: seq<string>) {
    forall w :: w in ws ==> IsUpperText(w)
  }

  /** Length of the longest whitespace-free prefix of `s`. */
  function WordLen(s: string): (n: nat)
    ensures n <= |s|
    ensures forall i :: 0 <= i < n ==> !IsSpace(s[i])
    ensures n == |s| || IsSpace(s[n])
  {
    if s == [] || IsSpace(s[0]) then 0 else 1 + WordLen(s[1..])
  }

  /** Python's `s.split()` without arguments: the maximal runs of
      non-whitespace characters, in order. */
  function Words(s: string): seq<string>
    decreases |s|
  {
    if s == [] then []
    else if IsSpace(s[0]) then Words(s[1..])
    else
      var n := WordLen(s);
      [s[..n]] + Words(s[n..])
  }

  /** Every item `split` yields is a word, and an upper-case text splits
      into upper-case words. */
  lemma {:induction false} WordsAreWords(s: string)
    ensures AllWords(Words(s))
    ensures IsUpperText(s) ==> AllUpper(Words(s))
    decreases |s|
  {
    if s == [] {
    } else if IsSpace(s[0]) {
      WordsAreWords(s[1..]);
    } else {
      var n := WordLen(s);
      WordsAreWords(s[n..]);
      var ws := Words(s);
      assert ws == [s[..n]] + Words(s[n..]);
      forall w | w in ws ensures IsWord(w) && (IsUpperText(s) ==> IsUpperText(w)) {
        if w != s[..n] {
          assert w in Words(s[n..]);
        }
      }
    }
  }

  /** Python's `' '.join(ws)`. */
  function JoinSpace(ws: seq<string>): string {
    if ws == [] then ""
    else if |ws| == 1 then ws[0]
    else ws[0] + " " + JoinSpace(ws[1..])
  }

  /** Python's `a <= b` on strings: lexicographic by code point, a proper
      prefix coming first. */
  predicate Below(a: string, b: string)
    decreases |a|
  {
    a == [] || (b != [] && (a[0] < b[0] || (a[0] == b[0] && Below(a[1..], b[1..]))))
  }

  predicate Sorted(ws: seq<string>) {
    forall i, j :: 0 <= i < j < |ws| ==> Below(ws[i], ws[j])
  }

  lemma {:induction false} BelowReflexive(a: string)
    ensures Below(a, a)
    decreases |a|
  {
    if a != [] { BelowReflexive(a[1..]); }
  }

  lemma {:induction false} BelowTotal(a: string, b: string)
    ensures Below(a, b) || Below(b, a)
    decreases |a|
  {
    if a != [] && b != [] && a[0] == b[0] { BelowTotal(a[1..], b[1..]); }
  }

  lemma {:induction false} BelowAntisymmetric(a: string, b: string)
    requires Below(a, b) && Below(b, a)
    ensures a == b
    decreases |a|
  {
    if a != [] {
      BelowAntisymmetric(a[1..], b[1..]);
      assert a == [a[0]] + a[1..] && b == [b[0]] + b[1..];
    }
  }

  lemma {:induction false} BelowTransitive(a: string, b: string, c: string)
    requires Below(a, b) && Below(b, c)
    ensures Below(a, c)
    decreases |a|
  {
    if a != [] && a[0] == b[0] && b[0] == c[0] { BelowTransitive(a[1..], b[1..], c[1..]); }
  }

  /** Every element of `t` lies above `y` when `t` holds `x` and the elements
      of `s`, all of which lie above `y`. */
  lemma AboveAll(y: string, x: string, s: seq<string>, t: seq<string>)
    requires multiset(t) == multiset(s) + multiset{x}
    requires Below(y, x)
    requires forall e :: e in s ==> Below(y, e)
    ensures forall i :: 0 <= i < |t| ==> Below(y, t[i])
  {
    forall i | 0 <= i < |t| ensures Below(y, t[i]) {
      assert t[i] in multiset(t);
    }
  }

  /** Inserts `x` into the sorted `s` before the first element it lies below. */
  function Insert(x: string, s: seq<string>): (r: seq<string>)
    requires Sorted(s)
    ensures Sorted(r)
    ensures multiset(r) == multiset(s) + multiset{x}
  {
    if s == [] then [x]
    else if Below(x, s[0]) then
      SortedCons(x, s);
      [x] + s
    else
      BelowTotal(x, s[0]);
      var t := Insert(x, s[1..]);
      AboveAll(s[0], x, s[1..], t);
      SortedPrepend(s[0], t);
      assert s == [s[0]] + s[1..];
      [s[0]] + t
  }

  /** Placing `x` before the sorted `s` keeps it sorted when `x` lies below
      its first element. */
  lemma SortedCons(x: string, s: seq<string>)
    requires Sorted(s) && s != [] && Below(x, s[0])
    ensures Sorted([x] + s)
  {
    forall j | 0 <= j < |s| ensures Below(x, s[j]) {
      if j > 0 { BelowTransitive(x, s[0], s[j]); }
    }
    SortedPrepend(x, s);
  }

  lemma SortedPrepend(y: string, t: seq<string>)
    requires Sorted(t)
    requires forall i :: 0 <= i < |t| ==> Below(y, t[i])
    ensures Sorted([y] + t)
  {
    var r := [y] + t;
    forall i, j | 0 <= i < j < |r| ensures Below(r[i], r[j]) {
      assert r[j] == t[j - 1];
      if i > 0 { assert r[i] == t[i - 1]; }
    }
  }

  /** Python's `sorted(ws)` on strings. */
  function SortWords(ws: seq<string>): (r: seq<string>)
    ensures Sorted(r)
    ensures multiset(r) == multiset(ws)
  {
    if ws == [] then []
    else
      assert ws == [ws[0]] + ws[1..];
      Insert(ws[0], SortWords(ws[1..]))
  }

  /** Two sorted sequences holding the same strings start alike. */
  lemma SortedHeads(a: seq<string>, b: seq<string>)
    requires Sorted(a) && Sorted(b)
    requires multiset(a) == multiset(b)
    requires a != []
    ensures b != [] && a[0] == b[0]
  {
    assert |b| == |multiset(b)| == |a|;
    assert a[0] in multiset(b) && b[0] in multiset(a);
    var j :| 0 <= j < |b| && b[j] == a[0];
    var i :| 0 <= i < |a| && a[i] == b[0];
    BelowReflexive(a[0]);
    assert Below(b[0], a[0]) by { if j > 0 { assert Below(b[0], b[j]); } }
    assert Below(a[0], b[0]) by { if i > 0 { assert Below(a[0], a[i]); } }
    BelowAntisymmetric(a[0], b[0]);
  }

  /** Two sorted sequences holding the same strings are equal: `sorted`
      has one answer per multiset of words. */
  lemma {:induction false} SortedUnique(a: seq<string>, b: seq<string>)
    requires Sorted(a) && Sorted(b)
    requires multiset(a) == multiset(b)
    ensures a == b
    decreases |a|
  {
    if a == [] {
      assert |b| == |multiset(b)| == 0;
    } else {
      SortedHeads(a, b);
      assert a == [a[0]] + a[1..] && b == [b[0]] + b[1..];
      assert multiset(a[1..]) == multiset(a) - multiset{a[0]};
      assert multiset(b[1..]) == multiset(b) - multiset{b[0]};
      SortedUnique(a[1..], b[1..]);
    }
  }

  lemma AllWordsPermutation(a: seq<string>, b: seq<string>)
    requires multiset(a) == multiset(b)
    ensures AllWords(a) ==> AllWords(b)
    ensures AllUpper(a) ==> AllUpper(b)
  {
    forall w | w in b ensures w in a {
      assert w in multiset(b);
    }
  }

  lemma {:induction false} WordLenOfWord(w: string, t: string)
    requires IsWord(w)
    requires t == [] || IsSpace(t[0])
    ensures WordLen(w + t) == |w|
    decreases |w|
  {
    if |w| > 1 {
      assert (w + t)[1..] == w[1..] + t;
      WordLenOfWord(w[1..], t);
    } else {
      assert (w + t)[1..] == t;
    }
  }

  /** `' '.join` of words, split again, gives back the words. */
  lemma {:induction false} WordsOfJoin(ws: seq<string>)
    requires AllWords(ws)
    ensures Words(JoinSpace(ws)) == ws
    decreases |ws|
  {
    if ws == [] {
    } else if |ws| == 1 {
      var w := ws[0];
      assert ws[0] in ws;
      WordLenOfWord(w, []);
      assert w + [] == w;
      assert w[|w|..] == [];
    } else {
      var w, rest := ws[0], JoinSpace(ws[1..]);
      var s := w + (" " + rest);
      assert ws[0] in ws;
      assert s == JoinSpace(ws);
      WordLenOfWord(w, " " + rest);
      assert s[..|w|] == w;
      assert s[|w|..] == " " + rest;
      assert (" " + rest)[1..] == rest;
      assert Words(" " + rest) == Words(rest);
      assert AllWords(ws[1..]) by {
        forall x | x in ws[1..] ensures IsWord(x) { assert x in ws; }
      }
      WordsOfJoin(ws[1..]);
      assert ws == [w] + ws[1..];
    }
  }

  lemma {:induction false} JoinUpper(ws: seq<string>)
    requires AllUpper(ws)
    ensures IsUpperText(JoinSpace(ws))
    decreases |ws|
  {
    assert forall i :: 0 <= i < |ws| ==> IsUpperText(ws[i]) by {
      forall i | 0 <= i < |ws| ensures IsUpperText(ws[i]) { assert ws[i] in ws; }
    }
    if |ws| > 1 {
      assert AllUpper(ws[1..]) by {
        forall x | x in ws[1..] ensures IsUpperText(x) { assert x in ws; }
      }
      JoinUpper(ws[1..]);
      var s := ws[0] + " " + JoinSpace(ws[1..]);
      forall i | 0 <= i < |s| ensures UpperChar(s[i]) == s[i] {
        if i < |ws[0]| {
          assert s[i] == ws[0][i];
        } else if i > |ws[0]| {
          assert s[i] == JoinSpace(ws[1..])[i - |ws[0]| - 1];
        }
      }
    }
  }

  /** The word-sorted form of a name (the duplicate-name screen's key):
      `' '.join(sorted(s.split()))`. */
  function SortedName(s: string): (r: string)
    ensures Sorted(Words(r))
    ensures multiset(Words(r)) == multiset(Words(s))
    ensures r == JoinSpace(Words(r))
    ensures IsUpperText(s) ==> IsUpperText(r)
  {
    var ws := SortWords(Words(s));
    WordsAreWords(s);
    AllWordsPermutation(Words(s), ws);
    WordsOfJoin(ws);
    if IsUpperText(s) then JoinUpper(ws); JoinSpace(ws) else JoinSpace(ws)
  }

  /** `standardize_name`: the name upper-cased, split into words, sorted and
      rejoined with single spaces. */
  function StandardizeName(name: string): (r: string)
    ensures IsUpperText(r)
    ensures Sorted(Words(r))
    ensures multiset(Words(r)) == multiset(Words(Upper(name)))
    ensures r == JoinSpace(Words(r))
  {
    SortedName(Upper(name))
  }

  lemma {:induction false} WordLenAppend(a: string, t: string)
    requires t == [] || IsSpace(t[0])
    ensures WordLen(a + t) == WordLen(a)
    decreases |a|
  {
    if a == [] {
      assert a + t == t;
    } else if !IsSpace(a[0]) {
      assert (a + t)[1..] == a[1..] + t;
      WordLenAppend(a[1..], t);
    }
  }

  /** Splitting two texts joined by a space gives the words of the first
      followed by the words of the second. */
  lemma {:induction false} WordsSpaceConcat(a: string, b: string)
    ensures Words(a + " " + b) == Words(a) + Words(b)
    decreases |a|, 1
  {
    var s := a + " " + b;
    if a == [] {
      assert s == " " + b;
      WordsSkip(s);
      assert s[1..] == b;
    } else if IsSpace(a[0]) {
      WordsSkip(s);
      WordsSkip(a);
      assert s[1..] == a[1..] + " " + b;
      WordsSpaceConcat(a[1..], b);
    } else {
      WordsSpaceConcatWord(a, b);
    }
  }

  /** `WordsSpaceConcat` when `a` starts with a word. */
  lemma {:induction false} WordsSpaceConcatWord(a: string, b: string)
    requires a != [] && !IsSpace(a[0])
    ensures Words(a + " " + b) == Words(a) + Words(b)
    decreases |a|, 0
  {
    var s := a + " " + b;
    var n := WordLen(a);
    var rest := a[n..];
    WordLenAppend(a, " " + b);
    assert s == a + (" " + b);
    assert s[..n] == a[..n];
    assert s[n..] == rest + " " + b;
    WordsTake(s);
    WordsTake(a);
    WordsSpaceConcat(rest, b);
    assert [a[..n]] + (Words(rest) + Words(b)) == ([a[..n]] + Words(rest)) + Words(b);
  }

  /** A leading space is skipped. */
  lemma WordsSkip(s: string)
    requires s != [] && IsSpace(s[0])
    ensures Words(s) == Words(s[1..])
  {
  }

  /** A leading word is taken whole. */
  lemma WordsTake(s: string)
    requires s != [] && !IsSpace(s[0])
    ensures Words(s) == [s[..WordLen(s)]] + Words(s[WordLen(s)..])
  {
  }

  /** Two names have the same word-sorted form exactly when they hold the
      same words, whatever their order and spacing. */
  lemma SortedNameWordOrder(a: string, b: string)
    ensures SortedName(a) == SortedName(b) <==> multiset(Words(a)) == multiset(Words(b))
  {
    if multiset(Words(a)) == multiset(Words(b)) {
      var ra, rb := SortedName(a), SortedName(b);
      SortedUnique(Words(ra), Words(rb));
    }
  }

  /** `standardize_name` is idempotent. */
  lemma StandardizeNameIdempotent(name: string)
    ensures StandardizeName(StandardizeName(name)) == StandardizeName(name)
  {
    var r := StandardizeName(name);
    assert Upper(r) == r;
    SortedUnique(SortWords(Words(r)), Words(r));
  }

  lemma {:induction false} WordLenUpper(s: string)
    ensures WordLen(Upper(s)) == WordLen(s)
    decreases |s|
  {
    if s != [] && !IsSpace(s[0]) {
      assert Upper(s)[1..] == Upper(s[1..]);
      WordLenUpper(s[1..]);
    }
  }

  /** Upper-casing commutes with splitting into words. */
  lemma {:induction false} WordsUpper(s: string)
    ensures Words(Upper(s)) == Apply(Upper, Words(s))
    decreases |s|, 1
  {
    if s == [] {
    } else if IsSpace(s[0]) {
      WordsUpperSpace(s);
    } else {
      WordsUpperWord(s);
    }
  }

  /** `WordsUpper` when `s` starts with a space. */
  lemma {:induction false} WordsUpperSpace(s: string)
    requires s != [] && IsSpace(s[0])
    ensures Words(Upper(s)) == Apply(Upper, Words(s))
    decreases |s|, 0
  {
    var u := Upper(s);
    assert u[0] == UpperChar(s[0]);
    WordsSkip(s);
    WordsSkip(u);
    assert u[1..] == Upper(s[1..]);
    WordsUpper(s[1..]);
  }

  /** `WordsUpper` when `s` starts with a word. */
  lemma {:induction false} WordsUpperWord(s: string)
    requires s != [] && !IsSpace(s[0])
    ensures Words(Upper(s)) == Apply(Upper, Words(s))
    decreases |s|, 0
  {
    var u := Upper(s);
    var n := WordLen(s);
    assert u[0] == UpperChar(s[0]);
    WordLenUpper(s);
    WordsTake(s);
    WordsTake(u);
    assert u[..n] == Upper(s[..n]);
    assert u[n..] == Upper(s[n..]);
    WordsUpper(s[n..]);
    ApplyCons(Upper, s[..n], Words(s[n..]));
  }

  /** `standardize_name` gives the same result for any reordering of a
      name's words. */
  lemma StandardizeNameWordOrder(a: string, b: string)
    requires multiset(Words(a)) == multiset(Words(b))
    ensures StandardizeName(a) == StandardizeName(b)
  {
    WordsUpper(a);
    WordsUpper(b);
    ApplyPermutation(Upper, Words(a), Words(b));
    SortedNameWordOrder(Upper(a), Upper(b));
  }
}
