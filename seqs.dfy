/** Generic facts about sequences used by the name and duplicate models. */
module Seqs {

  /** `f` applied to every element, in order. */
  function Apply<T, U>(f: T -> U, s: seq<T>): (r: seq<U>)
    ensures |r| == |s|
    ensures forall i :: 0 <= i < |s| ==> r[i] == f(s[i])
  {
    seq(|s|, i requires 0 <= i < |s| => f(s[i]))
  }

  lemma ApplyConcat<T, U>(f: T -> U, p: seq<T>, q: seq<T>)
    ensures Apply(f, p + q) == Apply(f, p) + Apply(f, q)
  {
  }

  /** Removing the element at `j` removes one copy of it from the multiset. */
  lemma RemoveAt<T>(b: seq<T>, j: int)
    requires 0 <= j < |b|
    ensures multiset(b[..j] + b[j + 1..]) == multiset(b) - multiset{b[j]}
  {
    assert b == b[..j] + [b[j]] + b[j + 1..];
  }

  /** Dropping the element at `j` before applying `f` drops one copy of
      its image from the multiset of results. */
  lemma ApplyRemoveAt<T, U>(f: T -> U, b: seq<T>, j: int)
    requires 0 <= j < |b|
    ensures multiset(Apply(f, b)) == multiset(Apply(f, b[..j] + b[j + 1..])) + multiset{f(b[j])}
  {
    var fb := Apply(f, b);
    var rest := b[..j] + b[j + 1..];
    forall i | 0 <= i < |rest| ensures Apply(f, rest)[i] == (fb[..j] + fb[j + 1..])[i] {
      if i < j {
        assert rest[i] == b[i];
      } else {
        assert rest[i] == b[i + 1];
      }
    }
    assert Apply(f, rest) == fb[..j] + fb[j + 1..];
    RemoveAt(fb, j);
    assert fb[j] in multiset(fb);
  }

  lemma ApplyCons<T, U>(f: T -> U, x: T, s: seq<T>)
    ensures Apply(f, [x] + s) == [f(x)] + Apply(f, s)
  {
  }

  /** The image of the first element, and the images of the rest. */
  lemma ApplyFirst<T, U>(f: T -> U, a: seq<T>)
    requires a != []
    ensures multiset(Apply(f, a)) == multiset(Apply(f, a[1..])) + multiset{f(a[0])}
  {
    assert Apply(f, a) == [f(a[0])] + Apply(f, a[1..]);
  }

  /** A position at which `x` occurs in `b`. */
  lemma FindIndex<T>(b: seq<T>, x: T) returns (j: int)
    requires x in multiset(b)
    ensures 0 <= j < |b| && b[j] == x
  {
    j :| 0 <= j < |b| && b[j] == x;
  }

  /** Applying `f` to every element of two permutations gives two permutations. */
  lemma {:induction false} ApplyPermutation<T, U>(f: T -> U, a: seq<T>, b: seq<T>)
    requires multiset(a) == multiset(b)
    ensures multiset(Apply(f, a)) == multiset(Apply(f, b))
    decreases |a|
  {
    if a == [] {
      assert |b| == |multiset(b)| == 0;
    } else {
      var j := FindIndex(b, a[0]);
      var a', b' := a[1..], b[..j] + b[j + 1..];
      RemoveAt(b, j);
      assert a == [a[0]] + a';
      assert multiset(a') == multiset(b');
      ApplyPermutation(f, a', b');
      ApplyRemoveAt(f, b, j);
      ApplyFirst(f, a);
    }
  }
}
