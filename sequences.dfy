/** Facts about sequences used by the dependency sort: occurrence counts and
    permutations of duplicate-free sequences. */
module Sequences {

  /** No element occurs twice. */
  predicate Distinct<T(==)>(s: seq<T>) {
    forall i, j :: 0 <= i < j < |s| ==> s[i] != s[j]
  }

  /** Number of occurrences of `x` in `s`, counted from the back so that
      extending a prefix by one element extends the count by one step. */
  function Count<T(==)>(s: seq<T>, x: T): nat {
    if s == [] then 0 else Count(s[..|s| - 1], x) + (if s[|s| - 1] == x then 1 else 0)
  }

  /** `n` copies of `x`. */
  function Repeat<T>(x: T, n: nat): (r: seq<T>)
    ensures |r| == n && forall i :: 0 <= i < n ==> r[i] == x
  {
    seq(n, _ => x)
  }

  lemma {:induction false} CountAppend<T>(a: seq<T>, b: seq<T>, x: T)
    ensures Count(a + b, x) == Count(a, x) + Count(b, x)
    decreases |b|
  {
    if b == [] {
      assert a + b == a;
    } else {
      var b' := b[..|b| - 1];
      assert (a + b)[..|a + b| - 1] == a + b';
      CountAppend(a, b', x);
    }
  }

  /** Extending a prefix by one element adds that element's occurrence. */
  lemma CountPrefixStep<T>(s: seq<T>, k: nat, x: T)
    requires k < |s|
    ensures Count(s[..k + 1], x) == Count(s[..k], x) + (if s[k] == x then 1 else 0)
  {
    assert s[..k + 1][..k] == s[..k];
  }

  lemma {:induction false} CountRepeat<T>(y: T, n: nat, x: T)
    ensures Count(Repeat(y, n), x) == if y == x then n else 0
  {
    if n > 0 {
      assert Repeat(y, n)[..n - 1] == Repeat(y, n - 1);
      CountRepeat(y, n - 1, x);
    }
  }

  /** A prefix holds no more occurrences than the whole sequence. */
  lemma {:induction false} CountPrefix<T>(s: seq<T>, j: nat, x: T)
    requires j <= |s|
    ensures Count(s[..j], x) <= Count(s, x)
  {
    assert s == s[..j] + s[j..];
    CountAppend(s[..j], s[j..], x);
  }

  /** An element of the sequence is counted at least once. */
  lemma {:induction false} CountMember<T>(s: seq<T>, i: nat)
    requires i < |s|
    ensures Count(s, s[i]) >= 1
  {
    if i < |s| - 1 {
      CountMember(s[..|s| - 1], i);
    }
  }

  /** A subset has no more elements than its superset. */
  lemma SubsetCard<T>(a: set<T>, b: set<T>)
    requires a <= b
    ensures |a| <= |b|
  {
    assert b == a + (b - a);
  }

  /** A smaller subset leaves some element out. */
  lemma ProperSubset<T>(a: set<T>, b: set<T>)
    requires a <= b && |a| < |b|
    ensures exists y :: y in b && y !in a
  {
    assert b == a + (b - a);
    assert |b - a| > 0;
  }

  /** Removing the element at `p` removes one occurrence of it. */
  lemma RemoveAtMultiset<T>(b: seq<T>, p: nat)
    requires p < |b|
    ensures multiset(b) == multiset(b[..p] + b[p + 1..]) + multiset{b[p]}
  {
    assert b == b[..p] + [b[p]] + b[p + 1..];
  }

  /** Removing the element at `p` keeps every other element. */
  lemma RemoveAtKeeps<T>(b: seq<T>, p: nat, q: nat)
    requires p < |b| && q < |b| && q != p
    ensures b[q] in b[..p] + b[p + 1..]
  {
    var rest := b[..p] + b[p + 1..];
    if q < p { assert rest[q] == b[q]; } else { assert rest[q - 1] == b[q]; }
  }

  /** Removing an element from a duplicate-free sequence leaves it so. */
  lemma RemoveAtDistinct<T>(b: seq<T>, p: nat)
    requires p < |b| && Distinct(b)
    ensures Distinct(b[..p] + b[p + 1..])
  {
    var rest := b[..p] + b[p + 1..];
    forall i, j | 0 <= i < j < |rest| ensures rest[i] != rest[j] {
      var i' := if i < p then i else i + 1;
      var j' := if j < p then j else j + 1;
      assert rest[i] == b[i'] && rest[j] == b[j'];
    }
  }

  /** Two duplicate-free sequences of the same length, one drawn from the
      other, are permutations of each other. */
  lemma {:induction false} PermutationOfDistinct<T>(a: seq<T>, b: seq<T>)
    requires Distinct(a) && Distinct(b) && |a| == |b|
    requires forall i :: 0 <= i < |a| ==> a[i] in b
    ensures multiset(a) == multiset(b)
  {
    if a != [] {
      var p :| 0 <= p < |b| && b[p] == a[0];
      var rest := b[..p] + b[p + 1..];
      RemoveAtMultiset(b, p);
      RemoveAtDistinct(b, p);
      forall i | 0 <= i < |a| - 1
        ensures a[1..][i] in rest
      {
        var q :| 0 <= q < |b| && b[q] == a[i + 1];
        assert a[i + 1] != a[0];
        RemoveAtKeeps(b, p, q);
      }
      PermutationOfDistinct(a[1..], rest);
      assert a == [a[0]] + a[1..];
    }
  }
}
