/** Small facts about integer sequences shared by both game models. */
module Seqs {

  predicate StrictlyIncreasing(s: seq<int>) {
    forall a, b :: 0 <= a < b < |s| ==> s[a] < s[b]
  }

  predicate StrictlyDecreasing(s: seq<int>) {
    forall a, b :: 0 <= a < b < |s| ==> s[a] > s[b]
  }

  predicate Distinct<T(==)>(s: seq<T>) {
    forall a, b :: 0 <= a < b < |s| ==> s[a] != s[b]
  }

  function Sum(s: seq<int>): int {
    if |s| == 0 then 0 else s[0] + Sum(s[1..])
  }

  /** In a sequence without repeats every element occurs exactly once. */
  lemma {:induction false} DistinctCount<T>(s: seq<T>, x: T)
    requires Distinct(s)
    ensures multiset(s)[x] == (if x in s then 1 else 0)
  {
    if |s| > 0 {
      assert s == [s[0]] + s[1..];
      assert Distinct(s[1..]) by {
        forall a, b | 0 <= a < b < |s[1..]|
          ensures s[1..][a] != s[1..][b]
        {
          assert s[a + 1] != s[b + 1];
        }
      }
      DistinctCount(s[1..], x);
      if x == s[0] {
        assert x !in s[1..] by {
          forall k | 0 <= k < |s[1..]|
            ensures s[1..][k] != x
          {
            assert s[0] != s[k + 1];
          }
        }
      }
    }
  }

  /** Two sequences without repeats holding the same elements are permutations of each other. */
  lemma SameElementsSameMultiset(s: seq<int>, t: seq<int>)
    requires Distinct(s) && Distinct(t)
    requires forall x :: x in s <==> x in t
    ensures multiset(s) == multiset(t)
  {
    forall x
      ensures multiset(s)[x] == multiset(t)[x]
    {
      DistinctCount(s, x);
      DistinctCount(t, x);
    }
  }

  /** Prepending an element below all of an increasing sequence keeps it increasing. */
  lemma PrependIncreasing(x: int, s: seq<int>)
    requires StrictlyIncreasing(s)
    requires forall y :: y in s ==> x < y
    ensures StrictlyIncreasing([x] + s)
  {
    forall a, b | 0 <= a < b < |[x] + s|
      ensures ([x] + s)[a] < ([x] + s)[b]
    {
      if a == 0 {
        assert s[b - 1] in s;
      }
    }
  }

  /** Prepending an element that does not occur keeps a sequence without repeats. */
  lemma ConsDistinct<T>(v: T, e: seq<T>)
    requires Distinct(e) && v !in e
    ensures Distinct([v] + e)
  {
    var c := [v] + e;
    forall a, b | 0 <= a < b < |c|
      ensures c[a] != c[b]
    {
      if a == 0 {
        assert c[b] == e[b - 1];
      } else {
        assert c[a] == e[a - 1] && c[b] == e[b - 1];
      }
    }
  }

  /** Two sequences without repeats and without common elements concatenate to one without repeats. */
  lemma ConcatDistinct<T>(xs: seq<T>, ys: seq<T>)
    requires Distinct(xs) && Distinct(ys)
    requires forall x, y :: x in xs && y in ys ==> x != y
    ensures Distinct(xs + ys)
  {
    var zs := xs + ys;
    forall a, b | 0 <= a < b < |zs|
      ensures zs[a] != zs[b]
    {
      if a < |xs| && b >= |xs| {
        assert zs[a] in xs && zs[b] in ys;
      }
    }
  }
}
