// Small sequence utilities shared by the rest of the model: the optional value,
// list reversal (Array.prototype.reverse), removal of every occurrence of a value
// (lodash `without`) and first-index lookup (Array.prototype.indexOf / lodash `find`).

module Basics {

  datatype Option<T> = None | Some(value: T)

  /** The elements of `s` in the opposite order. */
  function Reverse<T>(s: seq<T>): seq<T>
  {
    if s == [] then [] else Reverse(s[1..]) + [s[0]]
  }

  lemma {:induction false} ReverseLength<T>(s: seq<T>)
    ensures |Reverse(s)| == |s|
  {
    if s != [] {
      ReverseLength(s[1..]);
    }
  }

  /** Position i of the reversal holds position |s|-1-i of the original. */
  lemma {:induction false} ReverseAt<T>(s: seq<T>, i: int)
    requires 0 <= i < |s|
    ensures |Reverse(s)| == |s|
    ensures Reverse(s)[i] == s[|s| - 1 - i]
  {
    ReverseLength(s);
    if i < |s| - 1 {
      ReverseLength(s[1..]);
      ReverseAt(s[1..], i);
    }
  }

  lemma {:induction false} ReverseMultiset<T>(s: seq<T>)
    ensures multiset(Reverse(s)) == multiset(s)
  {
    if s != [] {
      ReverseMultiset(s[1..]);
      assert s == [s[0]] + s[1..];
    }
  }

  /** Reversal keeps the elements. */
  lemma ReverseElements<T>(s: seq<T>)
    ensures forall x :: x in Reverse(s) <==> x in s
  {
    ReverseMultiset(s);
    forall x
      ensures x in Reverse(s) <==> x in s
    {
      assert x in Reverse(s) <==> x in multiset(Reverse(s));
    }
  }

  /** Reversing a sequence whose first element is dropped: peeling off the last element. */
  lemma ReverseCons<T>(x: T, s: seq<T>)
    ensures Reverse([x] + s) == Reverse(s) + [x]
  {
    assert ([x] + s)[1..] == s;
  }

  lemma {:induction false} ReverseInvolution<T>(s: seq<T>)
    ensures Reverse(Reverse(s)) == s
  {
    ReverseLength(s);
    ReverseLength(Reverse(s));
    forall i | 0 <= i < |s|
      ensures Reverse(Reverse(s))[i] == s[i]
    {
      ReverseAt(Reverse(s), i);
      ReverseAt(s, |s| - 1 - i);
    }
  }

  /** Every position at once: the reversal reads the original from the back. */
  lemma ReverseAll<T>(s: seq<T>)
    ensures |Reverse(s)| == |s|
    ensures forall i :: 0 <= i < |s| ==> Reverse(s)[i] == s[|s| - 1 - i]
  {
    ReverseLength(s);
    forall i | 0 <= i < |s|
      ensures Reverse(s)[i] == s[|s| - 1 - i]
    {
      ReverseAt(s, i);
    }
  }

  /** Reversal keeps the elements distinct. */
  lemma ReverseDistinct<T>(s: seq<T>)
    requires Distinct(s)
    ensures Distinct(Reverse(s))
  {
    ReverseAll(s);
  }

  /** Dropping the last element of a prefix leaves the shorter prefix. */
  lemma PrefixOfPrefix<T>(s: seq<T>, m: int)
    requires 0 < m <= |s|
    ensures s[..m][..m - 1] == s[..m - 1] && s[..m][m - 1] == s[m - 1]
  {
  }

  /** `s` with every occurrence of `x` removed, order kept. */
  function Without<T(==)>(s: seq<T>, x: T): (r: seq<T>)
    ensures x !in r
    ensures multiset(r) == multiset(s)[x := 0]
  {
    if s == [] then []
    else
      var rest := Without(s[1..], x);
      assert s == [s[0]] + s[1..];
      if s[0] == x then rest else [s[0]] + rest
  }

  /** Removing a value that occurs once shortens the sequence by exactly one. */
  lemma WithoutSingle<T>(s: seq<T>, x: T)
    requires multiset(s)[x] == 1
    ensures |Without(s, x)| == |s| - 1
  {
    var r := Without(s, x);
    assert |multiset(r)| == |multiset(s)| - 1 by {
      assert multiset(s) == multiset(r) + multiset{x};
    }
  }

  /** Removing a value that does not occur changes nothing. */
  lemma {:induction false} WithoutAbsent<T>(s: seq<T>, x: T)
    requires x !in s
    ensures Without(s, x) == s
  {
    if s != [] {
      WithoutAbsent(s[1..], x);
      assert s == [s[0]] + s[1..];
    }
  }

  /** The first index of `x` in `s`, or -1 when `x` does not occur. */
  function IndexOf<T(==)>(s: seq<T>, x: T): (r: int)
    ensures -1 <= r < |s|
    ensures r == -1 <==> x !in s
    ensures 0 <= r ==> s[r] == x && x !in s[..r]
  {
    if s == [] then -1
    else if s[0] == x then 0
    else
      var r := IndexOf(s[1..], x);
      assert s[1..][..if r < 0 then 0 else r] == s[1..if r < 0 then 1 else r + 1];
      if r == -1 then -1 else r + 1
  }

  /** Every element of `s` is distinct. */
  predicate Distinct<T(==)>(s: seq<T>)
  {
    forall i, j :: 0 <= i < |s| && 0 <= j < |s| && i != j ==> s[i] != s[j]
  }

  /**
   * The same property, stated from the back one element at a time (the last
   * element does not occur before it). Being recursive, it does not put a
   * quantifier over every pair of positions into each proof that mentions it.
   */
  predicate NoDups<T(==)>(s: seq<T>)
  {
    |s| == 0 || (s[|s| - 1] !in s[..|s| - 1] && NoDups(s[..|s| - 1]))
  }

  lemma {:induction false} NoDupsIffDistinct<T>(s: seq<T>)
    ensures NoDups(s) <==> Distinct(s)
  {
    if |s| > 0 {
      var init := s[..|s| - 1];
      NoDupsIffDistinct(init);
      assert forall i :: 0 <= i < |init| ==> init[i] == s[i];
      if Distinct(s) {
        forall i | 0 <= i < |init|
          ensures init[i] != s[|s| - 1]
        {
          assert init[i] == s[i];
        }
      }
    }
  }

  /** The last two of three multisets joined may change places. */
  lemma UnionSwap<T>(a: multiset<T>, b: multiset<T>, c: multiset<T>)
    ensures a + b + c == a + c + b
  {
  }

  /** A sequence has no repetitions exactly when no element occurs in it twice. */
  lemma {:induction false} NoDupsIffSingles<T>(s: seq<T>)
    ensures NoDups(s) <==> forall x :: multiset(s)[x] <= 1
  {
    if |s| > 0 {
      var init, last := s[..|s| - 1], s[|s| - 1];
      assert s == init + [last];
      NoDupsIffSingles(init);
      assert multiset(s) == multiset(init) + multiset{last};
      if forall x :: multiset(s)[x] <= 1 {
        assert multiset(s)[last] <= 1;
        forall x
          ensures multiset(init)[x] <= 1
        {
          assert multiset(s)[x] <= 1;
        }
      }
    }
  }

  /** A permutation of a sequence without repetitions has none either. */
  lemma PermutationDistinct<T>(s: seq<T>, t: seq<T>)
    requires multiset(s) == multiset(t) && Distinct(s)
    ensures Distinct(t)
  {
    NoDupsIffDistinct(s);
    NoDupsIffSingles(s);
    NoDupsIffSingles(t);
    NoDupsIffDistinct(t);
  }

  /** Appending an element that does not occur keeps the elements distinct. */
  lemma NoDupsAppend<T>(s: seq<T>, x: T)
    requires NoDups(s) && x !in s
    ensures NoDups(s + [x])
  {
    assert (s + [x])[..|s|] == s;
  }

  /** Reversal keeps a sequence without repetitions so, and keeps its elements. */
  lemma ReverseNoDups<T>(s: seq<T>)
    requires NoDups(s)
    ensures NoDups(Reverse(s))
    ensures forall x :: x in Reverse(s) <==> x in s
  {
    NoDupsIffDistinct(s);
    ReverseDistinct(s);
    NoDupsIffDistinct(Reverse(s));
    ReverseElements(s);
  }

  /** Cutting one element out of a sequence without repetitions leaves one without repetitions. */
  lemma SpliceDistinct<T>(s: seq<T>, k: int)
    requires Distinct(s) && 0 <= k < |s|
    ensures Distinct(s[..k] + s[k + 1..])
    ensures s[k] !in s[..k] + s[k + 1..]
    ensures forall x :: x in s[..k] + s[k + 1..] <==> x in s && x != s[k]
  {
    var r := s[..k] + s[k + 1..];
    assert forall i :: 0 <= i < |r| ==> r[i] == if i < k then s[i] else s[i + 1];
    forall x | x in s && x != s[k]
      ensures x in r
    {
      var i :| 0 <= i < |s| && s[i] == x;
      assert r[if i < k then i else i - 1] == x;
    }
  }

  /** `SpliceDistinct`, for `NoDups`. */
  lemma SpliceNoDups<T>(s: seq<T>, k: int)
    requires NoDups(s) && 0 <= k < |s|
    ensures NoDups(s[..k] + s[k + 1..])
    ensures s[k] !in s[..k] + s[k + 1..]
    ensures forall x :: x in s[..k] + s[k + 1..] <==> x in s && x != s[k]
  {
    NoDupsIffDistinct(s);
    SpliceDistinct(s, k);
    NoDupsIffDistinct(s[..k] + s[k + 1..]);
  }

  /** In a sequence without repetitions the first index of an element is its only index. */
  lemma IndexOfDistinct<T>(s: seq<T>, i: int)
    requires NoDups(s) && 0 <= i < |s|
    ensures IndexOf(s, s[i]) == i
  {
    NoDupsIffDistinct(s);
  }
}
