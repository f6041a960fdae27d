/** Sequence helpers shared by the collection queries of the model: filtering, counting, first match. */
module Seqs {
  import opened Wrappers

  /** The elements of `s` satisfying `f`, in their original order (a `where` clause). */
  function Filter<T(!new)>(s: seq<T>, f: T -> bool): (r: seq<T>)
    ensures |r| <= |s|
    ensures forall x :: x in r <==> x in s && f(x)
    ensures multiset(r) <= multiset(s)
  {
    if s == [] then []
    else
      assert s == [s[0]] + s[1..];
      (if f(s[0]) then [s[0]] else []) + Filter(s[1..], f)
  }

  /** How many elements of `s` satisfy `f` (a `COUNT(*)` under a `where` clause). */
  function Count<T>(s: seq<T>, f: T -> bool): nat
  {
    if s == [] then 0 else (if f(s[0]) then 1 else 0) + Count(s[1..], f)
  }

  /** The first element of `s` satisfying `f`, if any (a query's `first()`). */
  function First<T(!new)>(s: seq<T>, f: T -> bool): (r: Option<T>)
    ensures r.Some? ==> r.value in s && f(r.value)
    ensures r.None? <==> forall x :: x in s ==> !f(x)
  {
    if s == [] then None else if f(s[0]) then Some(s[0]) else First(s[1..], f)
  }

  /** Every element of `s` occurs in it exactly once. */
  ghost predicate Unique<T>(s: seq<T>)
  {
    forall x | x in s :: multiset(s)[x] == 1
  }

  lemma {:induction false} CountIsFilterLength<T(!new)>(s: seq<T>, f: T -> bool)
    ensures Count(s, f) == |Filter(s, f)|
  {
    if s != [] {
      CountIsFilterLength(s[1..], f);
    }
  }

  lemma {:induction false} CountAppend<T>(a: seq<T>, b: seq<T>, f: T -> bool)
    ensures Count(a + b, f) == Count(a, f) + Count(b, f)
  {
    if a == [] {
      assert a + b == b;
    } else {
      assert (a + b)[1..] == a[1..] + b;
      CountAppend(a[1..], b, f);
    }
  }

  /** When no element satisfies `f`, the count is zero. */
  lemma {:induction false} CountNone<T>(s: seq<T>, f: T -> bool)
    requires forall x :: x in s ==> !f(x)
    ensures Count(s, f) == 0
  {
    if s != [] {
      CountNone(s[1..], f);
    }
  }

  /** Counting under `f` and under `g` agrees when the two predicates agree on `s`. */
  lemma {:induction false} CountCongruent<T>(s: seq<T>, f: T -> bool, g: T -> bool)
    requires forall x :: x in s ==> f(x) == g(x)
    ensures Count(s, f) == Count(s, g)
  {
    if s != [] {
      CountCongruent(s[1..], f, g);
    }
  }

  /** Two disjoint predicates: the count of their union is the sum of the counts. */
  lemma {:induction false} CountSplit<T>(s: seq<T>, f: T -> bool, g: T -> bool, h: T -> bool)
    requires forall x :: x in s ==> (h(x) <==> f(x) || g(x)) && !(f(x) && g(x))
    ensures Count(s, h) == Count(s, f) + Count(s, g)
  {
    if s != [] {
      CountSplit(s[1..], f, g, h);
    }
  }

  /** A sub-multiset of a sequence without repetitions has none either. */
  lemma UniqueSubMultiset<T>(s: seq<T>, t: seq<T>)
    requires Unique(t) && multiset(s) <= multiset(t)
    ensures Unique(s)
  {
    forall x | x in s ensures multiset(s)[x] == 1 {
      assert x in multiset(s);
    }
  }

  /** The head of a sequence without repetitions does not occur in its tail. */
  lemma UniqueHead<T>(s: seq<T>)
    requires Unique(s) && s != []
    ensures s[0] !in s[1..] && Unique(s[1..])
  {
    assert s == [s[0]] + s[1..];
    assert multiset(s) == multiset{s[0]} + multiset(s[1..]);
    assert multiset(s)[s[0]] == 1;
    forall x | x in s[1..] ensures multiset(s[1..])[x] == 1 {
      assert x in s;
    }
  }

  /** Distinct positions hold distinct elements. */
  ghost predicate NoRepeats<T>(s: seq<T>)
  {
    forall i, j | 0 <= i < j < |s| :: s[i] != s[j]
  }

  lemma NoRepeatsHead<T>(s: seq<T>)
    requires NoRepeats(s) && s != []
    ensures s[0] !in s[1..] && NoRepeats(s[1..])
  {
    assert forall j | 0 <= j < |s[1..]| :: s[1..][j] == s[j + 1];
  }

  /** The converse: distinct elements at distinct positions means no element occurs twice. */
  lemma {:induction false} NoRepeatsUnique<T>(s: seq<T>)
    requires NoRepeats(s)
    ensures Unique(s)
  {
    if s != [] {
      NoRepeatsHead(s);
      NoRepeatsUnique(s[1..]);
      assert s == [s[0]] + s[1..];
      UniqueAppend([s[0]], s[1..]);
    }
  }

  /** Two sequences without repetitions and with the same elements are permutations of each other. */
  lemma SameElementsPermutation<T>(a: seq<T>, b: seq<T>)
    requires Unique(a) && Unique(b)
    requires forall x :: x in a <==> x in b
    ensures multiset(a) == multiset(b)
  {
    forall x ensures multiset(a)[x] == multiset(b)[x] {
      if x !in a {
        assert x !in multiset(a) && x !in multiset(b);
      }
    }
  }

  /** In a sequence without repetitions, distinct positions hold distinct elements. */
  lemma {:induction false} UniqueIndices<T>(s: seq<T>)
    requires Unique(s)
    ensures NoRepeats(s)
  {
    if s != [] {
      UniqueHead(s);
      UniqueIndices(s[1..]);
      forall i, j | 0 <= i < j < |s| ensures s[i] != s[j] {
        if i == 0 {
          assert s[j] == s[1..][j - 1];
        } else {
          assert s[i] == s[1..][i - 1] && s[j] == s[1..][j - 1];
        }
      }
    }
  }

  /** Concatenating two disjoint sequences without repetitions gives one without repetitions. */
  lemma UniqueAppend<T>(a: seq<T>, b: seq<T>)
    requires Unique(a) && Unique(b)
    requires forall x | x in a :: x !in b
    ensures Unique(a + b)
  {
    assert multiset(a + b) == multiset(a) + multiset(b);
    forall x | x in a + b ensures multiset(a + b)[x] == 1 {
      if x in a {
        assert x !in multiset(b);
      } else {
        assert x !in multiset(a);
      }
    }
  }

  lemma FilterSingle<T(!new)>(x: T, f: T -> bool)
    ensures Filter([x], f) == if f(x) then [x] else []
  {
    assert [x][1..] == [];
  }

  /** Filtering a concatenation filters each part. */
  lemma {:induction false} FilterAppend<T(!new)>(a: seq<T>, b: seq<T>, f: T -> bool)
    ensures Filter(a + b, f) == Filter(a, f) + Filter(b, f)
  {
    if a == [] {
      assert a + b == b;
    } else {
      assert (a + b)[1..] == a[1..] + b;
      FilterAppend(a[1..], b, f);
    }
  }

  /** Filtering `init + [last]`: the filtered `init`, then `last` if it passes. */
  lemma FilterSnoc<T(!new)>(init: seq<T>, last: T, f: T -> bool)
    ensures Filter(init + [last], f) == Filter(init, f) + (if f(last) then [last] else [])
  {
    FilterAppend(init, [last], f);
    FilterSingle(last, f);
  }

  /** Putting `x` in front of a sequence that has nothing else passing `f` alongside it. */
  lemma FilterFront<T(!new)>(x: T, s: seq<T>, f: T -> bool)
    requires f(x) ==> Filter(s, f) == []
    ensures Filter([x] + s, f) == Filter(s, f) + (if f(x) then [x] else [])
  {
    FilterAppend([x], s, f);
    FilterSingle(x, f);
    if f(x) {
      assert Filter([x] + s, f) == [x] + [];
    } else {
      assert Filter([x] + s, f) == [] + Filter(s, f);
    }
  }

  /** An equation between filtered sequences survives putting the same element in front of both. */
  lemma FilterConsShift<T(!new)>(h: T, rest: seq<T>, s: seq<T>, f: T -> bool, extra: seq<T>)
    requires Filter(rest, f) == Filter(s, f) + extra
    ensures Filter([h] + rest, f) == Filter([h] + s, f) + extra
  {
    FilterAppend([h], rest, f);
    FilterAppend([h], s, f);
    AppendAssoc(Filter([h], f), Filter(s, f), extra);
  }

  lemma AppendAssoc<T>(a: seq<T>, b: seq<T>, c: seq<T>)
    ensures a + (b + c) == (a + b) + c
  {
  }

  /** The elements of `front + [last]`. */
  lemma ElementsSnoc<T>(front: seq<T>, last: T)
    ensures (set x | x in front + [last]) == (set x | x in front) + {last}
  {
  }
}
