/**
 Sorting values, and how many of them lie beyond one of the sorted ones.
 */
module SortedValues {
  import opened Sorting

  ghost predicate Sorted(s: seq<real>) {
    forall i, j :: 0 <= i < j < |s| ==> s[i] <= s[j]
  }

  function Inserted(s: seq<real>, x: real): (r: seq<real>)
    ensures |r| == |s| + 1
  {
    if s == [] || s[|s| - 1] <= x then s + [x] else Inserted(s[..|s| - 1], x) + [s[|s| - 1]]
  }

  function Sort(s: seq<real>): (r: seq<real>)
    ensures |r| == |s|
  {
    if s == [] then [] else Inserted(Sort(s[..|s| - 1]), s[|s| - 1])
  }

  lemma {:induction false} InsertedAtMost(s: seq<real>, x: real, b: real)
    requires x <= b && forall i :: 0 <= i < |s| ==> s[i] <= b
    ensures forall i :: 0 <= i <= |s| ==> Inserted(s, x)[i] <= b
  {
    if s != [] && s[|s| - 1] > x {
      InsertedAtMost(s[..|s| - 1], x, b);
    }
  }

  lemma {:induction false} InsertedSorts(s: seq<real>, x: real)
    requires Sorted(s)
    ensures Sorted(Inserted(s, x))
  {
    if s != [] && s[|s| - 1] > x {
      var n := |s| - 1;
      InsertedSorts(s[..n], x);
      InsertedAtMost(s[..n], x, s[n]);
    }
  }

  lemma MultisetSnoc<T>(s: seq<T>)
    requires s != []
    ensures multiset(s) == multiset(s[..|s| - 1]) + multiset{s[|s| - 1]}
  {
    assert s == s[..|s| - 1] + [s[|s| - 1]];
  }

  lemma {:induction false} InsertedKeeps(s: seq<real>, x: real)
    ensures multiset(Inserted(s, x)) == multiset(s) + multiset{x}
  {
    if s != [] && s[|s| - 1] > x {
      var n := |s| - 1;
      InsertedKeeps(s[..n], x);
      MultisetSnoc(s);
      MultisetSnoc(Inserted(s, x));
      AddInBetween(multiset(s[..n]), multiset{x}, multiset{s[n]});
    } else {
      MultisetSnoc(s + [x]);
    }
  }

  lemma {:induction false} SortSorts(s: seq<real>)
    ensures Sorted(Sort(s)) && multiset(Sort(s)) == multiset(s)
  {
    if s != [] {
      var n := |s| - 1;
      SortSorts(s[..n]);
      InsertedSorts(Sort(s[..n]), s[n]);
      InsertedKeeps(Sort(s[..n]), s[n]);
      assert s == s[..n] + [s[n]];
    }
  }

  // ---- Counting ------------------------------------------------------------------------

  ghost function Count<T(!new)>(s: seq<T>, f: T -> bool): nat {
    if s == [] then 0 else Count(s[..|s| - 1], f) + if f(s[|s| - 1]) then 1 else 0
  }

  ghost function Score<T(!new)>(s: seq<T>, f: T -> real): real {
    if s == [] then 0.0 else Score(s[..|s| - 1], f) + f(s[|s| - 1])
  }

  lemma CountSnoc<T(!new)>(s: seq<T>, x: T, f: T -> bool)
    ensures Count(s + [x], f) == Count(s, f) + if f(x) then 1 else 0
  {
    assert (s + [x])[..|s|] == s;
  }

  lemma ScoreSnoc<T(!new)>(s: seq<T>, x: T, f: T -> real)
    ensures Score(s + [x], f) == Score(s, f) + f(x)
  {
    assert (s + [x])[..|s|] == s;
  }

  lemma {:induction false} Without<T(!new)>(s: seq<T>, f: T -> bool, g: T -> real, k: nat)
    requires k < |s|
    ensures (Count(s, f), Score(s, g)) == (Count(s[..k] + s[k + 1..], f) + (if f(s[k]) then 1 else 0),
                                           Score(s[..k] + s[k + 1..], g) + g(s[k]))
  {
    var front, last := s[..|s| - 1], s[|s| - 1];
    LeaveOut(s, k);
    if k < |front| {
      Without(front, f, g, k);
      CountSnoc(front[..k] + front[k + 1..], last, f);
      ScoreSnoc(front[..k] + front[k + 1..], last, g);
    }
  }

  // Counts and sums do not depend on the order.
  lemma {:induction false} Permuted<T(!new)>(a: seq<T>, b: seq<T>, f: T -> bool, g: T -> real)
    requires multiset(a) == multiset(b)
    ensures Count(a, f) == Count(b, f) && Score(a, g) == Score(b, g)
    decreases |a|
  {
    if a == [] {
      assert |multiset(b)| == 0;
      assert b == [];
    } else {
      var n := |a| - 1;
      RemoveAt(a, n);
      assert a[..n] + a[n + 1..] == a[..n];
      assert a[n] in multiset(b);
      var k :| 0 <= k < |b| && b[k] == a[n];
      RemoveAt(b, k);
      Without(b, f, g, k);
      Permuted(a[..n], b[..k] + b[k + 1..], f, g);
    }
  }

  lemma {:induction false} CountNoneOf<T(!new)>(s: seq<T>, f: T -> bool)
    requires forall i :: 0 <= i < |s| ==> !f(s[i])
    ensures Count(s, f) == 0
  {
    if s != [] {
      CountNoneOf(s[..|s| - 1], f);
    }
  }

  lemma {:induction false} CountAppend<T(!new)>(a: seq<T>, b: seq<T>, f: T -> bool)
    ensures Count(a + b, f) == Count(a, f) + Count(b, f)
  {
    if b == [] {
      assert a + b == a;
    } else {
      CountAppend(a, b[..|b| - 1], f);
      assert (a + b)[..|a + b| - 1] == a + b[..|b| - 1];
    }
  }

  lemma {:induction false} CountAtMostSize<T(!new)>(s: seq<T>, f: T -> bool)
    ensures Count(s, f) <= |s|
  {
    if s != [] {
      CountAtMostSize(s[..|s| - 1], f);
    }
  }

  lemma CountPrefix<T(!new)>(s: seq<T>, f: T -> bool, j: nat)
    requires j <= |s| && forall i :: j <= i < |s| ==> !f(s[i])
    ensures Count(s, f) <= j
  {
    CountNoneOf(s[j..], f);
    CountAtMostSize(s[..j], f);
    CountAppend(s[..j], s[j..], f);
    assert s == s[..j] + s[j..];
  }

  lemma CountSuffix<T(!new)>(s: seq<T>, f: T -> bool, j: nat)
    requires j <= |s| && forall i :: 0 <= i < j ==> !f(s[i])
    ensures Count(s, f) <= |s| - j
  {
    CountNoneOf(s[..j], f);
    CountAtMostSize(s[j..], f);
    CountAppend(s[..j], s[j..], f);
    assert s == s[..j] + s[j..];
  }

  lemma {:induction false} CountEither<T(!new)>(s: seq<T>, f: T -> bool, g: T -> bool, h: T -> bool)
    requires forall i :: 0 <= i < |s| && f(s[i]) ==> g(s[i]) || h(s[i])
    ensures Count(s, f) <= Count(s, g) + Count(s, h)
  {
    if s != [] {
      CountEither(s[..|s| - 1], f, g, h);
    }
  }

  // At most j values are less than the j-th sorted one.
  lemma BelowSorted(s: seq<real>, j: nat, f: real -> bool)
    requires j < |s| && forall i :: j <= i < |s| ==> !f(Sort(s)[i])
    ensures Count(s, f) <= j
  {
    SortSorts(s);
    Permuted(s, Sort(s), f, (x: real) => x);
    CountPrefix(Sort(s), f, j);
  }

  // At most the ones after it are more.
  lemma AboveSorted(s: seq<real>, j: nat, f: real -> bool)
    requires j < |s| && forall i :: 0 <= i <= j ==> !f(Sort(s)[i])
    ensures Count(s, f) <= |s| - 1 - j
  {
    SortSorts(s);
    Permuted(s, Sort(s), f, (x: real) => x);
    CountSuffix(Sort(s), f, j + 1);
  }

  lemma SortedAround(r: seq<real>, j: nat)
    requires Sorted(r) && j < |r|
    ensures forall i :: j <= i < |r| ==> r[j] <= r[i]
    ensures forall i :: 0 <= i <= j ==> r[i] <= r[j]
  {
  }
}
