/**
 Sorting by an integer key.  The contract says sorted and a permutation, and
 nothing about the order of equal keys.
 */
module Sorting {

  function Swap<T>(s: seq<T>, i: nat, j: nat): seq<T>
    requires i < |s| && j < |s|
  {
    s[i := s[j]][j := s[i]]
  }

  ghost predicate SortedBy<T>(s: seq<T>, key: T -> int) {
    forall i, j :: 0 <= i < j < |s| ==> key(s[i]) <= key(s[j])
  }

  lemma InsertSorted<T>(r: seq<T>, x: T, pos: nat, key: T -> int)
    requires SortedBy(r, key) && pos <= |r|
    requires forall j :: 0 <= j < |r| ==> if j < pos then key(r[j]) <= key(x) else key(r[j]) > key(x)
    ensures SortedBy(r[..pos] + [x] + r[pos..], key)
  {
    var s := r[..pos] + [x] + r[pos..];
    assert forall i :: 0 <= i < |s| ==> s[i] == if i < pos then r[i] else if i == pos then x else r[i - 1];
  }

  lemma InsertContents<T>(r: seq<T>, x: T, pos: nat)
    requires pos <= |r|
    ensures multiset(r[..pos] + [x] + r[pos..]) == multiset(r) + multiset{x}
  {
    assert multiset(r[..pos] + r[pos..]) == multiset(r) by {
      assert r == r[..pos] + r[pos..];
    }
  }

  method InsertBy<T>(r: seq<T>, x: T, key: T -> int) returns (r': seq<T>)
    requires SortedBy(r, key)
    ensures SortedBy(r', key) && multiset(r') == multiset(r) + multiset{x}
  {
    var pos := |r|;
    while pos > 0 && key(r[pos - 1]) > key(x)
      invariant 0 <= pos <= |r|
      invariant forall j :: pos <= j < |r| ==> key(r[j]) > key(x)
    {
      pos := pos - 1;
    }
    InsertSorted(r, x, pos, key);
    InsertContents(r, x, pos);
    r' := r[..pos] + [x] + r[pos..];
  }

  method SortBy<T>(s: seq<T>, key: T -> int) returns (r: seq<T>)
    ensures multiset(r) == multiset(s) && SortedBy(r, key)
  {
    r := [];
    for i := 0 to |s|
      invariant multiset(r) == multiset(s[..i]) && SortedBy(r, key)
    {
      assert s[..i + 1] == s[..i] + [s[i]];
      r := InsertBy(r, s[i], key);
    }
    assert s[..|s|] == s;
  }

  // Sums over a list do not depend on its order.
  ghost function Sum<T, U>(s: seq<T>, f: T -> multiset<U>): multiset<U> {
    if s == [] then multiset{} else Sum(s[..|s| - 1], f) + f(s[|s| - 1])
  }

  // Leaving out an entry of all but the last, then adding the last.
  lemma LeaveOut<T>(s: seq<T>, k: nat)
    requires k < |s|
    ensures s == s[..|s| - 1] + [s[|s| - 1]]
    ensures k < |s| - 1 ==> s[..k] + s[k + 1..] == (s[..|s| - 1][..k] + s[..|s| - 1][k + 1..]) + [s[|s| - 1]]
    ensures k == |s| - 1 ==> s[..k] + s[k + 1..] == s[..|s| - 1]
  {
  }

  lemma SumSnoc<T, U>(s: seq<T>, x: T, f: T -> multiset<U>)
    ensures Sum(s + [x], f) == Sum(s, f) + f(x)
  {
    assert (s + [x])[..|s|] == s;
  }

  lemma AddInBetween<T>(a: multiset<T>, b: multiset<T>, c: multiset<T>)
    ensures (a + b) + c == (a + c) + b
  {
  }

  lemma {:induction false} SumWithout<T, U>(s: seq<T>, f: T -> multiset<U>, k: nat)
    requires k < |s|
    ensures Sum(s, f) == Sum(s[..k] + s[k + 1..], f) + f(s[k])
  {
    var front, last := s[..|s| - 1], s[|s| - 1];
    LeaveOut(s, k);
    if k < |front| {
      SumWithout(front, f, k);
      SumSnoc(front[..k] + front[k + 1..], last, f);
      AddInBetween(Sum(front[..k] + front[k + 1..], f), f(s[k]), f(last));
    }
  }

  lemma {:induction false} SumPermuted<T, U>(a: seq<T>, b: seq<T>, f: T -> multiset<U>)
    requires multiset(a) == multiset(b)
    ensures Sum(a, f) == Sum(b, f)
    decreases |a|
  {
    if a == [] {
      assert |multiset(b)| == 0;
      assert b == [];
    } else {
      var n := |a| - 1;
      RemoveAt(a, n);
      assert a[..n] + a[n + 1..] == a[..n];
      assert a[n] in multiset(b);
      var k :| 0 <= k < |b| && b[k] == a[n];
      RemoveAt(b, k);
      SumWithout(b, f, k);
      SumPermuted(a[..n], b[..k] + b[k + 1..], f);
    }
  }

  lemma RemoveAt<T>(s: seq<T>, k: nat)
    requires k < |s|
    ensures multiset(s[..k] + s[k + 1..]) == multiset(s) - multiset{s[k]}
  {
    assert s == s[..k] + [s[k]] + s[k + 1..];
  }
}
