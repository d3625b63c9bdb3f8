/** Sequence helpers: Python list comprehensions with a condition, and reversal. */
module Seqs {

  /** `[x for x in s if keep(x)]`. */
  function Filter<T(!new)>(keep: T -> bool, s: seq<T>): (r: seq<T>)
    ensures |r| <= |s|
    ensures forall k :: 0 <= k < |r| ==> keep(r[k])
    ensures forall x :: x in r <==> x in s && keep(x)
    ensures (forall k :: 0 <= k < |s| ==> !keep(s[k])) ==> r == []
  {
    if s == [] then []
    else (if keep(s[0]) then [s[0]] else []) + Filter(keep, s[1..])
  }

  /** Filtering commutes with concatenation, so the kept elements stay in their order. */
  lemma {:induction false} FilterAppend<T(!new)>(keep: T -> bool, a: seq<T>, b: seq<T>)
    ensures Filter(keep, a + b) == Filter(keep, a) + Filter(keep, b)
  {
    if a == [] {
      assert a + b == b;
    } else {
      assert (a + b)[0] == a[0];
      assert (a + b)[1..] == a[1..] + b;
      FilterAppend(keep, a[1..], b);
    }
  }

  /** Filtering keeps every kept value as often as it occurs, and no other value. */
  lemma {:induction false} FilterMultiset<T(!new)>(keep: T -> bool, s: seq<T>)
    ensures forall x :: multiset(Filter(keep, s))[x] == if keep(x) then multiset(s)[x] else 0
  {
    if s != [] {
      FilterMultiset(keep, s[1..]);
      var head := if keep(s[0]) then [s[0]] else [];
      assert s == [s[0]] + s[1..];
      assert multiset(s) == multiset([s[0]]) + multiset(s[1..]);
      assert multiset(Filter(keep, s)) == multiset(head) + multiset(Filter(keep, s[1..]));
    }
  }

  /** Putting one element in front extends the filtered sequence by it exactly when it
      is kept. */
  lemma FilterCons<T(!new)>(keep: T -> bool, x: T, s: seq<T>)
    ensures Filter(keep, [x] + s) == (if keep(x) then [x] else []) + Filter(keep, s)
  {
    assert ([x] + s)[1..] == s;
  }

  /** Appending one element extends the filtered sequence by it exactly when it is kept. */
  lemma FilterSnoc<T(!new)>(keep: T -> bool, s: seq<T>, x: T)
    ensures Filter(keep, s + [x]) == Filter(keep, s) + (if keep(x) then [x] else [])
  {
    FilterAppend(keep, s, [x]);
    assert [x][1..] == [];
  }

  /** Filtering a sequence whose elements are all kept returns it unchanged. */
  lemma {:induction false} FilterAll<T(!new)>(keep: T -> bool, s: seq<T>)
    requires forall k :: 0 <= k < |s| ==> keep(s[k])
    ensures Filter(keep, s) == s
  {
    if s != [] {
      FilterAll(keep, s[1..]);
    }
  }

  /** `[y for y in s if y != x]`. */
  function Without<T(==,!new)>(s: seq<T>, x: T): (r: seq<T>)
    ensures x !in r
    ensures forall y :: y in r <==> y in s && y != x
    ensures forall y :: y != x ==> multiset(r)[y] == multiset(s)[y]
  {
    if s == [] then []
    else
      assert s == [s[0]] + s[1..];
      (if s[0] != x then [s[0]] else []) + Without(s[1..], x)
  }

  lemma {:induction false} WithoutAppend<T(!new)>(a: seq<T>, b: seq<T>, x: T)
    ensures Without(a + b, x) == Without(a, x) + Without(b, x)
  {
    if a == [] {
      assert a + b == b;
    } else {
      var head := if a[0] != x then [a[0]] else [];
      assert (a + b)[0] == a[0];
      assert (a + b)[1..] == a[1..] + b;
      WithoutAppend(a[1..], b, x);
      assert Without(a + b, x) == head + (Without(a[1..], x) + Without(b, x));
      assert Without(a, x) == head + Without(a[1..], x);
    }
  }

  function Reverse<T>(s: seq<T>): (r: seq<T>)
    ensures |r| == |s|
    ensures forall k :: 0 <= k < |s| ==> r[k] == s[|s| - 1 - k]
  {
    if s == [] then [] else Reverse(s[1..]) + [s[0]]
  }

  lemma {:induction false} ReverseAppend<T>(a: seq<T>, b: seq<T>)
    ensures Reverse(a + b) == Reverse(b) + Reverse(a)
  {
    assert Reverse(a + b) == Reverse(b) + Reverse(a);
  }

  /** Taking one more element of `s` after `a`. */
  lemma PrefixSnoc<T>(a: seq<T>, s: seq<T>, j: nat)
    requires j < |s|
    ensures a + s[..j] + [s[j]] == a + s[..j + 1]
  {
    assert s[..j + 1] == s[..j] + [s[j]];
  }

  /** Extending `a + s[..j]` by `s[j]` gives a prefix of `a + s`. */
  lemma SnocPrefixOf<T>(a: seq<T>, s: seq<T>, j: nat)
    requires j < |s|
    ensures |a + s[..j]| + 1 <= |a + s|
    ensures a + s[..j] + [s[j]] == (a + s)[..|a + s[..j]| + 1]
  {
    PrefixSnoc(a, s, j);
    PrefixOfAppend(a, s, j + 1);
  }

  /** Reading `s` backwards after `a` up to position `i` of `s`, then `s[i]`, is a prefix
      of `a + Reverse(s)`. */
  lemma ReverseHitPrefix<T>(a: seq<T>, s: seq<T>, i: nat, t: seq<T>)
    requires i < |s| && t == a + Reverse(s)[..|s| - 1 - i]
    ensures |t| + 1 <= |a + Reverse(s)|
    ensures t + [s[i]] == (a + Reverse(s))[..|t| + 1]
  {
    var r, j := Reverse(s), |s| - 1 - i;
    assert r[j] == s[i];
    SnocPrefixOf(a, r, j);
  }

  /** A prefix of a prefix is a prefix. */
  lemma PrefixOfPrefix<T>(t: seq<T>, a: seq<T>, b: seq<T>, m: nat)
    requires m <= |a| <= |b| && t == a[..m] && a == b[..|a|]
    ensures t == b[..m]
  {
  }

  /** The first `|a| + k` elements of `a + b`. */
  lemma PrefixOfAppend<T>(a: seq<T>, b: seq<T>, k: nat)
    requires k <= |b|
    ensures (a + b)[..|a| + k] == a + b[..k]
  {
  }

  /** Splitting a prefix that ends in `x` into its last element and the rest. */
  lemma SnocPrefixParts<T>(t: seq<T>, x: T, s: seq<T>)
    requires |t| < |s| && t + [x] == s[..|t| + 1]
    ensures s[|t|] == x && t == s[..|t|]
  {
    assert (t + [x])[|t|] == x;
    assert forall k :: 0 <= k < |t| ==> (t + [x])[k] == t[k];
  }

  /** The middle part of a three-part concatenation. */
  lemma SliceMiddle<T>(x: seq<T>, y: seq<T>, z: seq<T>)
    ensures (x + y + z)[|x|..|x| + |y|] == y
  {
    assert forall k :: 0 <= k < |y| ==> (x + y + z)[|x| + k] == y[k];
  }

  /** Regrouping a five-part concatenation. */
  lemma Regroup<T>(a: seq<T>, b: seq<T>, c: seq<T>, d: seq<T>, e: seq<T>)
    ensures a + b + c + d + e == a + b + (c + d + e)
    ensures a + b + c + d + e == (a + b) + c + (d + e)
  {
  }

  predicate NoDup<T(==)>(s: seq<T>) {
    forall i, j :: 0 <= i < j < |s| ==> s[i] != s[j]
  }
}
