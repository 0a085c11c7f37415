/** The two orderings the lookups impose on handle vectors: by identity
    (`std::sort` by pointer followed by `std::unique`, which leaves every
    handle once, in ascending order) and by function address (`std::sort`
    with `SymbolCompareByAddr`). */
module Ordering {
  import opened Symbols
  import opened Entities

  predicate StrictlyIncreasing(xs: seq<Ptr>)
  {
    forall i, j :: 0 <= i < j < |xs| ==> xs[i] < xs[j]
  }

  /** Every handle of `xs` names an entity in `at`. */
  predicate AllIn<T>(xs: seq<Ptr>, at: map<Ptr, T>)
  {
    forall x :: x in xs ==> x in at
  }

  function InsertUnique(x: Ptr, xs: seq<Ptr>): (r: seq<Ptr>)
    requires StrictlyIncreasing(xs)
    ensures StrictlyIncreasing(r)
    ensures forall y :: y in r <==> y == x || y in xs
  {
    if xs == [] then [x]
    else if x < xs[0] then [x] + xs
    else if x == xs[0] then xs
    else
      var rest := InsertUnique(x, xs[1..]);
      assert forall k :: 0 <= k < |rest| ==> xs[0] < rest[k] by {
        forall k | 0 <= k < |rest| ensures xs[0] < rest[k] {
          assert rest[k] in rest;
          if rest[k] != x {
            var m :| 0 <= m < |xs[1..]| && xs[1..][m] == rest[k];
            assert xs[1 + m] == rest[k];
          }
        }
      }
      [xs[0]] + rest
  }

  /** Sort by identity, then drop adjacent repeats: each handle of `xs` once,
      ascending. */
  function SortUnique(xs: seq<Ptr>): (r: seq<Ptr>)
    ensures StrictlyIncreasing(r)
    ensures forall y :: y in r <==> y in xs
  {
    if xs == [] then [] else InsertUnique(xs[0], SortUnique(xs[1..]))
  }

  /** A strictly increasing sequence is determined by its elements. */
  lemma {:induction false} StrictlyIncreasingUnique(a: seq<Ptr>, b: seq<Ptr>)
    requires StrictlyIncreasing(a) && StrictlyIncreasing(b)
    requires forall y :: y in a <==> y in b
    ensures a == b
    decreases |a|
  {
    assert a != [] ==> a[0] in a;
    assert b != [] ==> b[0] in b;
    if a != [] && b != [] {
      assert a[0] == b[0] by {
        assert a[0] in b && b[0] in a;
      }
      forall y ensures y in a[1..] <==> y in b[1..] {
        if y in a[1..] { assert y in b && y != b[0]; }
        if y in b[1..] { assert y in a && y != a[0]; }
      }
      StrictlyIncreasingUnique(a[1..], b[1..]);
      assert a == [a[0]] + a[1..] && b == [b[0]] + b[1..];
    } else if a != [] {
      assert false;
    } else if b != [] {
      assert false;
    }
  }

  /** Sort-then-unique gives the same answer whatever order its input came in. */
  lemma SortUniqueDependsOnlyOnElements(xs: seq<Ptr>, ys: seq<Ptr>)
    requires forall y :: y in xs <==> y in ys
    ensures SortUnique(xs) == SortUnique(ys)
  {
    StrictlyIncreasingUnique(SortUnique(xs), SortUnique(ys));
  }

  predicate SortedByAddress(fs: seq<Ptr>, at: map<Ptr, Function>)
    requires AllIn(fs, at)
  {
    forall i, j :: 0 <= i < j < |fs| ==> at[fs[i]].address <= at[fs[j]].address
  }

  function InsertByAddress(f: Ptr, fs: seq<Ptr>, at: map<Ptr, Function>): (r: seq<Ptr>)
    requires f in at && AllIn(fs, at) && SortedByAddress(fs, at)
    ensures forall y :: y in r ==> y == f || y in fs
    ensures AllIn(r, at) && SortedByAddress(r, at)
    ensures multiset(r) == multiset(fs) + multiset{f}
  {
    if fs == [] || at[f].address <= at[fs[0]].address then
      SortedHeadIsLeast(fs, at);
      PrependSorted(f, fs, at);
      [f] + fs
    else
      var rest := InsertByAddress(f, fs[1..], at);
      SortedHeadIsLeast(fs, at);
      assert fs == [fs[0]] + fs[1..];
      PrependSorted(fs[0], rest, at);
      [fs[0]] + rest
  }

  /** The head of an address-sorted vector starts no later than any element. */
  lemma SortedHeadIsLeast(fs: seq<Ptr>, at: map<Ptr, Function>)
    requires AllIn(fs, at) && SortedByAddress(fs, at)
    ensures fs != [] ==> forall y :: y in fs ==> at[fs[0]].address <= at[y].address
  {
    if fs != [] {
      forall y | y in fs
        ensures at[fs[0]].address <= at[y].address
      {
        var k :| 0 <= k < |fs| && fs[k] == y;
      }
    }
  }

  /** A sorted vector stays sorted under a new head that starts no later than
      any of its elements. */
  lemma PrependSorted(h: Ptr, rest: seq<Ptr>, at: map<Ptr, Function>)
    requires h in at && AllIn(rest, at) && SortedByAddress(rest, at)
    requires forall y :: y in rest ==> at[h].address <= at[y].address
    ensures AllIn([h] + rest, at) && SortedByAddress([h] + rest, at)
  {
    var r := [h] + rest;
    forall i, j | 0 <= i < j < |r|
      ensures at[r[i]].address <= at[r[j]].address
    {
      assert r[j] == rest[j - 1] && rest[j - 1] in rest;
      if i > 0 {
        assert r[i] == rest[i - 1];
      }
    }
  }

  /** The in-place `std::sort` of the function vector by address, as a
      function of the old contents: a permutation that is sorted. */
  function SortByAddress(fs: seq<Ptr>, at: map<Ptr, Function>): (r: seq<Ptr>)
    requires AllIn(fs, at)
    ensures AllIn(r, at) && SortedByAddress(r, at)
    ensures multiset(r) == multiset(fs)
  {
    if fs == [] then []
    else
      assert fs == [fs[0]] + fs[1..];
      InsertByAddress(fs[0], SortByAddress(fs[1..], at), at)
  }
}
