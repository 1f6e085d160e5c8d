/**
 * The two column statistics `clean_data` fills with: pandas' `median` of the
 * non-missing numbers and the first entry of `mode()`, the most frequent
 * value with ties resolved towards the smallest.
 */
module Stats {
  import opened Wrappers
  import opened Tables

  predicate SortedReals(s: seq<real>) {
    forall i, j :: 0 <= i < j < |s| ==> s[i] <= s[j]
  }

  /** A value no larger than any element of a sorted sequence can go in front of it. */
  lemma SortedCons(a: real, s: seq<real>)
    requires SortedReals(s) && forall j :: 0 <= j < |s| ==> a <= s[j]
    ensures SortedReals([a] + s)
  {
    forall i, j | 0 <= i < j < |[a] + s|
      ensures ([a] + s)[i] <= ([a] + s)[j]
    {
      assert ([a] + s)[j] == s[j - 1];
      if i > 0 {
        assert ([a] + s)[i] == s[i - 1];
      }
    }
  }

  /** Inserts x into a sorted sequence, keeping it sorted. */
  function Insert(x: real, s: seq<real>): (r: seq<real>)
    requires SortedReals(s)
    ensures SortedReals(r)
    ensures multiset(r) == multiset(s) + multiset{x}
    decreases |s|
  {
    if s == [] then [x]
    else if x <= s[0] then
      SortedCons(x, s);
      [x] + s
    else
      var rest := Insert(x, s[1..]);
      assert s == [s[0]] + s[1..];
      assert forall j :: 0 <= j < |rest| ==> s[0] <= rest[j] by {
        forall j | 0 <= j < |rest|
          ensures s[0] <= rest[j]
        {
          assert rest[j] in multiset(rest);
          if rest[j] != x {
            assert rest[j] in multiset(s[1..]);
            var k :| 0 <= k < |s[1..]| && s[1..][k] == rest[j];
            assert s[k + 1] == rest[j];
          }
        }
      }
      SortedCons(s[0], rest);
      assert multiset([s[0]] + rest) == multiset{s[0]} + multiset(rest);
      [s[0]] + rest
  }

  /** The values in ascending order. */
  function SortReals(s: seq<real>): (r: seq<real>)
    ensures SortedReals(r)
    ensures multiset(r) == multiset(s)
    decreases |s|
  {
    if s == [] then []
    else
      assert s == s[..|s| - 1] + [s[|s| - 1]];
      Insert(s[|s| - 1], SortReals(s[..|s| - 1]))
  }

  /** `Series.median()` over the non-missing values: None (NaN) when there are none. */
  function Median(vals: seq<real>): (m: Option<real>)
    ensures m.None? <==> vals == []
  {
    if vals == [] then None else Some(Middle(SortReals(vals)))
  }

  /** The middle value of a sorted sequence, or the mean of the two middle values. */
  function Middle(s: seq<real>): (m: real)
    requires s != []
    ensures SortedReals(s) ==> s[(|s| - 1) / 2] <= m <= s[|s| / 2]
    ensures 2.0 * m == s[(|s| - 1) / 2] + s[|s| / 2]
  {
    var n := |s|;
    if n % 2 == 1 then s[n / 2] else (s[n / 2 - 1] + s[n / 2]) / 2.0
  }

  datatype Side = AtMost | AtLeast

  predicate OnSide(side: Side, x: real, m: real) {
    match side
    case AtMost => x <= m
    case AtLeast => m <= x
  }

  /** How many of the values lie on the given side of m. */
  function Count(s: seq<real>, side: Side, m: real): (n: nat)
    ensures n <= |s|
    decreases |s|
  {
    if s == [] then 0
    else (if OnSide(side, s[0], m) then 1 else 0) + Count(s[1..], side, m)
  }

  lemma {:induction false} CountAppend(u: seq<real>, v: seq<real>, side: Side, m: real)
    ensures Count(u + v, side, m) == Count(u, side, m) + Count(v, side, m)
    decreases |u|
  {
    if u == [] {
      assert u + v == v;
    } else {
      assert (u + v)[1..] == u[1..] + v;
      CountAppend(u[1..], v, side, m);
    }
  }

  lemma {:induction false} CountAll(s: seq<real>, side: Side, m: real)
    requires forall i :: 0 <= i < |s| ==> OnSide(side, s[i], m)
    ensures Count(s, side, m) == |s|
    decreases |s|
  {
    if s != [] {
      CountAll(s[1..], side, m);
    }
  }

  /** Taking out the value at position k takes out its share of the count. */
  lemma CountRemove(b: seq<real>, k: nat, side: Side, m: real)
    requires k < |b|
    ensures Count(b, side, m) == Count(b[..k] + b[k + 1..], side, m) + (if OnSide(side, b[k], m) then 1 else 0)
  {
    var b1, b2 := b[..k], b[k + 1..];
    assert b == b1 + [b[k]] + b2;
    CountAppend(b1 + [b[k]], b2, side, m);
    CountAppend(b1, [b[k]], side, m);
    CountAppend(b1, b2, side, m);
  }

  /** Taking the same value out of two permutations of each other leaves permutations. */
  lemma RemoveMatching(a: seq<real>, b: seq<real>, k: nat)
    requires a != [] && k < |b| && b[k] == a[0]
    requires multiset(a) == multiset(b)
    ensures multiset(a[1..]) == multiset(b[..k] + b[k + 1..])
  {
    var x := a[0];
    var b1, b2 := b[..k], b[k + 1..];
    var rest := b1 + b2;
    assert b == b1 + [x] + b2;
    assert a == [x] + a[1..];
    calc {
      multiset(a[1..]) + multiset{x};
      multiset(a);
      multiset(b);
      multiset(b1) + multiset{x} + multiset(b2);
      multiset(rest) + multiset{x};
    }
    assert multiset(a[1..]) == (multiset(a[1..]) + multiset{x}) - multiset{x};
    assert multiset(rest) == (multiset(rest) + multiset{x}) - multiset{x};
  }

  /** Counting does not depend on the order of the values. */
  lemma {:induction false} CountPermutation(a: seq<real>, b: seq<real>, side: Side, m: real)
    requires multiset(a) == multiset(b)
    ensures Count(a, side, m) == Count(b, side, m)
    decreases |a|
  {
    if a == [] {
      assert |b| == |multiset(b)| == 0;
    } else {
      assert a[0] in multiset(b);
      var k :| 0 <= k < |b| && b[k] == a[0];
      RemoveMatching(a, b, k);
      CountPermutation(a[1..], b[..k] + b[k + 1..], side, m);
      CountRemove(b, k, side, m);
    }
  }

  /** If the first k values are at most m, at least k values are. */
  lemma CountPrefix(s: seq<real>, k: nat, m: real)
    requires k <= |s|
    requires forall i :: 0 <= i < k ==> s[i] <= m
    ensures Count(s, AtMost, m) >= k
  {
    assert s == s[..k] + s[k..];
    CountAll(s[..k], AtMost, m);
    CountAppend(s[..k], s[k..], AtMost, m);
  }

  /** If the values from position k on are at least m, at least |s| - k values are. */
  lemma CountSuffix(s: seq<real>, k: nat, m: real)
    requires k <= |s|
    requires forall i :: k <= i < |s| ==> m <= s[i]
    ensures Count(s, AtLeast, m) >= |s| - k
  {
    assert s == s[..k] + s[k..];
    CountAll(s[k..], AtLeast, m);
    CountAppend(s[..k], s[k..], AtLeast, m);
  }

  /** The middle of a sorted sequence has half the values on each side. */
  lemma MiddleSplitsHalf(s: seq<real>)
    requires s != [] && SortedReals(s)
    ensures 2 * Count(s, AtMost, Middle(s)) >= |s|
    ensures 2 * Count(s, AtLeast, Middle(s)) >= |s|
    ensures |s| % 2 == 1 ==> Middle(s) in s
  {
    var m := Middle(s);
    var lo, hi := (|s| - 1) / 2, |s| / 2;
    HalfIndices(|s|);
    SortedUpTo(s, lo, m);
    SortedFrom(s, hi, m);
    CountPrefix(s, lo + 1, m);
    CountSuffix(s, hi, m);
  }

  /** The two middle positions of n > 0 values: each side of them holds at least half. */
  lemma HalfIndices(n: nat)
    requires n > 0
    ensures var lo, hi := (n - 1) / 2, n / 2;
      && lo <= hi < n && 2 * (lo + 1) >= n && 2 * (n - hi) >= n && (n % 2 == 1 ==> lo == hi)
  {
  }

  /** In a sorted sequence, every value up to position k is at most a bound of s[k]. */
  lemma SortedUpTo(s: seq<real>, k: nat, m: real)
    requires SortedReals(s) && k < |s| && s[k] <= m
    ensures forall i :: 0 <= i < k + 1 ==> s[i] <= m
  {
  }

  /** In a sorted sequence, every value from position k on is at least a lower bound of s[k]. */
  lemma SortedFrom(s: seq<real>, k: nat, m: real)
    requires SortedReals(s) && k < |s| && m <= s[k]
    ensures forall i :: k <= i < |s| ==> m <= s[i]
  {
  }

  /**
   * The median splits the values in half: at least half of them are at most
   * the median and at least half are at least the median; with an odd count
   * it is one of the values.
   */
  lemma MedianSplitsHalf(vals: seq<real>)
    requires vals != []
    ensures 2 * Count(vals, AtMost, Median(vals).value) >= |vals|
    ensures 2 * Count(vals, AtLeast, Median(vals).value) >= |vals|
    ensures |vals| % 2 == 1 ==> Median(vals).value in vals
  {
    var s := SortReals(vals);
    var m := Middle(s);
    assert |s| == |multiset(s)| == |multiset(vals)| == |vals|;
    MiddleSplitsHalf(s);
    CountPermutation(vals, s, AtMost, m);
    CountPermutation(vals, s, AtLeast, m);
    if |s| % 2 == 1 {
      assert m in multiset(vals);
    }
  }

  /** How often c occurs among the values. */
  function Occurrences(s: seq<Cell>, c: Cell): nat {
    multiset(s)[c]
  }

  /** c is the most frequent value, and the smallest among equally frequent ones. */
  predicate IsMode(s: seq<Cell>, c: Cell) {
    && c in s
    && forall x :: x in s ==>
         Occurrences(s, x) < Occurrences(s, c) || (Occurrences(s, x) == Occurrences(s, c) && CellLe(c, x))
  }

  /** The winner among the first n values. */
  function ModeAmong(s: seq<Cell>, n: nat): (c: Cell)
    requires 0 < n <= |s|
    ensures c in s[..n]
    ensures forall i :: 0 <= i < n ==>
              Occurrences(s, s[i]) < Occurrences(s, c) || (Occurrences(s, s[i]) == Occurrences(s, c) && CellLe(c, s[i]))
    decreases n
  {
    if n == 1 then
      CellLeReflexive(s[0]);
      s[0]
    else
      var best := ModeAmong(s, n - 1);
      var x := s[n - 1];
      assert s[..n - 1] <= s[..n];
      if Occurrences(s, x) > Occurrences(s, best) || (Occurrences(s, x) == Occurrences(s, best) && CellLe(x, best)) then
        forall i | 0 <= i < n - 1 && Occurrences(s, s[i]) == Occurrences(s, x)
          ensures CellLe(x, s[i])
        {
          CellLeTransitive(x, best, s[i]);
        }
        CellLeReflexive(x);
        x
      else
        CellLeTotal(x, best);
        best
  }

  /** `mode()[0]` of the non-missing values, None when the mode is empty. */
  function Mode(s: seq<Cell>): (m: Option<Cell>)
    ensures m.None? <==> s == []
    ensures m.Some? ==> IsMode(s, m.value)
  {
    if s == [] then None
    else
      var c := ModeAmong(s, |s|);
      assert s[..|s|] == s;
      Some(c)
  }

  /** At most one value is the mode. */
  lemma ModeUnique(s: seq<Cell>, c: Cell, d: Cell)
    requires IsMode(s, c) && IsMode(s, d)
    ensures c == d
  {
    CellLeAntisymmetric(c, d);
  }
}
