/**
 * Sequence helpers shared by the query models: an Option type, first-appearance
 * de-duplication (what `new Set(...)` and `GROUP BY` without `ORDER BY` yield),
 * filters, sums and counts, a first-match search (`Array.prototype.find`,
 * `LIMIT 1`), `LIMIT n` and the cross product that a join without a
 * selective condition produces.
 */
module Collections {

  datatype Option<T> = None | Some(value: T)

  // ---------------------------------------------------------------------------
  // Membership and positions

  ghost predicate NoDuplicates<T>(s: seq<T>) {
    forall i, j :: 0 <= i < j < |s| ==> s[i] != s[j]
  }

  /** Position of the first occurrence of x in s. */
  function IndexOf<T(==)>(s: seq<T>, x: T): (i: nat)
    requires x in s
    ensures i < |s| && s[i] == x
    ensures forall j :: 0 <= j < i ==> s[j] != x
  {
    if s[0] == x then 0 else 1 + IndexOf(s[1..], x)
  }

  // ---------------------------------------------------------------------------
  // De-duplication in order of first appearance

  /** The distinct elements of s, each at the place where it first appears. */
  function Distinct<T(==)>(s: seq<T>): (r: seq<T>)
    decreases |s|
  {
    if s == [] then []
    else
      var init := s[..|s| - 1];
      if s[|s| - 1] in init then Distinct(init) else Distinct(init) + [s[|s| - 1]]
  }

  lemma {:induction false} DistinctMembers<T>(s: seq<T>)
    ensures forall x :: x in Distinct(s) <==> x in s
    ensures NoDuplicates(Distinct(s))
    ensures |Distinct(s)| <= |s|
    decreases |s|
  {
    if s != [] {
      var init := s[..|s| - 1];
      DistinctMembers(init);
      assert s == init + [s[|s| - 1]];
    }
  }

  /** Distinct keeps the order of first appearance. */
  lemma {:induction false} DistinctOrder<T>(s: seq<T>)
    ensures forall x :: x in Distinct(s) ==> x in s
    ensures forall i, j :: 0 <= i < j < |Distinct(s)| ==>
      IndexOf(s, Distinct(s)[i]) < IndexOf(s, Distinct(s)[j])
    decreases |s|
  {
    DistinctMembers(s);
    if s != [] {
      var init := s[..|s| - 1];
      var last := s[|s| - 1];
      DistinctOrder(init);
      assert s == init + [last];
      DistinctMembers(init);
      forall x | x in init ensures IndexOf(s, x) == IndexOf(init, x) {
        IndexOfPrefix(init, [last], x);
      }
      var d := Distinct(s);
      if last !in init {
        assert IndexOf(s, last) == |init| by {
          assert s[|init|] == last;
          assert forall j :: 0 <= j < |init| ==> s[j] == init[j];
        }
        forall i, j | 0 <= i < j < |d|
          ensures IndexOf(s, d[i]) < IndexOf(s, d[j])
        {
          var di := Distinct(init);
          if j == |d| - 1 {
            assert d[i] == di[i] && d[i] in init;
          } else {
            assert d[i] == di[i] && d[j] == di[j];
          }
        }
      }
    }
  }

  lemma IndexOfPrefix<T>(a: seq<T>, b: seq<T>, x: T)
    requires x in a
    ensures x in a + b && IndexOf(a + b, x) == IndexOf(a, x)
  {
    if a[0] != x {
      assert (a + b)[1..] == a[1..] + b;
      IndexOfPrefix(a[1..], b, x);
    }
  }

  /** De-duplicating twice changes nothing. */
  lemma {:induction false} DistinctOfDistinct<T>(s: seq<T>)
    requires NoDuplicates(s)
    ensures Distinct(s) == s
    decreases |s|
  {
    if s != [] {
      var init := s[..|s| - 1];
      assert NoDuplicates(init);
      DistinctOfDistinct(init);
      assert s[|s| - 1] !in init;
      assert init + [s[|s| - 1]] == s;
    }
  }

  // ---------------------------------------------------------------------------
  // Map, filter, sum, count

  function Map<A, B>(s: seq<A>, f: A -> B): (r: seq<B>)
    ensures |r| == |s|
    ensures forall i :: 0 <= i < |s| ==> r[i] == f(s[i])
  {
    if s == [] then [] else [f(s[0])] + Map(s[1..], f)
  }

  /** The elements of a mapped sequence are exactly the images of the elements. */
  lemma MapMembers<A, B>(xs: seq<A>, f: A -> B)
    ensures forall y :: y in Map(xs, f) <==> exists x :: x in xs && y == f(x)
  {
    forall y | exists x :: x in xs && y == f(x) ensures y in Map(xs, f) {
      var x :| x in xs && y == f(x);
      var i :| 0 <= i < |xs| && xs[i] == x;
      assert Map(xs, f)[i] == y;
    }
  }

  function Filter<T>(s: seq<T>, p: T -> bool): (r: seq<T>)
    ensures |r| <= |s|
    ensures forall i :: 0 <= i < |r| ==> r[i] in s && p(r[i])
  {
    if s == [] then [] else (if p(s[0]) then [s[0]] else []) + Filter(s[1..], p)
  }

  lemma {:induction false} FilterMembers<T>(s: seq<T>, p: T -> bool)
    ensures forall x :: x in Filter(s, p) <==> x in s && p(x)
  {
    if s != [] {
      FilterMembers(s[1..], p);
    }
  }

  lemma {:induction false} FilterConcat<T>(a: seq<T>, b: seq<T>, p: T -> bool)
    ensures Filter(a + b, p) == Filter(a, p) + Filter(b, p)
  {
    if a != [] {
      assert (a + b)[0] == a[0] && (a + b)[1..] == a[1..] + b;
      FilterConcat(a[1..], b, p);
    } else {
      assert a + b == b;
    }
  }

  function SumBy<T>(s: seq<T>, f: T -> int): int {
    if s == [] then 0 else f(s[0]) + SumBy(s[1..], f)
  }

  lemma {:induction false} SumByConcat<T>(a: seq<T>, b: seq<T>, f: T -> int)
    ensures SumBy(a + b, f) == SumBy(a, f) + SumBy(b, f)
  {
    if a != [] {
      assert (a + b)[0] == a[0] && (a + b)[1..] == a[1..] + b;
      SumByConcat(a[1..], b, f);
    } else {
      assert a + b == b;
    }
  }

  /** Each summand within [lo, hi] puts the sum within [|s| * lo, |s| * hi]. */
  lemma {:induction false} SumByBounds<T>(s: seq<T>, f: T -> int, lo: int, hi: int)
    requires forall i :: 0 <= i < |s| ==> lo <= f(s[i]) <= hi
    ensures |s| * lo <= SumBy(s, f) <= |s| * hi
  {
    if s != [] {
      SumByBounds(s[1..], f, lo, hi);
      assert |s| * lo == lo + |s[1..]| * lo;
      assert |s| * hi == hi + |s[1..]| * hi;
    }
  }

  /** Number of elements that satisfy p: `COUNT(CASE WHEN p THEN 1 END)`. */
  function CountBy<T>(s: seq<T>, p: T -> bool): (n: nat)
    ensures n <= |s|
  {
    if s == [] then 0 else (if p(s[0]) then 1 else 0) + CountBy(s[1..], p)
  }

  lemma {:induction false} CountByIsFilterLength<T>(s: seq<T>, p: T -> bool)
    ensures CountBy(s, p) == |Filter(s, p)|
  {
    if s != [] {
      CountByIsFilterLength(s[1..], p);
    }
  }

  lemma {:induction false} CountByConcat<T>(a: seq<T>, b: seq<T>, p: T -> bool)
    ensures CountBy(a + b, p) == CountBy(a, p) + CountBy(b, p)
  {
    if a != [] {
      assert (a + b)[0] == a[0] && (a + b)[1..] == a[1..] + b;
      CountByConcat(a[1..], b, p);
    } else {
      assert a + b == b;
    }
  }

  /** Rows that satisfy two exclusive conditions are counted at most once. */
  lemma {:induction false} CountByDisjoint<T>(s: seq<T>, p: T -> bool, q: T -> bool)
    requires forall x :: x in s ==> !(p(x) && q(x))
    ensures CountBy(s, p) + CountBy(s, q) <= |s|
  {
    if s != [] {
      CountByDisjoint(s[1..], p, q);
    }
  }

  /** If p implies q on every element, fewer elements satisfy p than q. */
  lemma {:induction false} CountByMonotone<T>(s: seq<T>, p: T -> bool, q: T -> bool)
    requires forall x :: x in s && p(x) ==> q(x)
    ensures CountBy(s, p) <= CountBy(s, q)
  {
    if s != [] {
      CountByMonotone(s[1..], p, q);
    }
  }

  /** If p implies q everywhere and some element meets q but not p, strictly fewer meet p. */
  lemma {:induction false} CountByMonotoneStrict<T>(s: seq<T>, p: T -> bool, q: T -> bool, i: nat)
    requires forall x :: x in s && p(x) ==> q(x)
    requires i < |s| && q(s[i]) && !p(s[i])
    ensures CountBy(s, p) + 1 <= CountBy(s, q)
  {
    if i == 0 {
      CountByMonotone(s[1..], p, q);
    } else {
      assert s[1..][i - 1] == s[i];
      CountByMonotoneStrict(s[1..], p, q, i - 1);
    }
  }

  /** A value occurring at most once is counted at most once. */
  lemma {:induction false} CountByAtMostOne<T>(s: seq<T>, p: T -> bool)
    requires forall i, j :: 0 <= i < j < |s| && p(s[i]) ==> !p(s[j])
    ensures CountBy(s, p) <= 1
  {
    if s != [] {
      CountByAtMostOne(s[1..], p);
      if p(s[0]) {
        forall x | x in s[1..] ensures !p(x) {
          var k :| 0 <= k < |s[1..]| && s[1..][k] == x;
          assert s[k + 1] == x;
        }
        CountByNone(s[1..], p);
      }
    }
  }

  /** Elements that satisfy p exactly at the positions a..b are counted b - a + 1 times. */
  lemma {:induction false} CountByInterval<T>(s: seq<T>, p: T -> bool, a: nat, b: nat)
    requires a <= b < |s|
    requires forall i :: 0 <= i < |s| ==> (p(s[i]) <==> a <= i <= b)
    ensures CountBy(s, p) == b - a + 1
  {
    var t := s[1..];
    if a > 0 {
      forall i | 0 <= i < |t| ensures p(t[i]) <==> a - 1 <= i <= b - 1 {
        assert t[i] == s[i + 1];
      }
      CountByInterval(t, p, a - 1, b - 1);
    } else if b > 0 {
      forall i | 0 <= i < |t| ensures p(t[i]) <==> 0 <= i <= b - 1 {
        assert t[i] == s[i + 1];
      }
      CountByInterval(t, p, 0, b - 1);
    } else {
      forall x | x in t ensures !p(x) {
        var k :| 0 <= k < |t| && t[k] == x;
        assert s[k + 1] == x;
      }
      CountByNone(t, p);
    }
  }

  lemma {:induction false} CountByNone<T>(s: seq<T>, p: T -> bool)
    requires forall x :: x in s ==> !p(x)
    ensures CountBy(s, p) == 0
  {
    if s != [] {
      CountByNone(s[1..], p);
    }
  }

  /** Counts survive a rearrangement. */
  lemma {:induction false} CountByPermutation<T>(s: seq<T>, t: seq<T>, p: T -> bool)
    requires multiset(s) == multiset(t)
    ensures CountBy(s, p) == CountBy(t, p)
    decreases |s|
  {
    if s == [] {
      assert |t| == |multiset(t)| == 0;
    } else {
      var x := s[0];
      assert x in multiset(t);
      var k :| 0 <= k < |t| && t[k] == x;
      var t' := t[..k] + t[k + 1..];
      RemoveAt(s, t, k);
      CountByPermutation(s[1..], t', p);
      assert t == t[..k] + [x] + t[k + 1..];
      CountByConcat(t[..k], t[k + 1..], p);
      CountByConcat(t[..k] + [x], t[k + 1..], p);
      CountByConcat(t[..k], [x], p);
    }
  }

  lemma RemoveAt<T>(s: seq<T>, t: seq<T>, k: nat)
    requires s != [] && multiset(s) == multiset(t) && k < |t| && t[k] == s[0]
    ensures multiset(s[1..]) == multiset(t[..k] + t[k + 1..])
  {
    var x := s[0];
    var t' := t[..k] + t[k + 1..];
    assert t == t[..k] + [x] + t[k + 1..];
    assert s == [x] + s[1..];
    calc {
      multiset(s[1..]) + multiset{x};
      multiset([x] + s[1..]);
      multiset(t);
      multiset(t[..k] + [x] + t[k + 1..]);
      multiset(t[..k]) + multiset{x} + multiset(t[k + 1..]);
      multiset(t') + multiset{x};
    }
    forall y ensures multiset(s[1..])[y] == multiset(t')[y] {
      assert (multiset(s[1..]) + multiset{x})[y] == (multiset(t') + multiset{x})[y];
    }
  }

  /** Counting over a filter is counting both conditions. */
  lemma {:induction false} CountByFilter<T>(s: seq<T>, q: T -> bool, p: T -> bool, both: T -> bool)
    requires forall x :: both(x) == (q(x) && p(x))
    ensures CountBy(Filter(s, q), p) == CountBy(s, both)
  {
    if s != [] {
      CountByFilter(s[1..], q, p, both);
      if q(s[0]) {
        assert Filter(s, q) == [s[0]] + Filter(s[1..], q);
      } else {
        assert Filter(s, q) == Filter(s[1..], q);
      }
    }
  }

  /** Counting over a map is counting the composed condition. */
  lemma {:induction false} CountByMap<A, B>(s: seq<A>, f: A -> B, p: B -> bool, q: A -> bool)
    requires forall x :: q(x) == p(f(x))
    ensures CountBy(Map(s, f), p) == CountBy(s, q)
  {
    if s != [] {
      CountByMap(s[1..], f, p, q);
      assert Map(s, f)[1..] == Map(s[1..], f);
    }
  }

  /** Sums agree when the summed functions agree on every element. */
  lemma {:induction false} SumByExt<T>(s: seq<T>, f: T -> int, g: T -> int)
    requires forall i :: 0 <= i < |s| ==> f(s[i]) == g(s[i])
    ensures SumBy(s, f) == SumBy(s, g)
  {
    if s != [] {
      SumByExt(s[1..], f, g);
    }
  }

  /** Counts agree when the predicates agree on every element. */
  lemma {:induction false} CountByExt<T>(s: seq<T>, p: T -> bool, q: T -> bool)
    requires forall i :: 0 <= i < |s| ==> p(s[i]) == q(s[i])
    ensures CountBy(s, p) == CountBy(s, q)
  {
    if s != [] {
      CountByExt(s[1..], p, q);
    }
  }

  /** Filters agree when the predicates agree on every element. */
  lemma {:induction false} FilterExt<T>(s: seq<T>, p: T -> bool, q: T -> bool)
    requires forall i :: 0 <= i < |s| ==> p(s[i]) == q(s[i])
    ensures Filter(s, p) == Filter(s, q)
  {
    if s != [] {
      FilterExt(s[1..], p, q);
    }
  }

  /** Two conditions that never hold together count as their disjunction. */
  lemma {:induction false} CountByUnion<T>(s: seq<T>, p: T -> bool, q: T -> bool, either: T -> bool)
    requires forall i :: 0 <= i < |s| ==> !(p(s[i]) && q(s[i]))
    requires forall x :: either(x) == (p(x) || q(x))
    ensures CountBy(s, p) + CountBy(s, q) == CountBy(s, either)
  {
    if s != [] {
      CountByUnion(s[1..], p, q, either);
    }
  }

  /** A duplicate-free sequence drawn from a finite set is no longer than the set is large. */
  lemma {:induction false} NoDuplicatesWithin<T>(s: seq<T>, u: set<T>)
    requires NoDuplicates(s)
    requires forall i :: 0 <= i < |s| ==> s[i] in u
    ensures |s| <= |u|
  {
    if s != [] {
      var rest := s[1..];
      assert forall i :: 0 <= i < |rest| ==> rest[i] in u - {s[0]} by {
        forall i | 0 <= i < |rest| ensures rest[i] in u - {s[0]} {
          assert rest[i] == s[i + 1];
        }
      }
      NoDuplicatesWithin(rest, u - {s[0]});
    }
  }

  /** Each element's sequence, concatenated in order. */
  function FlatMap<A, B>(xs: seq<A>, f: A -> seq<B>): seq<B> {
    if xs == [] then [] else f(xs[0]) + FlatMap(xs[1..], f)
  }

  /**
   * Counting over the part of a concatenation that comes from selected
   * elements: the sum of the selected elements' own counts.
   */
  lemma {:induction false} CountByFlatMapFilter<A, B>(xs: seq<A>, f: A -> seq<B>, p: B -> bool, sel: A -> bool,
                                                      P: B -> bool, cnt: A -> int)
    requires forall x, q :: q in f(x) ==> p(q) == sel(x)
    requires forall x :: cnt(x) == CountBy(f(x), P)
    ensures CountBy(Filter(FlatMap(xs, f), p), P) == SumBy(Filter(xs, sel), cnt)
  {
    if xs != [] {
      var x := xs[0];
      CountByFlatMapFilter(xs[1..], f, p, sel, P, cnt);
      FilterConcat(f(x), FlatMap(xs[1..], f), p);
      CountByConcat(Filter(f(x), p), Filter(FlatMap(xs[1..], f), p), P);
      if sel(x) {
        FilterKeepsAll(f(x), p);
        assert Filter(xs, sel) == [x] + Filter(xs[1..], sel);
      } else {
        FilterDropsAll(f(x), p);
        assert Filter(xs, sel) == Filter(xs[1..], sel);
      }
    }
  }

  lemma {:induction false} FilterKeepsAll<T>(s: seq<T>, p: T -> bool)
    requires forall x :: x in s ==> p(x)
    ensures Filter(s, p) == s
  {
    if s != [] {
      FilterKeepsAll(s[1..], p);
    }
  }

  lemma {:induction false} FilterDropsAll<T>(s: seq<T>, p: T -> bool)
    requires forall x :: x in s ==> !p(x)
    ensures Filter(s, p) == []
  {
    if s != [] {
      FilterDropsAll(s[1..], p);
    }
  }

  /** A duplicate-free sequence drawn from the elements of u is no longer than u. */
  lemma NoDuplicatesWithinSeq<T>(s: seq<T>, u: seq<T>)
    requires NoDuplicates(s)
    requires forall i :: 0 <= i < |s| ==> s[i] in u
    ensures |s| <= |u|
  {
    SetOfSeqSize(u);
    NoDuplicatesWithin(s, set x | x in u);
  }

  lemma {:induction false} SetOfSeqSize<T>(u: seq<T>)
    ensures |set x | x in u| <= |u|
  {
    if u != [] {
      SetOfSeqSize(u[1..]);
      assert (set x | x in u) == (set x | x in u[1..]) + {u[0]};
    }
  }

  /**
   * One value per distinct key, in order of first appearance: the values'
   * keys are the distinct keys, none twice, and every key present is listed.
   */
  lemma MapOverDistinct<A, B, C>(xs: seq<A>, f: A -> B, h: B -> C, key: C -> B)
    requires forall b :: key(h(b)) == b
    ensures var r := Map(Distinct(Map(xs, f)), h);
      && (forall i :: 0 <= i < |r| ==> key(r[i]) == Distinct(Map(xs, f))[i])
      && (forall i, j :: 0 <= i < j < |r| ==> key(r[i]) != key(r[j]))
      && (forall x :: x in xs ==> exists i :: 0 <= i < |r| && key(r[i]) == f(x))
      && (forall i :: 0 <= i < |r| ==> key(r[i]) in Map(xs, f))
  {
    var ks := Distinct(Map(xs, f));
    var r := Map(ks, h);
    DistinctMembers(Map(xs, f));
    forall x | x in xs ensures exists i :: 0 <= i < |r| && key(r[i]) == f(x) {
      var k :| 0 <= k < |xs| && xs[k] == x;
      assert Map(xs, f)[k] == f(x);
      assert f(x) in ks;
      var i :| 0 <= i < |ks| && ks[i] == f(x);
      assert key(r[i]) == f(x);
    }
  }

  /** The integers lo..hi, inclusive, as a set. */
  function IntRange(lo: int, hi: int): (r: set<int>)
    ensures forall x :: x in r <==> lo <= x <= hi
    ensures lo <= hi + 1 ==> |r| == hi - lo + 1
    decreases hi - lo
  {
    if lo > hi then {} else IntRange(lo, hi - 1) + {hi}
  }

  function MinBy<T>(s: seq<T>, f: T -> int): (m: int)
    requires |s| > 0
    ensures forall i :: 0 <= i < |s| ==> m <= f(s[i])
    ensures exists i :: 0 <= i < |s| && m == f(s[i])
  {
    if |s| == 1 then f(s[0])
    else
      var rest := MinBy(s[1..], f);
      if f(s[0]) <= rest then f(s[0]) else rest
  }

  function MaxOf(s: seq<int>): (m: int)
    requires |s| > 0
    ensures forall i :: 0 <= i < |s| ==> s[i] <= m
    ensures exists i :: 0 <= i < |s| && m == s[i]
  {
    if |s| == 1 then s[0]
    else
      var rest := MaxOf(s[1..]);
      if s[0] >= rest then s[0] else rest
  }

  // ---------------------------------------------------------------------------
  // First match, LIMIT

  /** Index of the first element satisfying p, as `Array.prototype.find` or `LIMIT 1`. */
  function FindIndex<T>(s: seq<T>, p: T -> bool): (r: Option<nat>)
    ensures r.None? <==> forall i :: 0 <= i < |s| ==> !p(s[i])
    ensures r.Some? ==> r.value < |s| && p(s[r.value]) &&
                        forall i :: 0 <= i < r.value ==> !p(s[i])
  {
    if s == [] then None
    else if p(s[0]) then Some(0)
    else
      match FindIndex(s[1..], p)
      case None => None
      case Some(i) => Some(i + 1)
  }

  function Find<T>(s: seq<T>, p: T -> bool): (r: Option<T>)
    ensures r.None? <==> forall i :: 0 <= i < |s| ==> !p(s[i])
    ensures r.Some? ==> exists i :: (0 <= i < |s| && s[i] == r.value && p(s[i]) &&
                                     forall j :: 0 <= j < i ==> !p(s[j]))
  {
    match FindIndex(s, p)
    case None => None
    case Some(i) => Some(s[i])
  }

  /** `LIMIT n`: the first n elements, or all of them when there are fewer. */
  function Take<T>(s: seq<T>, n: nat): (r: seq<T>)
    ensures |r| == if |s| <= n then |s| else n
    ensures r == s[..|r|]
  {
    if |s| <= n then s else s[..n]
  }

  /** The first n elements, each mapped: element i is the image of s[i]. */
  lemma MapTake<A, B>(s: seq<A>, n: nat, f: A -> B)
    ensures |Map(Take(s, n), f)| == if |s| <= n then |s| else n
    ensures forall i :: 0 <= i < |Map(Take(s, n), f)| ==> Map(Take(s, n), f)[i] == f(s[i])
  {
    var t := Take(s, n);
    forall i | 0 <= i < |t| ensures t[i] == s[i] {
    }
  }

  // ---------------------------------------------------------------------------
  // Cross product (a join whose condition every pair meets)

  function Pairs<A, B>(x: A, ys: seq<B>): (r: seq<(A, B)>)
    ensures |r| == |ys|
    ensures forall j :: 0 <= j < |ys| ==> r[j] == (x, ys[j])
  {
    if ys == [] then [] else [(x, ys[0])] + Pairs(x, ys[1..])
  }

  /** Every pair (x, y), x-major, as a nested-loop join produces them. */
  function Cross<A, B>(xs: seq<A>, ys: seq<B>): (r: seq<(A, B)>)
    ensures |r| == |xs| * |ys|
  {
    if xs == [] then [] else Pairs(xs[0], ys) + Cross(xs[1..], ys)
  }

  lemma {:induction false} CrossMembers<A, B>(xs: seq<A>, ys: seq<B>)
    ensures forall p :: p in Cross(xs, ys) <==> p.0 in xs && p.1 in ys
  {
    if xs != [] {
      CrossMembers(xs[1..], ys);
      forall p ensures p in Cross(xs, ys) <==> p.0 in xs && p.1 in ys {
        if p.0 in xs && p.1 in ys && p.0 != xs[0] {
          assert p.0 in xs[1..];
        }
      }
    }
  }

  lemma MulStep(a: int, n: int)
    ensures a * n == n + (a - 1) * n
  {
  }

  lemma CrossContains<A, B>(xs: seq<A>, ys: seq<B>, x: A, y: B)
    requires x in xs && y in ys
    ensures (x, y) in Cross(xs, ys)
  {
    CrossMembers(xs, ys);
  }

  /** A row built from one row (or the NULL) of each side is in the chained join. */
  lemma LeftJoinContains<A, B, C, D>(xs: seq<A>, ys: seq<B>, zs: seq<C>, ws: seq<D>,
                                     a: Option<A>, b: Option<B>, c: Option<C>, d: Option<D>)
    requires a in LeftSide(xs) && b in LeftSide(ys) && c in LeftSide(zs) && d in LeftSide(ws)
    ensures (((a, b), c), d) in LeftJoin4(xs, ys, zs, ws)
  {
    CrossContains(LeftSide(xs), LeftSide(ys), a, b);
    CrossContains(Cross(LeftSide(xs), LeftSide(ys)), LeftSide(zs), (a, b), c);
    CrossContains(Cross(Cross(LeftSide(xs), LeftSide(ys)), LeftSide(zs)), LeftSide(ws), ((a, b), c), d);
  }

  /** Membership in a chain of three cross products. */
  lemma CrossMembers4<A, B, C, D>(xs: seq<A>, ys: seq<B>, zs: seq<C>, ws: seq<D>)
    ensures forall p :: p in Cross(Cross(Cross(xs, ys), zs), ws) <==>
      p.0.0.0 in xs && p.0.0.1 in ys && p.0.1 in zs && p.1 in ws
  {
    var a := Cross(xs, ys);
    var b := Cross(a, zs);
    CrossMembers(xs, ys);
    CrossMembers(a, zs);
    CrossMembers(b, ws);
  }

  /**
   * `COUNT(DISTINCT t.id)` over joined rows: when the non-NULL `t` parts of
   * the rows are exactly the rows xs, the distinct non-NULL ids are the ids of xs.
   */
  lemma ProjectedIds<P, A>(j: seq<P>, xs: seq<A>, part: P -> Option<A>, id: A -> int, proj: P -> Option<int>)
    requires forall p :: proj(p) == if part(p).Some? then Some(id(part(p).value)) else None
    requires forall p :: p in j && part(p).Some? ==> part(p).value in xs
    requires forall x :: x in xs ==> exists p :: p in j && part(p) == Some(x)
    ensures (set o | o in Map(j, proj) && o.Some? :: o.value) == (set x | x in xs :: id(x))
  {
    var m := Map(j, proj);
    forall x | x in xs ensures Some(id(x)) in m {
      var p :| p in j && part(p) == Some(x);
      var k :| 0 <= k < |j| && j[k] == p;
      assert m[k] == Some(id(x));
    }
    forall o | o in m && o.Some? ensures exists x :: x in xs && id(x) == o.value {
      var k :| 0 <= k < |m| && m[k] == o;
      assert j[k] in j;
    }
  }

  /**
   * `a LEFT JOIN xs LEFT JOIN ys LEFT JOIN zs LEFT JOIN ws` for a single row a
   * that every row of the four tables matches: every combination, a table
   * without rows taking part as one NULL.
   */
  function LeftJoin4<A, B, C, D>(xs: seq<A>, ys: seq<B>, zs: seq<C>, ws: seq<D>): seq<(((Option<A>, Option<B>), Option<C>), Option<D>)> {
    Cross(Cross(Cross(LeftSide(xs), LeftSide(ys)), LeftSide(zs)), LeftSide(ws))
  }

  /** The first, second and third tables of a joined row. */
  function Joined1<A, B, C, D>(p: (((Option<A>, Option<B>), Option<C>), Option<D>)): Option<A> { p.0.0.0 }
  function Joined2<A, B, C, D>(p: (((Option<A>, Option<B>), Option<C>), Option<D>)): Option<B> { p.0.0.1 }
  function Joined3<A, B, C, D>(p: (((Option<A>, Option<B>), Option<C>), Option<D>)): Option<C> { p.0.1 }

  /** `COUNT(DISTINCT xs.id)` over the join: the distinct ids of the first table's rows. */
  lemma LeftJoinIds1<A, B, C, D>(xs: seq<A>, ys: seq<B>, zs: seq<C>, ws: seq<D>, id: A -> int,
                                 proj: ((((Option<A>, Option<B>), Option<C>), Option<D>)) -> Option<int>)
    requires forall p :: proj(p) == if Joined1(p).Some? then Some(id(Joined1(p).value)) else None
    ensures (set o | o in Map(LeftJoin4(xs, ys, zs, ws), proj) && o.Some? :: o.value) == (set x | x in xs :: id(x))
  {
    var j := LeftJoin4(xs, ys, zs, ws);
    CrossMembers4(LeftSide(xs), LeftSide(ys), LeftSide(zs), LeftSide(ws));
    LeftSideMembers(xs);
    forall x | x in xs ensures exists p :: p in j && Joined1(p) == Some(x) {
      assert LeftSide(xs)[0] in LeftSide(xs) && LeftSide(ys)[0] in LeftSide(ys);
      assert LeftSide(zs)[0] in LeftSide(zs) && LeftSide(ws)[0] in LeftSide(ws);
      LeftJoinContains(xs, ys, zs, ws, Some(x), LeftSide(ys)[0], LeftSide(zs)[0], LeftSide(ws)[0]);
    }
    forall p | p in j && Joined1(p).Some? ensures Joined1(p).value in xs {
      assert p.0.0.0 in LeftSide(xs);
    }
    ProjectedIds(j, xs, Joined1, id, proj);
  }

  /** The same for the second table. */
  lemma LeftJoinIds2<A, B, C, D>(xs: seq<A>, ys: seq<B>, zs: seq<C>, ws: seq<D>, id: B -> int,
                                 proj: ((((Option<A>, Option<B>), Option<C>), Option<D>)) -> Option<int>)
    requires forall p :: proj(p) == if Joined2(p).Some? then Some(id(Joined2(p).value)) else None
    ensures (set o | o in Map(LeftJoin4(xs, ys, zs, ws), proj) && o.Some? :: o.value) == (set y | y in ys :: id(y))
  {
    var j := LeftJoin4(xs, ys, zs, ws);
    CrossMembers4(LeftSide(xs), LeftSide(ys), LeftSide(zs), LeftSide(ws));
    LeftSideMembers(ys);
    forall y | y in ys ensures exists p :: p in j && Joined2(p) == Some(y) {
      assert LeftSide(xs)[0] in LeftSide(xs) && LeftSide(ys)[0] in LeftSide(ys);
      assert LeftSide(zs)[0] in LeftSide(zs) && LeftSide(ws)[0] in LeftSide(ws);
      LeftJoinContains(xs, ys, zs, ws, LeftSide(xs)[0], Some(y), LeftSide(zs)[0], LeftSide(ws)[0]);
    }
    forall p | p in j && Joined2(p).Some? ensures Joined2(p).value in ys {
      assert p.0.0.1 in LeftSide(ys);
    }
    ProjectedIds(j, ys, Joined2, id, proj);
  }

  /** The same for the third table. */
  lemma LeftJoinIds3<A, B, C, D>(xs: seq<A>, ys: seq<B>, zs: seq<C>, ws: seq<D>, id: C -> int,
                                 proj: ((((Option<A>, Option<B>), Option<C>), Option<D>)) -> Option<int>)
    requires forall p :: proj(p) == if Joined3(p).Some? then Some(id(Joined3(p).value)) else None
    ensures (set o | o in Map(LeftJoin4(xs, ys, zs, ws), proj) && o.Some? :: o.value) == (set z | z in zs :: id(z))
  {
    var j := LeftJoin4(xs, ys, zs, ws);
    CrossMembers4(LeftSide(xs), LeftSide(ys), LeftSide(zs), LeftSide(ws));
    LeftSideMembers(zs);
    forall z | z in zs ensures exists p :: p in j && Joined3(p) == Some(z) {
      assert LeftSide(xs)[0] in LeftSide(xs) && LeftSide(ys)[0] in LeftSide(ys);
      assert LeftSide(zs)[0] in LeftSide(zs) && LeftSide(ws)[0] in LeftSide(ws);
      LeftJoinContains(xs, ys, zs, ws, LeftSide(xs)[0], LeftSide(ys)[0], Some(z), LeftSide(ws)[0]);
    }
    forall p | p in j && Joined3(p).Some? ensures Joined3(p).value in zs {
      assert p.0.1 in LeftSide(zs);
    }
    ProjectedIds(j, zs, Joined3, id, proj);
  }

  /**
   * Summing a function g of each pair that only looks at the right-hand side
   * (g(q) is f(q.1)) counts every right-hand row once per left-hand row.
   */
  lemma {:induction false} SumByCrossRight<A, B>(xs: seq<A>, ys: seq<B>, f: B -> int, g: ((A, B)) -> int)
    requires forall q :: g(q) == f(q.1)
    ensures SumBy(Cross(xs, ys), g) == |xs| * SumBy(ys, f)
  {
    if xs != [] {
      var n := SumBy(ys, f);
      SumByCrossRight(xs[1..], ys, f, g);
      SumByConcat(Pairs(xs[0], ys), Cross(xs[1..], ys), g);
      SumByPairs(xs[0], ys, f, g);
      MulStep(|xs|, n);
    }
  }

  /**
   * Summing a function g of each pair that only looks at the left-hand side
   * (g(q) is f(q.0)) counts every left-hand row once per right-hand row.
   */
  lemma {:induction false} SumByCrossLeft<A, B>(xs: seq<A>, ys: seq<B>, f: A -> int, g: ((A, B)) -> int)
    requires forall q :: g(q) == f(q.0)
    ensures SumBy(Cross(xs, ys), g) == SumBy(xs, f) * |ys|
  {
    if xs != [] {
      SumByCrossLeft(xs[1..], ys, f, g);
      SumByConcat(Pairs(xs[0], ys), Cross(xs[1..], ys), g);
      SumByPairsLeft(xs[0], ys, f(xs[0]), g);
      assert (f(xs[0]) + SumBy(xs[1..], f)) * |ys| == f(xs[0]) * |ys| + SumBy(xs[1..], f) * |ys|;
    }
  }

  lemma {:induction false} SumByPairsLeft<A, B>(x: A, ys: seq<B>, v: int, g: ((A, B)) -> int)
    requires forall y :: g((x, y)) == v
    ensures SumBy(Pairs(x, ys), g) == v * |ys|
  {
    if ys != [] {
      SumByPairsLeft(x, ys[1..], v, g);
      assert Pairs(x, ys)[1..] == Pairs(x, ys[1..]);
      assert v * |ys| == v + v * |ys[1..]|;
    }
  }

  lemma {:induction false} SumByPairs<A, B>(x: A, ys: seq<B>, f: B -> int, g: ((A, B)) -> int)
    requires forall q :: g(q) == f(q.1)
    ensures SumBy(Pairs(x, ys), g) == SumBy(ys, f)
  {
    if ys != [] {
      SumByPairs(x, ys[1..], f, g);
      assert Pairs(x, ys)[1..] == Pairs(x, ys[1..]);
    }
  }

  /** The same for counting pairs whose right-hand side satisfies p. */
  lemma {:induction false} CountByCrossRight<A, B>(xs: seq<A>, ys: seq<B>, p: B -> bool, g: ((A, B)) -> bool)
    requires forall q :: g(q) == p(q.1)
    ensures CountBy(Cross(xs, ys), g) == |xs| * CountBy(ys, p)
  {
    if xs != [] {
      var n := CountBy(ys, p);
      CountByCrossRight(xs[1..], ys, p, g);
      CountByConcat(Pairs(xs[0], ys), Cross(xs[1..], ys), g);
      CountByPairs(xs[0], ys, p, g);
      MulStep(|xs|, n);
    }
  }

  lemma {:induction false} CountByPairs<A, B>(x: A, ys: seq<B>, p: B -> bool, g: ((A, B)) -> bool)
    requires forall q :: g(q) == p(q.1)
    ensures CountBy(Pairs(x, ys), g) == CountBy(ys, p)
  {
    if ys != [] {
      CountByPairs(x, ys[1..], p, g);
      assert Pairs(x, ys)[1..] == Pairs(x, ys[1..]);
    }
  }

  /** Filtering the cross product on its left-hand side filters the left-hand rows. */
  lemma {:induction false} FilterCrossLeft<A, B>(xs: seq<A>, ys: seq<B>, p: A -> bool, g: ((A, B)) -> bool)
    requires forall q :: g(q) == p(q.0)
    ensures Filter(Cross(xs, ys), g) == Cross(Filter(xs, p), ys)
  {
    if xs != [] {
      FilterCrossLeft(xs[1..], ys, p, g);
      FilterConcat(Pairs(xs[0], ys), Cross(xs[1..], ys), g);
      FilterPairs(xs[0], ys, p, g);
      if p(xs[0]) {
        assert Filter(xs, p) == [xs[0]] + Filter(xs[1..], p);
      } else {
        assert Filter(xs, p) == Filter(xs[1..], p);
      }
    }
  }

  lemma {:induction false} FilterPairs<A, B>(x: A, ys: seq<B>, p: A -> bool, g: ((A, B)) -> bool)
    requires forall q :: g(q) == p(q.0)
    ensures Filter(Pairs(x, ys), g) == if p(x) then Pairs(x, ys) else []
  {
    if ys != [] {
      FilterPairs(x, ys[1..], p, g);
      assert Pairs(x, ys)[1..] == Pairs(x, ys[1..]);
    }
  }

  // ---------------------------------------------------------------------------
  // LEFT JOIN

  function Wrap<T>(x: T): Option<T> { Some(x) }

  /**
   * The right-hand side of `LEFT JOIN t ON ...` for one left-hand row: every
   * matching row, or a single NULL row when no row matches.
   */
  function LeftSide<T>(xs: seq<T>): (r: seq<Option<T>>)
    ensures |r| == if xs == [] then 1 else |xs|
    ensures |r| >= 1
  {
    if xs == [] then [None] else Map(xs, Wrap<T>)
  }

  lemma LeftSideMembers<T>(xs: seq<T>)
    ensures forall o :: o in LeftSide(xs) <==> if xs == [] then o.None? else o.Some? && o.value in xs
  {
    if xs != [] {
      forall o: Option<T> | o.Some? && o.value in xs ensures o in LeftSide(xs) {
        var i :| 0 <= i < |xs| && xs[i] == o.value;
        assert LeftSide(xs)[i] == o;
      }
    }
  }

  /** Summing over the NULL-padded side, a NULL row adding nothing. */
  lemma {:induction false} SumByWrapped<T>(xs: seq<T>, f: T -> int, g: Option<T> -> int)
    requires forall o :: g(o) == if o.Some? then f(o.value) else 0
    ensures SumBy(LeftSide(xs), g) == SumBy(xs, f)
  {
    if xs != [] {
      SumByWrapped(xs[1..], f, g);
      if xs[1..] != [] {
        assert LeftSide(xs)[1..] == LeftSide(xs[1..]);
      }
    }
  }

  /** Counting the non-NULL rows of the padded side counts the matching rows. */
  lemma {:induction false} CountByWrapped<T>(xs: seq<T>, p: Option<T> -> bool)
    requires forall o :: p(o) == o.Some?
    ensures CountBy(LeftSide(xs), p) == |xs|
  {
    if xs != [] {
      CountByWrapped(xs[1..], p);
      if xs[1..] != [] {
        assert LeftSide(xs)[1..] == LeftSide(xs[1..]);
      }
    }
  }
}
