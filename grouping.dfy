/**
 * `SELECT key, SUM(value), COUNT(*), MIN(at) ... GROUP BY key ORDER BY MIN(at)`
 * over an in-memory sequence of rows. Groups come out in order of first
 * appearance of their keys (the order a hash-free `GROUP BY` scan meets
 * them); `OrderByFirst` then applies the `ORDER BY MIN(at)` that the queries
 * state.
 */
module Grouping {
  import opened Collections
  import opened Sorting
  import opened Numbers

  datatype Group<K> = Group(key: K, total: int, count: nat, first: int)

  /** The rows that fall into the group of key k. */
  function Members<R, K(==,!new)>(rows: seq<R>, key: R -> K, k: K): seq<R> {
    Filter(rows, (r: R) => key(r) == k)
  }

  lemma MembersOf<R, K(!new)>(rows: seq<R>, key: R -> K, k: K)
    ensures forall x :: x in Members(rows, key, k) <==> x in rows && key(x) == k
  {
    FilterMembers(rows, (r: R) => key(r) == k);
  }

  /** Members through any predicate that picks the same rows. */
  lemma MembersAsFilter<R, K(!new)>(rows: seq<R>, key: R -> K, k: K, p: R -> bool)
    requires forall r :: p(r) == (key(r) == k)
    ensures Members(rows, key, k) == Filter(rows, p)
  {
    FilterExt(rows, (r: R) => key(r) == k, p);
  }

  /**
   * Grouping a cross join by a key of its left rows: a group's members are
   * the left rows of that key, each paired with every right row.
   */
  lemma MembersCrossLeft<A, B, K(!new)>(xs: seq<A>, ys: seq<B>, key: A -> K, jkey: ((A, B)) -> K, k: K)
    requires forall q :: jkey(q) == key(q.0)
    ensures Members(Cross(xs, ys), jkey, k) == Cross(Members(xs, key, k), ys)
  {
    var p := (r: A) => key(r) == k;
    var g := (r: (A, B)) => jkey(r) == k;
    MembersAsFilter(Cross(xs, ys), jkey, k, g);
    FilterCrossLeft(xs, ys, p, g);
  }

  /** The keys of such a join are keys of its left rows. */
  lemma KeysCrossLeft<A, B, K>(xs: seq<A>, ys: seq<B>, key: A -> K, jkey: ((A, B)) -> K, k: K)
    requires forall q :: jkey(q) == key(q.0)
    requires k in Map(Cross(xs, ys), jkey)
    ensures k in Map(xs, key)
  {
    var j := Cross(xs, ys);
    var mj := Map(j, jkey);
    var n :| 0 <= n < |mj| && mj[n] == k;
    var q := j[n];
    assert jkey(q) == k;
    CrossMembers(xs, ys);
    assert q in j;
    var i :| 0 <= i < |xs| && xs[i] == q.0;
    assert Map(xs, key)[i] == key(q.0);
  }

  function KeysOf<R, K(==,!new)>(rows: seq<R>, key: R -> K): seq<K> {
    Distinct(Map(rows, key))
  }

  lemma MembersNonEmpty<R, K(!new)>(rows: seq<R>, key: R -> K, k: K)
    requires k in Map(rows, key)
    ensures |Members(rows, key, k)| > 0
  {
    var i :| 0 <= i < |rows| && Map(rows, key)[i] == k;
    FilterMembers(rows, (r: R) => key(r) == k);
    assert rows[i] in Members(rows, key, k);
  }

  function GroupOf<R, K(==,!new)>(rows: seq<R>, key: R -> K, value: R -> int, at: R -> int, k: K): (g: Group<K>)
    requires k in Map(rows, key)
    ensures g.key == k && g.count >= 1
  {
    var m := Members(rows, key, k);
    MembersNonEmpty(rows, key, k);
    Group(k, SumBy(m, value), |m|, MinBy(m, at))
  }

  /** `GROUP BY key`: one group per distinct key, in order of first appearance. */
  function GroupBy<R, K(==,!new)>(rows: seq<R>, key: R -> K, value: R -> int, at: R -> int): (gs: seq<Group<K>>)
    ensures |gs| == |KeysOf(rows, key)|
    ensures forall i :: 0 <= i < |gs| ==> gs[i].key == KeysOf(rows, key)[i]
  {
    var ks := KeysOf(rows, key);
    DistinctMembers(Map(rows, key));
    seq(|ks|, i requires 0 <= i < |ks| => GroupOf(rows, key, value, at, ks[i]))
  }

  /** The group records: one per key present in the rows, and nothing else. */
  lemma GroupByMembers<R, K(!new)>(rows: seq<R>, key: R -> K, value: R -> int, at: R -> int)
    ensures forall g :: g in GroupBy(rows, key, value, at) <==>
      g.key in Map(rows, key) && g == GroupOf(rows, key, value, at, g.key)
    ensures NoDuplicates(KeysOf(rows, key))
  {
    var gs := GroupBy(rows, key, value, at);
    var ks := KeysOf(rows, key);
    DistinctMembers(Map(rows, key));
    forall g ensures g in gs <==> g.key in Map(rows, key) && g == GroupOf(rows, key, value, at, g.key) {
      if g.key in Map(rows, key) && g == GroupOf(rows, key, value, at, g.key) {
        var i :| 0 <= i < |ks| && ks[i] == g.key;
        assert gs[i] == g;
      }
    }
  }

  /** `ORDER BY MIN(at)` */
  function OrderByFirst<K(!new)>(gs: seq<Group<K>>): seq<Group<K>> {
    SortBy(gs, ByFirst<K>)
  }

  predicate ByFirst<K>(a: Group<K>, b: Group<K>) {
    a.first <= b.first
  }

  lemma ByFirstIsTotalPreorder<K(!new)>()
    ensures TotalPreorder(ByFirst<K>)
  {
  }

  /** The sorted groups are the same groups, now in order of their earliest `at`. */
  lemma OrderByFirstFacts<K(!new)>(gs: seq<Group<K>>)
    ensures multiset(OrderByFirst(gs)) == multiset(gs)
    ensures forall g :: g in OrderByFirst(gs) <==> g in gs
    ensures forall i, j :: 0 <= i < j < |OrderByFirst(gs)| ==>
      OrderByFirst(gs)[i].first <= OrderByFirst(gs)[j].first
  {
    var le := ByFirst<K>;
    SortByPermutes(gs, le);
    SortByMembers(gs, le);
    forall g ensures g in OrderByFirst(gs) <==> g in gs {
      assert g in OrderByFirst(gs) <==> g in multiset(OrderByFirst(gs));
      assert g in gs <==> g in multiset(gs);
    }
    ByFirstIsTotalPreorder<K>();
    SortBySorted(gs, le);
  }

  lemma NoDuplicatesMultiplicity<T>(s: seq<T>)
    ensures NoDuplicates(s) <==> forall x :: multiset(s)[x] <= 1
  {
    if s != [] {
      NoDuplicatesMultiplicity(s[1..]);
      assert s == [s[0]] + s[1..];
      if NoDuplicates(s) {
        assert NoDuplicates(s[1..]);
        assert s[0] !in s[1..];
      }
      if forall x :: multiset(s)[x] <= 1 {
        forall x ensures multiset(s[1..])[x] <= 1 {
          assert multiset(s)[x] == multiset(s[1..])[x] + (if x == s[0] then 1 else 0);
        }
        assert multiset(s[1..])[s[0]] == 0;
        forall i, j | 0 <= i < j < |s| ensures s[i] != s[j] {
          if i == 0 {
            assert s[j] in s[1..];
          } else {
            assert s[i] == s[1..][i - 1] && s[j] == s[1..][j - 1];
          }
        }
      }
    }
  }

  /** A rearrangement of a sequence without duplicates has none either. */
  lemma PermutationKeepsNoDuplicates<T>(s: seq<T>, t: seq<T>)
    requires multiset(s) == multiset(t) && NoDuplicates(s)
    ensures NoDuplicates(t)
  {
    NoDuplicatesMultiplicity(s);
    NoDuplicatesMultiplicity(t);
  }

  /**
   * Grouped and ordered: keys distinct, one group per key present, each group
   * the aggregate of its members, groups in order of earliest `at`, and
   * strictly so when `at` determines the key.
   */
  lemma OrderedGroupsFacts<R, K(!new)>(rows: seq<R>, key: R -> K, value: R -> int, at: R -> int)
    ensures var os := OrderByFirst(GroupBy(rows, key, value, at));
      && |os| == |KeysOf(rows, key)|
      && (forall i, j :: 0 <= i < j < |os| ==> os[i].key != os[j].key)
      && (forall g :: g in os <==> g.key in Map(rows, key) && g == GroupOf(rows, key, value, at, g.key))
      && (forall i, j :: 0 <= i < j < |os| ==> os[i].first <= os[j].first)
  {
    var gs := GroupBy(rows, key, value, at);
    var os := OrderByFirst(gs);
    GroupByMembers(rows, key, value, at);
    OrderByFirstFacts(gs);
    assert NoDuplicates(gs) by {
      forall i, j | 0 <= i < j < |gs| ensures gs[i] != gs[j] {
        assert gs[i].key == KeysOf(rows, key)[i];
      }
    }
    PermutationKeepsNoDuplicates(gs, os);
    assert |os| == |gs| by {
      assert |multiset(os)| == |multiset(gs)|;
    }
    forall i, j | 0 <= i < j < |os| ensures os[i].key != os[j].key {
      assert os[i] in gs && os[j] in gs;
    }
  }

  /** Group by group: each ordered group is the aggregate of the rows of its key. */
  lemma OrderedGroupsAt<R, K(!new)>(rows: seq<R>, key: R -> K, value: R -> int, at: R -> int)
    ensures var os := OrderByFirst(GroupBy(rows, key, value, at));
      && (forall i, j :: 0 <= i < j < |os| ==> os[i].key != os[j].key)
      && (forall i, j :: 0 <= i < j < |os| ==> os[i].first <= os[j].first)
      && (forall i :: 0 <= i < |os| ==> os[i].key in Map(rows, key))
      && (forall i :: 0 <= i < |os| ==>
            os[i].total == SumBy(Members(rows, key, os[i].key), value) &&
            os[i].count == |Members(rows, key, os[i].key)|)
  {
    var os := OrderByFirst(GroupBy(rows, key, value, at));
    OrderedGroupsFacts(rows, key, value, at);
    forall i | 0 <= i < |os|
      ensures os[i].key in Map(rows, key)
      ensures os[i].total == SumBy(Members(rows, key, os[i].key), value)
      ensures os[i].count == |Members(rows, key, os[i].key)|
    {
      assert os[i] in os;
    }
  }

  /** The same, group by group, before ordering. */
  lemma GroupByAt<R, K(!new)>(rows: seq<R>, key: R -> K, value: R -> int, at: R -> int)
    ensures var gs := GroupBy(rows, key, value, at);
      && (forall i, j :: 0 <= i < j < |gs| ==> gs[i].key != gs[j].key)
      && (forall i :: 0 <= i < |gs| ==> gs[i].key in Map(rows, key))
      && (forall i :: 0 <= i < |gs| ==> gs[i] == GroupOf(rows, key, value, at, gs[i].key))
      && (forall k :: k in Map(rows, key) ==> exists i :: 0 <= i < |gs| && gs[i].key == k)
  {
    var gs := GroupBy(rows, key, value, at);
    GroupByMembers(rows, key, value, at);
    forall i, j | 0 <= i < j < |gs| ensures gs[i].key != gs[j].key {
      assert gs[i].key == KeysOf(rows, key)[i];
      assert gs[j].key == KeysOf(rows, key)[j];
    }
    forall i | 0 <= i < |gs| ensures gs[i].key in Map(rows, key) && gs[i] == GroupOf(rows, key, value, at, gs[i].key) {
      assert gs[i] in gs;
    }
    forall k | k in Map(rows, key) ensures exists i :: 0 <= i < |gs| && gs[i].key == k {
      var g := GroupOf(rows, key, value, at, k);
      assert g in gs;
      var i :| 0 <= i < |gs| && gs[i] == g;
    }
  }

  /** When equal `at` values imply equal keys, distinct groups have distinct earliest `at`. */
  lemma OrderedGroupsStrict<R, K(!new)>(rows: seq<R>, key: R -> K, value: R -> int, at: R -> int)
    requires forall i, j :: 0 <= i < |rows| && 0 <= j < |rows| && at(rows[i]) == at(rows[j]) ==>
      key(rows[i]) == key(rows[j])
    ensures var os := OrderByFirst(GroupBy(rows, key, value, at));
      forall i, j :: 0 <= i < j < |os| ==> os[i].first < os[j].first
  {
    var os := OrderByFirst(GroupBy(rows, key, value, at));
    OrderedGroupsFacts(rows, key, value, at);
    forall i, j | 0 <= i < j < |os| ensures os[i].first < os[j].first {
      var a, b := os[i], os[j];
      FirstIsAtOfMember(rows, key, value, at, a.key);
      FirstIsAtOfMember(rows, key, value, at, b.key);
    }
  }

  lemma FirstIsAtOfMember<R, K(!new)>(rows: seq<R>, key: R -> K, value: R -> int, at: R -> int, k: K)
    requires k in Map(rows, key)
    ensures exists i :: 0 <= i < |rows| && key(rows[i]) == k && at(rows[i]) == GroupOf(rows, key, value, at, k).first
  {
    var m := Members(rows, key, k);
    MembersNonEmpty(rows, key, k);
    var j :| 0 <= j < |m| && MinBy(m, at) == at(m[j]);
    FilterMembers(rows, (r: R) => key(r) == k);
    assert m[j] in rows;
    var i :| 0 <= i < |rows| && rows[i] == m[j];
  }

  /** Grouping by the ordering column itself: a group's earliest value is its key. */
  lemma FirstOfSelfKey<R>(rows: seq<R>, key: R -> int, value: R -> int, k: int)
    requires k in Map(rows, key)
    ensures GroupOf(rows, key, value, key, k).first == k
  {
    FirstIsAtOfMember(rows, key, value, key, k);
  }

  /**
   * `ORDER BY MIN(at) LIMIT n` keeps the n groups with the earliest `at`:
   * a key left out has its earliest `at` no earlier than any kept group's.
   */
  lemma LimitKeepsEarliest<R, K(!new)>(rows: seq<R>, key: R -> K, value: R -> int, at: R -> int, n: nat, k: K)
    requires k in Map(rows, key)
    requires var kept := Take(OrderByFirst(GroupBy(rows, key, value, at)), n);
      forall i :: 0 <= i < |kept| ==> kept[i].key != k
    ensures var kept := Take(OrderByFirst(GroupBy(rows, key, value, at)), n);
      forall i :: 0 <= i < |kept| ==> kept[i].first <= GroupOf(rows, key, value, at, k).first
  {
    var os := OrderByFirst(GroupBy(rows, key, value, at));
    OrderedGroupsFacts(rows, key, value, at);
    var g := GroupOf(rows, key, value, at, k);
    assert g in os && g.key == k;
    PrefixBeforeLeftOut(os, n, g);
  }

  /** In groups ordered by `first`, a group missing from the first n comes no earlier than any of them. */
  lemma PrefixBeforeLeftOut<K>(os: seq<Group<K>>, n: nat, g: Group<K>)
    requires g in os
    requires forall i, j :: 0 <= i < j < |os| ==> os[i].first <= os[j].first
    requires forall i :: 0 <= i < |Take(os, n)| ==> Take(os, n)[i].key != g.key
    ensures forall i :: 0 <= i < |Take(os, n)| ==> Take(os, n)[i].first <= g.first
  {
    var kept := Take(os, n);
    var j :| 0 <= j < |os| && os[j] == g;
    forall i | 0 <= i < |kept| ensures kept[i] == os[i] && kept[i] != g {
    }
    assert |kept| <= j;
    forall i | 0 <= i < |kept| ensures kept[i].first <= g.first {
      assert kept[i] == os[i];
    }
  }

  /**
   * `ROUND(AVG(value), k)` as MySQL computes it for a non-empty group, the
   * four-place average rounded again: scale 1 is `ROUND(AVG(...))`, scale 100
   * is `ROUND(AVG(...), 2)` in hundredths.
   */
  function RoundedAverage<K>(g: Group<K>, scale: nat): int {
    if g.count == 0 then 0 else SqlRoundAverage(g.total, g.count, scale)
  }

  /** If every member's value lies in [lo, hi], so does the group's rounded average (scaled). */
  lemma AverageBetween<R, K(!new)>(rows: seq<R>, key: R -> K, value: R -> int, at: R -> int, k: K, scale: nat, lo: int, hi: int)
    requires k in Map(rows, key)
    requires forall i :: 0 <= i < |rows| ==> lo <= value(rows[i]) <= hi
    ensures lo * scale <= RoundedAverage(GroupOf(rows, key, value, at, k), scale) <= hi * scale
  {
    var g := GroupOf(rows, key, value, at, k);
    var m := Members(rows, key, k);
    FilterMembers(rows, (r: R) => key(r) == k);
    forall i | 0 <= i < |m| ensures lo <= value(m[i]) <= hi {
      assert m[i] in rows;
    }
    SumByBounds(m, value, lo, hi);
    SqlRoundAverageBetween(g.total, |m|, scale, lo, hi);
  }
}
