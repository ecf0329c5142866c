/**
 * `ROW_NUMBER() OVER (PARTITION BY part ORDER BY first DESC)` over grouped
 * rows, and the `WHERE rn <= n` that keeps the n most recent groups of each
 * partition. A group's row number is one more than the number of groups of
 * its partition that start later.
 */
module Ranking {
  import opened Collections
  import opened Grouping
  import opened Sorting

  /** The groups of g's partition that start strictly later than g. */
  function Newer<K>(gs: seq<Group<K>>, part: K -> string, g: Group<K>): nat {
    CountBy(gs, (h: Group<K>) => part(h.key) == part(g.key) && h.first > g.first)
  }

  /** The row number: 1 for the most recent group of a partition, 2 for the next, and so on. */
  function RowNumber<K>(gs: seq<Group<K>>, part: K -> string, g: Group<K>): nat {
    Newer(gs, part, g) + 1
  }

  /** `WHERE rn <= n`, the groups kept in their original order. */
  function TopPerPartition<K>(gs: seq<Group<K>>, part: K -> string, n: nat): seq<Group<K>> {
    Filter(gs, (g: Group<K>) => RowNumber(gs, part, g) <= n)
  }

  /** Within a partition no two groups start at the same value, so the numbering has no ties. */
  ghost predicate FirstsDistinctWithin<K>(gs: seq<Group<K>>, part: K -> string) {
    forall g, h :: g in gs && h in gs && part(g.key) == part(h.key) && g.first == h.first ==> g == h
  }

  /** The kept groups are exactly the groups numbered n or less. */
  lemma TopMembers<K>(gs: seq<Group<K>>, part: K -> string, n: nat)
    ensures forall g :: g in TopPerPartition(gs, part, n) <==> g in gs && RowNumber(gs, part, g) <= n
  {
    FilterMembers(gs, (g: Group<K>) => RowNumber(gs, part, g) <= n);
  }

  /** Each kept group shown through f: the shown values are exactly those of the groups numbered n or less. */
  lemma TopMapMembers<K, E>(gs: seq<Group<K>>, part: K -> string, n: nat, f: Group<K> -> E)
    ensures forall e :: e in Map(TopPerPartition(gs, part, n), f) <==>
      exists g :: g in gs && RowNumber(gs, part, g) <= n && e == f(g)
  {
    var kept := TopPerPartition(gs, part, n);
    TopMembers(gs, part, n);
    forall e ensures e in Map(kept, f) <==> exists g :: g in gs && RowNumber(gs, part, g) <= n && e == f(g) {
      if e in Map(kept, f) {
        var k :| 0 <= k < |kept| && e == f(kept[k]);
        assert kept[k] in kept;
      }
      if exists g :: g in gs && RowNumber(gs, part, g) <= n && e == f(g) {
        var g :| g in gs && RowNumber(gs, part, g) <= n && e == f(g);
        assert g in kept;
        var k :| 0 <= k < |kept| && kept[k] == g;
        assert Map(kept, f)[k] == e;
      }
    }
  }

  /** The same membership once the shown values are sorted. */
  lemma SortedTopMembers<K, E>(gs: seq<Group<K>>, part: K -> string, n: nat, f: Group<K> -> E, le: (E, E) -> bool)
    ensures forall e :: e in SortBy(Map(TopPerPartition(gs, part, n), f), le) <==>
      exists g :: g in gs && RowNumber(gs, part, g) <= n && e == f(g)
  {
    SortByMembers(Map(TopPerPartition(gs, part, n), f), le);
    TopMapMembers(gs, part, n, f);
  }

  /** An earlier start never gets a smaller row number within the partition. */
  lemma NewerAntitone<K>(gs: seq<Group<K>>, part: K -> string, a: Group<K>, b: Group<K>)
    requires part(a.key) == part(b.key)
    ensures b.first <= a.first ==> Newer(gs, part, a) <= Newer(gs, part, b)
  {
    if b.first <= a.first {
      CountByMonotone(gs,
        (h: Group<K>) => part(h.key) == part(a.key) && h.first > a.first,
        (h: Group<K>) => part(h.key) == part(b.key) && h.first > b.first);
    }
  }

  /** A group that starts later in the same partition gets a strictly smaller row number. */
  lemma RowNumberStrict<K>(gs: seq<Group<K>>, part: K -> string, a: Group<K>, b: Group<K>)
    requires b in gs && part(a.key) == part(b.key) && a.first < b.first
    ensures RowNumber(gs, part, b) < RowNumber(gs, part, a)
  {
    var i :| 0 <= i < |gs| && gs[i] == b;
    CountByMonotoneStrict(gs,
      (h: Group<K>) => part(h.key) == part(b.key) && h.first > b.first,
      (h: Group<K>) => part(h.key) == part(a.key) && h.first > a.first, i);
  }

  /** A group cut off by the numbering is older than every kept group of its partition. */
  lemma TopKeepsNewest<K>(gs: seq<Group<K>>, part: K -> string, n: nat, g: Group<K>, h: Group<K>)
    requires g in gs && RowNumber(gs, part, g) > n
    requires h in TopPerPartition(gs, part, n) && part(h.key) == part(g.key)
    ensures h.first > g.first
  {
    TopMembers(gs, part, n);
    NewerAntitone(gs, part, g, h);
  }

  /** At most n groups of any one partition are kept. */
  lemma {:induction false} TopAtMost<K>(gs: seq<Group<K>>, part: K -> string, n: nat, t: string, inT: Group<K> -> bool)
    requires NoDuplicates(gs) && FirstsDistinctWithin(gs, part)
    requires forall x :: inT(x) == (part(x.key) == t)
    ensures CountBy(TopPerPartition(gs, part, n), inT) <= n
  {
    var keep := (g: Group<K>) => RowNumber(gs, part, g) <= n;
    var both := (x: Group<K>) => RowNumber(gs, part, x) <= n && inT(x);
    CountByFilter(gs, keep, inT, both);
    CountByIsFilterLength(gs, both);
    var f := Filter(gs, both);
    if |f| > 0 {
      var m := Oldest(f);
      OldestCovers(gs, part, t, both, f, m);
      CountBelowOldest(gs, part, n, both, m);
    }
  }

  /** Every counted group is the oldest one, m, or newer than m in the same partition. */
  lemma OldestCovers<K>(gs: seq<Group<K>>, part: K -> string, t: string, both: Group<K> -> bool, f: seq<Group<K>>, m: Group<K>)
    requires FirstsDistinctWithin(gs, part)
    requires f == Filter(gs, both) && m in f
    requires forall x :: both(x) ==> part(x.key) == t
    requires forall j :: 0 <= j < |f| ==> m.first <= f[j].first
    ensures m in gs && both(m)
    ensures forall x :: x in gs && both(x) ==> (part(x.key) == part(m.key) && x.first > m.first) || x == m
  {
    FilterMembers(gs, both);
    forall x | x in gs && both(x) ensures (part(x.key) == part(m.key) && x.first > m.first) || x == m {
      assert x in f;
      var j :| 0 <= j < |f| && f[j] == x;
      assert part(x.key) == part(m.key);
    }
  }

  /**
   * When every counted group is the oldest counted one, m, or newer than it
   * in m's partition, the count is at most m's row number.
   */
  lemma CountBelowOldest<K>(gs: seq<Group<K>>, part: K -> string, n: nat, both: Group<K> -> bool, m: Group<K>)
    requires NoDuplicates(gs) && RowNumber(gs, part, m) <= n
    requires forall x :: x in gs && both(x) ==> (part(x.key) == part(m.key) && x.first > m.first) || x == m
    ensures CountBy(gs, both) <= n
  {
    var newer := (h: Group<K>) => part(h.key) == part(m.key) && h.first > m.first;
    var isM := (x: Group<K>) => x == m;
    var either := (x: Group<K>) => newer(x) || isM(x);
    CountByMonotone(gs, both, either);
    CountByUnion(gs, newer, isM, either);
    CountByAtMostOne(gs, isM);
  }

  /** A group of f with the earliest start. */
  function Oldest<K>(f: seq<Group<K>>): (m: Group<K>)
    requires |f| > 0
    ensures m in f
    ensures forall j :: 0 <= j < |f| ==> m.first <= f[j].first
  {
    if |f| == 1 then f[0]
    else
      var rest := Oldest(f[1..]);
      if f[0].first <= rest.first then f[0] else rest
  }
}
