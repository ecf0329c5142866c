/**
 * `ORDER BY` as insertion sort under a caller-supplied "comes no later than"
 * relation. SQL leaves the order of ties open; this model resolves them by
 * keeping input order, which is one of the orders SQL allows.
 */
module Sorting {
  import opened Collections

  /** `le` is total and transitive, as every `ORDER BY` key comparison is. */
  ghost predicate TotalPreorder<T(!new)>(le: (T, T) -> bool) {
    && (forall a, b :: le(a, b) || le(b, a))
    && (forall a, b, c :: le(a, b) && le(b, c) ==> le(a, c))
  }

  ghost predicate SortedBy<T>(s: seq<T>, le: (T, T) -> bool) {
    forall i, j :: 0 <= i < j < |s| ==> le(s[i], s[j])
  }

  function Insert<T>(x: T, s: seq<T>, le: (T, T) -> bool): (r: seq<T>)
    ensures |r| == |s| + 1
  {
    if s == [] then [x]
    else if le(x, s[0]) then [x] + s
    else [s[0]] + Insert(x, s[1..], le)
  }

  function SortBy<T>(s: seq<T>, le: (T, T) -> bool): (r: seq<T>)
    ensures |r| == |s|
  {
    if s == [] then [] else Insert(s[0], SortBy(s[1..], le), le)
  }

  lemma {:induction false} InsertPermutes<T>(x: T, s: seq<T>, le: (T, T) -> bool)
    ensures multiset(Insert(x, s, le)) == multiset(s) + multiset{x}
  {
    if s != [] && !le(x, s[0]) {
      InsertPermutes(x, s[1..], le);
      assert s == [s[0]] + s[1..];
    }
  }

  /** Sorting rearranges the rows and neither adds nor drops one. */
  lemma {:induction false} SortByPermutes<T>(s: seq<T>, le: (T, T) -> bool)
    ensures multiset(SortBy(s, le)) == multiset(s)
  {
    if s != [] {
      SortByPermutes(s[1..], le);
      InsertPermutes(s[0], SortBy(s[1..], le), le);
      assert s == [s[0]] + s[1..];
    }
  }

  lemma {:induction false} InsertSorted<T(!new)>(x: T, s: seq<T>, le: (T, T) -> bool)
    requires TotalPreorder(le)
    requires SortedBy(s, le)
    ensures SortedBy(Insert(x, s, le), le)
  {
    if s != [] && !le(x, s[0]) {
      var tail := Insert(x, s[1..], le);
      InsertSorted(x, s[1..], le);
      InsertBelowHead(x, s, le);
      assert Insert(x, s, le) == [s[0]] + tail;
      ConsSorted(s[0], tail, le);
    }
  }

  /** A sorted sequence stays sorted under a head that comes no later than any of it. */
  lemma ConsSorted<T>(h: T, tail: seq<T>, le: (T, T) -> bool)
    requires SortedBy(tail, le)
    requires forall k :: 0 <= k < |tail| ==> le(h, tail[k])
    ensures SortedBy([h] + tail, le)
  {
    var r := [h] + tail;
    forall i, j | 0 <= i < j < |r| ensures le(r[i], r[j]) {
      assert r[j] == tail[j - 1];
      if i > 0 {
        assert r[i] == tail[i - 1];
      }
    }
  }

  /** When x goes after the head of a sorted s, the head comes no later than anything in the rest. */
  lemma InsertBelowHead<T(!new)>(x: T, s: seq<T>, le: (T, T) -> bool)
    requires TotalPreorder(le) && SortedBy(s, le)
    requires s != [] && !le(x, s[0])
    ensures forall k :: 0 <= k < |Insert(x, s[1..], le)| ==> le(s[0], Insert(x, s[1..], le)[k])
  {
    var tail := Insert(x, s[1..], le);
    InsertPermutes(x, s[1..], le);
    forall k | 0 <= k < |tail| ensures le(s[0], tail[k]) {
      assert tail[k] in multiset(tail);
      if tail[k] != x {
        assert tail[k] in multiset(s[1..]);
        var m :| 0 <= m < |s[1..]| && s[1..][m] == tail[k];
        assert s[m + 1] == tail[k];
      }
    }
  }

  /** Under a total preorder, the result is in order. */
  lemma {:induction false} SortBySorted<T(!new)>(s: seq<T>, le: (T, T) -> bool)
    requires TotalPreorder(le)
    ensures SortedBy(SortBy(s, le), le)
  {
    if s != [] {
      SortBySorted(s[1..], le);
      InsertSorted(s[0], SortBy(s[1..], le), le);
    }
  }

  /** Sorting keeps the elements, so every element of s is found in the result. */
  lemma SortByMembers<T>(s: seq<T>, le: (T, T) -> bool)
    ensures forall x :: x in SortBy(s, le) <==> x in s
  {
    SortByPermutes(s, le);
    forall x ensures x in SortBy(s, le) <==> x in s {
      assert x in SortBy(s, le) <==> x in multiset(SortBy(s, le));
      assert x in s <==> x in multiset(s);
    }
  }

  /**
   * `ORDER BY ... LIMIT n` keeps the n first rows in the order: whatever is
   * left out comes no earlier than anything that is kept.
   */
  lemma SortedPrefixBeforeRest<T>(s: seq<T>, le: (T, T) -> bool, n: nat)
    requires SortedBy(s, le)
    requires n <= |s|
    ensures forall i, j :: 0 <= i < n <= j < |s| ==> le(s[i], s[j])
  {
  }

  /**
   * Character-by-character string order, a proper prefix first: `ORDER BY`
   * on a string column when the strings differ only in characters of the
   * same case.
   */
  predicate StringLe(a: string, b: string)
    decreases |a|
  {
    if a == [] then true
    else if b == [] then false
    else if a[0] != b[0] then a[0] < b[0]
    else StringLe(a[1..], b[1..])
  }

  /** An ASCII capital as its lower-case letter; every other character as it is. */
  function FoldChar(c: char): char {
    if 'A' <= c <= 'Z' then (c as int + 32) as char else c
  }

  /**
   * The key a case-insensitive collation compares: every ASCII letter in
   * lower case, so "Python" and "python" weigh the same.
   */
  function FoldCase(s: string): (r: string)
    ensures |r| == |s|
  {
    seq(|s|, i requires 0 <= i < |s| => FoldChar(s[i]))
  }

  lemma {:induction false} StringLeTotal(a: string, b: string)
    ensures StringLe(a, b) || StringLe(b, a)
    decreases |a|
  {
    if a != [] && b != [] && a[0] == b[0] {
      StringLeTotal(a[1..], b[1..]);
    }
  }

  lemma {:induction false} StringLeTransitive(a: string, b: string, c: string)
    requires StringLe(a, b) && StringLe(b, c)
    ensures StringLe(a, c)
    decreases |a|
  {
    if a != [] && b != [] && c != [] && a[0] == b[0] && b[0] == c[0] {
      StringLeTransitive(a[1..], b[1..], c[1..]);
    }
  }

  /** Reversal, as `Array.prototype.reverse` leaves an array. */
  function Reverse<T>(s: seq<T>): (r: seq<T>)
    ensures |r| == |s|
  {
    if s == [] then [] else Reverse(s[1..]) + [s[0]]
  }

  /** Reversal permutes. */
  lemma {:induction false} ReversePermutes<T>(s: seq<T>)
    ensures multiset(Reverse(s)) == multiset(s)
  {
    if s != [] {
      ReversePermutes(s[1..]);
      assert s == [s[0]] + s[1..];
    }
  }

  lemma {:induction false} ReverseAt<T>(s: seq<T>, k: nat)
    requires k < |s|
    ensures Reverse(s)[k] == s[|s| - 1 - k]
  {
    if k < |s| - 1 {
      ReverseAt(s[1..], k);
    }
  }

  /** Reversing a sequence sorted under `le` gives one sorted under the converse. */
  lemma ReverseSorted<T>(s: seq<T>, le: (T, T) -> bool)
    requires SortedBy(s, le)
    ensures SortedBy(Reverse(s), (a: T, b: T) => le(b, a))
  {
    var r := Reverse(s);
    forall i, j | 0 <= i < j < |r| ensures le(r[j], r[i]) {
      ReverseAt(s, i);
      ReverseAt(s, j);
    }
  }

  /** Strings that are each no later than the other are equal. */
  lemma {:induction false} StringLeAntisymmetric(a: string, b: string)
    ensures StringLe(a, b) && StringLe(b, a) ==> a == b
    decreases |a|
  {
    if a != [] && b != [] && a[0] == b[0] {
      StringLeAntisymmetric(a[1..], b[1..]);
      if StringLe(a, b) && StringLe(b, a) {
        assert a == [a[0]] + a[1..] && b == [b[0]] + b[1..];
      }
    }
  }

  /**
   * `ORDER BY ... LIMIT m`: an element that the first m rows of the ordered
   * result hold fewer times than the input comes no earlier than any kept row.
   */
  /** The first m elements after sorting are some of the input's, each at most as often. */
  lemma SortedPrefixSubMultiset<T>(s: seq<T>, le: (T, T) -> bool, m: nat)
    requires m <= |s|
    ensures multiset(SortBy(s, le)[..m]) <= multiset(s)
  {
    SortByPermutes(s, le);
    var t := SortBy(s, le);
    assert t == t[..m] + t[m..];
  }

  lemma LimitLeftOut<T(!new)>(s: seq<T>, le: (T, T) -> bool, m: nat)
    requires TotalPreorder(le) && m <= |s|
    ensures var kept := SortBy(s, le)[..m];
      forall x :: multiset(kept)[x] < multiset(s)[x] ==> forall y :: y in kept ==> le(y, x)
  {
    SortByPermutes(s, le);
    SortBySorted(s, le);
    SortedPrefixFirst(SortBy(s, le), le, m);
  }

  /** In a sorted sequence, an element left out of a prefix comes after every element kept. */
  lemma SortedPrefixFirst<T>(t: seq<T>, le: (T, T) -> bool, m: nat)
    requires SortedBy(t, le) && m <= |t|
    ensures forall x :: multiset(t[..m])[x] < multiset(t)[x] ==> forall y :: y in t[..m] ==> le(y, x)
  {
    var kept := t[..m];
    assert t == kept + t[m..];
    assert multiset(t) == multiset(kept) + multiset(t[m..]);
    forall x | multiset(kept)[x] < multiset(t)[x] ensures forall y :: y in kept ==> le(y, x) {
      assert x in multiset(t[m..]);
      var j :| 0 <= j < |t[m..]| && t[m..][j] == x;
      forall y | y in kept ensures le(y, x) {
        var i :| 0 <= i < m && kept[i] == y;
        assert t[i] == y && t[m + j] == x;
      }
    }
  }

  /** Sorting the images of xs: the elements are exactly the images of the elements of xs. */
  lemma SortByMapMembers<A, B>(xs: seq<A>, f: A -> B, le: (B, B) -> bool)
    ensures forall y :: y in SortBy(Map(xs, f), le) <==> exists x :: x in xs && y == f(x)
  {
    SortByMembers(Map(xs, f), le);
    MapMembers(xs, f);
  }
}
