/**
 * The string operations behind the routes: `String.prototype.split` on one
 * character and its inverse `GROUP_CONCAT` (join), SQL `SUBSTRING_INDEX`,
 * SQL `CAST(... AS UNSIGNED)` (leading digits), JavaScript `Number(...)` on
 * unsigned decimal strings, and decimal rendering of integers.
 */
module Text {

  // ---------------------------------------------------------------------------
  // Digits and decimal numbers

  predicate IsDigit(c: char) {
    '0' <= c <= '9'
  }

  predicate AllDigits(s: string) {
    forall i :: 0 <= i < |s| ==> IsDigit(s[i])
  }

  function DigitValue(c: char): (n: nat)
    requires IsDigit(c)
    ensures n <= 9
  {
    (c as int) - ('0' as int)
  }

  function DigitChar(n: nat): (c: char)
    requires n <= 9
    ensures IsDigit(c) && DigitValue(c) == n
  {
    (('0' as int) + n) as char
  }

  /** The decimal value of a string of digits; the empty string reads as 0. */
  function ParseDigits(s: string): nat
    requires AllDigits(s)
  {
    if s == [] then 0 else ParseDigits(s[..|s| - 1]) * 10 + DigitValue(s[|s| - 1])
  }

  /** Decimal rendering of a natural number, without leading zeros. */
  function NatToString(n: nat): (s: string)
    ensures |s| >= 1 && AllDigits(s)
  {
    if n < 10 then [DigitChar(n)] else NatToString(n / 10) + [DigitChar(n % 10)]
  }

  /** Reading back a rendered number gives the number. */
  lemma {:induction false} ParseNatToString(n: nat)
    ensures ParseDigits(NatToString(n)) == n
  {
    if n >= 10 {
      ParseNatToString(n / 10);
      var s := NatToString(n);
      assert s[..|s| - 1] == NatToString(n / 10);
    }
  }

  /** Template-literal rendering of an integer (`${n}`). */
  function IntToString(n: int): (s: string)
    ensures |s| >= 1
  {
    if n >= 0 then NatToString(n) else "-" + NatToString(-n)
  }

  /** The number a string starts with, as SQL `CAST(s AS UNSIGNED)` reads it: 0 without leading digits. */
  function LeadingNumber(s: string): nat {
    ParseDigits(LeadingDigits(s))
  }

  function LeadingDigits(s: string): (p: string)
    ensures AllDigits(p) && |p| <= |s| && p == s[..|p|]
    ensures |p| < |s| ==> !IsDigit(s[|p|])
  {
    if s == [] || !IsDigit(s[0]) then [] else [s[0]] + LeadingDigits(s[1..])
  }

  lemma {:induction false} LeadingDigitsOfDigitsThen(p: string, rest: string)
    requires AllDigits(p)
    requires rest == [] || !IsDigit(rest[0])
    ensures LeadingDigits(p + rest) == p
  {
    if p != [] {
      assert (p + rest)[1..] == p[1..] + rest;
      LeadingDigitsOfDigitsThen(p[1..], rest);
    } else {
      assert p + rest == rest;
    }
  }

  /** `CAST` reads back a rendered number that is followed by a non-digit or nothing. */
  lemma LeadingNumberOfRendered(n: nat, rest: string)
    requires rest == [] || !IsDigit(rest[0])
    ensures LeadingNumber(NatToString(n) + rest) == n
  {
    LeadingDigitsOfDigitsThen(NatToString(n), rest);
    ParseNatToString(n);
  }

  /** `Number(s)` in JavaScript, for the unsigned decimal strings the model admits. */
  datatype JsNumber = Num(value: nat) | NaN

  function ToNumber(s: string): (r: JsNumber)
    ensures r.Num? <==> AllDigits(s)
  {
    if AllDigits(s) then Num(ParseDigits(s)) else NaN
  }

  // ---------------------------------------------------------------------------
  // split and join on one character

  /** `s.split(sep)`: the pieces between separators; always at least one piece. */
  function Split(s: string, sep: char): (r: seq<string>)
    ensures |r| >= 1
    ensures forall i :: 0 <= i < |r| ==> sep !in r[i]
  {
    if sep !in s then [s]
    else
      var i := FirstIndex(s, sep);
      [s[..i]] + Split(s[i + 1..], sep)
  }

  function FirstIndex(s: string, c: char): (i: nat)
    requires c in s
    ensures i < |s| && s[i] == c && c !in s[..i]
  {
    if s[0] == c then 0 else 1 + FirstIndex(s[1..], c)
  }

  /** `xs.join(sep)`, and the join `GROUP_CONCAT(...)` makes with its `,` separator before its length cut. */
  function Join(xs: seq<string>, sep: char): string {
    if xs == [] then ""
    else if |xs| == 1 then xs[0]
    else xs[0] + [sep] + Join(xs[1..], sep)
  }

  /** Splitting a join of separator-free pieces gives the pieces back. */
  lemma {:induction false} SplitJoin(xs: seq<string>, sep: char)
    requires |xs| >= 1
    requires forall i :: 0 <= i < |xs| ==> sep !in xs[i]
    ensures Split(Join(xs, sep), sep) == xs
  {
    if |xs| > 1 {
      var s := Join(xs, sep);
      var a := xs[0];
      assert s == a + [sep] + Join(xs[1..], sep);
      assert s[|a|] == sep;
      assert s[..|a|] == a;
      assert sep in s;
      FirstIndexAfter(a, sep, Join(xs[1..], sep));
      assert s[|a| + 1..] == Join(xs[1..], sep);
      SplitJoin(xs[1..], sep);
    }
  }

  lemma FirstIndexAfter(a: string, c: char, b: string)
    requires c !in a
    ensures c in a + [c] + b && FirstIndex(a + [c] + b, c) == |a|
  {
    if a != [] {
      assert (a + [c] + b)[1..] == a[1..] + [c] + b;
      FirstIndexAfter(a[1..], c, b);
    }
  }

  /** A join is empty only when there is nothing to join or only one empty piece. */
  lemma {:induction false} JoinNonEmpty(xs: seq<string>, sep: char)
    requires |xs| >= 1 && xs[0] != ""
    ensures Join(xs, sep) != ""
  {
    if |xs| > 1 {
      assert |Join(xs, sep)| >= |xs[0]|;
    }
  }

  /** Joining the pieces of a split gives the string back. */
  lemma {:induction false} JoinSplit(s: string, sep: char)
    ensures Join(Split(s, sep), sep) == s
    decreases |s|
  {
    if sep in s {
      var i := FirstIndex(s, sep);
      var rest := Split(s[i + 1..], sep);
      JoinSplit(s[i + 1..], sep);
      assert Split(s, sep) == [s[..i]] + rest;
      assert ([s[..i]] + rest)[1..] == rest;
      assert s == s[..i] + [sep] + s[i + 1..];
    }
  }

  /** The first max characters of s, as SQL cuts a value at a length limit. */
  function Truncate(s: string, max: nat): (r: string)
    ensures r <= s && |r| == if |s| <= max then |s| else max
    ensures r == s <==> |s| <= max
  {
    if |s| <= max then s else s[..max]
  }

  /**
   * Splitting a prefix of a join of separator-free pieces gives at most as
   * many pieces: all but the last are the original ones, the last is a
   * prefix of the piece at its position.
   */
  lemma {:induction false} SplitJoinPrefix(xs: seq<string>, sep: char, n: nat)
    requires |xs| >= 1
    requires forall i :: 0 <= i < |xs| ==> sep !in xs[i]
    requires n <= |Join(xs, sep)|
    ensures var r := Split(Join(xs, sep)[..n], sep);
      && |r| <= |xs|
      && (forall i :: 0 <= i < |r| - 1 ==> r[i] == xs[i])
      && r[|r| - 1] <= xs[|r| - 1]
  {
    var a := xs[0];
    if |xs| == 1 || n <= |a| {
      JoinFront(xs, sep, n);
      PrefixFree(a, sep, n);
    } else {
      var rest := Join(xs[1..], sep);
      var m := n - |a| - 1;
      JoinAfterFront(xs, sep, n);
      SplitAfterFirst(a, sep, rest[..m]);
      SplitJoinPrefix(xs[1..], sep, m);
      PiecesCons(xs, Split(rest[..m], sep));
    }
  }

  /** r is at most as many pieces as xs, all but the last equal to xs's and the last a prefix of its own. */
  ghost predicate PrefixPieces(r: seq<string>, xs: seq<string>) {
    && 1 <= |r| <= |xs|
    && (forall i :: 0 <= i < |r| - 1 ==> r[i] == xs[i])
    && r[|r| - 1] <= xs[|r| - 1]
  }

  lemma PiecesCons(xs: seq<string>, r: seq<string>)
    requires |xs| >= 2 && PrefixPieces(r, xs[1..])
    ensures PrefixPieces([xs[0]] + r, xs)
  {
    var r2 := [xs[0]] + r;
    forall i | 0 <= i < |r2| - 1 ensures r2[i] == xs[i] {
      if i > 0 {
        assert r2[i] == r[i - 1] && xs[1..][i - 1] == xs[i];
      }
    }
    assert r2[|r2| - 1] == r[|r| - 1] && xs[1..][|r| - 1] == xs[|r2| - 1];
  }

  /** A cut within the first piece is a prefix of that piece. */
  lemma JoinFront(xs: seq<string>, sep: char, n: nat)
    requires |xs| >= 1 && n <= |Join(xs, sep)|
    requires |xs| == 1 || n <= |xs[0]|
    ensures n <= |xs[0]| && Join(xs, sep)[..n] == xs[0][..n]
  {
    if |xs| > 1 {
      assert Join(xs, sep) == xs[0] + [sep] + Join(xs[1..], sep);
    }
  }

  /** A cut past the first piece keeps that piece, its separator and a prefix of the rest. */
  lemma JoinAfterFront(xs: seq<string>, sep: char, n: nat)
    requires |xs| >= 2 && |xs[0]| < n <= |Join(xs, sep)|
    ensures var m := n - |xs[0]| - 1;
      && 0 <= m <= |Join(xs[1..], sep)|
      && Join(xs, sep)[..n] == xs[0] + [sep] + Join(xs[1..], sep)[..m]
  {
    var rest := Join(xs[1..], sep);
    assert Join(xs, sep) == xs[0] + [sep] + rest;
  }

  /** The split of a + sep + b, a without the separator, is a followed by the split of b. */
  lemma SplitAfterFirst(a: string, sep: char, b: string)
    requires sep !in a
    ensures Split(a + [sep] + b, sep) == [a] + Split(b, sep)
  {
    var t := a + [sep] + b;
    FirstIndexAfter(a, sep, b);
    assert t[..|a|] == a;
    assert t[|a| + 1..] == b;
  }

  lemma PrefixFree(a: string, sep: char, n: nat)
    requires sep !in a && n <= |a|
    ensures sep !in a[..n]
  {
    assert forall i :: 0 <= i < n ==> a[..n][i] == a[i];
  }

  /**
   * A join of separator-free pieces, cut at max characters, splits back
   * into the pieces exactly when the join fits within max.
   */
  lemma CutJoinRoundTrip(xs: seq<string>, sep: char, max: nat)
    requires |xs| >= 1
    requires forall i :: 0 <= i < |xs| ==> sep !in xs[i]
    ensures Split(Truncate(Join(xs, sep), max), sep) == xs <==> |Join(xs, sep)| <= max
  {
    SplitJoin(xs, sep);
    JoinSplit(Truncate(Join(xs, sep), max), sep);
  }

  /** A join of pieces at most w long is at most |xs| * (w + 1) - 1 long; of pieces exactly w long, exactly that. */
  lemma {:induction false} JoinLength(xs: seq<string>, sep: char, w: nat)
    requires |xs| >= 1
    ensures (forall i :: 0 <= i < |xs| ==> |xs[i]| <= w) ==> |Join(xs, sep)| <= |xs| * (w + 1) - 1
    ensures (forall i :: 0 <= i < |xs| ==> |xs[i]| == w) ==> |Join(xs, sep)| == |xs| * (w + 1) - 1
  {
    if |xs| > 1 {
      JoinLength(xs[1..], sep, w);
      assert |Join(xs, sep)| == |xs[0]| + 1 + |Join(xs[1..], sep)|;
      assert |xs| * (w + 1) == (|xs| - 1) * (w + 1) + (w + 1);
      assert forall i :: 0 <= i < |xs[1..]| ==> xs[1..][i] == xs[i + 1];
    }
  }

  // ---------------------------------------------------------------------------
  // SUBSTRING_INDEX(s, delim, 1) and SUBSTRING_INDEX(s, delim, -1)

  /** Everything before the first occurrence of `delim`, or all of s without one. */
  function BeforeFirst(s: string, delim: string): (r: string)
    requires |delim| > 0
    ensures |r| <= |s|
  {
    if |s| < |delim| then s
    else if s[..|delim|] == delim then ""
    else [s[0]] + BeforeFirst(s[1..], delim)
  }

  /** Everything after the last occurrence of `delim`, or all of s without one. */
  function AfterLast(s: string, delim: string): (r: string)
    requires |delim| > 0
    ensures |r| <= |s|
  {
    if |s| < |delim| then s
    else if s[|s| - |delim|..] == delim then ""
    else AfterLast(s[..|s| - 1], delim) + [s[|s| - 1]]
  }

  const RangeDelimiter: string := " - "

  /** With no '-' in the left part, the text before the first " - " is that part. */
  lemma {:induction false} BeforeFirstRange(a: string, b: string)
    requires '-' !in a
    ensures BeforeFirst(a + RangeDelimiter + b, RangeDelimiter) == a
  {
    var s := a + RangeDelimiter + b;
    if a == [] {
      assert s[..3] == RangeDelimiter;
    } else {
      assert s[..3] != RangeDelimiter by {
        if |a| >= 2 {
          assert s[1] == a[1];
        } else {
          assert s[1] == ' ';
        }
      }
      assert s[1..] == a[1..] + RangeDelimiter + b;
      BeforeFirstRange(a[1..], b);
    }
  }

  /** With no '-' in the right part, the text after the last " - " is that part. */
  lemma {:induction false} AfterLastRange(a: string, b: string)
    requires '-' !in b
    ensures AfterLast(a + RangeDelimiter + b, RangeDelimiter) == b
  {
    var s := a + RangeDelimiter + b;
    if b == [] {
      assert s[|s| - 3..] == RangeDelimiter;
    } else {
      var front := b[..|b| - 1];
      NoDelimiterAtEnd(a, b);
      AfterLastStep(s, RangeDelimiter);
      RangeFront(a, b);
      AfterLastRange(a, front);
    }
  }

  /** Dropping the last character of a range drops it from the right part. */
  lemma RangeFront(a: string, b: string)
    requires '-' !in b && b != []
    ensures var s := a + RangeDelimiter + b;
      && '-' !in b[..|b| - 1]
      && s[..|s| - 1] == a + RangeDelimiter + b[..|b| - 1]
      && b[..|b| - 1] + [s[|s| - 1]] == b
  {
    var s := a + RangeDelimiter + b;
    var front := b[..|b| - 1];
    assert '-' !in front by {
      forall i | 0 <= i < |front| ensures front[i] != '-' {
        assert front[i] == b[i];
      }
    }
    assert s[..|s| - 1] == a + RangeDelimiter + front;
    assert front + [s[|s| - 1]] == b;
  }

  /** Text not ending in the delimiter keeps its last character after the last delimiter. */
  lemma AfterLastStep(s: string, delim: string)
    requires |delim| > 0 && |s| >= |delim| && s[|s| - |delim|..] != delim
    ensures AfterLast(s, delim) == AfterLast(s[..|s| - 1], delim) + [s[|s| - 1]]
  {
  }

  /** A non-empty right part without '-' does not end in " - ". */
  lemma NoDelimiterAtEnd(a: string, b: string)
    requires '-' !in b && b != []
    ensures var s := a + RangeDelimiter + b; s[|s| - 3..] != RangeDelimiter
  {
    var s := a + RangeDelimiter + b;
    if |b| >= 2 {
      assert s[|s| - 2] == b[|b| - 2];
    } else {
      assert s[|s| - 2] == ' ';
    }
  }

  /** SUBSTRING_INDEX on a one-character delimiter: the text before the first c. */
  lemma {:induction false} BeforeFirstChar(a: string, c: char, b: string)
    requires c !in a
    ensures BeforeFirst(a + [c] + b, [c]) == a
  {
    var s := a + [c] + b;
    if a != [] {
      assert s[..1] != [c] by {
        assert s[0] == a[0];
      }
      assert s[1..] == a[1..] + [c] + b;
      BeforeFirstChar(a[1..], c, b);
    } else {
      assert s[..1] == [c];
    }
  }
}
