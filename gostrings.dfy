/**
 * The pieces of Go's `strings` and `strconv` packages that the flattener
 * relies on, over `seq<char>`: Index, Split, Join, Itoa and Atoi, with the
 * facts about them that the key arithmetic of the flattener needs.
 */
module GoStrings {
  import opened Wrappers

  const MinInt64: int := -0x8000_0000_0000_0000
  const MaxInt64: int := 0x7FFF_FFFF_FFFF_FFFF

  /** sep occurs in s at position j. */
  predicate OccursAt(s: string, sep: string, j: int) {
    0 <= j && j + |sep| <= |s| && s[j..j + |sep|] == sep
  }

  /** strings.Index: the position of the first occurrence of sep in s, or -1. */
  function Index(s: string, sep: string): (r: int)
    ensures r == -1 || (0 <= r && r + |sep| <= |s|)
    decreases |s|
  {
    if |s| < |sep| then -1
    else if s[..|sep|] == sep then 0
    else
      var j := Index(s[1..], sep);
      if j < 0 then -1 else j + 1
  }

  /** Index finds the first occurrence, and -1 means there is none. */
  lemma {:induction false} IndexFirst(s: string, sep: string)
    ensures Index(s, sep) == -1 || OccursAt(s, sep, Index(s, sep))
    ensures Index(s, sep) >= 0 ==> forall j :: 0 <= j < Index(s, sep) ==> !OccursAt(s, sep, j)
    ensures Index(s, sep) == -1 ==> forall j :: !OccursAt(s, sep, j)
    decreases |s|
  {
    if |s| >= |sep| && s[..|sep|] != sep {
      IndexFirst(s[1..], sep);
      assert !OccursAt(s, sep, 0);
      forall k | 0 < k
        ensures OccursAt(s, sep, k) <==> OccursAt(s[1..], sep, k - 1)
      {
        if k + |sep| <= |s| {
          var x, y := s[k..k + |sep|], s[1..][k - 1..k - 1 + |sep|];
          assert forall m :: 0 <= m < |x| ==> x[m] == y[m];
          assert x == y;
        }
      }
    }
  }

  /**
   * strings.Split: the pieces of s between the occurrences of sep. An empty
   * separator splits s into its characters, so that Split("", "") is empty.
   */
  function Split(s: string, sep: string): (r: seq<string>)
    ensures sep != [] ==> |r| > 0
    ensures sep == [] ==> |r| == |s|
    decreases |s|
  {
    if sep == [] then seq(|s|, i requires 0 <= i < |s| => [s[i]])
    else
      var i := Index(s, sep);
      if i < 0 then [s] else [s[..i]] + Split(s[i + |sep|..], sep)
  }

  /** With the empty separator, segment i is the i-th character on its own. */
  lemma SplitChars(s: string, i: nat)
    requires i < |s|
    ensures Split(s, [])[i] == [s[i]]
  {
  }

  /** strings.Join: the elements with sep between neighbours. */
  function Join(elems: seq<string>, sep: string): string
    decreases |elems|
  {
    if |elems| == 0 then []
    else if |elems| == 1 then elems[0]
    else elems[0] + sep + Join(elems[1..], sep)
  }

  /** Splitting and joining again with a non-empty separator gives back the string. */
  lemma {:induction false} JoinSplit(s: string, sep: string)
    requires sep != []
    ensures Join(Split(s, sep), sep) == s
    decreases |s|
  {
    var i := Index(s, sep);
    IndexFirst(s, sep);
    if i >= 0 {
      var rest := s[i + |sep|..];
      JoinSplit(rest, sep);
      assert ([s[..i]] + Split(rest, sep))[1..] == Split(rest, sep);
      assert s == s[..i] + sep + rest;
    }
  }

  /** Joining two non-empty lists puts one separator between their joins. */
  lemma {:induction false} JoinAppend(a: seq<string>, b: seq<string>, sep: string)
    requires |a| > 0 && |b| > 0
    ensures Join(a + b, sep) == Join(a, sep) + sep + Join(b, sep)
    decreases |a|
  {
    if |a| == 1 {
      assert (a + b)[0] == a[0];
      assert (a + b)[1..] == b;
    } else {
      assert (a + b)[0] == a[0];
      assert (a + b)[1..] == a[1..] + b;
      JoinAppend(a[1..], b, sep);
    }
  }

  /** The first one-character separator in a + [c] + b is the first in a, or the c itself. */
  lemma {:induction false} IndexConcat(a: string, b: string, c: char)
    ensures Index(a + [c] + b, [c]) == (if Index(a, [c]) >= 0 then Index(a, [c]) else |a|)
    decreases |a|
  {
    var s := a + [c] + b;
    if a == [] {
      assert s[..1] == [c];
    } else if a[..1] == [c] {
      assert s[..1] == a[..1];
    } else {
      assert s[..1] == a[..1];
      assert s[1..] == a[1..] + [c] + b;
      IndexConcat(a[1..], b, c);
    }
  }

  /** A one-character separator that does not occur is not found. */
  lemma {:induction false} IndexAbsent(s: string, c: char)
    requires c !in s
    ensures Index(s, [c]) == -1
    decreases |s|
  {
    if |s| >= 1 {
      assert s[..1][0] == s[0];
      assert forall ch :: ch in s[1..] ==> ch in s;
      IndexAbsent(s[1..], c);
    }
  }

  /** A string without the separator character splits into itself alone. */
  lemma SplitNoSep(s: string, c: char)
    requires c !in s
    ensures Split(s, [c]) == [s]
  {
    IndexAbsent(s, c);
  }

  /** Split at a found separator: the piece before it, then the split of the rest. */
  lemma SplitAt(s: string, c: char, i: int)
    requires Index(s, [c]) == i >= 0
    ensures Split(s, [c]) == [s[..i]] + Split(s[i + 1..], [c])
  {
  }

  /** The split of a + [c] + b when a holds c: the piece of a before it, then the split of the rest. */
  lemma SplitConcatFound(a: string, b: string, c: char, i: int)
    requires Index(a, [c]) == i >= 0
    ensures Split(a + [c] + b, [c]) == [a[..i]] + Split(a[i + 1..] + [c] + b, [c])
  {
    var s := a + [c] + b;
    IndexConcat(a, b, c);
    SplitAt(s, c, i);
    assert s[..i] == a[..i];
    assert s[i + 1..] == a[i + 1..] + [c] + b;
  }

  /** The split of a + [c] + b when a does not hold c: a, then the split of b. */
  lemma SplitConcatAbsent(a: string, b: string, c: char)
    requires Index(a, [c]) < 0
    ensures Split(a + [c] + b, [c]) == [a] + Split(b, [c])
    ensures Split(a, [c]) == [a]
  {
    var s := a + [c] + b;
    IndexConcat(a, b, c);
    SplitAt(s, c, |a|);
    assert s[..|a|] == a;
    assert s[|a| + 1..] == b;
  }

  lemma ConsAppend<T>(x: seq<T>, y: seq<T>, z: seq<T>, h: T, p: seq<T>, q: seq<T>)
    requires x == [h] + y && y == p + q && z == [h] + p
    ensures x == z + q
  {
  }

  /** Splitting at one character distributes over concatenation around that character. */
  lemma {:induction false} SplitConcat(a: string, b: string, c: char)
    ensures Split(a + [c] + b, [c]) == Split(a, [c]) + Split(b, [c])
    decreases |a|
  {
    if Index(a, [c]) >= 0 {
      var i := Index(a, [c]);
      var rest := a[i + 1..];
      var A, B := Split(rest, [c]), Split(b, [c]);
      assert Split(a + [c] + b, [c]) == [a[..i]] + Split(rest + [c] + b, [c]) by {
        SplitConcatFound(a, b, c, i);
      }
      assert Split(rest + [c] + b, [c]) == A + B by {
        SplitConcat(rest, b, c);
      }
      assert Split(a, [c]) == [a[..i]] + A by {
        SplitAt(a, c, i);
      }
      ConsAppend(Split(a + [c] + b, [c]), Split(rest + [c] + b, [c]), Split(a, [c]), a[..i], A, B);
    } else {
      SplitConcatAbsent(a, b, c);
    }
  }

  /** Joining segments free of the separator character and splitting again gives the segments. */
  lemma {:induction false} SplitJoin(segs: seq<string>, c: char)
    requires |segs| > 0
    requires forall i :: 0 <= i < |segs| ==> c !in segs[i]
    ensures Split(Join(segs, [c]), [c]) == segs
    decreases |segs|
  {
    SplitNoSep(segs[0], c);
    if |segs| > 1 {
      SplitConcat(segs[0], Join(segs[1..], [c]), c);
      SplitJoin(segs[1..], c);
    }
  }

  predicate IsDigit(ch: char) {
    '0' <= ch <= '9'
  }

  predicate AllDigits(s: string) {
    forall i :: 0 <= i < |s| ==> IsDigit(s[i])
  }

  function DigitChar(d: nat): (ch: char)
    requires d < 10
    ensures IsDigit(ch) && ch as int - '0' as int == d
  {
    ('0' as int + d) as char
  }

  /** strconv.Itoa on a non-negative number: its decimal digits, without leading zeros. */
  function Itoa(n: nat): (s: string)
    ensures |s| > 0 && AllDigits(s)
    ensures n == 0 ==> s == "0"
    ensures n > 0 ==> s[0] != '0'
  {
    if n < 10 then [DigitChar(n)] else Itoa(n / 10) + [DigitChar(n % 10)]
  }

  /** The number a string of decimal digits denotes. */
  function DecimalValue(ds: string): nat
    requires AllDigits(ds)
  {
    if ds == [] then 0
    else DecimalValue(ds[..|ds| - 1]) * 10 + (ds[|ds| - 1] as int - '0' as int)
  }

  /**
   * strconv.Atoi on a 64-bit platform: an optional sign followed by at least
   * one decimal digit, within the range of int64; anything else is an error.
   */
  function Atoi(s: string): (r: Option<int>)
    ensures r.Some? ==> MinInt64 <= r.value <= MaxInt64
  {
    if s == [] then None
    else
      var digits := if s[0] == '+' || s[0] == '-' then s[1..] else s;
      if digits == [] || !AllDigits(digits) then None
      else
        var magnitude: int := DecimalValue(digits);
        var v := if s[0] == '-' then -magnitude else magnitude;
        if MinInt64 <= v <= MaxInt64 then Some(v) else None
  }

  lemma {:induction false} DecimalValueItoa(n: nat)
    ensures DecimalValue(Itoa(n)) == n
  {
    if n >= 10 {
      var s := Itoa(n / 10) + [DigitChar(n % 10)];
      assert s[..|s| - 1] == Itoa(n / 10);
      DecimalValueItoa(n / 10);
    }
  }

  /** Atoi reads back what Itoa writes, for every index an int64 can hold. */
  lemma AtoiItoa(n: nat)
    requires n <= MaxInt64
    ensures Atoi(Itoa(n)) == Some(n)
  {
    DecimalValueItoa(n);
    var s := Itoa(n);
    assert IsDigit(s[0]);
  }

  /** Itoa is injective, so distinct array positions get distinct key segments. */
  lemma ItoaInjective(m: nat, n: nat)
    requires Itoa(m) == Itoa(n)
    ensures m == n
  {
    DecimalValueItoa(m);
    DecimalValueItoa(n);
  }
}
