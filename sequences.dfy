/**
 * Generic facts about sequences shared by the models of the three components:
 * duplicate freedom, removing every occurrence of a value (JavaScript's
 * `filter(f => f !== x)`), counting occurrences and joining strings with a
 * separator (JavaScript's `join`).
 */
module Sequences {

  predicate NoDuplicates<T(==)>(s: seq<T>) {
    forall i, j :: 0 <= i < j < |s| ==> s[i] != s[j]
  }

  /** The elements of `s` that differ from `x`, in their original order. */
  function Without<T(==)>(s: seq<T>, x: T): seq<T> {
    if s == [] then []
    else (if s[0] == x then [] else [s[0]]) + Without(s[1..], x)
  }

  /** Number of positions of `s` holding `x`. */
  function Count<T(==)>(s: seq<T>, x: T): nat {
    if s == [] then 0
    else (if s[0] == x then 1 else 0) + Count(s[1..], x)
  }

  /** The strings of `parts` with `sep` between neighbours. */
  function Join(parts: seq<string>, sep: string): string {
    if parts == [] then ""
    else if |parts| == 1 then parts[0]
    else parts[0] + sep + Join(parts[1..], sep)
  }

  /** `r` is `s` with some elements dropped and the rest in their original order. */
  predicate IsSubsequence<T(==)>(r: seq<T>, s: seq<T>)
    decreases |s|
  {
    if r == [] then true
    else if s == [] then false
    else if r[0] == s[0] then IsSubsequence(r[1..], s[1..])
    else IsSubsequence(r, s[1..])
  }

  /** Total length of the strings of `parts`. */
  function TotalLength(parts: seq<string>): nat {
    if parts == [] then 0 else |parts[0]| + TotalLength(parts[1..])
  }

  /** `Without` removes exactly the occurrences of `x` and keeps everything else. */
  lemma {:induction false} WithoutMembers<T>(s: seq<T>, x: T)
    ensures x !in Without(s, x)
    ensures forall y :: y != x ==> (y in Without(s, x) <==> y in s)
    ensures |Without(s, x)| == |s| - Count(s, x)
  {
    if s != [] {
      WithoutMembers(s[1..], x);
      assert s == [s[0]] + s[1..];
    }
  }

  /** Removing a value that does not occur changes nothing. */
  lemma {:induction false} WithoutAbsent<T>(s: seq<T>, x: T)
    requires x !in s
    ensures Without(s, x) == s
  {
    if s != [] {
      WithoutAbsent(s[1..], x);
      assert s == [s[0]] + s[1..];
    }
  }

  /**
   * `Without` distributes over concatenation: together with its value on
   * one-element sequences this says it keeps the relative order of the
   * remaining elements.
   */
  lemma {:induction false} WithoutConcat<T>(a: seq<T>, b: seq<T>, x: T)
    ensures Without(a + b, x) == Without(a, x) + Without(b, x)
  {
    if a == [] {
      assert a + b == b;
    } else {
      assert (a + b)[1..] == a[1..] + b;
      WithoutConcat(a[1..], b, x);
    }
  }

  /** Removing a value keeps the relative order of the remaining elements. */
  lemma {:induction false} WithoutIsSubsequence<T>(s: seq<T>, x: T)
    ensures IsSubsequence(Without(s, x), s)
  {
    if s != [] {
      WithoutIsSubsequence(s[1..], x);
      if s[0] == x {
        assert Without(s, x) == Without(s[1..], x);
        SubsequenceOfTail(Without(s[1..], x), s);
      } else {
        assert Without(s, x) == [s[0]] + Without(s[1..], x);
        assert Without(s, x)[1..] == Without(s[1..], x);
      }
    }
  }

  lemma {:induction false} SubsequenceOfTail<T>(r: seq<T>, s: seq<T>)
    requires s != [] && IsSubsequence(r, s[1..])
    ensures IsSubsequence(r, s)
    decreases |s|, |r|
  {
    if r != [] && r[0] == s[0] {
      // r[0] also occurs in s[1..], so matching it at s[0] leaves more room.
      SubsequenceDropFirst(r, s[1..]);
    }
  }

  lemma {:induction false} SubsequenceDropFirst<T>(r: seq<T>, s: seq<T>)
    requires r != [] && IsSubsequence(r, s)
    ensures IsSubsequence(r[1..], s)
    decreases |s|, |r|
  {
    if r[0] == s[0] {
      SubsequenceOfTail(r[1..], s);
    } else {
      SubsequenceDropFirst(r, s[1..]);
      SubsequenceOfTail(r[1..], s);
    }
  }

  /** Removing a value keeps a duplicate-free sequence duplicate-free. */
  lemma {:induction false} WithoutNoDuplicates<T>(s: seq<T>, x: T)
    requires NoDuplicates(s)
    ensures NoDuplicates(Without(s, x))
  {
    if s != [] {
      assert NoDuplicates(s[1..]);
      WithoutNoDuplicates(s[1..], x);
      WithoutMembers(s[1..], x);
      assert s[0] !in s[1..];
    }
  }

  lemma {:induction false} CountConcat<T>(a: seq<T>, b: seq<T>, x: T)
    ensures Count(a + b, x) == Count(a, x) + Count(b, x)
  {
    if a == [] {
      assert a + b == b;
    } else {
      assert (a + b)[1..] == a[1..] + b;
      CountConcat(a[1..], b, x);
    }
  }

  /** In a duplicate-free sequence every value occurs at most once. */
  lemma {:induction false} CountNoDuplicates<T>(s: seq<T>, x: T)
    requires NoDuplicates(s)
    ensures Count(s, x) == if x in s then 1 else 0
  {
    if s != [] {
      assert NoDuplicates(s[1..]);
      CountNoDuplicates(s[1..], x);
      assert s == [s[0]] + s[1..];
      assert s[0] !in s[1..];
    }
  }

  /** Appending a fresh element keeps a sequence duplicate-free. */
  lemma AppendNoDuplicates<T>(s: seq<T>, x: T)
    requires NoDuplicates(s) && x !in s
    ensures NoDuplicates(s + [x])
  {
  }

  /** A joined string is as long as its parts plus one separator between each pair. */
  lemma {:induction false} JoinLength(parts: seq<string>, sep: string)
    requires parts != []
    ensures |Join(parts, sep)| == TotalLength(parts) + (|parts| - 1) * |sep|
  {
    if |parts| > 1 {
      JoinLength(parts[1..], sep);
    }
  }

  /** A joined string starts with the first part and ends with the last one. */
  lemma {:induction false} JoinEnds(parts: seq<string>, sep: string)
    requires parts != []
    ensures Join(parts, sep)[..|parts[0]|] == parts[0]
    ensures |Join(parts, sep)| >= |parts[|parts| - 1]|
    ensures Join(parts, sep)[|Join(parts, sep)| - |parts[|parts| - 1]|..] == parts[|parts| - 1]
  {
    if |parts| > 1 {
      JoinEnds(parts[1..], sep);
      var rest := Join(parts[1..], sep);
      var last := parts[|parts| - 1];
      assert last == parts[1..][|parts[1..]| - 1];
      var whole := parts[0] + sep + rest;
      assert whole[|whole| - |last|..] == rest[|rest| - |last|..];
    }
  }
}
