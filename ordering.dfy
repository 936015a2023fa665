/**
 * The orderings the listings are sorted by, and the stable in-place sort that
 * `Vec::sort` and `Vec::sort_by` perform.
 *
 * Rust compares `String`s lexicographically by their UTF-8 bytes, which is the
 * same order as lexicographic comparison by code point; `LexLe` is that order.
 * Rust's slice sort is stable, and a stable sort by a total preorder has only
 * one possible result, so `SortBy` is specified by a functional insertion sort.
 */
module Ordering {

  /** `a <= b` in the order of `Ord for str`. */
  predicate LexLe(a: string, b: string) {
    a == [] || (b != [] && (a[0] < b[0] || (a[0] == b[0] && LexLe(a[1..], b[1..]))))
  }

  lemma {:induction false} LexLeReflexive(a: string)
    ensures LexLe(a, a)
  {
    if a != [] { LexLeReflexive(a[1..]); }
  }

  lemma {:induction false} LexLeTotal(a: string, b: string)
    ensures LexLe(a, b) || LexLe(b, a)
  {
    if a != [] && b != [] && a[0] == b[0] { LexLeTotal(a[1..], b[1..]); }
  }

  lemma {:induction false} LexLeTransitive(a: string, b: string, c: string)
    requires LexLe(a, b) && LexLe(b, c)
    ensures LexLe(a, c)
  {
    if a != [] && b != [] && c != [] && a[0] == b[0] == c[0] {
      LexLeTransitive(a[1..], b[1..], c[1..]);
    }
  }

  lemma {:induction false} LexLeAntisymmetric(a: string, b: string)
    requires LexLe(a, b) && LexLe(b, a)
    ensures a == b
  {
    if a != [] && b != [] {
      LexLeAntisymmetric(a[1..], b[1..]);
      assert a == [a[0]] + a[1..] && b == [b[0]] + b[1..];
    }
  }

  /** A common prefix does not decide the order of two strings. */
  lemma {:induction false} LexLeCommonPrefix(p: string, a: string, b: string)
    ensures LexLe(p + a, p + b) <==> LexLe(a, b)
  {
    if p != [] {
      LexLeCommonPrefix(p[1..], a, b);
      assert (p + a)[1..] == p[1..] + a && (p + b)[1..] == p[1..] + b;
    } else {
      assert p + a == a && p + b == b;
    }
  }

  lemma LexLeSharedPrefix(p: string, x: string, y: string, a: string, b: string)
    requires a == p + x && b == p + y
    ensures LexLe(a, b) <==> LexLe(x, y)
  {
    LexLeCommonPrefix(p, x, y);
  }

  /** ASCII lower-casing, standing for `str::to_lowercase`. */
  function LowerChar(c: char): char {
    if 'A' <= c <= 'Z' then (c as int + 32) as char else c
  }

  function Lower(s: string): string {
    seq(|s|, i requires 0 <= i < |s| => LowerChar(s[i]))
  }

  /** Non-decreasing by `key`, between every two positions. */
  predicate Sorted<T>(s: seq<T>, key: T -> string) {
    forall i, j :: 0 <= i < j < |s| ==> LexLe(key(s[i]), key(s[j]))
  }

  /** The elements whose key is `k`, in their order in `s`: a stable sort keeps this sequence. */
  function Filter<T>(s: seq<T>, key: T -> string, k: string): seq<T>
    decreases |s|
  {
    if s == [] then []
    else Filter(s[..|s| - 1], key, k) + (if key(s[|s| - 1]) == k then [s[|s| - 1]] else [])
  }

  /** Inserts `x` after every element whose key is not greater than its own. */
  function InsertSorted<T>(s: seq<T>, x: T, key: T -> string): seq<T>
    decreases |s|
  {
    if s == [] || LexLe(key(s[|s| - 1]), key(x)) then s + [x]
    else InsertSorted(s[..|s| - 1], x, key) + [s[|s| - 1]]
  }

  function InsertionSort<T>(s: seq<T>, key: T -> string): seq<T>
    decreases |s|
  {
    if s == [] then [] else InsertSorted(InsertionSort(s[..|s| - 1], key), s[|s| - 1], key)
  }

  lemma {:induction false} InsertSortedPermutes<T>(s: seq<T>, x: T, key: T -> string)
    ensures multiset(InsertSorted(s, x, key)) == multiset(s) + multiset{x}
    decreases |s|
  {
    if s != [] && !LexLe(key(s[|s| - 1]), key(x)) {
      var init, last := s[..|s| - 1], s[|s| - 1];
      InsertSortedPermutes(init, x, key);
      assert s == init + [last];
    }
  }

  lemma {:induction false} InsertSortedSorted<T>(s: seq<T>, x: T, key: T -> string)
    requires Sorted(s, key)
    ensures Sorted(InsertSorted(s, x, key), key)
    decreases |s|
  {
    var r := InsertSorted(s, x, key);
    if s == [] {
    } else if LexLe(key(s[|s| - 1]), key(x)) {
      forall i, j | 0 <= i < j < |r| ensures LexLe(key(r[i]), key(r[j])) {
        if j == |s| && i < |s| - 1 {
          LexLeTransitive(key(s[i]), key(s[|s| - 1]), key(x));
        }
      }
    } else {
      var init, last := s[..|s| - 1], s[|s| - 1];
      var r' := InsertSorted(init, x, key);
      InsertSortedSorted(init, x, key);
      InsertSortedPermutes(init, x, key);
      assert r == r' + [last];
      forall i | 0 <= i < |r'| ensures LexLe(key(r'[i]), key(last)) {
        assert r'[i] in multiset(r');
        if r'[i] == x {
          LexLeTotal(key(x), key(last));
        } else {
          assert r'[i] in multiset(init);
          var k :| 0 <= k < |init| && init[k] == r'[i];
          assert s[k] == init[k];
        }
      }
    }
  }

  lemma {:induction false} FilterAppend<T>(s: seq<T>, t: seq<T>, key: T -> string, k: string)
    ensures Filter(s + t, key, k) == Filter(s, key, k) + Filter(t, key, k)
    decreases |t|
  {
    if t == [] {
      assert s + t == s;
    } else {
      var t', y := t[..|t| - 1], t[|t| - 1];
      assert (s + t)[..|s + t| - 1] == s + t';
      FilterAppend(s, t', key, k);
    }
  }

  lemma {:induction false} InsertSortedStable<T>(s: seq<T>, x: T, key: T -> string, k: string)
    ensures Filter(InsertSorted(s, x, key), key, k) == Filter(s, key, k) + (if key(x) == k then [x] else [])
    decreases |s|
  {
    if s == [] || LexLe(key(s[|s| - 1]), key(x)) {
      FilterAppend(s, [x], key, k);
      assert Filter([x], key, k) == (if key(x) == k then [x] else []) by {
        assert [x][..0] == [];
      }
    } else {
      var init, last := s[..|s| - 1], s[|s| - 1];
      InsertSortedStable(init, x, key, k);
      // `last` sorts strictly after `x`, so at most one of them has key `k`.
      LexLeReflexive(key(x));
      assert key(last) != key(x);
      var r' := InsertSorted(init, x, key);
      assert (r' + [last])[..|r' + [last]| - 1] == r';
    }
  }

  /** The insertion sort orders its input by key. */
  lemma {:induction false} InsertionSortSorted<T>(s: seq<T>, key: T -> string)
    ensures Sorted(InsertionSort(s, key), key)
    decreases |s|
  {
    if s != [] {
      InsertionSortSorted(s[..|s| - 1], key);
      InsertSortedSorted(InsertionSort(s[..|s| - 1], key), s[|s| - 1], key);
    }
  }

  /** The insertion sort rearranges its input and neither loses nor adds an element. */
  lemma {:induction false} InsertionSortPermutes<T>(s: seq<T>, key: T -> string)
    ensures multiset(InsertionSort(s, key)) == multiset(s)
    ensures |InsertionSort(s, key)| == |s|
    decreases |s|
  {
    if s != [] {
      InsertionSortPermutes(s[..|s| - 1], key);
      InsertSortedPermutes(InsertionSort(s[..|s| - 1], key), s[|s| - 1], key);
      assert s == s[..|s| - 1] + [s[|s| - 1]];
      assert |multiset(InsertionSort(s, key))| == |multiset(s)|;
    }
  }

  /** The insertion sort is stable: the elements sharing a key keep their relative order. */
  lemma {:induction false} InsertionSortStable<T>(s: seq<T>, key: T -> string, k: string)
    ensures Filter(InsertionSort(s, key), key, k) == Filter(s, key, k)
    decreases |s|
  {
    if s != [] {
      InsertionSortStable(s[..|s| - 1], key, k);
      InsertSortedStable(InsertionSort(s[..|s| - 1], key), s[|s| - 1], key, k);
    }
  }

  /** The three promises of a stable sort, gathered for callers. */
  lemma StableSortPromises<T>(s: seq<T>, key: T -> string)
    ensures Sorted(InsertionSort(s, key), key)
    ensures multiset(InsertionSort(s, key)) == multiset(s)
    ensures forall k :: Filter(InsertionSort(s, key), key, k) == Filter(s, key, k)
  {
    InsertionSortSorted(s, key);
    InsertionSortPermutes(s, key);
    forall k ensures Filter(InsertionSort(s, key), key, k) == Filter(s, key, k) {
      InsertionSortStable(s, key, k);
    }
  }

  /** Inserting into a prefix whose last element is greater than `x` puts `x` before that element. */
  lemma InsertSortedStep<T>(s: seq<T>, x: T, key: T -> string, j: nat)
    requires 0 < j <= |s| && !LexLe(key(s[j - 1]), key(x))
    ensures InsertSorted(s[..j], x, key) == InsertSorted(s[..j - 1], x, key) + [s[j - 1]]
  {
    assert s[..j][..j - 1] == s[..j - 1];
  }

  lemma InsertSortedStop<T>(s: seq<T>, x: T, key: T -> string, j: nat)
    requires j <= |s| && (j == 0 || LexLe(key(s[j - 1]), key(x)))
    ensures InsertSorted(s[..j], x, key) == s[..j] + [x]
  {
  }

  /** The bookkeeping of one loop step: the element before the hole moves from the prefix to the suffix. */
  lemma MoveToSuffix<T>(whole: seq<T>, prefix: seq<T>, shorter: seq<T>, s: seq<T>, j: nat)
    requires 0 < j <= |s|
    requires whole == prefix + s[j..] && prefix == shorter + [s[j - 1]]
    ensures whole == shorter + s[j - 1..]
  {
    assert s[j - 1..] == [s[j - 1]] + s[j..];
  }

  /** Moving the element before the hole into the hole moves the hole one place left. */
  lemma ShiftHole<T>(s: seq<T>, j: nat, h: T, rest: seq<T>)
    requires 0 < j <= |s|
    ensures (s[..j] + [h] + s[j..] + rest)[j := s[j - 1]] == s[..j - 1] + [s[j - 1]] + s[j - 1..] + rest
  {
    var u := (s[..j] + [h] + s[j..] + rest)[j := s[j - 1]];
    var v := s[..j - 1] + [s[j - 1]] + s[j - 1..] + rest;
    assert |u| == |v|;
    forall k | 0 <= k < |u| ensures u[k] == v[k] {
      if k < j - 1 {
      } else if k <= j {
      } else if k <= |s| {
        assert u[k] == s[k - 1];
      } else {
        assert u[k] == rest[k - |s| - 1];
      }
    }
  }

  /** Filling the hole gives the inserted sequence, followed by the untouched rest. */
  lemma FillHole<T>(s: seq<T>, j: nat, h: T, x: T, rest: seq<T>)
    requires j <= |s|
    ensures var u := (s[..j] + [h] + s[j..] + rest)[j := x];
      u[..|s| + 1] == s[..j] + [x] + s[j..] && u[|s| + 1..] == rest
  {
    var u := (s[..j] + [h] + s[j..] + rest)[j := x];
    assert u == (s[..j] + [x] + s[j..]) + rest;
  }

  /** Moves `a[i]` left past the greater elements of the sorted prefix `a[..i]`. */
  method InsertLast<T>(a: array<T>, i: nat, key: T -> string)
    requires i < a.Length
    modifies a
    ensures a[..i + 1] == InsertSorted(old(a[..i]), old(a[i]), key)
    ensures a[i + 1..] == old(a[i + 1..])
  {
    var x := a[i];
    ghost var s, rest := a[..i], a[i + 1..];
    var j := i;
    assert a[..] == a[..i] + [a[i]] + a[i + 1..];
    assert s[..j] == s && s[j..] == [];
    while j > 0 && !LexLe(key(a[j - 1]), key(x))
      invariant 0 <= j <= i
      invariant a[..] == s[..j] + [a[j]] + s[j..] + rest
      invariant InsertSorted(s, x, key) == InsertSorted(s[..j], x, key) + s[j..]
    {
      assert a[j - 1] == s[j - 1];
      InsertSortedStep(s, x, key, j);
      MoveToSuffix(InsertSorted(s, x, key), InsertSorted(s[..j], x, key), InsertSorted(s[..j - 1], x, key), s, j);
      ShiftHole(s, j, a[j], rest);
      a[j] := a[j - 1];
      j := j - 1;
    }
    InsertSortedStop(s, x, key, j);
    FillHole(s, j, a[j], x, rest);
    a[j] := x;
  }

  /**
   * The stable in-place sort: each element in turn is moved left past the
   * elements whose key is greater than its own.
   */
  method SortBy<T>(a: array<T>, key: T -> string)
    modifies a
    ensures a[..] == InsertionSort(old(a[..]), key)
  {
    ghost var input := a[..];
    var i := 0;
    while i < a.Length
      invariant 0 <= i <= a.Length
      invariant a[..i] == InsertionSort(input[..i], key)
      invariant a[i..] == input[i..]
    {
      assert a[i] == input[i];
      InsertLast(a, i, key);
      assert input[..i + 1][..i] == input[..i];
      i := i + 1;
    }
    assert input[..a.Length] == input;
  }
}
