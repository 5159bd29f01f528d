/**
 * Python's ordering of strings and of file-system paths, and `sorted` by
 * that ordering.
 */
module Ordering {

  /** Python's `a < b` on strings: lexicographic by code point, a proper prefix first. */
  predicate StrLt(a: string, b: string)
    decreases |a|
  {
    if a == [] then b != []
    else if b == [] then false
    else if a[0] != b[0] then a[0] < b[0]
    else StrLt(a[1..], b[1..])
  }

  lemma {:induction false} StrLtAsymmetric(a: string, b: string)
    ensures !(StrLt(a, b) && StrLt(b, a))
    decreases |a|
  {
    if a != [] && b != [] && a[0] == b[0] {
      StrLtAsymmetric(a[1..], b[1..]);
    }
  }

  lemma {:induction false} StrLtTransitive(a: string, b: string, c: string)
    requires StrLt(a, b) && StrLt(b, c)
    ensures StrLt(a, c)
    decreases |a|
  {
    if a != [] && a[0] == b[0] && b[0] == c[0] {
      StrLtTransitive(a[1..], b[1..], c[1..]);
    }
  }

  lemma {:induction false} StrLtTotal(a: string, b: string)
    requires a != b
    ensures StrLt(a, b) || StrLt(b, a)
    decreases |a|
  {
    if a != [] && b != [] && a[0] == b[0] {
      assert a == [a[0]] + a[1..] && b == [b[0]] + b[1..];
      StrLtTotal(a[1..], b[1..]);
    }
  }

  /**
   * Python's `a < b` on two `PurePosixPath`s, given by their parts: the part
   * lists compared lexicographically, each part by `StrLt`.
   */
  predicate PathLt(a: seq<string>, b: seq<string>)
    decreases |a|
  {
    if a == [] then b != []
    else if b == [] then false
    else if a[0] != b[0] then StrLt(a[0], b[0])
    else PathLt(a[1..], b[1..])
  }

  lemma {:induction false} PathLtAsymmetric(a: seq<string>, b: seq<string>)
    ensures !(PathLt(a, b) && PathLt(b, a))
    decreases |a|
  {
    if a != [] && b != [] {
      if a[0] == b[0] {
        PathLtAsymmetric(a[1..], b[1..]);
      } else {
        StrLtAsymmetric(a[0], b[0]);
      }
    }
  }

  lemma {:induction false} PathLtTransitive(a: seq<string>, b: seq<string>, c: seq<string>)
    requires PathLt(a, b) && PathLt(b, c)
    ensures PathLt(a, c)
    decreases |a|
  {
    if a != [] {
      if a[0] == b[0] && b[0] == c[0] {
        PathLtTransitive(a[1..], b[1..], c[1..]);
      } else if a[0] != b[0] && b[0] != c[0] {
        StrLtTransitive(a[0], b[0], c[0]);
        if a[0] == c[0] {
          StrLtAsymmetric(a[0], b[0]);
        }
      }
    }
  }

  lemma {:induction false} PathLtTotal(a: seq<string>, b: seq<string>)
    requires a != b
    ensures PathLt(a, b) || PathLt(b, a)
    decreases |a|
  {
    if a != [] && b != [] {
      if a[0] == b[0] {
        assert a == [a[0]] + a[1..] && b == [b[0]] + b[1..];
        PathLtTotal(a[1..], b[1..]);
      } else {
        StrLtTotal(a[0], b[0]);
      }
    }
  }

  /** `PathLt` is a strict total order. */
  lemma PathLtIsStrictTotalOrder()
    ensures forall a, b :: !(PathLt(a, b) && PathLt(b, a))
    ensures forall a, b, c :: PathLt(a, b) && PathLt(b, c) ==> PathLt(a, c)
    ensures forall a, b :: a != b ==> PathLt(a, b) || PathLt(b, a)
  {
    forall a, b ensures !(PathLt(a, b) && PathLt(b, a)) {
      PathLtAsymmetric(a, b);
    }
    forall a, b, c | PathLt(a, b) && PathLt(b, c) ensures PathLt(a, c) {
      PathLtTransitive(a, b, c);
    }
    forall a, b | a != b ensures PathLt(a, b) || PathLt(b, a) {
      PathLtTotal(a, b);
    }
  }

  /** No element is ordered before one that precedes it. */
  ghost predicate SortedBy<T>(xs: seq<T>, key: T -> seq<string>) {
    forall i, j :: 0 <= i < j < |xs| ==> !PathLt(key(xs[j]), key(xs[i]))
  }

  /** Places `x` in front of the first element whose key is greater than its own. */
  function Insert<T>(x: T, s: seq<T>, key: T -> seq<string>): seq<T> {
    if s == [] then [x]
    else if PathLt(key(x), key(s[0])) then [x] + s
    else [s[0]] + Insert(x, s[1..], key)
  }

  /** Inserting adds `x` and loses nothing. */
  lemma {:induction false} InsertPermutes<T>(x: T, s: seq<T>, key: T -> seq<string>)
    ensures multiset(Insert(x, s, key)) == multiset(s) + multiset{x}
  {
    if s != [] && !PathLt(key(x), key(s[0])) {
      InsertPermutes(x, s[1..], key);
      assert s == [s[0]] + s[1..];
    }
  }

  /** Inserting into a sorted sequence keeps it sorted. */
  lemma {:induction false} InsertSorted<T>(x: T, s: seq<T>, key: T -> seq<string>)
    requires SortedBy(s, key)
    ensures SortedBy(Insert(x, s, key), key)
  {
    if s == [] {
    } else if PathLt(key(x), key(s[0])) {
      forall j | 0 <= j < |s| && PathLt(key(s[j]), key(x)) ensures false {
        if j == 0 {
          PathLtAsymmetric(key(x), key(s[0]));
        } else {
          PathLtTransitive(key(s[j]), key(x), key(s[0]));
        }
      }
    } else {
      var t := Insert(x, s[1..], key);
      InsertSorted(x, s[1..], key);
      InsertPermutes(x, s[1..], key);
      forall j | 0 <= j < |t| ensures !PathLt(key(t[j]), key(s[0])) {
        assert t[j] in multiset(t);
        if t[j] != x {
          assert t[j] in s[1..];
        }
      }
    }
  }

  /**
   * Python's `sorted(xs, key=...)` with the path ordering on the keys: a
   * permutation of `xs` in ascending key order. Inserting the elements in
   * their original order keeps elements with equal keys in that order.
   */
  function SortBy<T>(xs: seq<T>, key: T -> seq<string>): (r: seq<T>)
    ensures SortedBy(r, key)
    ensures multiset(r) == multiset(xs)
  {
    if xs == [] then []
    else
      var sorted := SortBy(xs[..|xs| - 1], key);
      InsertPermutes(xs[|xs| - 1], sorted, key);
      InsertSorted(xs[|xs| - 1], sorted, key);
      assert xs == xs[..|xs| - 1] + [xs[|xs| - 1]];
      Insert(xs[|xs| - 1], sorted, key)
  }
}
