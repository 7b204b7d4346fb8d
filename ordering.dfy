/** The two orderings the dashboard relies on: Python's ordering of strings
 *  (used by `sorted(...)` on titles and by pandas' `groupby`, which sorts its
 *  keys), and a descending sort of records by a real-valued key (pandas'
 *  `sort_values(by=..., ascending=False)`).
 */
module Ordering {

  /** Python's `a < b` on `str`: lexicographic by code point, a proper
   *  prefix coming first. */
  predicate StrLess(a: string, b: string)
    ensures |a| < |b| && a == b[..|a|] ==> StrLess(a, b)
  {
    if a == [] then b != []
    else if b == [] then false
    else if a[0] != b[0] then a[0] < b[0]
    else
      assert |a| < |b| && a == b[..|a|] ==> a[1..] == b[1..][..|a| - 1];
      StrLess(a[1..], b[1..])
  }

  /** `a` and `b` agree before position `i`, where `a` has the smaller character. */
  ghost predicate DifferAt(a: string, b: string, i: int)
  {
    0 <= i < |a| && i < |b| && a[..i] == b[..i] && a[i] < b[i]
  }

  /** `StrLess` is the textbook lexicographic order: `a` is a proper prefix
   *  of `b`, or the first position where they differ has the smaller
   *  character in `a`. */
  lemma {:induction false} StrLessIsLexicographic(a: string, b: string)
    ensures StrLess(a, b) <==> (|a| < |b| && a == b[..|a|]) || exists i :: DifferAt(a, b, i)
  {
    if a != [] && b != [] {
      if a[0] != b[0] {
        assert |a| < |b| ==> b[..|a|][0] == b[0];
        assert a[..0] == b[..0];
        assert DifferAt(a, b, 0) <==> a[0] < b[0];
        forall i | 0 < i < |a| && i < |b|
          ensures !DifferAt(a, b, i)
        {
          assert a[..i][0] == a[0] && b[..i][0] == b[0];
        }
      } else {
        StrLessIsLexicographic(a[1..], b[1..]);
        assert |a| < |b| && a == b[..|a|] <==> |a[1..]| < |b[1..]| && a[1..] == b[1..][..|a| - 1];
        if exists i :: DifferAt(a, b, i) {
          var i :| DifferAt(a, b, i);
          assert a[1..][..i - 1] == a[1..i] && b[1..][..i - 1] == b[1..i];
          assert DifferAt(a[1..], b[1..], i - 1);
        }
        if exists j :: DifferAt(a[1..], b[1..], j) {
          var j :| DifferAt(a[1..], b[1..], j);
          assert a[..j + 1] == [a[0]] + a[1..][..j] && b[..j + 1] == [b[0]] + b[1..][..j];
          assert DifferAt(a, b, j + 1);
        }
      }
    }
  }

  lemma {:induction false} StrLessIrreflexive(a: string)
    ensures !StrLess(a, a)
  {
    if a != [] {
      StrLessIrreflexive(a[1..]);
    }
  }

  lemma {:induction false} StrLessTotal(a: string, b: string)
    ensures a == b || StrLess(a, b) || StrLess(b, a)
  {
    if a != [] && b != [] && a[0] == b[0] {
      StrLessTotal(a[1..], b[1..]);
      if a[1..] == b[1..] {
        assert a == [a[0]] + a[1..] && b == [b[0]] + b[1..];
      }
    }
  }

  lemma {:induction false} StrLessTransitive(a: string, b: string, c: string)
    requires StrLess(a, b) && StrLess(b, c)
    ensures StrLess(a, c)
  {
    if a != [] && b != [] && c != [] && a[0] == b[0] && b[0] == c[0] {
      StrLessTransitive(a[1..], b[1..], c[1..]);
    }
  }

  /** Sorted ascending with no title twice. */
  ghost predicate StrictlyIncreasing(r: seq<string>)
  {
    forall i, j :: 0 <= i < j < |r| ==> StrLess(r[i], r[j])
  }

  /** A strictly increasing sequence holds no element twice. */
  lemma StrictlyIncreasingDistinct(r: seq<string>, i: nat, j: nat)
    requires StrictlyIncreasing(r) && i < |r| && j < |r| && i != j
    ensures r[i] != r[j]
  {
    if i < j {
      StrLessIrreflexive(r[i]);
    } else {
      StrLessIrreflexive(r[j]);
    }
  }

  /** Adds `x` to a sorted sequence of distinct strings, unless it is there. */
  function InsertDistinct(x: string, r: seq<string>): (r': seq<string>)
    requires StrictlyIncreasing(r)
    ensures StrictlyIncreasing(r')
    ensures forall y :: y in r' <==> y in r || y == x
  {
    if r == [] then [x]
    else if x == r[0] then r
    else if StrLess(x, r[0]) then
      assert forall j :: 0 < j < |r| ==> StrLess(x, r[j]) by {
        forall j | 0 < j < |r| ensures StrLess(x, r[j]) {
          StrLessTransitive(x, r[0], r[j]);
        }
      }
      [x] + r
    else
      StrLessTotal(x, r[0]);
      var rest := InsertDistinct(x, r[1..]);
      assert forall j :: 0 <= j < |rest| ==> StrLess(r[0], rest[j]) by {
        forall j | 0 <= j < |rest| ensures StrLess(r[0], rest[j]) {
          assert rest[j] in rest;
        }
      }
      [r[0]] + rest
  }

  /** Python's `sorted(set(xs))`: the distinct strings of `xs`, ascending. */
  function SortedDistinct(xs: seq<string>): (r: seq<string>)
    ensures StrictlyIncreasing(r)
    ensures forall y :: y in r <==> y in xs
  {
    if xs == [] then [] else InsertDistinct(xs[0], SortedDistinct(xs[1..]))
  }

  /** Non-increasing in `key`: what `sort_values(ascending=False)` promises. */
  ghost predicate NonIncreasing<T>(r: seq<T>, key: T -> real)
  {
    forall i, j :: 0 <= i < j < |r| ==> key(r[j]) <= key(r[i])
  }

  /** A sequence holding the elements of `r` and `x` has every key below a
   *  bound that all of them respect. */
  lemma KeysBelow<T>(rest: seq<T>, r: seq<T>, x: T, key: T -> real, bound: real)
    requires multiset(rest) == multiset(r) + multiset{x}
    requires forall k :: 0 <= k < |r| ==> key(r[k]) <= bound
    requires key(x) <= bound
    ensures forall j :: 0 <= j < |rest| ==> key(rest[j]) <= bound
  {
    forall j | 0 <= j < |rest|
      ensures key(rest[j]) <= bound
    {
      assert rest[j] in multiset(rest);
      if rest[j] != x {
        assert rest[j] in multiset(r);
        var k :| 0 <= k < |r| && r[k] == rest[j];
      }
    }
  }

  /** Putting in front an element whose key bounds all others keeps the order. */
  lemma ConsNonIncreasing<T>(y: T, rest: seq<T>, key: T -> real)
    requires NonIncreasing(rest, key)
    requires forall j :: 0 <= j < |rest| ==> key(rest[j]) <= key(y)
    ensures NonIncreasing([y] + rest, key)
  {
    var s := [y] + rest;
    forall i, j | 0 <= i < j < |s|
      ensures key(s[j]) <= key(s[i])
    {
      assert s[j] == rest[j - 1];
      if i > 0 {
        assert s[i] == rest[i - 1];
      }
    }
  }

  /** Inserts `x` into a sequence sorted descending by `key`. */
  function InsertDesc<T>(x: T, r: seq<T>, key: T -> real): (r': seq<T>)
    requires NonIncreasing(r, key)
    ensures NonIncreasing(r', key)
    ensures multiset(r') == multiset(r) + multiset{x}
  {
    if r == [] then [x]
    else if key(r[0]) <= key(x) then
      assert forall k :: 0 <= k < |r| ==> key(r[k]) <= key(x) by {
        forall k | 0 <= k < |r| ensures key(r[k]) <= key(x) {
          assert k == 0 || key(r[k]) <= key(r[0]);
        }
      }
      ConsNonIncreasing(x, r, key);
      [x] + r
    else
      var tail := r[1..];
      var rest := InsertDesc(x, tail, key);
      assert r == [r[0]] + tail;
      assert forall k :: 0 <= k < |tail| ==> key(tail[k]) <= key(r[0]) by {
        forall k | 0 <= k < |tail| ensures key(tail[k]) <= key(r[0]) {
          assert tail[k] == r[k + 1];
        }
      }
      KeysBelow(rest, tail, x, key, key(r[0]));
      ConsNonIncreasing(r[0], rest, key);
      assert multiset([r[0]] + rest) == multiset{r[0]} + multiset(rest);
      [r[0]] + rest
  }

  /** `sort_values(by=key, ascending=False)`: a permutation of `xs`,
   *  non-increasing in `key`. The order among equal keys is not specified by
   *  pandas' default sort; this model fixes one. */
  function SortDesc<T>(xs: seq<T>, key: T -> real): (r: seq<T>)
    ensures NonIncreasing(r, key)
    ensures multiset(r) == multiset(xs)
  {
    if xs == [] then []
    else
      assert xs == [xs[0]] + xs[1..];
      InsertDesc(xs[0], SortDesc(xs[1..], key), key)
  }
}
