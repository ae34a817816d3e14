/** Sorting as the map script uses it: `Array.prototype.sort`, which is stable, with a
    comparator. Every comparator of the script is expressed as a lexicographic key
    (a sequence of integers), so one stable insertion sort covers them all. */
module Sorting {
  import opened Seqs

  /** Lexicographic order on integer sequences (a prefix comes first). */
  predicate LexLe(a: seq<int>, b: seq<int>) {
    a == [] || (b != [] && (a[0] < b[0] || (a[0] == b[0] && LexLe(a[1..], b[1..]))))
  }

  /** Every key is at most itself, so equal keys are never reordered. */
  lemma {:induction false} LexLeRefl(a: seq<int>)
    ensures LexLe(a, a)
  {
    if a != [] { LexLeRefl(a[1..]); }
  }

  lemma {:induction false} LexLeTotal(a: seq<int>, b: seq<int>)
    ensures LexLe(a, b) || LexLe(b, a)
  {
    if a != [] && b != [] && a[0] == b[0] { LexLeTotal(a[1..], b[1..]); }
  }

  lemma {:induction false} LexLeTrans(a: seq<int>, b: seq<int>, c: seq<int>)
    requires LexLe(a, b) && LexLe(b, c)
    ensures LexLe(a, c)
  {
    if a != [] && b != [] && c != [] && a[0] == b[0] && b[0] == c[0] {
      LexLeTrans(a[1..], b[1..], c[1..]);
    }
  }

  /** Lexicographic order on keys of one and two elements. */
  lemma LexLeShortKeys(x: int, s: int, y: int, t: int)
    ensures LexLe([x], [y]) <==> x <= y
    ensures LexLe([x, s], [y, t]) <==> x < y || (x == y && s <= t)
    ensures LexLe([x], [y, t]) <==> x <= y
    ensures LexLe([y, t], [x]) <==> y < x
  {
    assert [x][1..] == [] && [y][1..] == [];
    assert [x, s][1..] == [s] && [y, t][1..] == [t];
    assert [s][1..] == [] && [t][1..] == [];
  }

  /** `s` is in non-decreasing order of `key`. */
  ghost predicate SortedBy<T>(s: seq<T>, key: T -> seq<int>) {
    forall i, j :: 0 <= i < j < |s| ==> LexLe(key(s[i]), key(s[j]))
  }

  /** Insert `x` after the last element whose key is at most `x`'s (this keeps
      equal keys in arrival order, as a stable sort does). */
  function Insert<T>(s: seq<T>, x: T, key: T -> seq<int>): seq<T>
    decreases |s|
  {
    if s == [] || LexLe(key(s[|s| - 1]), key(x)) then s + [x]
    else Insert(s[..|s| - 1], x, key) + [s[|s| - 1]]
  }

  /** Stable insertion sort, the specification of `SortInPlace`. */
  function ISort<T>(s: seq<T>, key: T -> seq<int>): seq<T>
    decreases |s|
  {
    if s == [] then [] else Insert(ISort(s[..|s| - 1], key), s[|s| - 1], key)
  }

  lemma {:induction false} InsertPerm<T>(s: seq<T>, x: T, key: T -> seq<int>)
    ensures multiset(Insert(s, x, key)) == multiset(s) + multiset{x}
    decreases |s|
  {
    if !(s == [] || LexLe(key(s[|s| - 1]), key(x))) {
      InsertPerm(s[..|s| - 1], x, key);
      assert s == s[..|s| - 1] + [s[|s| - 1]];
    }
  }

  lemma {:induction false} InsertSorted<T>(s: seq<T>, x: T, key: T -> seq<int>)
    requires SortedBy(s, key)
    ensures SortedBy(Insert(s, x, key), key)
    decreases |s|
  {
    var r := Insert(s, x, key);
    if s == [] {
    } else if LexLe(key(s[|s| - 1]), key(x)) {
      forall i, j | 0 <= i < j < |r| ensures LexLe(key(r[i]), key(r[j])) {
        if j == |s| && i < |s| - 1 {
          LexLeTrans(key(s[i]), key(s[|s| - 1]), key(x));
        }
      }
    } else {
      var init, y := s[..|s| - 1], s[|s| - 1];
      var ins := Insert(init, x, key);
      InsertSorted(init, x, key);
      InsertPerm(init, x, key);
      LexLeTotal(key(x), key(y));
      forall i | 0 <= i < |ins| ensures LexLe(key(ins[i]), key(y)) {
        assert ins[i] in multiset(ins);
        if ins[i] != x {
          assert ins[i] in init;
          var k :| 0 <= k < |init| && init[k] == ins[i];
        }
      }
    }
  }

  /** The sort is an ordered permutation of its input. */
  lemma {:induction false} ISortOrderedPermutation<T>(s: seq<T>, key: T -> seq<int>)
    ensures SortedBy(ISort(s, key), key)
    ensures multiset(ISort(s, key)) == multiset(s)
    decreases |s|
  {
    if s != [] {
      var init := s[..|s| - 1];
      ISortOrderedPermutation(init, key);
      InsertSorted(ISort(init, key), s[|s| - 1], key);
      InsertPerm(ISort(init, key), s[|s| - 1], key);
      assert s == init + [s[|s| - 1]];
    }
  }

  /** The elements whose key is `k`. */
  function HasKey<T>(key: T -> seq<int>, k: seq<int>): T -> bool {
    (x: T) => key(x) == k
  }

  /** Inserting `x` puts it after every element that `tie` groups with it, when `tie`
      groups only elements of equal key. */
  lemma {:induction false} InsertStable<T(!new)>(s: seq<T>, x: T, key: T -> seq<int>, tie: T -> bool)
    requires forall a, b :: tie(a) && tie(b) ==> LexLe(key(a), key(b))
    ensures Filter(Insert(s, x, key), tie) == Filter(s, tie) + Filter([x], tie)
    decreases |s|
  {
    if s == [] || LexLe(key(s[|s| - 1]), key(x)) {
      FilterConcat(s, [x], tie);
    } else {
      var init, y := s[..|s| - 1], s[|s| - 1];
      var ins := Insert(init, x, key);
      assert Insert(s, x, key) == ins + [y];
      assert s == init + [y];
      InsertStable(init, x, key, tie);
      FilterConcat(ins, [y], tie);
      FilterConcat(init, [y], tie);
      FilterSingle(x, tie);
      FilterSingle(y, tie);
      var fi, fx, fy := Filter(init, tie), Filter([x], tie), Filter([y], tie);
      assert fx == [] || fy == [];
      assert fi + fx + fy == fi + fy + fx;
    }
  }

  /** The sort is stable: the elements of any one key keep their input order. */
  lemma {:induction false} ISortStable<T(!new)>(s: seq<T>, key: T -> seq<int>, k: seq<int>)
    ensures Filter(ISort(s, key), HasKey(key, k)) == Filter(s, HasKey(key, k))
    decreases |s|
  {
    if s != [] {
      var init := s[..|s| - 1];
      ISortStable(init, key, k);
      LexLeRefl(k);
      InsertStable(ISort(init, key), s[|s| - 1], key, HasKey(key, k));
      assert s == init + [s[|s| - 1]];
      FilterConcat(init, [s[|s| - 1]], HasKey(key, k));
    }
  }

  /** A comparator that finds every pair equal leaves the order as it was. */
  lemma {:induction false} ISortEqualKeys<T>(s: seq<T>, key: T -> seq<int>)
    requires forall x :: key(x) == []
    ensures ISort(s, key) == s
    decreases |s|
  {
    if s != [] {
      ISortEqualKeys(s[..|s| - 1], key);
      assert s == s[..|s| - 1] + [s[|s| - 1]];
    }
  }

  /** The code points of `s`, by which this model orders strings where `<` and the
      default `sort` compare UTF-16 code units. */
  function Codes(s: string): (r: seq<int>)
    ensures |r| == |s| && forall i :: 0 <= i < |s| ==> r[i] == s[i] as int
  {
    seq(|s|, i requires 0 <= i < |s| => s[i] as int)
  }

  /** Code-point comparison of strings: negative, zero or positive. */
  function CompareStrings(a: string, b: string): (r: int)
    ensures -1 <= r <= 1
    decreases |a|
  {
    if a == [] && b == [] then 0
    else if a == [] then -1
    else if b == [] then 1
    else if a[0] < b[0] then -1
    else if a[0] > b[0] then 1
    else CompareStrings(a[1..], b[1..])
  }

  /** String comparison is the lexicographic order of the code points: it is zero only on
      equal strings, and swapping its arguments negates it. */
  lemma {:induction false} CompareStringsOrder(a: string, b: string)
    ensures CompareStrings(a, b) <= 0 <==> LexLe(Codes(a), Codes(b))
    ensures CompareStrings(a, b) == 0 <==> a == b
    ensures CompareStrings(b, a) == -CompareStrings(a, b)
    decreases |a|
  {
    if a != [] && b != [] {
      assert Codes(a)[1..] == Codes(a[1..]);
      assert Codes(b)[1..] == Codes(b[1..]);
      if a[0] == b[0] {
        CompareStringsOrder(a[1..], b[1..]);
        assert a == [a[0]] + a[1..] && b == [b[0]] + b[1..];
      }
    }
  }

  /** `a.sort(cmp)` in place, for a comparator given by `key`. */
  method SortInPlace<T>(a: array<T>, key: T -> seq<int>)
    modifies a
    ensures a[..] == ISort(old(a[..]), key)
  {
    ghost var a0 := a[..];
    var i := 0;
    while i < a.Length
      invariant 0 <= i <= a.Length
      invariant a[..i] == ISort(a0[..i], key)
      invariant a[i..] == a0[i..]
    {
      assert a[i] == a0[i] && a[i + 1..] == a0[i + 1..] by {
        assert a[i..][0] == a[i] && a[i..][1..] == a[i + 1..];
        assert a0[i..][1..] == a0[i + 1..];
      }
      InsertLast(a, i, key);
      assert a0[..i + 1][..i] == a0[..i] && a0[..i + 1][i] == a0[i];
      i := i + 1;
    }
    assert a[..] == a[..a.Length] && a0 == a0[..a.Length];
  }

  /** One pass of the insertion sort: moves `a[i]` left into the prefix `a[..i]`. */
  method InsertLast<T>(a: array<T>, i: nat, key: T -> seq<int>)
    requires i < a.Length
    modifies a
    ensures a[..i + 1] == Insert(old(a[..i]), old(a[i]), key)
    ensures a[i + 1..] == old(a[i + 1..])
  {
    ghost var sorted := a[..i];
    var x := a[i];
    var j := i;
    while j > 0 && !LexLe(key(a[j - 1]), key(x))
      invariant 0 <= j <= i
      invariant a[j] == x
      invariant Insert(sorted, x, key) == Insert(a[..j], x, key) + a[j + 1..i + 1]
      invariant a[i + 1..] == old(a[i + 1..])
    {
      ghost var pre, y, tail := a[..j - 1], a[j - 1], a[j + 1..i + 1];
      assert a[..j][..j - 1] == pre;
      assert Insert(a[..j], x, key) == Insert(pre, x, key) + [y];
      SwapDown(a, j, i);
      assert Insert(sorted, x, key) == Insert(a[..j - 1], x, key) + ([y] + tail);
      j := j - 1;
    }
    assert a[..i + 1] == a[..j] + [x] + a[j + 1..i + 1];
  }

  /** Swaps `a[j - 1]` and `a[j]`, within the prefix `a[..i + 1]`. */
  method SwapDown<T>(a: array<T>, j: nat, i: nat)
    requires 0 < j <= i < a.Length
    modifies a
    ensures a[..j - 1] == old(a[..j - 1])
    ensures a[j - 1] == old(a[j]) && a[j] == old(a[j - 1])
    ensures a[j..i + 1] == [old(a[j - 1])] + old(a[j + 1..i + 1])
    ensures a[i + 1..] == old(a[i + 1..])
  {
    a[j - 1], a[j] := a[j], a[j - 1];
  }
}
