// Byte-wise order of strings and sorting by a string key, as sort.Strings and sort.Slice do.
module Ordering {

  predicate Less(a: string, b: string) {
    if b == [] then false
    else if a == [] then true
    else a[0] < b[0] || (a[0] == b[0] && Less(a[1..], b[1..]))
  }

  lemma {:induction false} LessIsTotal(a: string, b: string)
    ensures Less(a, b) || Less(b, a) || a == b
    ensures !(Less(a, b) && Less(b, a))
    ensures a == b ==> !Less(a, b)
  {
    if a != [] && b != [] {
      LessIsTotal(a[1..], b[1..]);
      if a[0] == b[0] && a[1..] == b[1..] {
        assert a == [a[0]] + a[1..] && b == [b[0]] + b[1..];
      }
    }
  }

  lemma {:induction false} LessIsTransitive(a: string, b: string, c: string)
    requires Less(a, b) && Less(b, c)
    ensures Less(a, c)
  {
    if a != [] && a[0] == b[0] == c[0] {
      LessIsTransitive(a[1..], b[1..], c[1..]);
    }
  }

  /** The strings agree up to position k, where the first one ends or has the smaller character. */
  ghost predicate LessAt(a: string, b: string, k: int) {
    && 0 <= k <= |a| && k < |b|
    && (forall j :: 0 <= j < k ==> a[j] == b[j])
    && (k < |a| ==> a[k] < b[k])
  }

  lemma {:induction false} LessIff(a: string, b: string)
    ensures Less(a, b) <==> exists k :: LessAt(a, b, k)
  {
    if b == [] {
    } else if a == [] {
      assert LessAt(a, b, 0);
    } else if a[0] == b[0] {
      var x, y := a[1..], b[1..];
      LessIff(x, y);
      if k :| LessAt(x, y, k) {
        assert forall j :: 1 <= j < k + 1 ==> a[j] == x[j-1] && b[j] == y[j-1];
        assert LessAt(a, b, k + 1);
      }
      if k :| LessAt(a, b, k) {
        assert forall j :: 0 <= j < k - 1 ==> a[j+1] == x[j] && b[j+1] == y[j];
        assert LessAt(x, y, k - 1);
      }
    } else {
      assert a[0] < b[0] ==> LessAt(a, b, 0);
      assert forall k :: LessAt(a, b, k) ==> k == 0;
    }
  }

  ghost predicate Ascending<T>(xs: seq<T>, key: T -> string) {
    forall i, j :: 0 <= i < j < |xs| ==> !Less(key(xs[j]), key(xs[i]))
  }

  ghost predicate DistinctKeys<T>(xs: seq<T>, key: T -> string) {
    forall i, j :: 0 <= i < j < |xs| ==> key(xs[i]) != key(xs[j])
  }

  ghost predicate StrictlyAscending<T>(xs: seq<T>, key: T -> string) {
    forall i, j :: 0 <= i < j < |xs| ==> Less(key(xs[i]), key(xs[j]))
  }

  lemma DistinctAscendingIsStrict<T>(xs: seq<T>, key: T -> string)
    requires Ascending(xs, key) && DistinctKeys(xs, key)
    ensures StrictlyAscending(xs, key)
  {
    forall i, j | 0 <= i < j < |xs| ensures Less(key(xs[i]), key(xs[j])) {
      LessIsTotal(key(xs[i]), key(xs[j]));
    }
  }

  function Insert<T>(x: T, xs: seq<T>, key: T -> string): (r: seq<T>)
    ensures multiset(r) == multiset([x]) + multiset(xs)
  {
    if xs == [] || Less(key(x), key(xs[0])) then [x] + xs
    else
      assert xs == [xs[0]] + xs[1..];
      [xs[0]] + Insert(x, xs[1..], key)
  }

  function Sort<T>(xs: seq<T>, key: T -> string): (r: seq<T>)
    ensures multiset(r) == multiset(xs)
  {
    if xs == [] then []
    else
      assert xs == [xs[0]] + xs[1..];
      Insert(xs[0], Sort(xs[1..], key), key)
  }

  lemma NotLessIsTransitive(a: string, b: string, c: string)
    requires !Less(b, a) && !Less(c, b)
    ensures !Less(c, a)
  {
    LessIsTotal(a, b);
    LessIsTotal(b, c);
    LessIsTotal(a, c);
    if Less(a, b) && Less(b, c) {
      LessIsTransitive(a, b, c);
    }
  }

  lemma {:induction false} InsertAscends<T>(x: T, xs: seq<T>, key: T -> string)
    requires Ascending(xs, key)
    ensures Ascending(Insert(x, xs, key), key)
  {
    var r := Insert(x, xs, key);
    if xs == [] {
    } else if Less(key(x), key(xs[0])) {
      forall j | 0 <= j < |xs| ensures !Less(key(xs[j]), key(x)) {
        LessIsTotal(key(x), key(xs[0]));
        LessIsTotal(key(xs[0]), key(xs[0]));
        NotLessIsTransitive(key(x), key(xs[0]), key(xs[j]));
      }
    } else {
      InsertAscends(x, xs[1..], key);
      forall j | 1 <= j < |r| ensures !Less(key(r[j]), key(r[0])) {
        assert r[j] in multiset(r[1..]);
        if r[j] != x {
          assert r[j] in xs[1..];
        }
      }
    }
  }

  lemma {:induction false} SortAscends<T>(xs: seq<T>, key: T -> string)
    ensures Ascending(Sort(xs, key), key)
  {
    if xs != [] {
      SortAscends(xs[1..], key);
      InsertAscends(xs[0], Sort(xs[1..], key), key);
    }
  }

  /** Two strictly ascending sequences of the same elements are equal. */
  lemma {:induction false} StrictOrderIsUnique<T>(xs: seq<T>, ys: seq<T>, key: T -> string)
    requires StrictlyAscending(xs, key) && StrictlyAscending(ys, key)
    requires forall x :: x in xs <==> x in ys
    ensures xs == ys
    decreases |xs|
  {
    assert ys != [] ==> ys[0] in xs;
    if xs != [] {
      assert xs[0] in ys;
      LessIsTotal(key(xs[0]), key(ys[0]));
      assert xs[0] == ys[0];
      forall x ensures x in xs[1..] <==> x in ys[1..] {
        LessIsTotal(key(xs[0]), key(xs[0]));
        if x in xs[1..] {
          assert x in xs && x != xs[0];
        }
        if x in ys[1..] {
          assert x in ys && x != ys[0];
        }
      }
      StrictOrderIsUnique(xs[1..], ys[1..], key);
      assert xs == [xs[0]] + xs[1..] && ys == [ys[0]] + ys[1..];
    }
  }

  // ---- permutations ----------------------------------------------------------------

  ghost predicate Permuted<T>(a: seq<T>, b: seq<T>) {
    multiset(a) == multiset(b)
  }

  lemma SameElements<T>(xs: seq<T>, ys: seq<T>)
    requires Permuted(xs, ys)
    ensures forall x :: x in xs <==> x in ys
  {
    forall x ensures x in xs <==> x in ys {
      assert x in xs <==> x in multiset(xs);
      assert x in ys <==> x in multiset(ys);
    }
  }

  lemma CountedTwice<T>(s: seq<T>, i: nat, j: nat)
    requires i < j < |s| && s[i] == s[j]
    ensures multiset(s)[s[i]] >= 2
  {
    assert s == s[..i] + [s[i]] + s[i+1..j] + [s[j]] + s[j+1..];
  }

  lemma CountedOnce<T>(s: seq<T>, p: nat)
    requires p < |s| && forall i :: 0 <= i < |s| && i != p ==> s[i] != s[p]
    ensures multiset(s)[s[p]] == 1
  {
    assert s == s[..p] + [s[p]] + s[p+1..];
    assert s[p] !in s[..p] && s[p] !in s[p+1..];
  }

  lemma PermutedKeepsDistinct<T>(a: seq<T>, b: seq<T>, key: T -> string)
    requires DistinctKeys(a, key) && Permuted(a, b)
    ensures DistinctKeys(b, key)
  {
    SameElements(a, b);
    forall i, j | 0 <= i < j < |b| ensures key(b[i]) != key(b[j]) {
      assert b[i] in a && b[j] in a;
      var p :| 0 <= p < |a| && a[p] == b[i];
      var q :| 0 <= q < |a| && a[q] == b[j];
      CountedOnce(a, p);
      if b[i] == b[j] {
        CountedTwice(b, i, j);
      }
    }
  }

  /** Sorting distinct keys gives one result, whatever order the elements came in. */
  lemma SortIgnoresOrder<T>(a: seq<T>, b: seq<T>, key: T -> string)
    requires DistinctKeys(a, key) && Permuted(a, b)
    ensures Sort(a, key) == Sort(b, key) && StrictlyAscending(Sort(a, key), key)
  {
    var x, y := Sort(a, key), Sort(b, key);
    SortAscends(a, key);
    SortAscends(b, key);
    PermutedKeepsDistinct(a, x, key);
    PermutedKeepsDistinct(a, y, key);
    DistinctAscendingIsStrict(x, key);
    DistinctAscendingIsStrict(y, key);
    SameElements(x, y);
    StrictOrderIsUnique(x, y, key);
  }
}
