/**
  Byte strings and the two library facilities the Go, Lua and Rust code leans on
  everywhere: the bytewise order on strings, and sorting by a string key.
 */
module Text {

  /** A Go/Lua string is a sequence of bytes; a byte is written as the character with that code. */
  type Byte = c: char | c as int < 256 witness '0'
  type Str = seq<Byte>

  datatype Option<+T> = None | Some(value: T)

  predicate HasPrefix(s: Str, p: Str) {
    |p| <= |s| && s[..|p|] == p
  }

  predicate HasSuffix(s: Str, p: Str) {
    |p| <= |s| && s[|s| - |p|..] == p
  }

  // ---------------------------------------------------------------- order

  /** Bytewise lexicographic order, strict: Go's `<` on strings, Rust's `Ord` on `String`. */
  predicate Lt(a: Str, b: Str) {
    b != [] && (a == [] || a[0] < b[0] || (a[0] == b[0] && Lt(a[1..], b[1..])))
  }

  /** The first place two strings differ decides, and a proper prefix comes first. */
  ghost predicate Precedes(a: Str, b: Str, i: nat) {
    i <= |a| && i < |b| && a[..i] == b[..i] && (i == |a| || a[i] < b[i])
  }

  lemma {:induction false} LtIff(a: Str, b: Str)
    ensures Lt(a, b) <==> exists i: nat :: Precedes(a, b, i)
  {
    if a != [] && b != [] && a[0] == b[0] {
      var s, t := a[1..], b[1..];
      LtIff(s, t);
      if Lt(s, t) {
        var i: nat :| Precedes(s, t, i);
        assert a[..i + 1] == [a[0]] + s[..i] && b[..i + 1] == [b[0]] + t[..i];
        assert Precedes(a, b, i + 1);
      }
      if exists i: nat :: Precedes(a, b, i) {
        var i: nat :| Precedes(a, b, i);
        assert i > 0;
        assert s[..i - 1] == a[..i][1..] && t[..i - 1] == b[..i][1..];
        assert Precedes(s, t, i - 1);
      }
    } else {
      DecidedAtOnce(a, b);
      assert Lt(a, b) ==> Precedes(a, b, 0);
    }
  }

  lemma DecidedAtOnce(a: Str, b: Str)
    requires a == [] || b == [] || a[0] != b[0]
    ensures forall i: nat :: Precedes(a, b, i) ==> i == 0
  {
    forall i: nat | i > 0 ensures !Precedes(a, b, i) {
      if i <= |a| && i < |b| {
        assert a[..i][0] == a[0] && b[..i][0] == b[0];
      }
    }
  }

  lemma {:induction false} LtTotal(a: Str, b: Str)
    ensures a == b || Lt(a, b) || Lt(b, a)
  {
    if a != [] && b != [] && a[0] == b[0] {
      LtTotal(a[1..], b[1..]);
      assert a == [a[0]] + a[1..] && b == [b[0]] + b[1..];
    }
  }

  lemma {:induction false} LtAsym(a: Str, b: Str)
    requires Lt(a, b)
    ensures a != b && !Lt(b, a)
  {
    if a != [] && a[0] == b[0] {
      LtAsym(a[1..], b[1..]);
    }
  }

  lemma {:induction false} LtTrans(a: Str, b: Str, c: Str)
    requires Lt(a, b) && Lt(b, c)
    ensures Lt(a, c)
  {
    if a != [] && a[0] == b[0] && b[0] == c[0] {
      LtTrans(a[1..], b[1..], c[1..]);
    }
  }

  // ---------------------------------------------------------------- sorting

  /** Strictly increasing by key, so no two elements share a key. */
  ghost predicate Ordered<T>(key: T -> Str, s: seq<T>) {
    forall i, j | 0 <= i < j < |s| :: Lt(key(s[i]), key(s[j]))
  }

  /** What `sort.Slice` and `sort.Strings` promise: no element is above its successor. */
  ghost predicate NonDecreasing<T>(key: T -> Str, s: seq<T>) {
    forall i, j | 0 <= i < j < |s| :: !Lt(key(s[j]), key(s[i]))
  }

  ghost predicate DistinctKeys<T>(key: T -> Str, s: seq<T>) {
    forall i, j | 0 <= i < j < |s| :: key(s[i]) != key(s[j])
  }

  /** Two sequences strictly ordered by the same key with the same contents are the same sequence. */
  lemma {:induction false} OrderedUnique<T>(key: T -> Str, a: seq<T>, b: seq<T>)
    requires Ordered(key, a) && Ordered(key, b)
    requires multiset(a) == multiset(b)
    ensures a == b
    decreases |a|
  {
    assert |a| == |multiset(a)| == |b|;
    if a != [] {
      SameFirst(key, a, b);
      assert a == [a[0]] + a[1..] && b == [b[0]] + b[1..];
      assert multiset(a[1..]) == multiset(a) - multiset{a[0]};
      assert multiset(b[1..]) == multiset(b) - multiset{b[0]};
      OrderedUnique(key, a[1..], b[1..]);
    }
  }

  lemma SameFirst<T>(key: T -> Str, a: seq<T>, b: seq<T>)
    requires Ordered(key, a) && Ordered(key, b)
    requires multiset(a) == multiset(b) && a != [] && b != []
    ensures a[0] == b[0]
  {
    assert a[0] in multiset(b) && b[0] in multiset(a);
    var k :| 0 <= k < |b| && b[k] == a[0];
    var j :| 0 <= j < |a| && a[j] == b[0];
    if k > 0 && j > 0 {
      LtAsym(key(b[0]), key(b[k]));
      assert false;
    }
  }

  function Insert<T>(key: T -> Str, x: T, s: seq<T>): (r: seq<T>)
    ensures multiset(r) == multiset(s) + multiset{x}
  {
    if s == [] then [x]
    else if !Lt(key(s[0]), key(x)) then [x] + s
    else
      assert s == [s[0]] + s[1..];
      [s[0]] + Insert(key, x, s[1..])
  }

  lemma {:induction false} InsertNonDecreasing<T>(key: T -> Str, x: T, s: seq<T>)
    requires NonDecreasing(key, s)
    ensures NonDecreasing(key, Insert(key, x, s))
  {
    if s == [] {
    } else if !Lt(key(s[0]), key(x)) {
      var r := [x] + s;
      forall j | 0 < j < |r| ensures !Lt(key(r[j]), key(x)) {
        if j > 1 && Lt(key(s[j - 1]), key(x)) {
          LtTotal(key(s[0]), key(s[j - 1]));
          if Lt(key(s[0]), key(s[j - 1])) {
            LtTrans(key(s[0]), key(s[j - 1]), key(x));
          }
        }
      }
    } else {
      var t := Insert(key, x, s[1..]);
      InsertNonDecreasing(key, x, s[1..]);
      forall j | 0 <= j < |t| ensures !Lt(key(t[j]), key(s[0])) {
        assert t[j] in multiset(t);
        if t[j] == x {
          LtAsym(key(s[0]), key(x));
        } else {
          assert t[j] in multiset(s[1..]);
          var i :| 0 <= i < |s[1..]| && s[1..][i] == t[j];
          assert s[i + 1] == t[j];
        }
      }
    }
  }

  /** The reference sort: one concrete arrangement meeting the contract of `sort.Slice`. */
  function Sorted<T>(key: T -> Str, s: seq<T>): (r: seq<T>)
    ensures multiset(r) == multiset(s)
  {
    if s == [] then []
    else
      assert s == [s[0]] + s[1..];
      Insert(key, s[0], Sorted(key, s[1..]))
  }

  lemma {:induction false} SortedNonDecreasing<T>(key: T -> Str, s: seq<T>)
    ensures NonDecreasing(key, Sorted(key, s))
  {
    if s != [] {
      SortedNonDecreasing(key, s[1..]);
      InsertNonDecreasing(key, s[0], Sorted(key, s[1..]));
    }
  }

  /** `sort.Slice(s, by key)`: a permutation in non-decreasing key order; ties fall anyhow. */
  method SortBy<T>(key: T -> Str, s: seq<T>) returns (r: seq<T>)
    ensures multiset(r) == multiset(s)
    ensures NonDecreasing(key, r)
  {
    SortedNonDecreasing(key, s);
    r := Sorted(key, s);
  }

  lemma DistinctByMultiset<T>(key: T -> Str, s: seq<T>, r: seq<T>)
    requires DistinctKeys(key, s) && multiset(r) == multiset(s)
    ensures DistinctKeys(key, r)
  {
    forall i, j | 0 <= i < j < |r| ensures key(r[i]) != key(r[j]) {
      if key(r[i]) == key(r[j]) {
        assert r[i] in multiset(s) && r[j] in multiset(s);
        var k :| 0 <= k < |s| && s[k] == r[i];
        var l :| 0 <= l < |s| && s[l] == r[j];
        if k == l {
          TwiceInMultiset(r, i, j);
          OnceInMultiset(key, s, k);
        }
        assert false;
      }
    }
  }

  lemma TwiceInMultiset<T>(r: seq<T>, i: nat, j: nat)
    requires i < j < |r| && r[i] == r[j]
    ensures multiset(r)[r[i]] >= 2
  {
    assert r == r[..i] + [r[i]] + r[i + 1..j] + [r[j]] + r[j + 1..];
  }

  lemma OnceInMultiset<T>(key: T -> Str, s: seq<T>, k: nat)
    requires DistinctKeys(key, s) && k < |s|
    ensures multiset(s)[s[k]] == 1
  {
    assert s == s[..k] + [s[k]] + s[k + 1..];
    assert s[k] !in s[..k] && s[k] !in s[k + 1..];
  }

  /** With distinct keys any sort delivers the one strictly ordered arrangement. */
  lemma SortIsSorted<T>(key: T -> Str, s: seq<T>, r: seq<T>)
    requires DistinctKeys(key, s)
    requires multiset(r) == multiset(s) && NonDecreasing(key, r)
    ensures Ordered(key, r) && r == Sorted(key, s)
  {
    SortedNonDecreasing(key, s);
    StrictlyOrdered(key, s, r);
    StrictlyOrdered(key, s, Sorted(key, s));
    OrderedUnique(key, r, Sorted(key, s));
  }

  lemma StrictlyOrdered<T>(key: T -> Str, s: seq<T>, r: seq<T>)
    requires DistinctKeys(key, s)
    requires multiset(r) == multiset(s) && NonDecreasing(key, r)
    ensures Ordered(key, r)
  {
    DistinctByMultiset(key, s, r);
    forall i, j | 0 <= i < j < |r| ensures Lt(key(r[i]), key(r[j])) {
      LtTotal(key(r[i]), key(r[j]));
    }
  }

  /** Permuting the input does not change what sorting by distinct keys returns. */
  lemma SortedPermutation<T>(key: T -> Str, s: seq<T>, t: seq<T>)
    requires DistinctKeys(key, s) && multiset(s) == multiset(t)
    ensures Sorted(key, s) == Sorted(key, t)
  {
    SortedNonDecreasing(key, t);
    SortIsSorted(key, s, Sorted(key, t));
  }

  lemma SortedOrdered<T>(key: T -> Str, s: seq<T>)
    requires DistinctKeys(key, s)
    ensures Ordered(key, Sorted(key, s))
  {
    SortedNonDecreasing(key, s);
    StrictlyOrdered(key, s, Sorted(key, s));
  }

  lemma OrderedDistinct<T>(key: T -> Str, s: seq<T>)
    requires Ordered(key, s)
    ensures DistinctKeys(key, s)
  {
    forall i, j | 0 <= i < j < |s| ensures key(s[i]) != key(s[j]) {
      LtAsym(key(s[i]), key(s[j]));
    }
  }

  function Itself(s: Str): Str { s }

  /** The members of a set in order: sortedKeys over a map, or a BTreeSet's elements. */
  method SortedMembers(members: set<Str>) returns (r: seq<Str>)
    ensures forall n :: n in r <==> n in members
    ensures Ordered(Itself, r)
  {
    var rest := members;
    var distinct: seq<Str> := [];
    while rest != {}
      invariant forall n :: n in members <==> n in distinct || n in rest
      invariant forall n | n in rest :: n !in distinct
      invariant DistinctKeys(Itself, distinct)
      decreases rest
    {
      var n :| n in rest;
      rest := rest - {n};
      distinct := distinct + [n];
    }
    r := SortBy(Itself, distinct);
    StrictlyOrdered(Itself, distinct, r);
    forall n ensures n in r <==> n in members {
      assert n in r <==> n in multiset(r);
      assert n in distinct <==> n in multiset(distinct);
    }
  }
}
