/** Strict orders, sorted sequences and the sorting the consumer relies on. */
module Ordering {

  type byte = x: int | 0 <= x < 256

  /** Byte strings: store keys, addresses and the canonical strings of public keys. */
  type Bytes = seq<byte>

  /** Lexicographic order of byte strings; a proper prefix comes first. */
  predicate Less(a: Bytes, b: Bytes)
    decreases |a|
  {
    b != [] && (a == [] || a[0] < b[0] || (a[0] == b[0] && Less(a[1..], b[1..])))
  }

  ghost predicate StrictTotal<T(!new)>(lt: (T, T) -> bool) {
    && (forall x :: !lt(x, x))
    && (forall x, y, z :: lt(x, y) && lt(y, z) ==> lt(x, z))
    && (forall x, y :: x == y || lt(x, y) || lt(y, x))
  }

  ghost predicate Sorted<T(!new)>(lt: (T, T) -> bool, s: seq<T>) {
    forall i, j :: 0 <= i < j < |s| ==> lt(s[i], s[j])
  }

  lemma {:induction false} LessTransitive(a: Bytes, b: Bytes, c: Bytes)
    requires Less(a, b) && Less(b, c)
    ensures Less(a, c)
    decreases |a|
  {
    if a != [] && a[0] == b[0] == c[0] {
      LessTransitive(a[1..], b[1..], c[1..]);
    }
  }

  lemma {:induction false} LessIrreflexive(a: Bytes)
    ensures !Less(a, a)
    decreases |a|
  {
    if a != [] {
      LessIrreflexive(a[1..]);
    }
  }

  lemma {:induction false} LessTotal(a: Bytes, b: Bytes)
    ensures a == b || Less(a, b) || Less(b, a)
    decreases |a|
  {
    if a != [] && b != [] && a[0] == b[0] {
      LessTotal(a[1..], b[1..]);
      assert a == [a[0]] + a[1..] && b == [b[0]] + b[1..];
    }
  }

  lemma LessIsStrictTotal()
    ensures StrictTotal(Less)
  {
    forall a: Bytes ensures !Less(a, a) { LessIrreflexive(a); }
    forall a: Bytes, b: Bytes, c: Bytes | Less(a, b) && Less(b, c) ensures Less(a, c) { LessTransitive(a, b, c); }
    forall a: Bytes, b: Bytes ensures a == b || Less(a, b) || Less(b, a) { LessTotal(a, b); }
  }

  /** A common prefix does not change the order of two keys. */
  lemma {:induction false} LessUnderPrefix(p: Bytes, a: Bytes, b: Bytes)
    ensures Less(p + a, p + b) <==> Less(a, b)
    decreases |p|
  {
    if p == [] {
      assert p + a == a && p + b == b;
    } else {
      assert (p + a)[1..] == p[1..] + a && (p + b)[1..] == p[1..] + b;
      LessUnderPrefix(p[1..], a, b);
    }
  }

  /** A sorted sequence is determined by its elements, so sorting hides the order they were found in. */
  lemma {:induction false} SortedUnique<T(!new)>(lt: (T, T) -> bool, a: seq<T>, b: seq<T>)
    requires StrictTotal(lt) && Sorted(lt, a) && Sorted(lt, b)
    requires forall x :: x in a <==> x in b
    ensures a == b
    decreases |a|
  {
    if a + b != [] {
      assert (a + b)[0] in a + b;
      assert a[0] in b && b[0] in a;
      assert a[0] == b[0];
      SortedTail(lt, a);
      SortedTail(lt, b);
      SortedUnique(lt, a[1..], b[1..]);
      assert a == [a[0]] + a[1..] && b == [b[0]] + b[1..];
    }
  }

  lemma SortedTail<T(!new)>(lt: (T, T) -> bool, s: seq<T>)
    requires StrictTotal(lt) && Sorted(lt, s) && s != []
    ensures Sorted(lt, s[1..]) && s[0] !in s[1..]
    ensures forall x :: x in s[1..] <==> x in s && x != s[0]
  {
    forall x | x in s && x != s[0] ensures x in s[1..] {
      var i :| 0 <= i < |s| && s[i] == x;
      assert s[1..][i - 1] == x;
    }
    forall i | 0 <= i < |s| - 1 ensures s[1..][i] != s[0] {
      assert lt(s[0], s[i + 1]);
    }
  }

  /** Inserting into its place in a sorted sequence. */
  function Insert<T(!new)>(lt: (T, T) -> bool, s: seq<T>, x: T): seq<T> {
    if s == [] || lt(x, s[0]) then [x] + s else [s[0]] + Insert(lt, s[1..], x)
  }

  lemma {:induction false} InsertSorts<T(!new)>(lt: (T, T) -> bool, s: seq<T>, x: T)
    requires StrictTotal(lt) && Sorted(lt, s) && x !in s
    ensures Sorted(lt, Insert(lt, s, x))
    ensures forall y :: y in Insert(lt, s, x) <==> y == x || y in s
    decreases |s|
  {
    if s != [] && !lt(x, s[0]) {
      SortedTail(lt, s);
      InsertSorts(lt, s[1..], x);
      var t := Insert(lt, s[1..], x);
      forall i, j | 0 <= i < j < |t| + 1 ensures lt(([s[0]] + t)[i], ([s[0]] + t)[j]) {
        if i == 0 {
          assert t[j - 1] in t;
          assert s[0] in s && s[0] != x;
          if t[j - 1] != x {
            var k :| 0 <= k < |s| - 1 && s[1..][k] == t[j - 1];
            assert lt(s[0], s[k + 1]);
          }
        }
      }
    } else if s != [] {
      forall j | 0 <= j < |s| ensures lt(x, s[j]) {
        assert j == 0 || lt(s[0], s[j]);
      }
    }
  }

  lemma {:induction false} InOrderExists<T(!new)>(lt: (T, T) -> bool, s: set<T>)
    requires StrictTotal(lt)
    ensures exists xs :: Sorted(lt, xs) && forall x :: x in xs <==> x in s
    decreases s
  {
    var empty: seq<T> := [];
    assert Sorted(lt, empty);
    if s != {} {
      var y :| y in s;
      InOrderExists(lt, s - {y});
      var ys :| Sorted(lt, ys) && forall x :: x in ys <==> x in s - {y};
      InsertSorts(lt, ys, y);
      assert Sorted(lt, Insert(lt, ys, y)) && forall x :: x in Insert(lt, ys, y) <==> x in s;
    }
  }

  /** The elements of a set in ascending order. */
  ghost function InOrder<T(!new)>(lt: (T, T) -> bool, s: set<T>): (xs: seq<T>)
    requires StrictTotal(lt)
    ensures Sorted(lt, xs) && forall x :: x in xs <==> x in s
  {
    InOrderExists(lt, s);
    var xs :| Sorted(lt, xs) && forall x :: x in xs <==> x in s;
    xs
  }

  predicate NatLess(x: nat, y: nat) { x < y }

  /** The elements of a set, in whatever order they come. */
  method Elements<T>(s: set<T>) returns (xs: seq<T>)
    ensures forall x :: x in xs <==> x in s
    ensures forall i, j :: 0 <= i < j < |xs| ==> xs[i] != xs[j]
  {
    xs := [];
    var rest := s;
    while rest != {}
      invariant rest <= s
      invariant forall x :: x in xs <==> x in s - rest
      invariant forall i, j :: 0 <= i < j < |xs| ==> xs[i] != xs[j]
      decreases rest
    {
      var x :| x in rest;
      assert x !in xs;
      rest := rest - {x};
      xs := xs + [x];
    }
  }

  /** sort.Slice on a slice without equal elements. */
  method SortSlice<T(!new)>(lt: (T, T) -> bool, xs: seq<T>) returns (ys: seq<T>)
    requires StrictTotal(lt)
    requires forall i, j :: 0 <= i < j < |xs| ==> xs[i] != xs[j]
    ensures Sorted(lt, ys)
    ensures forall x :: x in ys <==> x in xs
  {
    ys := [];
    for i := 0 to |xs|
      invariant Sorted(lt, ys)
      invariant forall x :: x in ys <==> x in xs[..i]
    {
      assert xs[i] !in xs[..i];
      InsertSorts(lt, ys, xs[i]);
      ys := Insert(lt, ys, xs[i]);
      assert xs[..i + 1] == xs[..i] + [xs[i]];
    }
    assert xs[..|xs|] == xs;
  }
}
