/** Sorted, duplicate-free sequences: the model of a java.util.TreeSet,
    whose iteration order is the order of its comparator. */
module SortedSets {

  ghost predicate StrictTotalOrder<T(!new)>(less: (T, T) -> bool) {
    && (forall a :: !less(a, a))
    && (forall a, b, c :: less(a, b) && less(b, c) ==> less(a, c))
    && (forall a, b :: a != b ==> less(a, b) || less(b, a))
  }

  /** Strictly increasing, hence free of duplicates. */
  predicate Sorted<T>(less: (T, T) -> bool, s: seq<T>) {
    forall i, j :: 0 <= i < j < |s| ==> less(s[i], s[j])
  }

  /** TreeSet.add: the element is placed before the first larger one,
      unless it is already there. */
  function Insert<T(==,!new)>(less: (T, T) -> bool, x: T, s: seq<T>): (r: seq<T>)
    ensures forall y :: y in r <==> y == x || y in s
  {
    if |s| == 0 then [x]
    else if x == s[0] then s
    else if less(x, s[0]) then [x] + s
    else [s[0]] + Insert(less, x, s[1..])
  }

  /** TreeSet.addAll, one element after the other. */
  function InsertAll<T(==,!new)>(less: (T, T) -> bool, xs: seq<T>, s: seq<T>): (r: seq<T>)
    ensures forall y :: y in r <==> y in xs || y in s
  {
    if |xs| == 0 then s else InsertAll(less, xs[1..], Insert(less, xs[0], s))
  }

  /** Under a strict total order, adding to a sorted set keeps it sorted,
      and adding an element it already holds changes nothing. */
  lemma {:induction false} InsertSorted<T(!new)>(less: (T, T) -> bool, x: T, s: seq<T>)
    requires StrictTotalOrder(less) && Sorted(less, s)
    ensures Sorted(less, Insert(less, x, s))
    ensures x in s ==> Insert(less, x, s) == s
  {
    if |s| > 0 && x != s[0] {
      if less(x, s[0]) {
        forall y | y in s ensures less(x, y) {
          FirstIsLeast(less, s, y);
        }
        ConsSorted(less, x, s);
      } else {
        TailSorted(less, s);
        InsertSorted(less, x, s[1..]);
        assert less(s[0], x);
        InsertAfterHead(less, x, s);
        if x in s {
          assert x in s[1..];
          assert s == [s[0]] + s[1..];
        }
      }
    }
  }

  /** An element above the head of a sorted sequence goes into its tail. */
  lemma InsertAfterHead<T(!new)>(less: (T, T) -> bool, x: T, s: seq<T>)
    requires |s| > 0 && x != s[0] && !less(x, s[0]) && less(s[0], x)
    requires Sorted(less, s) && Sorted(less, Insert(less, x, s[1..]))
    ensures Sorted(less, Insert(less, x, s))
  {
    var t := Insert(less, x, s[1..]);
    forall y | y in t ensures less(s[0], y) {
      if y != x {
        var i :| 0 <= i < |s[1..]| && s[1..][i] == y;
        assert s[i + 1] == y;
      }
    }
    ConsSorted(less, s[0], t);
  }

  /** An element below every element of a sorted sequence can go first. */
  lemma ConsSorted<T>(less: (T, T) -> bool, h: T, t: seq<T>)
    requires Sorted(less, t)
    requires forall y :: y in t ==> less(h, y)
    ensures Sorted(less, [h] + t)
  {
    var r := [h] + t;
    forall i, j | 0 <= i < j < |r| ensures less(r[i], r[j]) {
      assert r[j] == t[j - 1];
      if i > 0 {
        assert r[i] == t[i - 1];
      }
    }
  }

  lemma TailSorted<T>(less: (T, T) -> bool, s: seq<T>)
    requires Sorted(less, s) && |s| > 0
    ensures Sorted(less, s[1..])
  {
    forall i, j | 0 <= i < j < |s[1..]| ensures less(s[1..][i], s[1..][j]) {
      assert s[1..][i] == s[i + 1] && s[1..][j] == s[j + 1];
    }
  }

  lemma {:induction false} InsertAllSorted<T(!new)>(less: (T, T) -> bool, xs: seq<T>, s: seq<T>)
    requires StrictTotalOrder(less) && Sorted(less, s)
    ensures Sorted(less, InsertAll(less, xs, s))
    decreases |xs|
  {
    if |xs| > 0 {
      InsertSorted(less, xs[0], s);
      InsertAllSorted(less, xs[1..], Insert(less, xs[0], s));
    }
  }

  /** The first element of a sorted sequence is its least element. */
  lemma FirstIsLeast<T(!new)>(less: (T, T) -> bool, s: seq<T>, y: T)
    requires Sorted(less, s) && y in s
    ensures y == s[0] || less(s[0], y)
  {
    var i :| 0 <= i < |s| && s[i] == y;
    assert i == 0 || less(s[0], s[i]);
  }

  /** Two sorted sequences with the same elements are equal: the iteration
      order of a sorted set depends only on its contents. */
  lemma {:induction false} SortedUnique<T(!new)>(less: (T, T) -> bool, a: seq<T>, b: seq<T>)
    requires StrictTotalOrder(less) && Sorted(less, a) && Sorted(less, b)
    requires forall y :: y in a <==> y in b
    ensures a == b
    decreases |a|
  {
    assert |b| == 0 || b[0] in b;
    if |a| > 0 {
      assert a[0] in a;
      FirstIsLeast(less, a, b[0]);
      FirstIsLeast(less, b, a[0]);
      assert a[0] == b[0];
      assert forall y :: y in a[1..] <==> y in b[1..] by {
        forall y ensures y in a[1..] <==> y in b[1..] {
          if y in a[1..] {
            var i :| 1 <= i < |a| && a[i] == y;
            assert less(a[0], y);
            assert y in b;
            FirstIsLeast(less, b, y);
          }
          if y in b[1..] {
            var i :| 1 <= i < |b| && b[i] == y;
            assert less(b[0], y);
            assert y in a;
            FirstIsLeast(less, a, y);
          }
        }
      }
      SortedUnique(less, a[1..], b[1..]);
      assert a == [a[0]] + a[1..];
      assert b == [b[0]] + b[1..];
    }
  }

  // ----- String.compareTo and HDLQualifiedName order -----

  /** `a.compareTo(b) < 0`: the first differing character decides, and a
      proper prefix comes first. */
  function Less(a: string, b: string): bool {
    if |a| == 0 then |b| > 0
    else if |b| == 0 then false
    else if a[0] != b[0] then a[0] < b[0]
    else Less(a[1..], b[1..])
  }

  lemma {:induction false} LessIrreflexive(a: string)
    ensures !Less(a, a)
  {
    if |a| > 0 {
      LessIrreflexive(a[1..]);
    }
  }

  lemma {:induction false} LessTransitive(a: string, b: string, c: string)
    requires Less(a, b) && Less(b, c)
    ensures Less(a, c)
  {
    if |a| > 0 && |b| > 0 && |c| > 0 && a[0] == b[0] && b[0] == c[0] {
      LessTransitive(a[1..], b[1..], c[1..]);
    }
  }

  lemma {:induction false} LessTotal(a: string, b: string)
    requires a != b
    ensures Less(a, b) || Less(b, a)
  {
    if |a| > 0 && |b| > 0 && a[0] == b[0] {
      assert a == [a[0]] + a[1..];
      assert b == [b[0]] + b[1..];
      LessTotal(a[1..], b[1..]);
    }
  }

  lemma StringOrder()
    ensures StrictTotalOrder(Less)
  {
    forall a ensures !Less(a, a) {
      LessIrreflexive(a);
    }
    forall a, b, c | Less(a, b) && Less(b, c) ensures Less(a, c) {
      LessTransitive(a, b, c);
    }
    forall a, b | a != b ensures Less(a, b) || Less(b, a) {
      LessTotal(a, b);
    }
  }

  /** Qualified names compared segment by segment, a proper prefix first. */
  function NameLess(a: seq<string>, b: seq<string>): bool {
    if |a| == 0 then |b| > 0
    else if |b| == 0 then false
    else if a[0] != b[0] then Less(a[0], b[0])
    else NameLess(a[1..], b[1..])
  }

  lemma {:induction false} NameLessIrreflexive(a: seq<string>)
    ensures !NameLess(a, a)
  {
    if |a| > 0 {
      NameLessIrreflexive(a[1..]);
    }
  }

  lemma {:induction false} NameLessTransitive(a: seq<string>, b: seq<string>, c: seq<string>)
    requires NameLess(a, b) && NameLess(b, c)
    ensures NameLess(a, c)
  {
    if |a| > 0 && |b| > 0 && |c| > 0 {
      if a[0] == b[0] && b[0] == c[0] {
        NameLessTransitive(a[1..], b[1..], c[1..]);
      } else if a[0] != b[0] && b[0] != c[0] {
        LessTransitive(a[0], b[0], c[0]);
        if a[0] == c[0] {
          LessIrreflexive(a[0]);
        }
      }
    }
  }

  lemma {:induction false} NameLessTotal(a: seq<string>, b: seq<string>)
    requires a != b
    ensures NameLess(a, b) || NameLess(b, a)
  {
    if |a| > 0 && |b| > 0 {
      if a[0] == b[0] {
        assert a == [a[0]] + a[1..];
        assert b == [b[0]] + b[1..];
        NameLessTotal(a[1..], b[1..]);
      } else {
        LessTotal(a[0], b[0]);
      }
    }
  }

  lemma NameOrder()
    ensures StrictTotalOrder(NameLess)
  {
    forall a ensures !NameLess(a, a) {
      NameLessIrreflexive(a);
    }
    forall a, b, c | NameLess(a, b) && NameLess(b, c) ensures NameLess(a, c) {
      NameLessTransitive(a, b, c);
    }
    forall a, b | a != b ensures NameLess(a, b) || NameLess(b, a) {
      NameLessTotal(a, b);
    }
  }
}
