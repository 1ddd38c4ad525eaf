/** Lexicographic string order, and sorted sequences under any strict order.

    A strictly sorted sequence is determined by its elements alone; that is what
    turns "the same set of events" into "the same materialised workspace". */
module Ordering {

  /** Rust's `str` order: code point by code point, a proper prefix first. */
  predicate StrLess(a: string, b: string) {
    b != [] && (a == [] || a[0] < b[0] || (a[0] == b[0] && StrLess(a[1..], b[1..])))
  }

  lemma {:induction false} StrLessIrreflexive(a: string)
    ensures !StrLess(a, a)
  {
    if a != [] {
      StrLessIrreflexive(a[1..]);
    }
  }

  lemma {:induction false} StrLessTransitive(a: string, b: string, c: string)
    requires StrLess(a, b) && StrLess(b, c)
    ensures StrLess(a, c)
  {
    if a != [] && a[0] == b[0] && b[0] == c[0] {
      StrLessTransitive(a[1..], b[1..], c[1..]);
    }
  }

  lemma {:induction false} StrLessTotal(a: string, b: string)
    ensures StrLess(a, b) || StrLess(b, a) || a == b
  {
    if a != [] && b != [] && a[0] == b[0] {
      StrLessTotal(a[1..], b[1..]);
      assert a == [a[0]] + a[1..] && b == [b[0]] + b[1..];
    }
  }

  lemma StrLessStrict()
    ensures Strict(StrLess)
  {
    forall a, b, c | StrLess(a, b) && StrLess(b, c) ensures StrLess(a, c) {
      StrLessTransitive(a, b, c);
    }
    forall a: string ensures !StrLess(a, a) {
      StrLessIrreflexive(a);
    }
  }

  ghost predicate Strict<T(!new)>(less: (T, T) -> bool) {
    && (forall a :: !less(a, a))
    && (forall a, b, c :: less(a, b) && less(b, c) ==> less(a, c))
  }

  ghost predicate Sorted<T(!new)>(less: (T, T) -> bool, s: seq<T>) {
    forall i, j :: 0 <= i < j < |s| ==> less(s[i], s[j])
  }

  /** Distinct elements of `s` are comparable. */
  ghost predicate TotalOn<T(!new)>(less: (T, T) -> bool, s: set<T>) {
    forall a, b :: a in s && b in s && a != b ==> less(a, b) || less(b, a)
  }

  function Elems<T>(s: seq<T>): set<T> {
    set x | x in s
  }

  /** Two strictly sorted sequences with the same elements are the same sequence. */
  lemma {:induction false} SortedUnique<T(!new)>(less: (T, T) -> bool, s: seq<T>, t: seq<T>)
    requires Strict(less) && Sorted(less, s) && Sorted(less, t)
    requires Elems(s) == Elems(t)
    ensures s == t
  {
    assert s != [] ==> s[0] in Elems(t);
    assert t != [] ==> t[0] in Elems(s);
    if s != [] {
      assert s[0] == t[0];
      SortedTail(less, s);
      SortedTail(less, t);
      SortedUnique(less, s[1..], t[1..]);
      assert s == [s[0]] + s[1..] && t == [t[0]] + t[1..];
    }
  }

  lemma SortedTail<T(!new)>(less: (T, T) -> bool, s: seq<T>)
    requires Strict(less) && Sorted(less, s) && s != []
    ensures Sorted(less, s[1..]) && Elems(s[1..]) == Elems(s) - {s[0]}
  {
    assert forall x :: x in s[1..] ==> x in s && x != s[0];
    assert forall x :: x in s && x != s[0] ==> x in s[1..] by {
      assert s == [s[0]] + s[1..];
    }
  }

  /** Put `x` before the first element it is not greater than (a stable insert). */
  function Insert<T(!new)>(less: (T, T) -> bool, x: T, s: seq<T>): seq<T> {
    if s == [] then [x]
    else if less(s[0], x) then [s[0]] + Insert(less, x, s[1..])
    else [x] + s
  }

  lemma {:induction false} InsertKeeps<T(!new)>(less: (T, T) -> bool, x: T, s: seq<T>)
    ensures Elems(Insert(less, x, s)) == Elems(s) + {x}
    ensures multiset(Insert(less, x, s)) == multiset(s) + multiset{x}
  {
    if s != [] && less(s[0], x) {
      InsertKeeps(less, x, s[1..]);
      assert s == [s[0]] + s[1..];
      ElemsOfAppend([s[0]], s[1..]);
      ElemsOfAppend([s[0]], Insert(less, x, s[1..]));
    } else {
      ElemsOfAppend([x], s);
    }
  }

  lemma ElemsOfAppend<T(!new)>(a: seq<T>, b: seq<T>)
    ensures Elems(a + b) == Elems(a) + Elems(b)
    ensures |a| == 1 ==> Elems(a) == {a[0]}
  {
  }

  lemma {:induction false} InsertSorts<T(!new)>(less: (T, T) -> bool, x: T, s: seq<T>)
    requires Strict(less) && Sorted(less, s) && x !in s && TotalOn(less, Elems(s) + {x})
    ensures Sorted(less, Insert(less, x, s))
  {
    if s != [] && less(s[0], x) {
      SortedTail(less, s);
      assert TotalOn(less, Elems(s[1..]) + {x});
      InsertSorts(less, x, s[1..]);
      InsertKeeps(less, x, s[1..]);
      var r := Insert(less, x, s[1..]);
      forall i | 0 <= i < |r| ensures less(s[0], r[i]) {
        assert r[i] in Elems(r);
      }
    } else if s != [] {
      assert s[0] in Elems(s) && less(x, s[0]);
    }
  }

  /** Insertion sort, the specification of `sort_by_key`. */
  function Sort<T(!new)>(less: (T, T) -> bool, s: seq<T>): seq<T> {
    if s == [] then [] else Insert(less, s[0], Sort(less, s[1..]))
  }

  lemma {:induction false} SortKeeps<T(!new)>(less: (T, T) -> bool, s: seq<T>)
    ensures Elems(Sort(less, s)) == Elems(s)
    ensures multiset(Sort(less, s)) == multiset(s)
  {
    if s != [] {
      SortKeeps(less, s[1..]);
      InsertKeeps(less, s[0], Sort(less, s[1..]));
      assert s == [s[0]] + s[1..];
    }
  }

  ghost predicate Distinct<T(!new)>(s: seq<T>) {
    forall i, j :: 0 <= i < j < |s| ==> s[i] != s[j]
  }

  lemma {:induction false} SortSorts<T(!new)>(less: (T, T) -> bool, s: seq<T>)
    requires Strict(less) && Distinct(s) && TotalOn(less, Elems(s))
    ensures Sorted(less, Sort(less, s))
  {
    if s != [] {
      assert s == [s[0]] + s[1..];
      assert Elems(s[1..]) <= Elems(s);
      SortSorts(less, s[1..]);
      SortKeeps(less, s[1..]);
      assert s[0] !in s[1..];
      assert s[0] !in Elems(Sort(less, s[1..]));
      assert Elems(Sort(less, s[1..])) + {s[0]} <= Elems(s);
      InsertSorts(less, s[0], Sort(less, s[1..]));
    }
  }

  /** Sorting forgets the order its input came in. */
  lemma SortCanonical<T(!new)>(less: (T, T) -> bool, s: seq<T>, t: seq<T>)
    requires Strict(less) && Distinct(s) && Distinct(t) && Elems(s) == Elems(t)
    requires TotalOn(less, Elems(s))
    ensures Sort(less, s) == Sort(less, t)
  {
    SortSorts(less, s);
    SortSorts(less, t);
    SortKeeps(less, s);
    SortKeeps(less, t);
    SortedUnique(less, Sort(less, s), Sort(less, t));
  }

  /** The one strictly sorted sequence of the elements of `s`. */
  ghost function InOrderBy<T(!new)>(less: (T, T) -> bool, s: set<T>): (r: seq<T>)
    requires Strict(less) && TotalOn(less, s)
    ensures Sorted(less, r) && Elems(r) == s
    decreases |s|
  {
    if s == {} then []
    else
      var x :| x in s;
      var rest := InOrderBy(less, s - {x});
      assert x !in Elems(rest) && Elems(rest) + {x} == s;
      InsertSorts(less, x, rest);
      InsertKeeps(less, x, rest);
      Insert(less, x, rest)
  }

  /** Collect a set in whatever order it is visited in, sorting as it goes. */
  method DrainBy<T(!new,==)>(less: (T, T) -> bool, s: set<T>) returns (r: seq<T>)
    requires Strict(less) && TotalOn(less, s)
    ensures r == InOrderBy(less, s)
  {
    r := [];
    var left := s;
    while left != {}
      invariant left <= s && left !! Elems(r) && left + Elems(r) == s
      invariant Sorted(less, r)
      decreases |left|
    {
      var x :| x in left;
      assert Elems(r) + {x} <= s;
      InsertSorts(less, x, r);
      InsertKeeps(less, x, r);
      r := Insert(less, x, r);
      left := left - {x};
    }
    SortedUnique(less, r, InOrderBy(less, s));
  }

  lemma StrOrder(s: set<string>)
    ensures Strict(StrLess) && TotalOn(StrLess, s)
  {
    StrLessStrict();
    forall a, b | a in s && b in s && a != b ensures StrLess(a, b) || StrLess(b, a) {
      StrLessTotal(a, b);
    }
  }

  /** What iterating a `BTreeSet<String>`, or sorting and deduplicating a vector of
      strings, yields. */
  ghost function InOrder(s: set<string>): (r: seq<string>)
    ensures Sorted(StrLess, r) && Elems(r) == s
  {
    StrOrder(s);
    InOrderBy(StrLess, s)
  }

  method Drain(s: set<string>) returns (r: seq<string>)
    ensures r == InOrder(s)
  {
    StrOrder(s);
    r := DrainBy(StrLess, s);
  }
}
