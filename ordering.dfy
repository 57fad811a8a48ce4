/** The orderings the queries ask the database for (`OrderBy`,
    `OrderByDescending`, `ThenBy`), and a sort that realises them. */
module Ordering {

  /** SQLite's default BINARY collation on text: lexicographic by code
      point (the order of the UTF-8 bytes). */
  predicate StringLe(a: string, b: string)
  {
    if a == [] then true
    else if b == [] then false
    else if a[0] != b[0] then a[0] < b[0]
    else StringLe(a[1..], b[1..])
  }

  lemma {:induction false} StringLeTotal(a: string, b: string)
    ensures StringLe(a, b) || StringLe(b, a)
  {
    if a != [] && b != [] && a[0] == b[0] {
      StringLeTotal(a[1..], b[1..]);
    }
  }

  lemma {:induction false} StringLeTransitive(a: string, b: string, c: string)
    requires StringLe(a, b) && StringLe(b, c)
    ensures StringLe(a, c)
  {
    if a != [] && b != [] && c != [] && a[0] == b[0] && b[0] == c[0] {
      StringLeTransitive(a[1..], b[1..], c[1..]);
    }
  }

  lemma {:induction false} StringLeAntisymmetric(a: string, b: string)
    requires StringLe(a, b) && StringLe(b, a)
    ensures a == b
  {
    if a != [] && b != [] {
      StringLeAntisymmetric(a[1..], b[1..]);
      assert a == [a[0]] + a[1..] && b == [b[0]] + b[1..];
    }
  }

  /** A prefix sorts first. */
  lemma {:induction false} PrefixIsLess(a: string, b: string)
    ensures StringLe(a, a + b)
  {
    if a != [] {
      assert (a + b)[1..] == a[1..] + b;
      PrefixIsLess(a[1..], b);
    }
  }

  /** `le` orders every pair and is transitive: what `OrderBy` on a key
      needs so the result is well defined up to ties. */
  ghost predicate TotalPreorder<T(!new)>(le: (T, T) -> bool)
  {
    && (forall a, b :: le(a, b) || le(b, a))
    && (forall a, b, c :: le(a, b) && le(b, c) ==> le(a, c))
  }

  ghost predicate Sorted<T>(s: seq<T>, le: (T, T) -> bool)
  {
    forall i, j :: 0 <= i < j < |s| ==> le(s[i], s[j])
  }

  /** Places `x` before the first element it is at most. */
  function Insert<T>(x: T, s: seq<T>, le: (T, T) -> bool): seq<T>
  {
    if s == [] then [x]
    else if le(x, s[0]) then [x] + s
    else [s[0]] + Insert(x, s[1..], le)
  }

  /** Insertion sort by `le`: one order the database may return. */
  function Sort<T>(s: seq<T>, le: (T, T) -> bool): seq<T>
  {
    if s == [] then [] else Insert(s[0], Sort(s[1..], le), le)
  }

  lemma {:induction false} InsertPermutes<T>(x: T, s: seq<T>, le: (T, T) -> bool)
    ensures multiset(Insert(x, s, le)) == multiset(s) + multiset{x}
  {
    if s != [] && !le(x, s[0]) {
      InsertPermutes(x, s[1..], le);
      assert s == [s[0]] + s[1..];
    }
  }

  lemma {:induction false} InsertSorted<T(!new)>(x: T, s: seq<T>, le: (T, T) -> bool)
    requires TotalPreorder(le) && Sorted(s, le)
    ensures Sorted(Insert(x, s, le), le)
  {
    if s != [] && !le(x, s[0]) {
      var rest := Insert(x, s[1..], le);
      InsertSorted(x, s[1..], le);
      InsertPermutes(x, s[1..], le);
      forall k | 0 <= k < |rest|
        ensures le(s[0], rest[k])
      {
        assert rest[k] in multiset(rest);
        if rest[k] != x {
          assert rest[k] in multiset(s[1..]);
          var j :| 0 <= j < |s[1..]| && s[1..][j] == rest[k];
          assert s[j + 1] == rest[k];
        }
      }
      var r := [s[0]] + rest;
      forall i, j | 0 <= i < j < |r|
        ensures le(r[i], r[j])
      {
        if i > 0 {
          assert r[i] == rest[i - 1] && r[j] == rest[j - 1];
        } else {
          assert r[j] == rest[j - 1];
        }
      }
    }
  }

  /** The sort of `s` holds exactly the elements of `s`, ordered by `le`. */
  lemma {:induction false} SortIsSortedPermutation<T(!new)>(s: seq<T>, le: (T, T) -> bool)
    requires TotalPreorder(le)
    ensures Sorted(Sort(s, le), le)
    ensures multiset(Sort(s, le)) == multiset(s)
  {
    if s != [] {
      SortIsSortedPermutation(s[1..], le);
      InsertSorted(s[0], Sort(s[1..], le), le);
      InsertPermutes(s[0], Sort(s[1..], le), le);
      assert s == [s[0]] + s[1..];
    }
  }

  /** `o` is the rows of `s` in an order the database may return for
      `ORDER BY le`: the same rows, sorted (ties in any order). */
  ghost predicate IsOrderingOf<T(!new)>(o: seq<T>, s: seq<T>, le: (T, T) -> bool)
  {
    Sorted(o, le) && multiset(o) == multiset(s)
  }

  /** Ordering by a text key, ascending (`OrderBy`) or descending
      (`OrderByDescending`). */
  function ByText<T>(key: T -> string, descending: bool): (le: (T, T) -> bool)
  {
    if descending then (a: T, b: T) => StringLe(key(b), key(a))
    else (a: T, b: T) => StringLe(key(a), key(b))
  }

  /** Ordering by an integer key, ascending or descending. */
  function ByInt<T>(key: T -> int, descending: bool): (le: (T, T) -> bool)
  {
    if descending then (a: T, b: T) => key(b) <= key(a)
    else (a: T, b: T) => key(a) <= key(b)
  }

  /** `OrderByDescending(primary).ThenBy(secondary)`: a larger primary key
      first, the secondary order among equal primary keys. */
  function ThenBy<T>(primary: T -> int, secondary: (T, T) -> bool): (le: (T, T) -> bool)
  {
    (a: T, b: T) => primary(a) > primary(b) || (primary(a) == primary(b) && secondary(a, b))
  }

  lemma ByTextIsTotalPreorder<T(!new)>(key: T -> string, descending: bool)
    ensures TotalPreorder(ByText(key, descending))
  {
    var le := ByText(key, descending);
    forall a, b
      ensures le(a, b) || le(b, a)
    {
      StringLeTotal(key(a), key(b));
    }
    forall a, b, c | le(a, b) && le(b, c)
      ensures le(a, c)
    {
      if descending {
        StringLeTransitive(key(c), key(b), key(a));
      } else {
        StringLeTransitive(key(a), key(b), key(c));
      }
    }
  }

  lemma ByIntIsTotalPreorder<T(!new)>(key: T -> int, descending: bool)
    ensures TotalPreorder(ByInt(key, descending))
  {
  }

  lemma ThenByIsTotalPreorder<T(!new)>(primary: T -> int, secondary: (T, T) -> bool)
    requires TotalPreorder(secondary)
    ensures TotalPreorder(ThenBy(primary, secondary))
  {
  }

  /** Under `ThenBy`, the primary key never increases along a sorted
      sequence, and among equal primary keys the secondary order holds. */
  lemma ThenBySortedMeans<T>(s: seq<T>, primary: T -> int, secondary: (T, T) -> bool)
    requires Sorted(s, ThenBy(primary, secondary))
    ensures forall i, j :: 0 <= i < j < |s| ==> primary(s[i]) >= primary(s[j])
    ensures forall i, j :: 0 <= i < j < |s| && primary(s[i]) == primary(s[j]) ==> secondary(s[i], s[j])
  {
    forall i, j | 0 <= i < j < |s|
      ensures primary(s[i]) >= primary(s[j])
    {
      assert ThenBy(primary, secondary)(s[i], s[j]);
    }
    forall i, j | 0 <= i < j < |s| && primary(s[i]) == primary(s[j])
      ensures secondary(s[i], s[j])
    {
      assert ThenBy(primary, secondary)(s[i], s[j]);
    }
  }

  /** A contiguous run of a sorted sequence is sorted. */
  lemma SliceOfSorted<T>(s: seq<T>, lo: int, hi: int, le: (T, T) -> bool)
    requires 0 <= lo <= hi <= |s| && Sorted(s, le)
    ensures Sorted(s[lo..hi], le)
  {
    forall i, j | 0 <= i < j < hi - lo
      ensures le(s[lo..hi][i], s[lo..hi][j])
    {
      assert s[lo..hi][i] == s[lo + i] && s[lo..hi][j] == s[lo + j];
    }
  }
}
