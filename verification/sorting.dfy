/** Stable sorting under a caller-supplied order, and removal of consecutive duplicates:
    the `slice::sort` + `Vec::dedup` pair the backend uses to normalise port and address
    lists, and the comparator sort the process table uses. Also the lexicographic order
    on strings that Rust's `String` and JavaScript's `<` apply. */
module Sorting {

  // ---------------------------------------------------------------------------
  // orders

  /** `le` is total and transitive on the elements of `dom`: a total preorder there. */
  ghost predicate TotalPreorderOn<T>(le: (T, T) -> bool, dom: set<T>) {
    && (forall a, b :: a in dom && b in dom ==> le(a, b) || le(b, a))
    && (forall a, b, c :: a in dom && b in dom && c in dom && le(a, b) && le(b, c) ==> le(a, c))
  }

  /** A total preorder that is also antisymmetric on `dom`: a total order there. */
  ghost predicate TotalOrderOn<T>(le: (T, T) -> bool, dom: set<T>) {
    && TotalPreorderOn(le, dom)
    && (forall a, b :: a in dom && b in dom && le(a, b) && le(b, a) ==> a == b)
  }

  /** The set of elements of a sequence. */
  function Elements<T>(s: seq<T>): set<T> {
    set x | x in s
  }

  ghost predicate SortedBy<T>(s: seq<T>, le: (T, T) -> bool) {
    forall i, j :: 0 <= i < j < |s| ==> le(s[i], s[j])
  }

  /** Sorted and free of repetitions: each element strictly precedes every later one. */
  ghost predicate StrictlySortedBy<T>(s: seq<T>, le: (T, T) -> bool) {
    forall i, j :: 0 <= i < j < |s| ==> le(s[i], s[j]) && s[i] != s[j]
  }

  // ---------------------------------------------------------------------------
  // insertion sort

  /** Inserts `x` in front of the first element it precedes or equals under `le`. */
  function Insert<T>(x: T, s: seq<T>, le: (T, T) -> bool): (r: seq<T>)
    ensures multiset(r) == multiset(s) + multiset{x}
    decreases |s|
  {
    if |s| == 0 then [x]
    else if le(x, s[0]) then [x] + s
    else
      assert s == [s[0]] + s[1..];
      [s[0]] + Insert(x, s[1..], le)
  }

  /** A stable sort of `s` under `le`: always a rearrangement of `s`. */
  function Sort<T>(s: seq<T>, le: (T, T) -> bool): (r: seq<T>)
    ensures multiset(r) == multiset(s)
    decreases |s|
  {
    if |s| == 0 then []
    else
      assert s == [s[0]] + s[1..];
      Insert(s[0], Sort(s[1..], le), le)
  }

  lemma {:induction false} InsertSorted<T>(x: T, s: seq<T>, le: (T, T) -> bool, dom: set<T>)
    requires TotalPreorderOn(le, dom)
    requires x in dom && forall k :: 0 <= k < |s| ==> s[k] in dom
    requires SortedBy(s, le)
    ensures SortedBy(Insert(x, s, le), le)
    decreases |s|
  {
    if |s| > 0 && !le(x, s[0]) {
      var tail := s[1..];
      SortedTail(s, le);
      InsertSorted(x, tail, le, dom);
      assert le(s[0], x);
      ConsSorted(s[0], Insert(x, tail, le), multiset(tail) + multiset{x}, le) by {
        forall e | e in multiset(tail) + multiset{x} ensures le(s[0], e) {
          if e in multiset(tail) {
            var k :| 0 <= k < |tail| && tail[k] == e;
            assert le(s[0], s[k + 1]);
          }
        }
      }
    } else if |s| > 0 {
      ConsSorted(x, s, multiset(s), le) by {
        forall e | e in multiset(s) ensures le(x, e) {
          var k :| 0 <= k < |s| && s[k] == e;
          if k > 0 { assert le(s[0], s[k]); }
        }
      }
    }
  }

  lemma SortedTail<T>(s: seq<T>, le: (T, T) -> bool)
    requires |s| > 0 && SortedBy(s, le)
    ensures SortedBy(s[1..], le)
  {
    var tail := s[1..];
    forall i, j | 0 <= i < j < |tail| ensures le(tail[i], tail[j]) {
      assert tail[i] == s[i + 1] && tail[j] == s[j + 1];
    }
  }

  /** Putting an element that precedes every element of a sorted list in front keeps
      it sorted. */
  lemma ConsSorted<T>(x: T, s: seq<T>, m: multiset<T>, le: (T, T) -> bool)
    requires SortedBy(s, le) && multiset(s) == m
    requires forall e | e in m :: le(x, e)
    ensures SortedBy([x] + s, le)
  {
    var r := [x] + s;
    forall i, j | 0 <= i < j < |r| ensures le(r[i], r[j]) {
      assert r[j] == s[j - 1];
      if i == 0 {
        assert s[j - 1] in multiset(s);
      } else {
        assert r[i] == s[i - 1];
      }
    }
  }

  /** Under a total preorder on its elements, the sort's result is ordered. */
  lemma {:induction false} SortSorted<T>(s: seq<T>, le: (T, T) -> bool, dom: set<T>)
    requires TotalPreorderOn(le, dom)
    requires forall k :: 0 <= k < |s| ==> s[k] in dom
    ensures SortedBy(Sort(s, le), le)
    decreases |s|
  {
    if |s| > 0 {
      var sorted := Sort(s[1..], le);
      SortSorted(s[1..], le, dom);
      forall k | 0 <= k < |sorted| ensures sorted[k] in dom {
        assert sorted[k] in multiset(s[1..]);
        var m :| 0 <= m < |s[1..]| && s[1..][m] == sorted[k];
        assert s[1..][m] == s[m + 1];
      }
      InsertSorted(s[0], sorted, le, dom);
    }
  }

  // ---------------------------------------------------------------------------
  // dedup

  /** Rust's `Vec::dedup`: drops every element equal to its predecessor. */
  function Dedup<T(==)>(s: seq<T>): (r: seq<T>)
    ensures Elements(r) == Elements(s)
    ensures |r| <= |s|
    ensures |s| > 0 ==> |r| > 0 && r[0] == s[0]
    decreases |s|
  {
    if |s| <= 1 then s
    else
      var r := Dedup(s[1..]);
      assert s == [s[0]] + s[1..];
      assert Elements(s) == {s[0]} + Elements(s[1..]);
      if s[0] == s[1] then
        assert s[0] in Elements(s[1..]);
        r
      else
        assert Elements([s[0]] + r) == {s[0]} + Elements(r);
        [s[0]] + r
  }

  /** Dedup keeps an ordered list ordered and, for a total order, removes every repetition. */
  lemma {:induction false} DedupStrictlySorted<T>(s: seq<T>, le: (T, T) -> bool, dom: set<T>)
    requires TotalOrderOn(le, dom)
    requires forall k :: 0 <= k < |s| ==> s[k] in dom
    requires SortedBy(s, le)
    ensures StrictlySortedBy(Dedup(s), le)
    decreases |s|
  {
    if |s| > 1 {
      var tail := s[1..];
      SortedTail(s, le);
      DedupStrictlySorted(tail, le, dom);
      var rest := Dedup(tail);
      if s[0] != s[1] {
        assert Dedup(s) == [s[0]] + rest;
        ConsStrictlySorted(s[0], rest, Elements(tail), le) by {
          forall e | e in Elements(tail) ensures le(s[0], e) && s[0] != e {
            var k :| 0 <= k < |tail| && tail[k] == e;
            assert le(s[0], s[k + 1]);
          }
        }
      }
    }
  }

  /** Putting an element that strictly precedes every element of a strictly sorted
      list in front keeps it strictly sorted. */
  lemma ConsStrictlySorted<T>(x: T, s: seq<T>, elems: set<T>, le: (T, T) -> bool)
    requires StrictlySortedBy(s, le) && Elements(s) == elems
    requires forall e | e in elems :: le(x, e) && x != e
    ensures StrictlySortedBy([x] + s, le)
  {
    var r := [x] + s;
    forall i, j | 0 <= i < j < |r| ensures le(r[i], r[j]) && r[i] != r[j] {
      assert r[j] == s[j - 1];
      if i == 0 {
        assert s[j - 1] in Elements(s);
      } else {
        assert r[i] == s[i - 1];
      }
    }
  }

  /** The backend's `sort(); dedup();`: the distinct elements of `s` in ascending order. */
  function SortDedup<T(==)>(s: seq<T>, le: (T, T) -> bool): seq<T> {
    Dedup(Sort(s, le))
  }

  /** For a total order, `sort(); dedup();` yields a strictly ascending list holding
      exactly the elements of the input. */
  lemma SortDedupSpec<T>(s: seq<T>, le: (T, T) -> bool, dom: set<T>)
    requires TotalOrderOn(le, dom)
    requires forall k :: 0 <= k < |s| ==> s[k] in dom
    ensures StrictlySortedBy(SortDedup(s, le), le)
    ensures Elements(SortDedup(s, le)) == Elements(s)
  {
    var sorted := Sort(s, le);
    SortSorted(s, le, dom);
    forall k | 0 <= k < |sorted| ensures sorted[k] in dom {
      assert sorted[k] in multiset(s);
    }
    DedupStrictlySorted(sorted, le, dom);
    assert forall x :: x in sorted <==> x in multiset(sorted);
    assert forall x :: x in s <==> x in multiset(s);
  }

  // ---------------------------------------------------------------------------
  // the lexicographic order on strings

  /** Lexicographic order on code points: `a` is a prefix of `b`, or at the first
      difference `a`'s character is smaller. */
  predicate StrLe(a: string, b: string)
    decreases |a|
  {
    if |a| == 0 then true
    else if |b| == 0 then false
    else if a[0] != b[0] then a[0] < b[0]
    else StrLe(a[1..], b[1..])
  }

  lemma {:induction false} StrLeTotal(a: string, b: string)
    ensures StrLe(a, b) || StrLe(b, a)
    decreases |a|
  {
    if |a| > 0 && |b| > 0 && a[0] == b[0] {
      StrLeTotal(a[1..], b[1..]);
    }
  }

  lemma {:induction false} StrLeAntisymmetric(a: string, b: string)
    requires StrLe(a, b) && StrLe(b, a)
    ensures a == b
    decreases |a|
  {
    if |a| > 0 && |b| > 0 {
      StrLeAntisymmetric(a[1..], b[1..]);
      assert a == [a[0]] + a[1..] && b == [b[0]] + b[1..];
    }
  }

  lemma {:induction false} StrLeTransitive(a: string, b: string, c: string)
    requires StrLe(a, b) && StrLe(b, c)
    ensures StrLe(a, c)
    decreases |a|
  {
    if |a| > 0 && |b| > 0 && |c| > 0 && a[0] == b[0] && b[0] == c[0] {
      StrLeTransitive(a[1..], b[1..], c[1..]);
    }
  }

  /** The lexicographic order is a total order on every set of strings. */
  lemma StrLeTotalOrder(dom: set<string>)
    ensures TotalOrderOn(StrLe, dom)
  {
    forall a, b | a in dom && b in dom ensures StrLe(a, b) || StrLe(b, a) {
      StrLeTotal(a, b);
    }
    forall a, b, c | a in dom && b in dom && c in dom && StrLe(a, b) && StrLe(b, c)
      ensures StrLe(a, c)
    {
      StrLeTransitive(a, b, c);
    }
    forall a, b | a in dom && b in dom && StrLe(a, b) && StrLe(b, a) ensures a == b {
      StrLeAntisymmetric(a, b);
    }
  }

  /** The numeric order on natural numbers, as a value usable for `le`. */
  predicate NatLe(a: nat, b: nat) {
    a <= b
  }

  lemma NatLeTotalOrder(dom: set<nat>)
    ensures TotalOrderOn(NatLe, dom)
  {
  }
}
