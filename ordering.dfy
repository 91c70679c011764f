/**
 * The order an account statement is sorted in, and JavaScript's `Array.prototype.sort`
 * with that comparator. The sort is stable, so it is modelled as an insertion sort that
 * puts each element in front of the first element it does not sort after.
 */
module Ordering {
  import opened Text

  /** What a statement row is ordered by: its `txn_date`, then its `created_at`
      (a missing `created_at` is read as ""). */
  datatype SortKey = SortKey(date: string, created: string)

  datatype Direction = Ascending | Descending

  /** The comparator handed to `sort`: negative when `a` goes first, positive when `b`
      goes first, zero for a tie. Dates are compared first; only equal dates fall
      through to the creation stamps. */
  function KeyCompare(a: SortKey, b: SortKey, dir: Direction): int {
    match dir
    case Ascending =>
      if a.date != b.date then OrdinalCompare(a.date, b.date) else OrdinalCompare(a.created, b.created)
    case Descending =>
      if a.date != b.date then OrdinalCompare(b.date, a.date) else OrdinalCompare(b.created, a.created)
  }

  /** The comparator reports a tie exactly for equal keys. */
  lemma KeyCompareTie(a: SortKey, b: SortKey, dir: Direction)
    ensures KeyCompare(a, b, dir) == 0 <==> a == b
  {
  }

  /** Swapping the operands negates the comparator. */
  lemma KeyCompareFlip(a: SortKey, b: SortKey, dir: Direction)
    ensures KeyCompare(b, a, dir) == -KeyCompare(a, b, dir)
  {
    OrdinalCompareFlip(a.date, b.date);
    OrdinalCompareFlip(a.created, b.created);
  }

  /** "Goes no later than" is transitive, so the comparator is consistent. */
  lemma KeyCompareTransitive(a: SortKey, b: SortKey, c: SortKey, dir: Direction)
    requires KeyCompare(a, b, dir) <= 0 && KeyCompare(b, c, dir) <= 0
    ensures KeyCompare(a, c, dir) <= 0
  {
    if dir == Ascending {
      AscendingTransitive(a, b, c);
    } else {
      AscendingTransitive(c, b, a);
    }
  }

  lemma AscendingTransitive(a: SortKey, b: SortKey, c: SortKey)
    requires KeyCompare(a, b, Ascending) <= 0 && KeyCompare(b, c, Ascending) <= 0
    ensures KeyCompare(a, c, Ascending) <= 0
  {
    OrdinalCompareTransitive(a.date, b.date, c.date);
    if a.date == c.date {
      OrdinalCompareFlip(a.date, b.date);
      OrdinalCompareTransitive(a.created, b.created, c.created);
    }
  }

  /** No element goes strictly before an element on its left. */
  ghost predicate SortedBy<T>(s: seq<T>, key: T -> SortKey, dir: Direction) {
    forall i, j :: 0 <= i < j < |s| ==> KeyCompare(key(s[i]), key(s[j]), dir) <= 0
  }

  /** The elements of `s` whose key is `k`, in their order in `s`. */
  function WithKey<T>(s: seq<T>, key: T -> SortKey, k: SortKey): seq<T> {
    if s == [] then []
    else (if key(s[0]) == k then [s[0]] else []) + WithKey(s[1..], key, k)
  }

  /** Places `x` in front of the first element of `s` it does not sort after. */
  function Insert<T>(x: T, s: seq<T>, key: T -> SortKey, dir: Direction): (r: seq<T>)
    ensures |r| == |s| + 1
  {
    if s == [] then [x]
    else if KeyCompare(key(x), key(s[0]), dir) <= 0 then [x] + s
    else [s[0]] + Insert(x, s[1..], key, dir)
  }

  lemma {:induction false} InsertKeepsElements<T>(x: T, s: seq<T>, key: T -> SortKey, dir: Direction)
    ensures multiset(Insert(x, s, key, dir)) == multiset(s) + multiset{x}
  {
    if s != [] && 0 < KeyCompare(key(x), key(s[0]), dir) {
      var rest := Insert(x, s[1..], key, dir);
      InsertKeepsElements(x, s[1..], key, dir);
      assert Insert(x, s, key, dir) == [s[0]] + rest;
      assert multiset([s[0]] + rest) == multiset{s[0]} + multiset(rest);
      assert multiset(s) == multiset{s[0]} + multiset(s[1..]) by {
        assert s == [s[0]] + s[1..];
      }
    }
  }

  /** `x` lands in front of every element it ties with. */
  lemma {:induction false} InsertKeepsTies<T>(x: T, s: seq<T>, key: T -> SortKey, dir: Direction, k: SortKey)
    ensures WithKey(Insert(x, s, key, dir), key, k) == (if key(x) == k then [x] else []) + WithKey(s, key, k)
  {
    var r := Insert(x, s, key, dir);
    if s == [] {
    } else if KeyCompare(key(x), key(s[0]), dir) <= 0 {
      assert r[1..] == s;
    } else {
      KeyCompareTie(key(x), key(s[0]), dir);
      InsertKeepsTies(x, s[1..], key, dir, k);
      assert r[1..] == Insert(x, s[1..], key, dir);
    }
  }

  lemma {:induction false} InsertKeepsOrder<T>(x: T, s: seq<T>, key: T -> SortKey, dir: Direction)
    requires SortedBy(s, key, dir)
    ensures SortedBy(Insert(x, s, key, dir), key, dir)
  {
    if s == [] {
    } else if KeyCompare(key(x), key(s[0]), dir) <= 0 {
      InsertInFront(x, s, key, dir);
    } else {
      SortedTail(s, key, dir);
      InsertKeepsOrder(x, s[1..], key, dir);
      InsertBehind(x, s, key, dir);
    }
  }

  /** An element that goes no later than the head of a sorted list can go in front. */
  lemma InsertInFront<T>(x: T, s: seq<T>, key: T -> SortKey, dir: Direction)
    requires SortedBy(s, key, dir) && s != [] && KeyCompare(key(x), key(s[0]), dir) <= 0
    ensures SortedBy([x] + s, key, dir)
  {
    forall j | 0 <= j < |s| ensures KeyCompare(key(x), key(s[j]), dir) <= 0 {
      if 0 < j {
        KeyCompareTransitive(key(x), key(s[0]), key(s[j]), dir);
      }
    }
    SortedCons(x, s, key, dir);
  }

  /** Every element of `s` goes no earlier than key `h`. */
  ghost predicate AllAfter<T>(h: SortKey, s: seq<T>, key: T -> SortKey, dir: Direction) {
    forall j :: 0 <= j < |s| ==> KeyCompare(h, key(s[j]), dir) <= 0
  }

  /** A sorted list stays sorted behind an element that goes no later than any of it. */
  lemma SortedCons<T>(h: T, s: seq<T>, key: T -> SortKey, dir: Direction)
    requires SortedBy(s, key, dir) && AllAfter(key(h), s, key, dir)
    ensures SortedBy([h] + s, key, dir)
  {
    var r := [h] + s;
    forall i, j | 0 <= i < j < |r| ensures KeyCompare(key(r[i]), key(r[j]), dir) <= 0 {
      assert r[j] == s[j - 1];
      if 0 < i {
        assert r[i] == s[i - 1];
      }
    }
  }

  lemma {:induction false} InsertAllAfter<T>(h: SortKey, x: T, s: seq<T>, key: T -> SortKey, dir: Direction)
    requires AllAfter(h, s, key, dir) && KeyCompare(h, key(x), dir) <= 0
    ensures AllAfter(h, Insert(x, s, key, dir), key, dir)
  {
    if s != [] && 0 < KeyCompare(key(x), key(s[0]), dir) {
      AllAfterTail(h, s, key, dir);
      InsertAllAfter(h, x, s[1..], key, dir);
    }
  }

  lemma AllAfterTail<T>(h: SortKey, s: seq<T>, key: T -> SortKey, dir: Direction)
    requires AllAfter(h, s, key, dir) && s != []
    ensures AllAfter(h, s[1..], key, dir)
  {
    forall j | 0 <= j < |s| - 1 ensures KeyCompare(h, key(s[1..][j]), dir) <= 0 {
      assert s[1..][j] == s[j + 1];
    }
  }

  /** An element that goes strictly after the head of a sorted list is inserted
      behind it, and the head still goes no later than anything in the rest. */
  lemma InsertBehind<T>(x: T, s: seq<T>, key: T -> SortKey, dir: Direction)
    requires SortedBy(s, key, dir) && s != [] && 0 < KeyCompare(key(x), key(s[0]), dir)
    requires SortedBy(Insert(x, s[1..], key, dir), key, dir)
    ensures SortedBy(Insert(x, s, key, dir), key, dir)
  {
    KeyCompareFlip(key(x), key(s[0]), dir);
    assert AllAfter(key(s[0]), s, key, dir);
    AllAfterTail(key(s[0]), s, key, dir);
    InsertAllAfter(key(s[0]), x, s[1..], key, dir);
    SortedCons(s[0], Insert(x, s[1..], key, dir), key, dir);
    assert Insert(x, s, key, dir) == [s[0]] + Insert(x, s[1..], key, dir);
  }

  /** `[...s].sort(comparator)`: a stable sort of `s` by `key` in direction `dir`. The
      result is ordered, holds the same elements, and every run of tied elements keeps
      the order it had in `s`. */
  function SortBy<T>(s: seq<T>, key: T -> SortKey, dir: Direction): (r: seq<T>)
    ensures |r| == |s| && multiset(r) == multiset(s)
    ensures SortedBy(r, key, dir)
    ensures forall k :: WithKey(r, key, k) == WithKey(s, key, k)
  {
    if s == [] then []
    else
      var rest := SortBy(s[1..], key, dir);
      InsertKeepsElements(s[0], rest, key, dir);
      InsertKeepsOrder(s[0], rest, key, dir);
      assert forall k :: WithKey(Insert(s[0], rest, key, dir), key, k) == WithKey(s, key, k) by {
        forall k { InsertKeepsTies(s[0], rest, key, dir, k); }
      }
      assert s == [s[0]] + s[1..];
      Insert(s[0], rest, key, dir)
  }

  /** No two elements of `s` share a key. */
  ghost predicate DistinctKeys<T>(s: seq<T>, key: T -> SortKey) {
    forall i, j :: 0 <= i < j < |s| ==> key(s[i]) != key(s[j])
  }

  lemma SortedTail<T>(s: seq<T>, key: T -> SortKey, dir: Direction)
    requires SortedBy(s, key, dir) && s != []
    ensures SortedBy(s[1..], key, dir)
  {
    forall i, j | 0 <= i < j < |s| - 1 ensures KeyCompare(key(s[1..][i]), key(s[1..][j]), dir) <= 0 {
      assert s[1..][i] == s[i + 1] && s[1..][j] == s[j + 1];
    }
  }

  lemma DistinctTail<T>(s: seq<T>, key: T -> SortKey)
    requires DistinctKeys(s, key) && s != []
    ensures DistinctKeys(s[1..], key)
  {
    forall i, j | 0 <= i < j < |s| - 1 ensures key(s[1..][i]) != key(s[1..][j]) {
      assert s[1..][i] == s[i + 1] && s[1..][j] == s[j + 1];
    }
  }

  /** Two sorted arrangements of the same elements with distinct keys start alike. */
  lemma SortedHeadsAgree<T>(a: seq<T>, b: seq<T>, key: T -> SortKey, dir: Direction)
    requires multiset(a) == multiset(b) && DistinctKeys(a, key) && a != []
    requires SortedBy(a, key, dir) && SortedBy(b, key, dir)
    ensures b != [] && a[0] == b[0]
  {
    assert a[0] in multiset(b) && b[0] in multiset(a);
    var i :| 0 <= i < |a| && a[i] == b[0];
    var j :| 0 <= j < |b| && b[j] == a[0];
    KeyCompareFlip(key(a[0]), key(a[i]), dir);
    KeyCompareTie(key(a[0]), key(a[i]), dir);
  }

  /** Over elements with distinct keys there is only one sorted order. */
  lemma {:induction false} SortedUnique<T>(a: seq<T>, b: seq<T>, key: T -> SortKey, dir: Direction)
    requires multiset(a) == multiset(b) && DistinctKeys(a, key)
    requires SortedBy(a, key, dir) && SortedBy(b, key, dir)
    ensures a == b
  {
    if a == [] {
      assert |b| == |multiset(b)| == 0;
    } else {
      SortedHeadsAgree(a, b, key, dir);
      assert a == [a[0]] + a[1..] && b == [b[0]] + b[1..];
      assert multiset(a) == multiset{a[0]} + multiset(a[1..]);
      assert multiset(b) == multiset{a[0]} + multiset(b[1..]);
      assert multiset(a[1..]) == multiset(a) - multiset{a[0]};
      assert multiset(b[1..]) == multiset(b) - multiset{a[0]};
      SortedTail(a, key, dir);
      SortedTail(b, key, dir);
      DistinctTail(a, key);
      SortedUnique(a[1..], b[1..], key, dir);
    }
  }

  /** `s` back to front. */
  function Reversed<T>(s: seq<T>): (r: seq<T>)
    ensures |r| == |s| && forall k :: 0 <= k < |s| ==> r[k] == s[|s| - 1 - k]
  {
    if s == [] then [] else [s[|s| - 1]] + Reversed(s[..|s| - 1])
  }

  lemma {:induction false} ReversedKeepsElements<T>(s: seq<T>)
    ensures multiset(Reversed(s)) == multiset(s)
  {
    if s != [] {
      var init, last := s[..|s| - 1], s[|s| - 1];
      ReversedKeepsElements(init);
      assert Reversed(s) == [last] + Reversed(init);
      assert multiset([last] + Reversed(init)) == multiset{last} + multiset(Reversed(init));
      assert s == init + [last];
      assert multiset(init + [last]) == multiset(init) + multiset{last};
    }
  }

  /** When no two elements tie, sorting in the opposite direction reverses a sorted list. */
  lemma OppositeSortReverses<T>(s: seq<T>, key: T -> SortKey)
    requires SortedBy(s, key, Ascending) && DistinctKeys(s, key)
    ensures SortBy(s, key, Descending) == Reversed(s)
  {
    var r := Reversed(s);
    ReversedKeepsElements(s);
    forall i, j | 0 <= i < j < |r| ensures KeyCompare(key(r[i]), key(r[j]), Descending) <= 0 {
      assert r[i] == s[|s| - 1 - i] && r[j] == s[|s| - 1 - j];
    }
    forall i, j | 0 <= i < j < |r| ensures key(r[i]) != key(r[j]) {
      assert r[i] == s[|s| - 1 - i] && r[j] == s[|s| - 1 - j];
    }
    SortedUnique(r, SortBy(s, key, Descending), key, Descending);
  }
}
