/** `list.sort(key=..., reverse=...)` as the task manager uses it: every key
    is computed first, then the list is put in key order, equal keys keeping
    their original order whichever the direction. The keys are the three
    kinds the task manager computes: a priority rank, a calendar date and a
    lower-cased string. */
module Sorting {
  import opened Text

  /** A sort key; a list is only ever sorted by keys of one kind. */
  datatype Key = Rank(n: int) | Stamp(year: int, month: int, day: int) | Chars(s: string)

  function Kind(k: Key): nat {
    match k
    case Rank(_) => 0
    case Stamp(_, _, _) => 1
    case Chars(_) => 2
  }

  /** Python's `<` on the keys: on ints, on dates (year, then month, then
      day) and on strings (code point by code point). Keys of different
      kinds never meet in one sort; they are ordered by kind to keep the
      order total. */
  predicate KeyLess(a: Key, b: Key) {
    if Kind(a) != Kind(b) then Kind(a) < Kind(b)
    else match a
      case Rank(n) => n < b.n
      case Stamp(y, m, d) =>
        || y < b.year
        || (y == b.year && m < b.month)
        || (y == b.year && m == b.month && d < b.day)
      case Chars(s) => LexLess(s, b.s)
  }

  lemma KeyIrreflexive(a: Key)
    ensures !KeyLess(a, a)
  {
    if a.Chars? {
      LexIrreflexive(a.s);
    }
  }

  lemma KeyTransitive(a: Key, b: Key, c: Key)
    requires KeyLess(a, b) && KeyLess(b, c)
    ensures KeyLess(a, c)
  {
    if a.Chars? && b.Chars? && c.Chars? {
      LexTransitive(a.s, b.s, c.s);
    }
  }

  lemma KeyTotal(a: Key, b: Key)
    ensures a == b || KeyLess(a, b) || KeyLess(b, a)
  {
    if a.Chars? && b.Chars? && a.s != b.s {
      LexTotal(a.s, b.s);
    }
  }

  /** A list element with the key computed for it. */
  datatype Keyed<T> = Keyed(key: Key, item: T)

  /** `a` goes strictly before `b` in the requested direction. */
  predicate Before(a: Key, b: Key, reverse: bool) {
    if reverse then KeyLess(b, a) else KeyLess(a, b)
  }

  lemma BeforeAsymmetric(a: Key, b: Key, reverse: bool)
    requires Before(a, b, reverse)
    ensures !Before(b, a, reverse) && a != b
  {
    KeyIrreflexive(a);
    if Before(b, a, reverse) {
      if reverse {
        KeyTransitive(a, b, a);
      } else {
        KeyTransitive(a, b, a);
      }
    }
  }

  lemma BeforeTransitive(a: Key, b: Key, c: Key, reverse: bool)
    requires !Before(b, a, reverse) && !Before(c, b, reverse)
    ensures !Before(c, a, reverse)
  {
    KeyTotal(a, b);
    KeyTotal(b, c);
    if Before(c, a, reverse) {
      if reverse {
        if a != b {
          KeyTransitive(b, a, c);
        }
      } else {
        if a != b {
          KeyTransitive(c, a, b);
        }
      }
    }
  }

  /** No element is strictly before an element that precedes it. */
  predicate Sorted<T>(s: seq<Keyed<T>>, reverse: bool) {
    forall i, j :: 0 <= i < j < |s| ==> !Before(s[j].key, s[i].key, reverse)
  }

  /** No element of `s` goes strictly before `k`. */
  predicate NoneBefore<T>(k: Key, s: seq<Keyed<T>>, reverse: bool) {
    forall i :: 0 <= i < |s| ==> !Before(s[i].key, k, reverse)
  }

  /** The items of `s` whose key is `k`, in the order of `s`. */
  function WithKey<T>(s: seq<Keyed<T>>, k: Key): (r: seq<T>)
    ensures |r| <= |s|
  {
    if |s| == 0 then []
    else if s[0].key == k then [s[0].item] + WithKey(s[1..], k)
    else WithKey(s[1..], k)
  }

  /** Every group of equal keys is the same in both lists, in the same order:
      `r` is a stable rearrangement of `s`. */
  ghost predicate SameGroups<T>(r: seq<Keyed<T>>, s: seq<Keyed<T>>) {
    forall k :: WithKey(r, k) == WithKey(s, k)
  }

  /** Puts `x` in front of the first element of `s` it does not follow. */
  function Insert<T>(x: Keyed<T>, s: seq<Keyed<T>>, reverse: bool): (r: seq<Keyed<T>>)
    ensures |r| == |s| + 1
    ensures multiset(r) == multiset(s) + multiset{x}
    ensures forall k :: WithKey(r, k) == if x.key == k then [x.item] + WithKey(s, k) else WithKey(s, k)
  {
    if |s| == 0 then [x]
    else if Before(s[0].key, x.key, reverse) then
      assert s == [s[0]] + s[1..];
      BeforeAsymmetric(s[0].key, x.key, reverse);
      [s[0]] + Insert(x, s[1..], reverse)
    else [x] + s
  }

  /** Inserting a key that `k` does not follow keeps everything at or after `k`. */
  lemma {:induction false} InsertNoneBefore<T>(k: Key, x: Keyed<T>, s: seq<Keyed<T>>, reverse: bool)
    requires NoneBefore(k, s, reverse) && !Before(x.key, k, reverse)
    ensures NoneBefore(k, Insert(x, s, reverse), reverse)
  {
    if |s| > 0 && Before(s[0].key, x.key, reverse) {
      InsertNoneBefore(k, x, s[1..], reverse);
    }
  }

  /** Inserting into a sorted list gives a sorted list. */
  lemma {:induction false} InsertSorted<T>(x: Keyed<T>, s: seq<Keyed<T>>, reverse: bool)
    requires Sorted(s, reverse)
    ensures Sorted(Insert(x, s, reverse), reverse)
  {
    if |s| == 0 {
    } else if Before(s[0].key, x.key, reverse) {
      var tail := s[1..];
      InsertSorted(x, tail, reverse);
      BeforeAsymmetric(s[0].key, x.key, reverse);
      InsertNoneBefore(s[0].key, x, tail, reverse);
      var r := Insert(x, s, reverse);
      assert r == [s[0]] + Insert(x, tail, reverse);
    } else {
      forall j | 0 <= j < |s|
        ensures !Before(s[j].key, x.key, reverse)
      {
        if j > 0 {
          BeforeTransitive(x.key, s[0].key, s[j].key, reverse);
        }
      }
    }
  }

  /** Insertion sort, which orders equal keys as `list.sort` does. */
  function Sort<T>(s: seq<Keyed<T>>, reverse: bool): (r: seq<Keyed<T>>)
    ensures |r| == |s|
    ensures multiset(r) == multiset(s)
    ensures Sorted(r, reverse)
    ensures SameGroups(r, s)
  {
    if |s| == 0 then []
    else
      assert s == [s[0]] + s[1..];
      InsertSorted(s[0], Sort(s[1..], reverse), reverse);
      Insert(s[0], Sort(s[1..], reverse), reverse)
  }

  /** A key with a non-empty group occurs in the list. */
  lemma {:induction false} GroupMember<T>(s: seq<Keyed<T>>, k: Key) returns (i: nat)
    requires |WithKey(s, k)| > 0
    ensures i < |s| && s[i].key == k
  {
    if s[0].key != k {
      var j := GroupMember(s[1..], k);
      i := j + 1;
    } else {
      i := 0;
    }
  }

  /** The first element heads the group of its key. */
  lemma FirstInGroup<T>(s: seq<Keyed<T>>)
    requires |s| > 0
    ensures WithKey(s, s[0].key) == [s[0].item] + WithKey(s[1..], s[0].key)
  {
  }

  /** Two sorted lists with the same groups of equal keys are equal. */
  lemma {:induction false} SortedGroupsEqual<T>(a: seq<Keyed<T>>, b: seq<Keyed<T>>, reverse: bool)
    requires Sorted(a, reverse) && Sorted(b, reverse) && SameGroups(a, b)
    ensures a == b
    decreases |a|
  {
    if |a| > 0 {
      FirstInGroup(a);
    }
    if |b| > 0 {
      FirstInGroup(b);
    }
    if |a| == 0 || |b| == 0 {
    } else {
      var ka, kb := a[0].key, b[0].key;
      assert |WithKey(a, kb)| > 0 by {
        assert WithKey(a, kb) == WithKey(b, kb);
      }
      var i := GroupMember(a, kb);
      assert |WithKey(b, ka)| > 0 by {
        assert WithKey(b, ka) == WithKey(a, ka);
      }
      var j := GroupMember(b, ka);
      assert !Before(kb, ka, reverse) && !Before(ka, kb, reverse) by {
        KeyIrreflexive(ka);
        KeyIrreflexive(kb);
        if i > 0 {
          assert !Before(a[i].key, a[0].key, reverse);
        }
        if j > 0 {
          assert !Before(b[j].key, b[0].key, reverse);
        }
      }
      KeyTotal(ka, kb);
      assert ka == kb;
      assert a[0].item == b[0].item by {
        assert WithKey(a, ka)[0] == a[0].item;
        assert WithKey(b, ka)[0] == b[0].item;
        assert WithKey(a, ka) == WithKey(b, ka);
      }
      forall k
        ensures WithKey(a[1..], k) == WithKey(b[1..], k)
      {
        var wa, wb := WithKey(a, k), WithKey(b, k);
        assert wa == wb;
        if k == ka {
          assert wa[1..] == WithKey(a[1..], k);
          assert wb[1..] == WithKey(b[1..], k);
        }
      }
      SortedGroupsEqual(a[1..], b[1..], reverse);
      assert a == [a[0]] + a[1..] && b == [b[0]] + b[1..];
    }
  }

  /** `Sort` is the only stable sort: any list in key order whose groups of
      equal keys are those of `s`, in the order of `s`, is `Sort(s)`. */
  lemma SortUnique<T>(r: seq<Keyed<T>>, s: seq<Keyed<T>>, reverse: bool)
    requires Sorted(r, reverse) && SameGroups(r, s)
    ensures r == Sort(s, reverse)
  {
    var t := Sort(s, reverse);
    assert SameGroups(r, t);
    SortedGroupsEqual(r, t, reverse);
  }

  /** Ranks 2, 0, 1 in ascending order: the rank-2 element goes last. */
  lemma SortRanksExample<T>(x: Keyed<T>, y: Keyed<T>, z: Keyed<T>)
    requires x.key == Rank(2) && y.key == Rank(0) && z.key == Rank(1)
    ensures Sort([x, y, z], false) == [y, z, x]
  {
    assert [x, y, z][1..] == [y, z];
    assert [y, z][1..] == [z];
    assert Sort([z], false) == [z];
    assert Sort([y, z], false) == [y, z];
    InsertLowAfter(x, y, z);
  }

  lemma InsertLowAfter<T>(x: Keyed<T>, y: Keyed<T>, z: Keyed<T>)
    requires x.key == Rank(2) && y.key == Rank(0) && z.key == Rank(1)
    ensures Insert(x, [y, z], false) == [y, z, x]
  {
    assert [y, z][1..] == [z];
    assert Insert(x, [z], false) == [z, x];
  }
}
