/** `sort` followed by `dedup`, as a value function: the library calls `expand` and the feed parser end with. */
module Sorting {

  ghost predicate SortedBy<T(!new)>(s: seq<T>, key: T -> int) {
    forall i, j :: 0 <= i < j < |s| ==> key(s[i]) <= key(s[j])
  }

  ghost predicate StrictlySortedBy<T(!new)>(s: seq<T>, key: T -> int) {
    forall i, j :: 0 <= i < j < |s| ==> key(s[i]) < key(s[j])
  }

  ghost predicate Injective<T(!new)>(s: seq<T>, key: T -> int) {
    forall x, y :: x in s && y in s && key(x) == key(y) ==> x == y
  }

  function Insert<T>(x: T, s: seq<T>, key: T -> int): seq<T> {
    if s == [] || key(x) <= key(s[0]) then [x] + s else [s[0]] + Insert(x, s[1..], key)
  }

  function Sort<T>(s: seq<T>, key: T -> int): seq<T> {
    if s == [] then [] else Insert(s[0], Sort(s[1..], key), key)
  }

  function Dedup<T(==)>(s: seq<T>): seq<T> {
    if |s| <= 1 then s
    else if s[0] == s[1] then Dedup(s[1..])
    else [s[0]] + Dedup(s[1..])
  }

  lemma {:induction false} InsertSorted<T(!new)>(x: T, s: seq<T>, key: T -> int)
    requires SortedBy(s, key)
    ensures SortedBy(Insert(x, s, key), key)
    ensures forall y :: y in Insert(x, s, key) <==> y == x || y in s
  {
    if s != [] && key(x) > key(s[0]) {
      var t := Insert(x, s[1..], key);
      InsertSorted(x, s[1..], key);
      assert s == [s[0]] + s[1..];
      assert Insert(x, s, key) == [s[0]] + t;
      forall i, j | 0 <= i < j < |[s[0]] + t| ensures key(([s[0]] + t)[i]) <= key(([s[0]] + t)[j]) {
        assert t[j - 1] in t;
      }
    }
  }

  lemma {:induction false} SortSorted<T(!new)>(s: seq<T>, key: T -> int)
    ensures SortedBy(Sort(s, key), key)
    ensures forall y :: y in Sort(s, key) <==> y in s
  {
    if s != [] {
      SortSorted(s[1..], key);
      InsertSorted(s[0], Sort(s[1..], key), key);
      assert s == [s[0]] + s[1..];
    }
  }

  lemma {:induction false} DedupMembers<T(!new)>(s: seq<T>)
    ensures forall y :: y in Dedup(s) <==> y in s
    ensures s != [] ==> Dedup(s) != [] && Dedup(s)[0] == s[0]
  {
    if |s| >= 2 {
      DedupMembers(s[1..]);
      assert s == [s[0]] + s[1..];
    }
  }

  lemma {:induction false} DedupStrict<T(!new)>(s: seq<T>, key: T -> int)
    requires SortedBy(s, key) && Injective(s, key)
    ensures StrictlySortedBy(Dedup(s), key)
  {
    if |s| >= 2 {
      var t := s[1..];
      DedupStrict(t, key);
      if s[0] != s[1] {
        DedupMembers(t);
        assert s[0] in s && s[1] in s && key(s[0]) < key(t[0]);
        forall y | y in t ensures key(s[0]) < key(y) {
          var k :| 0 <= k < |t| && t[k] == y;
        }
        PrependStrict(s[0], Dedup(t), key);
      }
    }
  }

  lemma PrependStrict<T(!new)>(x: T, s: seq<T>, key: T -> int)
    requires StrictlySortedBy(s, key)
    requires forall y :: y in s ==> key(x) < key(y)
    ensures StrictlySortedBy([x] + s, key)
  {
  }

  /** Sorting and deduplicating keeps the members and leaves them strictly increasing. */
  lemma SortDedup<T(!new)>(s: seq<T>, key: T -> int)
    requires Injective(s, key)
    ensures StrictlySortedBy(Dedup(Sort(s, key)), key)
    ensures forall y :: y in Dedup(Sort(s, key)) <==> y in s
  {
    SortSorted(s, key);
    DedupStrict(Sort(s, key), key);
    DedupMembers(Sort(s, key));
  }
}
