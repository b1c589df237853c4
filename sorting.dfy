/** The stable ordering behind LINQ's `OrderBy`, `OrderByDescending` and `ThenBy`, as
  * used by the study screen and the flashcard manager. A sort key is a pair compared
  * lexicographically; a descending order negates its component. */
module Sorting {

  datatype Key = Key(major: int, minor: int)

  predicate KeyLe(a: Key, b: Key)
  {
    a.major < b.major || (a.major == b.major && a.minor <= b.minor)
  }

  predicate KeyLt(a: Key, b: Key)
  {
    !KeyLe(b, a)
  }

  predicate SortedBy<T>(s: seq<T>, key: T -> Key)
  {
    forall i, j :: 0 <= i < j < |s| ==> KeyLe(key(s[i]), key(s[j]))
  }

  /** The elements of `s` whose key is `k`, in their order in `s`. */
  function WithKey<T>(s: seq<T>, key: T -> Key, k: Key): seq<T>
  {
    if s == [] then [] else (if key(s[0]) == k then [s[0]] else []) + WithKey(s[1..], key, k)
  }

  /** Places `x` after every element whose key is not greater than its own. */
  function Insert<T>(x: T, s: seq<T>, key: T -> Key): seq<T>
  {
    if s == [] then [x]
    else if KeyLt(key(x), key(s[0])) then [x] + s
    else [s[0]] + Insert(x, s[1..], key)
  }

  /** Insertion sort over the input from left to right. */
  function SortBy<T>(s: seq<T>, key: T -> Key): seq<T>
    decreases |s|
  {
    if s == [] then [] else Insert(s[|s| - 1], SortBy(s[..|s| - 1], key), key)
  }

  lemma {:induction false} InsertPermutes<T>(x: T, s: seq<T>, key: T -> Key)
    ensures multiset(Insert(x, s, key)) == multiset(s) + multiset{x}
    decreases |s|
  {
    if s != [] && !KeyLt(key(x), key(s[0])) {
      InsertPermutes(x, s[1..], key);
      assert s == [s[0]] + s[1..];
    }
  }

  lemma {:induction false} InsertSorted<T>(x: T, s: seq<T>, key: T -> Key)
    requires SortedBy(s, key)
    ensures SortedBy(Insert(x, s, key), key)
    decreases |s|
  {
    if s == [] {
    } else if KeyLt(key(x), key(s[0])) {
      var r := [x] + s;
      forall i, j | 0 <= i < j < |r| ensures KeyLe(key(r[i]), key(r[j])) {
        if i > 0 {
          assert r[i] == s[i - 1] && r[j] == s[j - 1];
        } else {
          assert r[j] == s[j - 1];
          assert KeyLe(key(s[0]), key(s[j - 1]));
        }
      }
    } else {
      InsertSorted(x, s[1..], key);
      InsertPermutes(x, s[1..], key);
      InsertBehindHead(x, s, key);
    }
  }

  /** Inserting behind the head of a sorted list keeps it sorted, given that the insertion
    * into the tail does. */
  lemma InsertBehindHead<T>(x: T, s: seq<T>, key: T -> Key)
    requires SortedBy(s, key) && s != [] && !KeyLt(key(x), key(s[0]))
    requires SortedBy(Insert(x, s[1..], key), key)
    requires multiset(Insert(x, s[1..], key)) == multiset(s[1..]) + multiset{x}
    ensures SortedBy([s[0]] + Insert(x, s[1..], key), key)
  {
    var t := s[1..];
    var r := Insert(x, t, key);
    var all := [s[0]] + r;
    forall i, j | 0 <= i < j < |all| ensures KeyLe(key(all[i]), key(all[j])) {
      if i == 0 {
        var y := r[j - 1];
        assert y in multiset(r);
        assert y == x || y in multiset(t);
        if y != x {
          var m :| 0 <= m < |t| && t[m] == y;
          assert s[m + 1] == y;
        }
      } else {
        assert all[i] == r[i - 1] && all[j] == r[j - 1];
      }
    }
  }

  lemma {:induction false} WithKeyAppend<T>(a: seq<T>, b: seq<T>, key: T -> Key, k: Key)
    ensures WithKey(a + b, key, k) == WithKey(a, key, k) + WithKey(b, key, k)
    decreases |a|
  {
    if a == [] {
      assert a + b == b;
    } else {
      assert (a + b)[0] == a[0];
      assert (a + b)[1..] == a[1..] + b;
      WithKeyAppend(a[1..], b, key, k);
    }
  }

  lemma {:induction false} WithKeyNone<T>(s: seq<T>, key: T -> Key, k: Key)
    requires forall i :: 0 <= i < |s| ==> key(s[i]) != k
    ensures WithKey(s, key, k) == []
    decreases |s|
  {
    if s != [] {
      WithKeyNone(s[1..], key, k);
    }
  }

  /** In a sorted list, an inserted element lands after every element that shares its key. */
  lemma {:induction false} WithKeyInsert<T>(x: T, s: seq<T>, key: T -> Key, k: Key)
    requires SortedBy(s, key)
    ensures WithKey(Insert(x, s, key), key, k) == WithKey(s, key, k) + (if key(x) == k then [x] else [])
    decreases |s|
  {
    if s == [] {
    } else if KeyLt(key(x), key(s[0])) {
      WithKeyInsertFront(x, s, key, k);
    } else {
      SortedTail(s, key);
      WithKeyInsert(x, s[1..], key, k);
      WithKeyInsertBehind(x, s, key, k);
    }
  }

  /** An element inserted in front has a key below every key of the sorted list. */
  lemma WithKeyInsertFront<T>(x: T, s: seq<T>, key: T -> Key, k: Key)
    requires SortedBy(s, key) && s != [] && KeyLt(key(x), key(s[0]))
    ensures WithKey(Insert(x, s, key), key, k) == WithKey(s, key, k) + (if key(x) == k then [x] else [])
  {
    if key(x) == k {
      forall i | 0 <= i < |s| ensures key(s[i]) != k {
        if i > 0 {
          assert KeyLe(key(s[0]), key(s[i]));
        }
      }
      WithKeyNone(s, key, k);
    }
    assert ([x] + s)[0] == x && ([x] + s)[1..] == s;
  }

  lemma WithKeyInsertBehind<T>(x: T, s: seq<T>, key: T -> Key, k: Key)
    requires s != [] && !KeyLt(key(x), key(s[0]))
    requires WithKey(Insert(x, s[1..], key), key, k) == WithKey(s[1..], key, k) + (if key(x) == k then [x] else [])
    ensures WithKey(Insert(x, s, key), key, k) == WithKey(s, key, k) + (if key(x) == k then [x] else [])
  {
    var tail := Insert(x, s[1..], key);
    var r := [s[0]] + tail;
    var head := if key(s[0]) == k then [s[0]] else [];
    var added := if key(x) == k then [x] else [];
    assert Insert(x, s, key) == r;
    assert r[0] == s[0] && r[1..] == tail;
    assert WithKey(r, key, k) == head + WithKey(tail, key, k);
    assert WithKey(s, key, k) == head + WithKey(s[1..], key, k);
    assert head + (WithKey(s[1..], key, k) + added) == (head + WithKey(s[1..], key, k)) + added;
  }

  lemma SortedTail<T>(s: seq<T>, key: T -> Key)
    requires SortedBy(s, key) && s != []
    ensures SortedBy(s[1..], key)
  {
    forall i, j | 0 <= i < j < |s| - 1 ensures KeyLe(key(s[1..][i]), key(s[1..][j])) {
      assert s[1..][i] == s[i + 1] && s[1..][j] == s[j + 1];
    }
  }

  /** The result of `SortBy` is ordered by the key and is a permutation of the input. */
  lemma {:induction false} SortByOrders<T>(s: seq<T>, key: T -> Key)
    ensures SortedBy(SortBy(s, key), key)
    ensures multiset(SortBy(s, key)) == multiset(s)
    decreases |s|
  {
    if s != [] {
      var init := s[..|s| - 1];
      SortByOrders(init, key);
      InsertSorted(s[|s| - 1], SortBy(init, key), key);
      InsertPermutes(s[|s| - 1], SortBy(init, key), key);
      assert s == init + [s[|s| - 1]];
    }
  }

  /** `SortBy` is stable: the elements sharing any one key keep their input order. */
  lemma {:induction false} SortByStable<T>(s: seq<T>, key: T -> Key, k: Key)
    ensures WithKey(SortBy(s, key), key, k) == WithKey(s, key, k)
    decreases |s|
  {
    if s != [] {
      var init := s[..|s| - 1];
      var x := s[|s| - 1];
      SortByStable(init, key, k);
      SortByOrders(init, key);
      WithKeyInsert(x, SortBy(init, key), key, k);
      assert s == init + [x];
      WithKeyAppend(init, [x], key, k);
      WithKeySingle(x, key, k);
    }
  }

  lemma WithKeySingle<T>(x: T, key: T -> Key, k: Key)
    ensures WithKey([x], key, k) == if key(x) == k then [x] else []
  {
    assert [x][1..] == [];
  }
}
