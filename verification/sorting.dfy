/** Sorting rows by a text key, ascending or descending, as an `ORDER BY key [DESC]` clause does. */
module Sorting {
  import opened Text

  /** `x` may come before `y` in the requested direction. */
  predicate Precedes(x: string, y: string, descending: bool)
  {
    if descending then StrLe(y, x) else StrLe(x, y)
  }

  lemma PrecedesTotal(x: string, y: string, descending: bool)
    ensures Precedes(x, y, descending) || Precedes(y, x, descending)
  {
    StrLeTotal(x, y);
  }

  lemma PrecedesTransitive(x: string, y: string, z: string, descending: bool)
    requires Precedes(x, y, descending) && Precedes(y, z, descending)
    ensures Precedes(x, z, descending)
  {
    if descending {
      StrLeTransitive(z, y, x);
    } else {
      StrLeTransitive(x, y, z);
    }
  }

  /** Every earlier row precedes every later one under `key`. */
  ghost predicate SortedBy<T>(s: seq<T>, key: T -> string, descending: bool)
  {
    forall i, j | 0 <= i < j < |s| :: Precedes(key(s[i]), key(s[j]), descending)
  }

  /** Places `x` before the first row it precedes. */
  function Insert<T>(x: T, s: seq<T>, key: T -> string, descending: bool): (r: seq<T>)
    ensures multiset(r) == multiset(s) + multiset{x}
    ensures |r| == |s| + 1
  {
    if |s| == 0 || Precedes(key(x), key(s[0]), descending) then [x] + s
    else
      assert s == [s[0]] + s[1..];
      [s[0]] + Insert(x, s[1..], key, descending)
  }

  lemma {:induction false} InsertSorted<T>(x: T, s: seq<T>, key: T -> string, descending: bool)
    requires SortedBy(s, key, descending)
    ensures SortedBy(Insert(x, s, key, descending), key, descending)
  {
    var r := Insert(x, s, key, descending);
    if |s| == 0 {
    } else if Precedes(key(x), key(s[0]), descending) {
      forall j | 0 < j < |r|
        ensures Precedes(key(r[0]), key(r[j]), descending)
      {
        if j > 1 {
          PrecedesTransitive(key(x), key(s[0]), key(s[j - 1]), descending);
        }
      }
    } else {
      PrecedesTotal(key(x), key(s[0]), descending);
      var tail := Insert(x, s[1..], key, descending);
      InsertSorted(x, s[1..], key, descending);
      assert r == [s[0]] + tail;
      forall j | 0 <= j < |tail|
        ensures Precedes(key(s[0]), key(tail[j]), descending)
      {
        assert tail[j] in multiset(tail);
        if tail[j] != x {
          assert tail[j] in multiset(s[1..]);
          var k :| 0 <= k < |s[1..]| && s[1..][k] == tail[j];
          assert s[k + 1] == tail[j];
        }
      }
    }
  }

  /** Insertion sort of `s` by `key`: a sorted permutation of `s`. */
  function SortBy<T>(s: seq<T>, key: T -> string, descending: bool): (r: seq<T>)
    ensures multiset(r) == multiset(s)
    ensures |r| == |s|
    ensures SortedBy(r, key, descending)
    decreases |s|
  {
    if |s| == 0 then []
    else
      var init := SortBy(s[..|s| - 1], key, descending);
      InsertSorted(s[|s| - 1], init, key, descending);
      assert s == s[..|s| - 1] + [s[|s| - 1]];
      Insert(s[|s| - 1], init, key, descending)
  }
}
