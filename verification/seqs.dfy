/** Sequence helpers shared by the table passes: order-preserving selection by a mask
    (the write-cursor compactions), sortedness by a key, and the stable sort that Rust's
    `sort_by` / `sort_by_key` perform. */
module Seqs {

  /** The elements of `s` whose `keep` bit is set, in their original order. */
  function Select<T>(s: seq<T>, keep: seq<bool>): (r: seq<T>)
    requires |keep| == |s|
    ensures |r| <= |s|
    decreases |s|
  {
    if |s| == 0 then []
    else Select(s[..|s| - 1], keep[..|s| - 1]) + (if keep[|s| - 1] then [s[|s| - 1]] else [])
  }

  /** Extending the input by one element extends the selection by that element or not at all. */
  lemma SelectSnoc<T>(s: seq<T>, keep: seq<bool>, n: nat)
    requires |keep| == |s| && n < |s|
    ensures Select(s[..n + 1], keep[..n + 1])
         == Select(s[..n], keep[..n]) + (if keep[n] then [s[n]] else [])
  {
    assert s[..n + 1][..n] == s[..n];
    assert keep[..n + 1][..n] == keep[..n];
  }

  /** Every selected element is an input element whose bit is set. */
  lemma {:induction false} SelectMembers<T>(s: seq<T>, keep: seq<bool>)
    requires |keep| == |s|
    ensures forall x :: x in Select(s, keep) ==> exists i :: 0 <= i < |s| && keep[i] && s[i] == x
    decreases |s|
  {
    if |s| > 0 {
      var n := |s| - 1;
      SelectMembers(s[..n], keep[..n]);
      forall x | x in Select(s, keep)
        ensures exists i :: 0 <= i < |s| && keep[i] && s[i] == x
      {
        if x in Select(s[..n], keep[..n]) {
          var i :| 0 <= i < n && keep[..n][i] && s[..n][i] == x;
          assert keep[i] && s[i] == x;
        } else {
          assert keep[n] && s[n] == x;
        }
      }
    }
  }

  /** An all-true mask selects the whole input. */
  lemma {:induction false} SelectAll<T>(s: seq<T>, keep: seq<bool>)
    requires |keep| == |s|
    requires forall i :: 0 <= i < |keep| ==> keep[i]
    ensures Select(s, keep) == s
    decreases |s|
  {
    if |s| > 0 {
      var n := |s| - 1;
      SelectAll(s[..n], keep[..n]);
      assert s == s[..n] + [s[n]];
    }
  }

  /** Adjacent selected elements come from input positions `a < b` with nothing selected
      between them. */
  lemma {:induction false} SelectAdjacentOrigins<T>(s: seq<T>, keep: seq<bool>, k: nat)
    returns (a: nat, b: nat)
    requires |keep| == |s|
    requires k + 1 < |Select(s, keep)|
    ensures a < b < |s| && keep[a] && keep[b]
    ensures Select(s, keep)[k] == s[a] && Select(s, keep)[k + 1] == s[b]
    ensures forall j :: a < j < b ==> !keep[j]
    decreases |s|
  {
    var n := |s| - 1;
    var front := Select(s[..n], keep[..n]);
    assert Select(s, keep) == front + (if keep[n] then [s[n]] else []);
    if k + 1 < |front| {
      a, b := SelectAdjacentOrigins(s[..n], keep[..n], k);
      assert forall j :: a < j < b ==> keep[..n][j] == keep[j];
    } else {
      assert keep[n] && k + 1 == |front|;
      a := LastKept(s[..n], keep[..n]);
      b := n;
      assert forall j :: a < j < n ==> keep[..n][j] == keep[j];
    }
  }

  /** The input position of the last selected element, which has nothing selected after it. */
  lemma {:induction false} LastKept<T>(s: seq<T>, keep: seq<bool>) returns (a: nat)
    requires |keep| == |s| && |Select(s, keep)| > 0
    ensures a < |s| && keep[a]
    ensures Select(s, keep)[|Select(s, keep)| - 1] == s[a]
    ensures forall j :: a < j < |s| ==> !keep[j]
    decreases |s|
  {
    var n := |s| - 1;
    if keep[n] {
      a := n;
    } else {
      assert Select(s, keep) == Select(s[..n], keep[..n]);
      a := LastKept(s[..n], keep[..n]);
      assert forall j :: a < j < n ==> keep[..n][j] == keep[j];
    }
  }

  /** A selection that keeps the first element starts with it. */
  lemma {:induction false} SelectFirst<T>(s: seq<T>, keep: seq<bool>)
    requires |keep| == |s| && |s| > 0 && keep[0]
    ensures |Select(s, keep)| > 0 && Select(s, keep)[0] == s[0]
    decreases |s|
  {
    var n := |s| - 1;
    if n > 0 {
      SelectFirst(s[..n], keep[..n]);
    } else {
      assert s[..n] == [] && keep[..n] == [];
    }
  }

  /** `s` is nondecreasing under `key`. */
  ghost predicate SortedBy<T>(s: seq<T>, key: T -> int) {
    forall i, j :: 0 <= i < j < |s| ==> key(s[i]) <= key(s[j])
  }

  /** Selection keeps sortedness: the output is an in-order subsequence. */
  lemma {:induction false} SelectPreservesSorted<T>(s: seq<T>, keep: seq<bool>, key: T -> int)
    requires |keep| == |s|
    requires SortedBy(s, key)
    ensures SortedBy(Select(s, keep), key)
    decreases |s|
  {
    if |s| > 0 {
      var n := |s| - 1;
      var front := Select(s[..n], keep[..n]);
      SelectPreservesSorted(s[..n], keep[..n], key);
      SelectMembers(s[..n], keep[..n]);
      if keep[n] {
        var r := front + [s[n]];
        forall a, b | 0 <= a < b < |r|
          ensures key(r[a]) <= key(r[b])
        {
          if b == |front| {
            assert r[a] == front[a] && r[a] in front;
            var i :| 0 <= i < n && keep[..n][i] && s[..n][i] == r[a];
            assert key(s[i]) <= key(s[n]);
          }
        }
      }
    }
  }

  /** Inserts `x` in front of the first element whose key is not below `key(x)`. */
  function Insert<T>(x: T, s: seq<T>, key: T -> int): (r: seq<T>)
    ensures |r| == |s| + 1
    ensures multiset(r) == multiset(s) + multiset{x}
    decreases |s|
  {
    if |s| == 0 then [x]
    else if key(x) <= key(s[0]) then [x] + s
    else
      assert s == [s[0]] + s[1..];
      [s[0]] + Insert(x, s[1..], key)
  }

  lemma {:induction false} InsertSorted<T>(x: T, s: seq<T>, key: T -> int)
    requires SortedBy(s, key)
    ensures SortedBy(Insert(x, s, key), key)
    decreases |s|
  {
    if |s| > 0 && key(x) > key(s[0]) {
      var tail := Insert(x, s[1..], key);
      InsertSorted(x, s[1..], key);
      var r := [s[0]] + tail;
      forall a, b | 0 <= a < b < |r|
        ensures key(r[a]) <= key(r[b])
      {
        if a == 0 {
          assert r[b] in multiset(tail);
          assert r[b] == x || r[b] in multiset(s[1..]);
          if r[b] != x {
            assert r[b] in s[1..];
            var j :| 0 <= j < |s[1..]| && s[1..][j] == r[b];
            assert s[j + 1] == r[b];
          }
        } else {
          assert r[a] == tail[a - 1] && r[b] == tail[b - 1];
        }
      }
    }
  }

  /** Stable insertion sort by `key`: the reference for Rust's stable `sort_by_key`. */
  function SortBy<T>(s: seq<T>, key: T -> int): (r: seq<T>)
    ensures |r| == |s|
    ensures multiset(r) == multiset(s)
    decreases |s|
  {
    if |s| == 0 then []
    else
      assert s == [s[0]] + s[1..];
      Insert(s[0], SortBy(s[1..], key), key)
  }

  lemma {:induction false} SortBySorted<T>(s: seq<T>, key: T -> int)
    ensures SortedBy(SortBy(s, key), key)
    decreases |s|
  {
    if |s| > 0 {
      SortBySorted(s[1..], key);
      InsertSorted(s[0], SortBy(s[1..], key), key);
    }
  }

  /** The elements of `s` whose key is `k`, in order. */
  function WithKey<T>(s: seq<T>, key: T -> int, k: int): (r: seq<T>)
    ensures |r| <= |s|
    decreases |s|
  {
    if |s| == 0 then []
    else (if key(s[0]) == k then [s[0]] else []) + WithKey(s[1..], key, k)
  }

  lemma WithKeyCons<T>(a: T, t: seq<T>, key: T -> int, k: int)
    ensures WithKey([a] + t, key, k) == (if key(a) == k then [a] else []) + WithKey(t, key, k)
  {
    assert ([a] + t)[0] == a && ([a] + t)[1..] == t;
  }

  lemma {:induction false} InsertWithKey<T>(x: T, s: seq<T>, key: T -> int, k: int)
    ensures WithKey(Insert(x, s, key), key, k)
         == (if key(x) == k then [x] + WithKey(s, key, k) else WithKey(s, key, k))
    decreases |s|
  {
    if |s| > 0 && key(x) > key(s[0]) {
      var tail := Insert(x, s[1..], key);
      assert Insert(x, s, key) == [s[0]] + tail;
      InsertWithKey(x, s[1..], key, k);
      WithKeyCons(s[0], tail, key, k);
      WithKeyCons(s[0], s[1..], key, k);
      assert [s[0]] + s[1..] == s;
      if key(x) == k {
        assert WithKey(Insert(x, s, key), key, k) == [x] + WithKey(s[1..], key, k);
      }
    } else {
      assert Insert(x, s, key) == [x] + s;
      WithKeyCons(x, s, key, k);
    }
  }

  /** The sort is stable: elements with equal keys keep their relative order. */
  lemma {:induction false} SortByStable<T>(s: seq<T>, key: T -> int, k: int)
    ensures WithKey(SortBy(s, key), key, k) == WithKey(s, key, k)
    decreases |s|
  {
    if |s| > 0 {
      SortByStable(s[1..], key, k);
      InsertWithKey(s[0], SortBy(s[1..], key), key, k);
      assert WithKey(s, key, k) == (if key(s[0]) == k then [s[0]] else []) + WithKey(s[1..], key, k);
    }
  }
}
