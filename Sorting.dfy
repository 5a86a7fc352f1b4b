/** Stable descending sort on a key. Both orderings of the ledger use it:
    `ORDER BY entered_at DESC` on logs and `sorted(..., reverse=True)` on
    OCR detections (Python's sort keeps equal keys in their input order,
    also when reversed). */
module Sorting {

  predicate SortedDesc<T>(s: seq<T>, key: T -> real) {
    forall i, j :: 0 <= i < j < |s| ==> key(s[i]) >= key(s[j])
  }

  /** Places `x` before the first element with a smaller key, so `x` stays
      ahead of every element whose key equals its own. */
  function Insert<T>(x: T, s: seq<T>, key: T -> real): (r: seq<T>)
    ensures |r| == |s| + 1
    ensures multiset(r) == multiset(s) + multiset{x}
  {
    if s == [] || key(x) >= key(s[0]) then
      [x] + s
    else
      assert s == [s[0]] + s[1..];
      [s[0]] + Insert(x, s[1..], key)
  }

  /** Inserting into a descending sequence keeps it descending. */
  lemma {:induction false} InsertSorted<T>(x: T, s: seq<T>, key: T -> real)
    requires SortedDesc(s, key)
    ensures SortedDesc(Insert(x, s, key), key)
  {
    if s != [] && key(x) < key(s[0]) {
      var rest := Insert(x, s[1..], key);
      var r := Insert(x, s, key);
      assert r == [s[0]] + rest;
      InsertSorted(x, s[1..], key);
      forall i, j | 0 <= i < j < |r| ensures key(r[i]) >= key(r[j]) {
        if i == 0 {
          var y := rest[j - 1];
          assert y in multiset(rest);
          if y != x {
            assert y in multiset(s[1..]);
            var k :| 0 <= k < |s[1..]| && s[1..][k] == y;
            assert s[k + 1] == y;
          }
        } else {
          assert r[i] == rest[i - 1] && r[j] == rest[j - 1];
        }
      }
    }
  }

  /** Insertion sort, largest key first; stable. */
  function SortDesc<T>(s: seq<T>, key: T -> real): (r: seq<T>)
    ensures |r| == |s|
    ensures multiset(r) == multiset(s)
    ensures SortedDesc(r, key)
  {
    if s == [] then
      []
    else
      assert s == [s[0]] + s[1..];
      InsertSorted(s[0], SortDesc(s[1..], key), key);
      Insert(s[0], SortDesc(s[1..], key), key)
  }

  /** The first `n` elements, or all of them when there are fewer. */
  function Take<T>(s: seq<T>, n: nat): (r: seq<T>)
    ensures |r| == if n < |s| then n else |s|
    ensures r == s[..|r|]
  {
    if n < |s| then s[..n] else s
  }

  /** A prefix of a descending sequence holds its largest keys: nothing left
      out ranks above anything kept. */
  lemma {:induction false} PrefixHoldsLargest<T>(s: seq<T>, n: nat, key: T -> real)
    requires SortedDesc(s, key)
    ensures var r := Take(s, n);
      && SortedDesc(r, key)
      && multiset(r) <= multiset(s)
      && forall i, y :: 0 <= i < |r| && y in multiset(s) - multiset(r) ==> key(y) <= key(r[i])
  {
    var r := Take(s, n);
    var rest := s[|r|..];
    assert s == r + rest;
    assert multiset(s) - multiset(r) == multiset(rest) by {
      assert multiset(s) == multiset(r) + multiset(rest);
    }
    forall i, j | 0 <= i < j < |r| ensures key(r[i]) >= key(r[j]) {
      assert r[i] == s[i] && r[j] == s[j];
    }
    forall i, y | 0 <= i < |r| && y in multiset(s) - multiset(r) ensures key(y) <= key(r[i]) {
      assert y in rest;
      var k :| 0 <= k < |rest| && rest[k] == y;
      assert rest[k] == s[|r| + k] && r[i] == s[i];
    }
  }
}
