/** Sequence helpers shared by the model: first and last index of a key
    (`findIndex`, `iter().find`), order-preserving filtering (`filter`,
    `retain`) and uniqueness of keys. */
module Seqs {
  import opened Nullable

  /** First position whose key is `k`, or `None` (`findIndex(...) === -1`). */
  function IndexOf<T, K(==)>(s: seq<T>, key: T -> K, k: K): (r: Option<nat>)
    ensures r.None? <==> forall j | 0 <= j < |s| :: key(s[j]) != k
    ensures r.Some? ==> r.value < |s| && key(s[r.value]) == k
    ensures r.Some? ==> forall j | 0 <= j < r.value :: key(s[j]) != k
  {
    if |s| == 0 then None
    else if key(s[0]) == k then Some(0)
    else match IndexOf(s[1..], key, k)
      case None => None
      case Some(i) => Some(i + 1)
  }

  /** Last position whose key is `k`, or `None`. */
  function LastIndexOf<T, K(==)>(s: seq<T>, key: T -> K, k: K): (r: Option<nat>)
    ensures r.None? <==> forall j | 0 <= j < |s| :: key(s[j]) != k
    ensures r.Some? ==> r.value < |s| && key(s[r.value]) == k
    ensures r.Some? ==> forall j | r.value < j < |s| :: key(s[j]) != k
  {
    if |s| == 0 then None
    else if key(s[|s| - 1]) == k then Some(|s| - 1)
    else LastIndexOf(s[..|s| - 1], key, k)
  }

  /** Whether `k` is the key of some element. */
  predicate HasKey<T, K(==)>(s: seq<T>, key: T -> K, k: K)
  {
    exists j | 0 <= j < |s| :: key(s[j]) == k
  }

  /** No two elements share a key. */
  predicate UniqueKeys<T, K(==)>(s: seq<T>, key: T -> K)
  {
    forall i, j | 0 <= i < j < |s| :: key(s[i]) != key(s[j])
  }

  /** `a` is `b` with some elements left out, order kept. */
  predicate IsSubsequence<T(==)>(a: seq<T>, b: seq<T>)
    decreases |b|
  {
    if |a| == 0 then true
    else if |b| == 0 then false
    else if a[0] == b[0] then IsSubsequence(a[1..], b[1..])
    else IsSubsequence(a, b[1..])
  }

  /** The elements satisfying `keep`, in their original order
      (`Array.prototype.filter`, `Vec::retain`). */
  function Retain<T(==)>(s: seq<T>, keep: T -> bool): (r: seq<T>)
    ensures |r| <= |s|
    ensures forall j | 0 <= j < |r| :: r[j] in s && keep(r[j])
    ensures forall j | 0 <= j < |s| && keep(s[j]) :: s[j] in r
    ensures IsSubsequence(r, s)
  {
    if |s| == 0 then []
    else if keep(s[0]) then [s[0]] + Retain(s[1..], keep)
    else Retain(s[1..], keep)
  }

  /** Filtering distributes over appending one element: the shape of a loop
      that visits the elements in order and keeps some. */
  lemma {:induction false} RetainAppend<T>(s: seq<T>, x: T, keep: T -> bool)
    ensures Retain(s + [x], keep) == Retain(s, keep) + (if keep(x) then [x] else [])
    decreases |s|
  {
    if |s| == 0 {
      assert s + [x] == [x];
    } else {
      assert (s + [x])[1..] == s[1..] + [x];
      RetainAppend(s[1..], x, keep);
    }
  }

  /** Filtering keeps keys apart when the input keeps them apart. */
  lemma {:induction false} RetainUnique<T, K>(s: seq<T>, keep: T -> bool, key: T -> K)
    requires UniqueKeys(s, key)
    ensures UniqueKeys(Retain(s, keep), key)
    decreases |s|
  {
    if |s| > 0 {
      var rest := Retain(s[1..], keep);
      assert UniqueKeys(s[1..], key) by {
        forall i, j | 0 <= i < j < |s[1..]|
          ensures key(s[1..][i]) != key(s[1..][j])
        {
          assert s[1..][i] == s[i + 1] && s[1..][j] == s[j + 1];
        }
      }
      RetainUnique(s[1..], keep, key);
      if keep(s[0]) {
        var r := [s[0]] + rest;
        forall i, j | 0 <= i < j < |r| ensures key(r[i]) != key(r[j]) {
          if i == 0 {
            assert r[j] in s[1..];
            var m :| 0 <= m < |s[1..]| && s[1..][m] == r[j];
            assert s[m + 1] == r[j];
          } else {
            assert r[i] == rest[i - 1] && r[j] == rest[j - 1];
          }
        }
      }
    }
  }

  /** Searching a list extended by one element finds an earlier match first.
      The proof is direct; automatic induction on `s` is switched off
      because it only makes the proof search larger. */
  lemma {:induction false} IndexOfAppend<T, K>(s: seq<T>, x: T, key: T -> K, k: K)
    ensures IndexOf(s + [x], key, k) ==
      if HasKey(s, key, k) then IndexOf(s, key, k)
      else if key(x) == k then Some(|s|)
      else None
  {
    var r := IndexOf(s + [x], key, k);
    if HasKey(s, key, k) {
      var i := IndexOf(s, key, k).value;
      assert (s + [x])[i] == s[i];
      assert forall j | 0 <= j < i :: (s + [x])[j] == s[j];
    } else if key(x) == k {
      assert (s + [x])[|s|] == x;
      assert forall j | 0 <= j < |s| :: (s + [x])[j] == s[j];
    } else {
      assert forall j | 0 <= j < |s| + 1 :: (s + [x])[j] == if j < |s| then s[j] else x;
    }
  }

  /** The last match in a list extended by one element is that element, if
      it matches, else the last match before. */
  lemma LastIndexOfAppend<T, K>(s: seq<T>, x: T, key: T -> K, k: K)
    ensures LastIndexOf(s + [x], key, k) ==
      if key(x) == k then Some(|s|) else LastIndexOf(s, key, k)
  {
    assert (s + [x])[..|s|] == s;
  }

  lemma HasKeyAppend<T, K>(s: seq<T>, x: T, key: T -> K, k: K)
    ensures HasKey(s + [x], key, k) <==> HasKey(s, key, k) || key(x) == k
  {
    if HasKey(s, key, k) {
      var j :| 0 <= j < |s| && key(s[j]) == k;
      assert (s + [x])[j] == s[j];
    }
    if key(x) == k {
      assert (s + [x])[|s|] == x;
    }
  }
}
