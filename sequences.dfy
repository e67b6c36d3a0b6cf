/** The array operations the ledger and its views are built from:
    `filter`, `find` by key, and a `map` that replaces the elements with a
    given key. Keys are passed as named functions (`Book -> BookId`). */
module Sequences {

  import opened Wrappers

  /** `s.filter(p)`: the elements satisfying `p`, in their original order. */
  function Filter<T(!new)>(s: seq<T>, p: T -> bool): (r: seq<T>)
    ensures |r| <= |s|
    ensures forall x :: x in r <==> x in s && p(x)
  {
    if s == [] then []
    else (if p(s[0]) then [s[0]] else []) + Filter(s[1..], p)
  }

  /** Filtering distributes over concatenation: the relative order of the kept
      elements is the order of the input. */
  lemma {:induction false} FilterAppend<T(!new)>(a: seq<T>, b: seq<T>, p: T -> bool)
    ensures Filter(a + b, p) == Filter(a, p) + Filter(b, p)
  {
    if a == [] {
      assert a + b == b;
    } else {
      assert (a + b)[1..] == a[1..] + b;
      FilterAppend(a[1..], b, p);
    }
  }

  /** No two elements share a key. */
  ghost predicate UniqueBy<T(!new), K>(s: seq<T>, key: T -> K)
  {
    forall i, j :: 0 <= i < j < |s| ==> key(s[i]) != key(s[j])
  }

  ghost function Keys<T(!new), K>(s: seq<T>, key: T -> K): set<K>
  {
    set x | x in s :: key(x)
  }

  /** Filtering keeps keys unique. */
  lemma {:induction false} FilterUnique<T(!new), K>(s: seq<T>, p: T -> bool, key: T -> K)
    requires UniqueBy(s, key)
    ensures UniqueBy(Filter(s, p), key)
  {
    if s != [] {
      var tail := Filter(s[1..], p);
      FilterUnique(s[1..], p, key);
      if p(s[0]) {
        var r := [s[0]] + tail;
        forall i, j | 0 <= i < j < |r| ensures key(r[i]) != key(r[j]) {
          if i == 0 {
            assert r[j] == tail[j - 1] && r[j] in s[1..];
            var m :| 0 <= m < |s[1..]| && s[1..][m] == r[j];
            assert s[m + 1] == r[j];
          } else {
            assert r[i] == tail[i - 1] && r[j] == tail[j - 1];
          }
        }
      }
    }
  }

  /** Appending an element with a fresh key keeps keys unique. */
  lemma AppendUnique<T(!new), K>(s: seq<T>, x: T, key: T -> K)
    requires UniqueBy(s, key) && key(x) !in Keys(s, key)
    ensures UniqueBy(s + [x], key)
  {
    var r := s + [x];
    forall i, j | 0 <= i < j < |r| ensures key(r[i]) != key(r[j]) {
      if j == |s| {
        assert r[i] == s[i] && s[i] in s;
      }
    }
  }

  /** `s.find(x => key(x) === k)`: the first element with key `k`, if any. */
  function FindBy<T(==,!new), K(==)>(s: seq<T>, key: T -> K, k: K): (r: Option<T>)
    ensures r.None? <==> k !in Keys(s, key)
    ensures r.Some? ==> exists i :: 0 <= i < |s| && s[i] == r.value && key(s[i]) == k &&
                                     forall j :: 0 <= j < i ==> key(s[j]) != k
  {
    if s == [] then None
    else if key(s[0]) == k then Some(s[0])
    else
      var r := FindBy(s[1..], key, k);
      assert Keys(s, key) == {key(s[0])} + Keys(s[1..], key) by {
        assert s == [s[0]] + s[1..];
      }
      if r.Some? then
        var i :| 0 <= i < |s[1..]| && s[1..][i] == r.value && key(s[1..][i]) == k &&
                 forall j :: 0 <= j < i ==> key(s[1..][j]) != k;
        assert s[i + 1] == r.value && forall j :: 0 <= j < i + 1 ==> key(s[j]) != k;
        r
      else r
  }

  /** `s.map(x => key(x) === key(v) ? v : x)`: every element whose key is that
      of `v` is replaced by `v`; the others stay where they are. */
  function ReplaceBy<T(!new), K(==)>(s: seq<T>, key: T -> K, v: T): (r: seq<T>)
    ensures |r| == |s|
    ensures forall i :: 0 <= i < |s| ==> r[i] == if key(s[i]) == key(v) then v else s[i]
  {
    if s == [] then []
    else [if key(s[0]) == key(v) then v else s[0]] + ReplaceBy(s[1..], key, v)
  }

  /** After the replacement, looking up the key of `v` finds `v` when that key was
      present before; every other lookup is unchanged. */
  lemma {:induction false} FindAfterReplace<T(!new), K>(s: seq<T>, key: T -> K, v: T, k: K)
    ensures FindBy(ReplaceBy(s, key, v), key, k) ==
            if k == key(v) && FindBy(s, key, k).Some? then Some(v) else FindBy(s, key, k)
  {
    if s != [] {
      var r := ReplaceBy(s, key, v);
      assert r[1..] == ReplaceBy(s[1..], key, v);
      FindAfterReplace(s[1..], key, v, k);
    }
  }

  /** Replacing keeps the set of keys, and keeps them unique. */
  lemma ReplaceUnique<T(!new), K>(s: seq<T>, key: T -> K, v: T)
    requires UniqueBy(s, key)
    ensures UniqueBy(ReplaceBy(s, key, v), key)
    ensures Keys(ReplaceBy(s, key, v), key) == Keys(s, key)
  {
    var r := ReplaceBy(s, key, v);
    forall x | x in Keys(r, key) ensures x in Keys(s, key) {
      var y :| y in r && key(y) == x;
      var i :| 0 <= i < |r| && r[i] == y;
      assert s[i] in s;
    }
    forall x | x in Keys(s, key) ensures x in Keys(r, key) {
      var y :| y in s && key(y) == x;
      var i :| 0 <= i < |s| && s[i] == y;
      assert r[i] in r;
    }
  }

  /** Replacing by a key that is not present changes nothing. */
  lemma ReplaceAbsent<T(!new), K>(s: seq<T>, key: T -> K, v: T)
    ensures key(v) !in Keys(s, key) ==> ReplaceBy(s, key, v) == s
  {
    if key(v) !in Keys(s, key) {
      forall i | 0 <= i < |s| ensures key(s[i]) != key(v) {
        assert s[i] in s;
      }
    }
  }
}
