/** Sequence operations the source performs with JavaScript array methods:
    `filter`, and assignment to an element that may lie past the end. */
module Seqs {
  import opened Wrappers

  /** `s.filter(f)`: the elements satisfying `f`, in their original order. */
  function Filter<T>(s: seq<T>, f: T -> bool): (r: seq<T>)
    ensures |r| <= |s|
    ensures forall x :: x in r ==> x in s && f(x)
    ensures forall i :: 0 <= i < |s| && f(s[i]) ==> s[i] in r
  {
    if |s| == 0 then []
    else if f(s[0]) then [s[0]] + Filter(s[1..], f)
    else Filter(s[1..], f)
  }

  /** Filtering distributes over concatenation, so it keeps the relative order. */
  lemma {:induction false} FilterAppend<T>(a: seq<T>, b: seq<T>, f: T -> bool)
    ensures Filter(a + b, f) == Filter(a, f) + Filter(b, f)
  {
    if |a| > 0 {
      assert (a + b)[1..] == a[1..] + b;
      FilterAppend(a[1..], b, f);
    } else {
      assert a + b == b;
    }
  }

  /** A filter every element passes changes nothing. */
  lemma {:induction false} FilterKeepsAll<T>(s: seq<T>, f: T -> bool)
    ensures (forall i :: 0 <= i < |s| ==> f(s[i])) ==> Filter(s, f) == s
  {
    if |s| > 0 {
      FilterKeepsAll(s[1..], f);
      if forall i :: 0 <= i < |s| ==> f(s[i]) {
        assert forall i :: 0 <= i < |s[1..]| ==> f(s[1..][i]) by {
          forall i | 0 <= i < |s[1..]| ensures f(s[1..][i]) {
            assert s[1..][i] == s[i + 1];
          }
        }
      }
    }
  }

  /** Two filters in a row are one filter by the conjunction. */
  lemma {:induction false} FilterFilter<T>(s: seq<T>, f: T -> bool, g: T -> bool)
    ensures Filter(Filter(s, f), g) == Filter(s, x => f(x) && g(x))
  {
    if |s| > 0 {
      FilterFilter(s[1..], f, g);
      if f(s[0]) {
        assert Filter(s, f) == [s[0]] + Filter(s[1..], f);
        assert Filter(s, f)[1..] == Filter(s[1..], f);
      }
    }
  }

  /** A key is unique in `s` when no two positions share it. */
  predicate KeysUnique<T, K(==)>(s: seq<T>, key: T -> K) {
    forall i, j :: 0 <= i < j < |s| ==> key(s[i]) != key(s[j])
  }

  /** Filtering keeps keys unique. */
  lemma {:induction false} FilterKeepsKeysUnique<T, K>(s: seq<T>, f: T -> bool, key: T -> K)
    ensures KeysUnique(s, key) ==> KeysUnique(Filter(s, f), key)
  {
    if |s| > 0 && KeysUnique(s, key) {
      var rest := Filter(s[1..], f);
      FilterKeepsKeysUnique(s[1..], f, key);
      if f(s[0]) {
        var r := Filter(s, f);
        assert r == [s[0]] + rest;
        forall i, j | 0 <= i < j < |r|
          ensures key(r[i]) != key(r[j])
        {
          if i == 0 {
            assert r[j] in s[1..];
            var m :| 0 <= m < |s[1..]| && s[1..][m] == r[j];
            assert s[m + 1] == r[j];
          } else {
            assert r[i] == rest[i - 1] && r[j] == rest[j - 1];
          }
        }
      }
    }
  }

  /** `a[i] = v` on a JavaScript array of nullable slots: past the end the array grows
      and the slots skipped over read as empty. */
  function ArraySet<T>(a: seq<Option<T>>, i: nat, v: T): (r: seq<Option<T>>)
    ensures |r| == if i < |a| then |a| else i + 1
    ensures r[i] == Some(v)
    ensures forall j :: 0 <= j < |a| && j != i ==> r[j] == a[j]
    ensures forall j :: |a| <= j < |r| && j != i ==> r[j] == None
  {
    if i < |a| then a[i := Some(v)]
    else a + seq(i - |a|, _ => None) + [Some(v)]
  }
}
