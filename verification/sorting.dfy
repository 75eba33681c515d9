/** `ORDER BY <text column> DESC` and `ASC` on query results, as a sort of a
    sequence by a string key under SQLite's BINARY order (`StrLe`). SQL does
    not fix the order of rows with equal keys; the sort here picks one, and
    the properties proved hold for any order SQL may choose: the result is
    ordered and is a permutation of the input. */
module Sorting {
  import opened Text

  /** Largest key first. */
  ghost predicate Descending<T>(s: seq<T>, key: T -> string) {
    forall i, j | 0 <= i < j < |s| :: StrLe(key(s[j]), key(s[i]))
  }

  /** Smallest key first. */
  ghost predicate Ascending<T>(s: seq<T>, key: T -> string) {
    forall i, j | 0 <= i < j < |s| :: StrLe(key(s[i]), key(s[j]))
  }

  /** Every element of `s` has a key no larger than `k`. */
  ghost predicate AllAtMost<T>(s: seq<T>, key: T -> string, k: string) {
    forall i | 0 <= i < |s| :: StrLe(key(s[i]), k)
  }

  /** Every element of `s` has a key no smaller than `k`. */
  ghost predicate AllAtLeast<T>(s: seq<T>, key: T -> string, k: string) {
    forall i | 0 <= i < |s| :: StrLe(k, key(s[i]))
  }

  /** Inserts `x` into a descending sequence in front of the first element
      whose key is not larger than its own. */
  function InsertDesc<T>(x: T, s: seq<T>, key: T -> string): (r: seq<T>)
    requires Descending(s, key)
    ensures |r| == |s| + 1
    ensures multiset(r) == multiset(s) + multiset{x}
    ensures Descending(r, key)
    decreases |s|
  {
    if |s| == 0 then [x]
    else if StrLe(key(s[0]), key(x)) then
      InsertFrontDesc(x, s, key);
      [x] + s
    else
      StrLeTotal(key(s[0]), key(x));
      HeadBoundsDesc(s, key);
      var rest := InsertDesc(x, s[1..], key);
      AllAtMostByElements(rest, s[1..], x, key, key(s[0]));
      InsertBehindDesc(s[0], rest, key);
      assert s == [s[0]] + s[1..];
      [s[0]] + rest
  }

  /** `x` may go in front of a descending sequence whose head is no larger. */
  lemma InsertFrontDesc<T>(x: T, s: seq<T>, key: T -> string)
    requires |s| > 0 && Descending(s, key) && StrLe(key(s[0]), key(x))
    ensures Descending([x] + s, key)
  {
    var r := [x] + s;
    forall i, j | 0 <= i < j < |r| ensures StrLe(key(r[j]), key(r[i])) {
      if i == 0 {
        assert r[j] == s[j - 1];
        if j > 1 { StrLeTransitive(key(s[j - 1]), key(s[0]), key(x)); }
      } else {
        assert r[i] == s[i - 1] && r[j] == s[j - 1];
      }
    }
  }

  /** `h` may go in front of a descending sequence it bounds. */
  lemma InsertBehindDesc<T>(h: T, rest: seq<T>, key: T -> string)
    requires Descending(rest, key) && AllAtMost(rest, key, key(h))
    ensures Descending([h] + rest, key)
  {
    var r := [h] + rest;
    forall i, j | 0 <= i < j < |r| ensures StrLe(key(r[j]), key(r[i])) {
      assert r[j] == rest[j - 1];
      if i > 0 { assert r[i] == rest[i - 1]; }
    }
  }

  /** A bound on the keys of `s` and of `x` bounds every arrangement of `s`
      with `x` added. */
  lemma AllAtMostByElements<T>(r: seq<T>, s: seq<T>, x: T, key: T -> string, k: string)
    requires multiset(r) == multiset(s) + multiset{x}
    requires AllAtMost(s, key, k) && StrLe(key(x), k)
    ensures AllAtMost(r, key, k)
  {
    forall i | 0 <= i < |r| ensures StrLe(key(r[i]), k) {
      assert r[i] in multiset(r);
      if r[i] != x {
        assert r[i] in multiset(s);
        var j :| 0 <= j < |s| && s[j] == r[i];
      }
    }
  }

  /** A descending sequence is bounded by its head. */
  lemma HeadBoundsDesc<T>(s: seq<T>, key: T -> string)
    requires |s| > 0 && Descending(s, key)
    ensures AllAtMost(s[1..], key, key(s[0]))
  {
    StrLeReflexive(key(s[0]));
    forall i | 0 <= i < |s[1..]| ensures StrLe(key(s[1..][i]), key(s[0])) {
      assert s[1..][i] == s[i + 1];
    }
  }

  /** Insertion sort, largest key first. */
  function SortDesc<T>(s: seq<T>, key: T -> string): (r: seq<T>)
    ensures |r| == |s|
    ensures multiset(r) == multiset(s)
    ensures Descending(r, key)
    decreases |s|
  {
    if |s| == 0 then []
    else
      assert s == [s[0]] + s[1..];
      InsertDesc(s[0], SortDesc(s[1..], key), key)
  }

  function Reverse<T>(s: seq<T>): (r: seq<T>)
    ensures |r| == |s|
    ensures forall i | 0 <= i < |s| :: r[i] == s[|s| - 1 - i]
    ensures multiset(r) == multiset(s)
    decreases |s|
  {
    if |s| == 0 then []
    else
      assert s == s[..|s| - 1] + [s[|s| - 1]];
      [s[|s| - 1]] + Reverse(s[..|s| - 1])
  }

  /** Smallest key first: the descending sort read backwards. */
  function SortAsc<T>(s: seq<T>, key: T -> string): (r: seq<T>)
    ensures |r| == |s|
    ensures multiset(r) == multiset(s)
    ensures Ascending(r, key)
  {
    var d := SortDesc(s, key);
    ReverseDescending(d, key);
    Reverse(d)
  }

  /** Reading a descending sequence backwards gives an ascending one. */
  lemma ReverseDescending<T>(d: seq<T>, key: T -> string)
    requires Descending(d, key)
    ensures Ascending(Reverse(d), key)
  {
    var r := Reverse(d);
    var n := |d|;
    forall i, j | 0 <= i < j < |r| ensures StrLe(key(r[i]), key(r[j])) {
      assert r[i] == d[n - 1 - i] && r[j] == d[n - 1 - j];
    }
  }

  /** The first `n` elements of a descending sequence are descending, come
      from it, and are each at least as large as every element left out. */
  lemma DescendingPrefix<T>(s: seq<T>, key: T -> string, n: nat)
    requires Descending(s, key) && n <= |s|
    ensures Descending(s[..n], key)
    ensures multiset(s[..n]) <= multiset(s)
    ensures forall e | e in multiset(s) - multiset(s[..n]) :: AllAtLeast(s[..n], key, key(e))
  {
    assert s == s[..n] + s[n..];
    assert multiset(s) - multiset(s[..n]) == multiset(s[n..]);
    forall e | e in multiset(s) - multiset(s[..n]) ensures AllAtLeast(s[..n], key, key(e)) {
      assert e in multiset(s[n..]);
      var j :| 0 <= j < |s[n..]| && s[n..][j] == e;
      assert s[n + j] == e;
    }
  }

  /** `ORDER BY key DESC LIMIT limit`: the `limit` largest elements, largest
      first, or all of them when there are fewer. Every element left out is
      no larger than any element kept. */
  function TopDesc<T>(s: seq<T>, key: T -> string, limit: nat): (r: seq<T>)
    ensures |r| == if |s| < limit then |s| else limit
    ensures multiset(r) <= multiset(s)
    ensures |s| <= limit ==> multiset(r) == multiset(s)
    ensures Descending(r, key)
    ensures forall e | e in multiset(s) - multiset(r) :: AllAtLeast(r, key, key(e))
  {
    var sorted := SortDesc(s, key);
    var n := if |sorted| < limit then |sorted| else limit;
    DescendingPrefix(sorted, key, n);
    assert n == |sorted| ==> sorted[..n] == sorted;
    sorted[..n]
  }
}
