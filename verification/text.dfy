/** String operations the tracker relies on: Python's `str.strip()` on form
    input, SQLite's comparison of TEXT values (BINARY collation, which orders
    by code point), `substr(x, 1, n)` and ASCII lower-casing. */
module Text {

  /** Python's `c.isspace()`: ASCII tab to carriage return, the four
      information separators, space, NEL, NBSP, and the Unicode space
      separators and line/paragraph separators. `strip()` with no argument
      removes exactly these characters from both ends. */
  predicate IsSpace(c: char) {
    var n := c as int;
    || 0x09 <= n <= 0x0D
    || 0x1C <= n <= 0x20
    || n == 0x85 || n == 0xA0 || n == 0x1680
    || 0x2000 <= n <= 0x200A
    || n == 0x2028 || n == 0x2029 || n == 0x202F || n == 0x205F || n == 0x3000
  }

  /** Every character of `s` is whitespace (so `s.strip()` is empty). */
  predicate AllSpace(s: string) {
    forall i | 0 <= i < |s| :: IsSpace(s[i])
  }

  /** No whitespace at either end of `s`. */
  predicate Trimmed(s: string) {
    |s| > 0 ==> !IsSpace(s[0]) && !IsSpace(s[|s| - 1])
  }

  /** The first position at or after `i` that does not hold whitespace, or
      `|s|` when there is none. */
  function SkipSpaces(s: string, i: nat): (k: nat)
    requires i <= |s|
    ensures i <= k <= |s|
    ensures forall j | i <= j < k :: IsSpace(s[j])
    ensures k < |s| ==> !IsSpace(s[k])
    decreases |s| - i
  {
    if i < |s| && IsSpace(s[i]) then SkipSpaces(s, i + 1) else i
  }

  /** Walking back from `e` towards `lo`, the end of the last character
      before `e` that is not whitespace, or `lo` when there is none. */
  function SkipSpacesBack(s: string, lo: nat, e: nat): (r: nat)
    requires lo <= e <= |s|
    ensures lo <= r <= e
    ensures forall j | r <= j < e :: IsSpace(s[j])
    ensures r > lo ==> !IsSpace(s[r - 1])
    decreases e
  {
    if e > lo && IsSpace(s[e - 1]) then SkipSpacesBack(s, lo, e - 1) else e
  }

  /** How many leading whitespace characters `Strip` removes. */
  function LeadingSpaces(s: string): (k: nat)
    ensures k <= |s|
    ensures forall i | 0 <= i < k :: IsSpace(s[i])
    ensures k < |s| ==> !IsSpace(s[k])
  {
    SkipSpaces(s, 0)
  }

  /** Python's `s.strip()`: the infix of `s` left after removing all
      whitespace at both ends. */
  function Strip(s: string): (r: string)
    ensures LeadingSpaces(s) + |r| <= |s|
    ensures r == s[LeadingSpaces(s)..LeadingSpaces(s) + |r|]
    ensures forall i | LeadingSpaces(s) + |r| <= i < |s| :: IsSpace(s[i])
    ensures Trimmed(r)
    ensures r == [] <==> AllSpace(s)
  {
    var k := LeadingSpaces(s);
    var e := SkipSpacesBack(s, k, |s|);
    if k < e then
      assert s[k..e][0] == s[k] && s[k..e][e - k - 1] == s[e - 1];
      s[k..e]
    else
      assert AllSpace(s);
      []
  }

  /** `SkipSpaces` stops at the first non-space position and nowhere else. */
  lemma SkipSpacesAt(s: string, i: nat, k: nat)
    requires i <= k <= |s|
    requires forall j | i <= j < k :: IsSpace(s[j])
    requires k < |s| ==> !IsSpace(s[k])
    ensures SkipSpaces(s, i) == k
  {
  }

  /** `SkipSpacesBack` stops just after the last non-space position. */
  lemma SkipSpacesBackAt(s: string, lo: nat, e: nat, r: nat)
    requires lo <= r <= e <= |s|
    requires forall j | r <= j < e :: IsSpace(s[j])
    requires r > lo ==> !IsSpace(s[r - 1])
    ensures SkipSpacesBack(s, lo, e) == r
  {
  }

  /** `Strip` keeps `s[a..b]` when everything outside it is whitespace and
      it has no whitespace at either end. */
  lemma StripAt(s: string, a: nat, b: nat)
    requires a <= b <= |s|
    requires forall j | 0 <= j < a :: IsSpace(s[j])
    requires forall j | b <= j < |s| :: IsSpace(s[j])
    requires a < b ==> !IsSpace(s[a]) && !IsSpace(s[b - 1])
    ensures Strip(s) == s[a..b]
  {
    if a < b {
      SkipSpacesAt(s, 0, a);
      SkipSpacesBackAt(s, a, |s|, b);
    } else {
      SkipSpacesAt(s, 0, |s|);
    }
  }

  /** `Strip` is the only way to write `s` as whitespace, then a string with
      no whitespace at either end, then whitespace. */
  lemma StripUnique(pre: string, mid: string, post: string)
    requires AllSpace(pre) && Trimmed(mid) && AllSpace(post)
    ensures Strip(pre + mid + post) == mid
  {
    var s := pre + mid + post;
    var a, b := |pre|, |pre| + |mid|;
    assert forall j | 0 <= j < a :: s[j] == pre[j];
    assert forall j | a <= j < b :: s[j] == mid[j - a];
    assert forall j | b <= j < |s| :: s[j] == post[j - b];
    StripAt(s, a, b);
    assert s[a..b] == mid;
  }

  /** Stripping twice is stripping once. */
  lemma StripIdempotent(s: string)
    ensures Strip(Strip(s)) == Strip(s)
  {
    var r := Strip(s);
    StripUnique([], r, []);
    assert [] + r + [] == r;
  }

  /** SQLite's `a <= b` on TEXT with the BINARY collation: `a` is a prefix
      of `b`, or at the first position where they differ `a` has the
      smaller character. */
  predicate StrLe(a: string, b: string)
    decreases |a|
  {
    |a| == 0 || (|b| > 0 && (a[0] < b[0] || (a[0] == b[0] && StrLe(a[1..], b[1..]))))
  }

  lemma {:induction false} StrLeReflexive(a: string)
    ensures StrLe(a, a)
    decreases |a|
  {
    if |a| > 0 { StrLeReflexive(a[1..]); }
  }

  lemma {:induction false} StrLeAntisymmetric(a: string, b: string)
    requires StrLe(a, b) && StrLe(b, a)
    ensures a == b
    decreases |a|
  {
    if |a| > 0 {
      StrLeAntisymmetric(a[1..], b[1..]);
      assert a == [a[0]] + a[1..];
      assert b == [b[0]] + b[1..];
    }
  }

  lemma {:induction false} StrLeTransitive(a: string, b: string, c: string)
    requires StrLe(a, b) && StrLe(b, c)
    ensures StrLe(a, c)
    decreases |a|
  {
    if |a| > 0 && a[0] == b[0] && b[0] == c[0] {
      StrLeTransitive(a[1..], b[1..], c[1..]);
    }
  }

  lemma {:induction false} StrLeTotal(a: string, b: string)
    ensures StrLe(a, b) || StrLe(b, a)
    decreases |a|
  {
    if |a| > 0 && |b| > 0 && a[0] == b[0] {
      StrLeTotal(a[1..], b[1..]);
    }
  }

  /** SQLite's `substr(s, 1, n)`: the first `n` characters, or all of `s`
      when it is shorter. */
  function Prefix(s: string, n: nat): (r: string)
    ensures |r| == if |s| < n then |s| else n
    ensures r <= s
  {
    if |s| < n then s else s[..n]
  }

  /** Lower-cases the ASCII letters and keeps every other character. */
  function AsciiLower(s: string): (r: string)
    ensures |r| == |s|
    ensures forall i | 0 <= i < |s| :: r[i] == if 'A' <= s[i] <= 'Z' then (s[i] as int + 32) as char else s[i]
  {
    if |s| == 0 then []
    else
      var c := s[0];
      [if 'A' <= c <= 'Z' then (c as int + 32) as char else c] + AsciiLower(s[1..])
  }
}
