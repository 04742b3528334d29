/** The string operations the grid relies on, written out on `seq<char>`:
    ASCII lower-casing (`toLowerCase`), `indexOf` and the `>` comparison
    JavaScript applies to two strings (lexicographic, a proper prefix being
    the smaller). A `char` here is a Unicode scalar value, where JavaScript
    compares UTF-16 code units; the two orders differ only between a
    character above U+FFFF and one in U+E000 to U+FFFF. */
module Text {

  /** `toLowerCase` on one character, restricted to ASCII letters. */
  function LowerChar(c: char): char {
    if 'A' <= c <= 'Z' then (c as int + 32) as char else c
  }

  /** `toLowerCase` on a string, restricted to ASCII letters. */
  function Lower(s: string): (r: string)
    ensures |r| == |s|
    ensures forall i :: 0 <= i < |r| ==> !('A' <= r[i] <= 'Z')
    ensures forall i :: 0 <= i < |s| && !('A' <= s[i] <= 'Z') ==> r[i] == s[i]
    ensures forall i :: 0 <= i < |s| && 'A' <= s[i] <= 'Z' ==> r[i] as int == s[i] as int + 32
  {
    seq(|s|, i requires 0 <= i < |s| => LowerChar(s[i]))
  }

  /** Lower-casing commutes with concatenation: a query typed in two steps
      is lower-cased as the two lower-cased halves. */
  lemma LowerAppend(a: string, b: string)
    ensures Lower(a + b) == Lower(a) + Lower(b)
  {
    assert forall i :: 0 <= i < |a + b| ==> Lower(a + b)[i] == (Lower(a) + Lower(b))[i];
  }

  /** `q` occurs in `s` starting at position `i`. */
  predicate OccursAt(s: string, q: string, i: int) {
    0 <= i && i + |q| <= |s| && s[i..i + |q|] == q
  }

  /** `q` occurs somewhere in `s`, i.e. `s.indexOf(q) > -1`. */
  ghost predicate Contains(s: string, q: string) {
    exists i :: OccursAt(s, q, i)
  }

  /** `s.indexOf(q, from)`: the first position at or after `from` where `q`
      occurs, or -1 when there is none. */
  function IndexOfFrom(s: string, q: string, from: nat): (r: int)
    ensures r == -1 || (from <= r && OccursAt(s, q, r))
    ensures r == -1 ==> forall i :: from <= i ==> !OccursAt(s, q, i)
    ensures r != -1 ==> forall i :: from <= i < r ==> !OccursAt(s, q, i)
    decreases |s| - from
  {
    if from + |q| > |s| then -1
    else if s[from..from + |q|] == q then from
    else IndexOfFrom(s, q, from + 1)
  }

  /** `s.indexOf(q)`: a position where `q` occurs, or -1 when it occurs
      nowhere. */
  function IndexOf(s: string, q: string): (r: int)
    ensures r == -1 || (0 <= r && OccursAt(s, q, r))
    ensures r == -1 ==> forall i :: !OccursAt(s, q, i)
  {
    IndexOfFrom(s, q, 0)
  }

  /** `indexOf(q) > -1` is exactly "`q` occurs in `s`"; when it succeeds it
      names the first occurrence. */
  lemma IndexOfFindsFirst(s: string, q: string)
    ensures IndexOf(s, q) > -1 <==> Contains(s, q)
    ensures IndexOf(s, q) > -1 ==>
      OccursAt(s, q, IndexOf(s, q)) && forall i :: 0 <= i < IndexOf(s, q) ==> !OccursAt(s, q, i)
  {
  }

  /** Substring containment is transitive: if `s` contains `m` and `m`
      contains `q`, then `s` contains `q`. */
  lemma ContainsTransitive(s: string, m: string, q: string)
    requires Contains(s, m) && Contains(m, q)
    ensures Contains(s, q)
  {
    var i :| OccursAt(s, m, i);
    var j :| OccursAt(m, q, j);
    forall k | 0 <= k < |q|
      ensures s[i + j + k] == q[k]
    {
      assert q[k] == m[j + k] == s[i..i + |m|][j + k];
    }
    assert s[i + j..i + j + |q|] == q;
    assert OccursAt(s, q, i + j);
  }

  /** A string contains each of its prefixes. */
  lemma ContainsPrefix(a: string, b: string)
    ensures Contains(a + b, a)
  {
    assert OccursAt(a + b, a, 0) by { assert (a + b)[0..|a|] == a; }
  }

  /** JavaScript's `b < a` (equivalently `a > b`) on two strings:
      lexicographic on characters, a proper prefix being smaller. */
  predicate Less(a: string, b: string): (r: bool)
    ensures r ==> a != b
    ensures |a| < |b| && a == b[..|a|] ==> r
    decreases |a|
  {
    if |b| == 0 then false
    else if |a| == 0 then true
    else if a[0] != b[0] then a[0] < b[0]
    else
      assert |a| < |b| && a == b[..|a|] ==> a[1..] == b[1..][..|a| - 1];
      Less(a[1..], b[1..])
  }

  /** No string is smaller than itself. */
  lemma {:induction false} LessIrreflexive(a: string)
    ensures !Less(a, a)
    decreases |a|
  {
    if |a| > 0 { LessIrreflexive(a[1..]); }
  }

  /** `<` on strings is asymmetric. */
  lemma {:induction false} LessAsymmetric(a: string, b: string)
    requires Less(a, b)
    ensures !Less(b, a)
    decreases |a|
  {
    if |a| > 0 && |b| > 0 && a[0] == b[0] { LessAsymmetric(a[1..], b[1..]); }
  }

  /** `<` on strings is transitive. */
  lemma {:induction false} LessTransitive(a: string, b: string, c: string)
    requires Less(a, b) && Less(b, c)
    ensures Less(a, c)
    decreases |a|
  {
    if |a| > 0 && a[0] == b[0] && b[0] == c[0] {
      LessTransitive(a[1..], b[1..], c[1..]);
    }
  }

  /** Two different strings are ordered one way or the other. */
  lemma {:induction false} LessTotal(a: string, b: string)
    requires a != b
    ensures Less(a, b) || Less(b, a)
    decreases |a|
  {
    if |a| > 0 && |b| > 0 && a[0] == b[0] {
      assert a == [a[0]] + a[1..] && b == [b[0]] + b[1..];
      LessTotal(a[1..], b[1..]);
    }
  }
}
