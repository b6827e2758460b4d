/** String operations the scripts rely on: `str.lower()`, the substring test `k in s`,
    and Python's ordering of strings (code point by code point, a proper prefix first). */
module Text {

  /** Lower-cases an ASCII upper-case letter; every other character is unchanged. */
  function LowerChar(c: char): (r: char)
    ensures 'A' <= c <= 'Z' ==> 'a' <= r <= 'z'
    ensures !('A' <= c <= 'Z') ==> r == c
  {
    if 'A' <= c <= 'Z' then (c as int + 32) as char else c
  }

  /** `s.lower()`, restricted to ASCII letters. */
  function Lower(s: string): (r: string)
    ensures |r| == |s|
    ensures forall i :: 0 <= i < |s| ==> r[i] == LowerChar(s[i])
  {
    seq(|s|, i requires 0 <= i < |s| => LowerChar(s[i]))
  }

  /** `k` occurs in `s` starting at index `i`. */
  ghost predicate OccursAt(k: string, s: string, i: nat) {
    i + |k| <= |s| && s[i..i + |k|] == k
  }

  /** Python's `k in s` for strings: `k` is a substring of `s` (the empty string is a
      substring of every string). */
  predicate Contains(s: string, k: string)
    decreases |s|
  {
    |k| <= |s| && (s[..|k|] == k || Contains(s[1..], k))
  }

  lemma {:induction false} ContainsIff(s: string, k: string)
    ensures Contains(s, k) <==> exists i: nat :: OccursAt(k, s, i)
  {
    if |k| <= |s| {
      if s[..|k|] == k {
        assert OccursAt(k, s, 0);
      } else {
        ContainsIff(s[1..], k);
        if Contains(s[1..], k) {
          var i: nat :| OccursAt(k, s[1..], i);
          assert s[1..][i..i + |k|] == s[i + 1..i + 1 + |k|];
          assert OccursAt(k, s, i + 1);
        }
        if i: nat :| OccursAt(k, s, i) {
          assert i != 0;
          assert s[1..][i - 1..i - 1 + |k|] == s[i..i + |k|];
          assert OccursAt(k, s[1..], i - 1);
        }
      }
    }
  }

  /** Whatever contains `k` contains every substring of `k`. */
  lemma ContainsTransitive(s: string, k: string, sub: string)
    requires Contains(s, k)
    requires Contains(k, sub)
    ensures Contains(s, sub)
  {
    ContainsIff(s, k);
    ContainsIff(k, sub);
    var i: nat :| OccursAt(k, s, i);
    var j: nat :| OccursAt(sub, k, j);
    assert j + |sub| <= |k| && k[j..j + |sub|] == sub;
    forall m | 0 <= m < |sub| ensures s[i + j + m] == sub[m] {
      assert sub[m] == k[j + m] == s[i..i + |k|][j + m];
    }
    assert s[i + j..i + j + |sub|] == sub;
    assert OccursAt(sub, s, i + j);
    ContainsIff(s, sub);
  }

  /** Python's `a < b` on strings. */
  predicate LexLess(a: string, b: string)
    decreases |a|
  {
    if |a| == 0 then |b| > 0
    else if |b| == 0 then false
    else if a[0] != b[0] then a[0] < b[0]
    else LexLess(a[1..], b[1..])
  }

  lemma {:induction false} LexLessIrreflexive(a: string)
    ensures !LexLess(a, a)
  {
    if |a| > 0 {
      LexLessIrreflexive(a[1..]);
    }
  }

  lemma {:induction false} LexLessTransitive(a: string, b: string, c: string)
    requires LexLess(a, b) && LexLess(b, c)
    ensures LexLess(a, c)
  {
    if |a| > 0 && a[0] == b[0] && b[0] == c[0] {
      LexLessTransitive(a[1..], b[1..], c[1..]);
    }
  }

  lemma {:induction false} LexLessTotal(a: string, b: string)
    requires a != b
    ensures LexLess(a, b) || LexLess(b, a)
  {
    if |a| > 0 && |b| > 0 && a[0] == b[0] {
      assert a == [a[0]] + a[1..] && b == [b[0]] + b[1..];
      LexLessTotal(a[1..], b[1..]);
    }
  }

  lemma {:induction false} LexLessAsymmetric(a: string, b: string)
    requires LexLess(a, b)
    ensures !LexLess(b, a)
  {
    if |a| > 0 && a[0] == b[0] {
      LexLessAsymmetric(a[1..], b[1..]);
    }
  }
}
