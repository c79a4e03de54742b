/**
 * String helpers for the page scripts and the service worker: ASCII case
 * mapping, prefix / suffix / substring tests, `split(c).pop()` and a global
 * single-character `replace`.
 */
module Strings {

  function LowerChar(c: char): char {
    if 'A' <= c <= 'Z' then (c as int + 32) as char else c
  }

  function UpperChar(c: char): char {
    if 'a' <= c <= 'z' then (c as int - 32) as char else c
  }

  /** `toLowerCase()`, on the ASCII letters. */
  function Lower(s: string): (r: string)
    ensures |r| == |s|
    ensures forall i :: 0 <= i < |s| ==> r[i] == LowerChar(s[i])
  {
    if s == [] then [] else [LowerChar(s[0])] + Lower(s[1..])
  }

  /** `toUpperCase()`, on the ASCII letters. */
  function Upper(s: string): (r: string)
    ensures |r| == |s|
    ensures forall i :: 0 <= i < |s| ==> r[i] == UpperChar(s[i])
  {
    if s == [] then [] else [UpperChar(s[0])] + Upper(s[1..])
  }

  lemma LowerUpper(s: string)
    ensures Lower(Upper(s)) == Lower(s)
    ensures Lower(Lower(s)) == Lower(s)
  {
  }

  /** A string with no upper-case ASCII letter is its own lower-case form. */
  lemma LowerOfLowercase(t: string)
    requires forall k :: 0 <= k < |t| ==> !('A' <= t[k] <= 'Z')
    ensures Lower(t) == t
  {
  }

  lemma LowerAppend(a: string, b: string)
    ensures Lower(a + b) == Lower(a) + Lower(b)
  {
  }

  lemma UpperAppend(a: string, b: string)
    ensures Upper(a + b) == Upper(a) + Upper(b)
  {
  }

  predicate StartsWith(s: string, prefix: string) {
    |prefix| <= |s| && s[..|prefix|] == prefix
  }

  predicate EndsWith(s: string, suffix: string) {
    |suffix| <= |s| && s[|s| - |suffix|..] == suffix
  }

  /** `s.includes(sub)`. */
  predicate Contains(s: string, sub: string)
    decreases |s|
  {
    StartsWith(s, sub) || (|s| > 0 && Contains(s[1..], sub))
  }

  /** `sub` occurs in `s` starting at offset `i`. */
  predicate OccursAt(s: string, sub: string, i: int) {
    0 <= i <= |s| - |sub| && s[i..i + |sub|] == sub
  }

  /** Contains holds exactly when `sub` occurs at some offset of `s`. */
  lemma {:induction false} ContainsAt(s: string, sub: string)
    ensures Contains(s, sub) <==> exists i :: OccursAt(s, sub, i)
    decreases |s|
  {
    if StartsWith(s, sub) {
      assert OccursAt(s, sub, 0);
    }
    if |s| > 0 {
      ContainsAt(s[1..], sub);
      if exists i :: OccursAt(s, sub, i) {
        var i :| OccursAt(s, sub, i);
        if i > 0 {
          assert OccursAt(s[1..], sub, i - 1);
        }
      }
      if Contains(s[1..], sub) {
        var i :| OccursAt(s[1..], sub, i);
        assert OccursAt(s, sub, i + 1);
      }
    }
  }

  /** Occurring inside something that occurs in `s` is occurring in `s`. */
  lemma ContainsTransitive(s: string, t: string, u: string)
    requires Contains(s, t) && Contains(t, u)
    ensures Contains(s, u)
  {
    ContainsAt(s, t);
    ContainsAt(t, u);
    var i :| OccursAt(s, t, i);
    var j :| OccursAt(t, u, j);
    forall k | 0 <= k < |u|
      ensures s[i + j + k] == u[k]
    {
      assert t[j + k] == u[k];
      assert s[i..i + |t|][j + k] == s[i + j + k];
    }
    assert OccursAt(s, u, i + j);
    ContainsAt(s, u);
  }

  /** A one-character string occurs in `s` exactly when that character does. */
  lemma ContainsChar(s: string, c: char)
    ensures Contains(s, [c]) <==> c in s
  {
    ContainsAt(s, [c]);
    if c in s {
      var i :| 0 <= i < |s| && s[i] == c;
      assert OccursAt(s, [c], i);
    }
    if Contains(s, [c]) {
      var i :| OccursAt(s, [c], i);
      assert s[i] == c;
    }
  }

  /** The text after the last `c`, or all of `s` when it has no `c`: `s.split(c).pop()`. */
  function AfterLast(s: string, c: char): (r: string)
  {
    if s == [] then []
    else if s[|s| - 1] == c then []
    else AfterLast(s[..|s| - 1], c) + [s[|s| - 1]]
  }

  /**
   * The popped piece holds no `c`, ends `s`, is all of `s` when `s` has no
   * `c`, and is preceded by a `c` otherwise.
   */
  lemma AfterLastSpec(s: string, c: char)
    ensures var r := AfterLast(s, c);
            && c !in r
            && EndsWith(s, r)
            && (c !in s ==> r == s)
            && (c in s ==> |r| < |s| && s[|s| - |r| - 1] == c)
  {
    AfterLastNoSeparator(s, c);
    AfterLastSuffix(s, c);
    AfterLastWhole(s, c);
    AfterLastAfterSeparator(s, c);
  }

  lemma {:induction false} AfterLastNoSeparator(s: string, c: char)
    ensures c !in AfterLast(s, c)
    decreases |s|
  {
    if s != [] && s[|s| - 1] != c {
      AfterLastNoSeparator(s[..|s| - 1], c);
    }
  }

  lemma {:induction false} AfterLastSuffix(s: string, c: char)
    ensures EndsWith(s, AfterLast(s, c))
    decreases |s|
  {
    if s != [] && s[|s| - 1] != c {
      var p, x := s[..|s| - 1], s[|s| - 1];
      AfterLastSuffix(p, c);
      SnocEndsWith(p, AfterLast(p, c), x);
      assert s == p + [x];
    }
  }

  lemma {:induction false} AfterLastWhole(s: string, c: char)
    ensures c !in s ==> AfterLast(s, c) == s
    decreases |s|
  {
    if s != [] && c !in s {
      var p, x := s[..|s| - 1], s[|s| - 1];
      assert c !in p by {
        forall i | 0 <= i < |p|
          ensures p[i] != c
        {
          assert p[i] == s[i];
        }
      }
      AfterLastWhole(p, c);
      assert s == p + [x];
    }
  }

  lemma {:induction false} AfterLastAfterSeparator(s: string, c: char)
    ensures var r := AfterLast(s, c);
            c in s ==> |r| < |s| && s[|s| - |r| - 1] == c
    decreases |s|
  {
    if s != [] && s[|s| - 1] != c && c in s {
      var p, x := s[..|s| - 1], s[|s| - 1];
      assert s == p + [x];
      assert c in p;
      AfterLastAfterSeparator(p, c);
      SnocKeepsIndex(p, x, |p| - |AfterLast(p, c)| - 1);
    }
  }

  lemma SnocEndsWith(s: string, suffix: string, x: char)
    requires EndsWith(s, suffix)
    ensures EndsWith(s + [x], suffix + [x])
  {
    assert (s + [x])[|s| - |suffix|..] == s[|s| - |suffix|..] + [x];
  }

  lemma SnocKeepsIndex(s: string, x: char, i: int)
    requires 0 <= i < |s|
    ensures (s + [x])[i] == s[i]
  {
  }

  lemma AfterLastSnoc(q: string, y: char, c: char)
    ensures AfterLast(q + [y], c) == if y == c then [] else AfterLast(q, c) + [y]
  {
    assert (q + [y])[..|q|] == q;
  }

  /** Case mapping does not move a non-letter separator, so it commutes with `split(c).pop()`. */
  lemma {:induction false} AfterLastLower(s: string, c: char)
    requires !('A' <= c <= 'Z') && !('a' <= c <= 'z')
    ensures AfterLast(Lower(s), c) == Lower(AfterLast(s, c))
    decreases |s|
  {
    if s != [] {
      var p, x := s[..|s| - 1], s[|s| - 1];
      assert s == p + [x];
      LowerAppend(p, [x]);
      assert LowerChar(x) == c <==> x == c;
      AfterLastSnoc(p, x, c);
      AfterLastSnoc(Lower(p), LowerChar(x), c);
      AfterLastLower(p, c);
      LowerAppend(AfterLast(p, c), [x]);
    }
  }

  lemma {:induction false} AfterLastUpper(s: string, c: char)
    requires !('A' <= c <= 'Z') && !('a' <= c <= 'z')
    ensures AfterLast(Upper(s), c) == Upper(AfterLast(s, c))
    decreases |s|
  {
    if s != [] {
      var p, x := s[..|s| - 1], s[|s| - 1];
      assert s == p + [x];
      UpperAppend(p, [x]);
      assert UpperChar(x) == c <==> x == c;
      AfterLastSnoc(p, x, c);
      AfterLastSnoc(Upper(p), UpperChar(x), c);
      AfterLastUpper(p, c);
      UpperAppend(AfterLast(p, c), [x]);
    }
  }

  /** Every `c` in `s` replaced by `rep`: `s.replace(/c/g, rep)`. */
  function ReplaceAll(s: string, c: char, rep: string): (r: string)
    ensures c !in rep ==> c !in r
    ensures forall d :: d in r ==> d in s || d in rep
  {
    if s == [] then [] else (if s[0] == c then rep else [s[0]]) + ReplaceAll(s[1..], c, rep)
  }

  lemma {:induction false} ReplaceAllAppend(a: string, b: string, c: char, rep: string)
    ensures ReplaceAll(a + b, c, rep) == ReplaceAll(a, c, rep) + ReplaceAll(b, c, rep)
  {
    if a != [] {
      var head := if a[0] == c then rep else [a[0]];
      assert (a + b)[0] == a[0] && (a + b)[1..] == a[1..] + b;
      ReplaceAllAppend(a[1..], b, c, rep);
      assert ReplaceAll(a + b, c, rep) == head + (ReplaceAll(a[1..], c, rep) + ReplaceAll(b, c, rep));
    } else {
      assert a + b == b;
    }
  }

  lemma {:induction false} ReplaceAllAbsent(s: string, c: char, rep: string)
    requires c !in s
    ensures ReplaceAll(s, c, rep) == s
  {
    if s != [] {
      ReplaceAllAbsent(s[1..], c, rep);
    }
  }
}
