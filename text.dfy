/** Text primitives the rule engine relies on: Python's `str.strip()`,
    substring containment (`k in s`), ASCII upper-casing and the code-point
    order that Python uses to compare strings. */
module Text {

  /** The characters for which Python's `str.isspace()` is true: exactly the
      set that `str.strip()` with no argument removes and that `\s` matches in
      a `str` regular expression. */
  predicate IsSpace(c: char) {
    || c == ' '
    || ('\t' <= c <= '\r')
    || ('\U{1C}' <= c <= '\U{1F}')
    || c == '\U{85}' || c == '\U{A0}' || c == '\U{1680}'
    || ('\U{2000}' <= c <= '\U{200A}')
    || c == '\U{2028}' || c == '\U{2029}' || c == '\U{202F}'
    || c == '\U{205F}' || c == '\U{3000}'
  }

  predicate AllSpace(s: string) {
    forall i :: 0 <= i < |s| ==> IsSpace(s[i])
  }

  /** ASCII decimal digit (what `\d` is taken to match). */
  predicate IsDigit(c: char) {
    '0' <= c <= '9'
  }

  predicate AllDigits(s: string) {
    forall i :: 0 <= i < |s| ==> IsDigit(s[i])
  }

  // ---------------------------------------------------------------- strip

  function TrimLeft(s: string): (r: string)
    ensures |r| <= |s|
  {
    if s != [] && IsSpace(s[0]) then TrimLeft(s[1..]) else s
  }

  function TrimRight(s: string): (r: string)
    ensures |r| <= |s|
  {
    if s != [] && IsSpace(s[|s| - 1]) then TrimRight(s[..|s| - 1]) else s
  }

  /** Python's `s.strip()`; `norm` in the source is this on a text cell. */
  function Trim(s: string): (r: string)
    ensures |r| <= |s|
  {
    TrimRight(TrimLeft(s))
  }

  lemma {:induction false} TrimLeftFacts(s: string)
    ensures var r := TrimLeft(s);
      && r == s[|s| - |r|..]
      && (forall q :: 0 <= q < |s| - |r| ==> IsSpace(s[q]))
      && (r == [] || !IsSpace(r[0]))
  {
    if s != [] && IsSpace(s[0]) {
      TrimLeftFacts(s[1..]);
    }
  }

  lemma {:induction false} TrimRightFacts(s: string)
    ensures var r := TrimRight(s);
      && r == s[..|r|]
      && (forall q :: |r| <= q < |s| ==> IsSpace(s[q]))
      && (r == [] || !IsSpace(r[|r| - 1]))
  {
    if s != [] && IsSpace(s[|s| - 1]) {
      TrimRightFacts(s[..|s| - 1]);
    }
  }

  /** The stripped text is a slice of the input with only white space cut
      off at either end, and it neither starts nor ends with white space. */
  lemma TrimIsSlice(s: string) returns (i: nat, j: nat)
    ensures i <= j <= |s| && Trim(s) == s[i..j]
    ensures forall q :: 0 <= q < i ==> IsSpace(s[q])
    ensures forall q :: j <= q < |s| ==> IsSpace(s[q])
    ensures Trim(s) == [] || (!IsSpace(Trim(s)[0]) && !IsSpace(Trim(s)[|Trim(s)| - 1]))
  {
    var l := TrimLeft(s);
    TrimLeftFacts(s);
    TrimRightFacts(l);
    i := |s| - |l|;
    j := i + |TrimRight(l)|;
    assert forall q :: j <= q < |s| ==> l[q - i] == s[q];
  }

  lemma SliceOfSlice(s: string, i: int, j: int, a: int, b: int)
    requires 0 <= i <= j <= |s| && 0 <= a <= b <= j - i
    ensures s[i..j][a..b] == s[i + a..i + b]
  {
    assert |s[i..j][a..b]| == |s[i + a..i + b]|;
    forall q | 0 <= q < b - a
      ensures s[i..j][a..b][q] == s[i + a..i + b][q]
    {
    }
  }

  lemma {:induction false} TrimLeftSkip(a: string, t: string)
    requires AllSpace(a)
    ensures TrimLeft(a + t) == TrimLeft(t)
  {
    if a == [] {
      assert a + t == t;
    } else {
      assert (a + t)[0] == a[0] && IsSpace(a[0]);
      assert (a + t)[1..] == a[1..] + t;
      assert forall q :: 0 <= q < |a| - 1 ==> a[1..][q] == a[q + 1];
      TrimLeftSkip(a[1..], t);
    }
  }

  lemma {:induction false} TrimRightSkip(t: string, b: string)
    requires AllSpace(b)
    ensures TrimRight(t + b) == TrimRight(t)
  {
    if b == [] {
      assert t + b == t;
    } else {
      assert (t + b)[|t + b| - 1] == b[|b| - 1];
      assert (t + b)[..|t + b| - 1] == t + b[..|b| - 1];
      TrimRightSkip(t, b[..|b| - 1]);
    }
  }

  lemma {:induction false} TrimLeftAppend(s: string, t: string)
    requires TrimLeft(s) != []
    ensures TrimLeft(s + t) == TrimLeft(s) + t
  {
    if IsSpace(s[0]) {
      assert (s + t)[1..] == s[1..] + t;
      TrimLeftAppend(s[1..], t);
    } else {
      assert (s + t)[0] == s[0];
    }
  }

  /** Surrounding white space never changes what `strip()` returns. */
  lemma {:induction false} TrimPadding(a: string, s: string, b: string)
    requires AllSpace(a) && AllSpace(b)
    ensures Trim(a + s + b) == Trim(s)
  {
    assert a + s + b == a + (s + b);
    TrimLeftSkip(a, s + b);
    if TrimLeft(s) != [] {
      TrimLeftAppend(s, b);
      TrimRightSkip(TrimLeft(s), b);
    } else {
      TrimLeftFacts(s);
      TrimLeftSkip(s, b);
      TrimLeftSkip(b, []);
      assert b + [] == b;
    }
  }

  /** A text with no white space at either end is its own stripped form. */
  lemma TrimSolid(s: string)
    requires s == [] || (!IsSpace(s[0]) && !IsSpace(s[|s| - 1]))
    ensures Trim(s) == s
  {
    if s != [] {
      assert TrimLeft(s) == s;
      assert TrimRight(s) == s;
    }
  }

  /** Stripping twice is stripping once. */
  lemma TrimIdempotent(s: string)
    ensures Trim(Trim(s)) == Trim(s)
  {
    var i, j := TrimIsSlice(s);
    TrimSolid(Trim(s));
  }

  // ---------------------------------------------------------------- substring

  predicate OccursAt(s: string, k: string, i: int) {
    0 <= i <= |s| - |k| && s[i..i + |k|] == k
  }

  /** Python's `k in s` for strings. */
  predicate Contains(s: string, k: string) {
    exists i | 0 <= i <= |s| - |k| :: OccursAt(s, k, i)
  }

  /** `any(k in s for k in ks)`. */
  predicate ContainsAny(s: string, ks: seq<string>) {
    exists k | k in ks :: Contains(s, k)
  }

  /** A string that neither starts nor ends with white space. */
  predicate Solid(k: string) {
    k != [] && !IsSpace(k[0]) && !IsSpace(k[|k| - 1])
  }

  lemma ContainsMiddle(a: string, k: string, b: string)
    ensures Contains(a + k + b, k)
  {
    assert (a + k + b)[|a|..|a| + |k|] == k;
    assert OccursAt(a + k + b, k, |a|);
  }

  lemma ContainsTrimOnly(s: string, k: string)
    requires Contains(Trim(s), k)
    ensures Contains(s, k)
  {
    var i, j := TrimIsSlice(s);
    var t := Trim(s);
    var p :| 0 <= p <= |t| - |k| && OccursAt(t, k, p);
    SliceOfSlice(s, i, j, p, p + |k|);
    assert OccursAt(s, k, i + p);
  }

  lemma ContainsKeepsSolid(s: string, k: string)
    requires Solid(k) && Contains(s, k)
    ensures Contains(Trim(s), k)
  {
    var i, j := TrimIsSlice(s);
    var p :| 0 <= p <= |s| - |k| && OccursAt(s, k, p);
    SolidOccurrenceInside(s, k, p, i, j);
    SliceOfSlice(s, i, j, p - i, p - i + |k|);
    var t := s[i..j];
    assert OccursAt(t, k, p - i);
    assert Contains(t, k);
    assert t == Trim(s);
  }

  lemma SolidOccurrenceInside(s: string, k: string, p: int, i: int, j: int)
    requires Solid(k) && OccursAt(s, k, p) && 0 <= i <= j <= |s|
    requires forall q :: 0 <= q < i ==> IsSpace(s[q])
    requires forall q :: j <= q < |s| ==> IsSpace(s[q])
    ensures i <= p && p + |k| <= j
  {
    assert s[p..p + |k|][0] == s[p];
    assert s[p..p + |k|][|k| - 1] == s[p + |k| - 1];
  }

  /** A key word that neither starts nor ends with white space occurs in the
      stripped text exactly when it occurs in the text. */
  lemma ContainsTrim(s: string, k: string)
    requires Solid(k)
    ensures Contains(Trim(s), k) <==> Contains(s, k)
  {
    if Contains(Trim(s), k) {
      ContainsTrimOnly(s, k);
    }
    if Contains(s, k) {
      ContainsKeepsSolid(s, k);
    }
  }

  /** An occurrence of `big` carries an occurrence of every part of it. */
  lemma ContainsPart(s: string, a: string, k: string, b: string)
    requires Contains(s, a + k + b)
    ensures Contains(s, k)
  {
    var big := a + k + b;
    var p :| 0 <= p <= |s| - |big| && OccursAt(s, big, p);
    assert big[|a|..|a| + |k|] == k;
    SliceOfSlice(s, p, p + |big|, |a|, |a| + |k|);
    assert OccursAt(s, k, p + |a|);
  }

  // ---------------------------------------------------------------- upper

  function UpperChar(c: char): char {
    if 'a' <= c <= 'z' then (c as int - 32) as char else c
  }

  /** `str.upper()` restricted to ASCII letters. */
  function Upper(s: string): (r: string)
    ensures |r| == |s|
    ensures forall i :: 0 <= i < |s| ==> r[i] == UpperChar(s[i])
  {
    seq(|s|, i requires 0 <= i < |s| => UpperChar(s[i]))
  }

  predicate IsLowerAscii(c: char) {
    'a' <= c <= 'z'
  }

  /** Upper-casing leaves no lower-case ASCII letter, changes nothing the
      second time, and leaves a text unchanged exactly when it has no
      lower-case ASCII letter. */
  lemma UpperFacts(s: string)
    ensures forall i | 0 <= i < |s| :: !IsLowerAscii(Upper(s)[i])
    ensures Upper(Upper(s)) == Upper(s)
    ensures Upper(s) == s <==> forall i | 0 <= i < |s| :: !IsLowerAscii(s[i])
  {
    if Upper(s) == s {
      forall i | 0 <= i < |s|
        ensures !IsLowerAscii(s[i])
      {
        assert Upper(s)[i] == s[i];
      }
    }
  }

  // ---------------------------------------------------------------- order

  /** Python's `a < b` on `str`: lexicographic by code point. */
  predicate LexLess(a: string, b: string) {
    if a == [] then b != []
    else if b == [] then false
    else a[0] < b[0] || (a[0] == b[0] && LexLess(a[1..], b[1..]))
  }

  predicate LexLe(a: string, b: string) {
    a == b || LexLess(a, b)
  }

  lemma LexLessIrreflexive(a: string)
    ensures !LexLess(a, a)
  {
  }

  lemma LexLessAsymmetric(a: string, b: string)
    ensures !(LexLess(a, b) && LexLess(b, a))
  {
  }

  lemma {:induction false} LexLessTrichotomy(a: string, b: string)
    ensures LexLess(a, b) || a == b || LexLess(b, a)
  {
    if a != [] && b != [] && a[0] == b[0] {
      LexLessTrichotomy(a[1..], b[1..]);
      if a[1..] == b[1..] {
        assert a == [a[0]] + a[1..] && b == [b[0]] + b[1..];
      }
    }
  }

  lemma {:induction false} LexLessTransitive(a: string, b: string, c: string)
    requires LexLess(a, b) && LexLess(b, c)
    ensures LexLess(a, c)
  {
    if a != [] && a[0] == b[0] && b[0] == c[0] {
      LexLessTransitive(a[1..], b[1..], c[1..]);
    }
  }

  lemma LexLeTransitive(a: string, b: string, c: string)
    requires LexLe(a, b) && LexLe(b, c)
    ensures LexLe(a, c)
  {
    if a != b && b != c {
      LexLessTransitive(a, b, c);
    }
  }

  lemma LexLeTotal(a: string, b: string)
    ensures LexLe(a, b) || LexLe(b, a)
  {
    LexLessTrichotomy(a, b);
  }

  lemma LexLeAntisymmetric(a: string, b: string)
    requires LexLe(a, b) && LexLe(b, a)
    ensures a == b
  {
    LexLessAsymmetric(a, b);
  }
}
