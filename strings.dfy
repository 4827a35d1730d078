/** The pieces of Go's `strings` package and of Go's string ordering that the
    migration engine and the scaffolder rely on, over `string == seq<char>`.
    Case mapping is ASCII only. */
module Strings {

  // ---------------------------------------------------------------------
  // Two sequence identities, stated once so that long proofs can cite them
  // ---------------------------------------------------------------------

  lemma AppendAssoc<T>(a: seq<T>, b: seq<T>, c: seq<T>)
    ensures (a + b) + c == a + (b + c)
  {
  }

  lemma DropPrefix<T>(a: seq<T>, b: seq<T>)
    ensures (a + b)[|a|..] == b
  {
  }

  // ---------------------------------------------------------------------
  // Character classes and ASCII case mapping
  // ---------------------------------------------------------------------

  predicate IsUpper(c: char) { 'A' <= c <= 'Z' }

  predicate IsLower(c: char) { 'a' <= c <= 'z' }

  predicate IsDigit(c: char) { '0' <= c <= '9' }

  /** ASCII lower-casing of one character (Go's `strings.ToLower` on ASCII). */
  function ToLower(c: char): (r: char)
    ensures !IsUpper(r)
    ensures IsUpper(c) ==> IsLower(r) && r as int == c as int + 32
    ensures !IsUpper(c) ==> r == c
  {
    if IsUpper(c) then (c as int + 32) as char else c
  }

  /** ASCII upper-casing of one character (Go's `strings.ToUpper` on ASCII). */
  function ToUpper(c: char): (r: char)
    ensures !IsLower(r)
    ensures IsLower(c) ==> IsUpper(r) && r as int == c as int - 32
    ensures !IsLower(c) ==> r == c
  {
    if IsLower(c) then (c as int - 32) as char else c
  }

  lemma LowerOfUpper(c: char)
    requires IsLower(c)
    ensures ToLower(ToUpper(c)) == c
  {
  }

  /** Go's `strings.ToLower` on an ASCII string. */
  function LowerAll(s: string): (r: string)
    ensures |r| == |s|
    ensures forall i :: 0 <= i < |s| ==> r[i] == ToLower(s[i])
    ensures forall i :: 0 <= i < |r| ==> !IsUpper(r[i])
  {
    seq(|s|, i requires 0 <= i < |s| => ToLower(s[i]))
  }

  /** `strings.ReplaceAll(s, [a], [b])` for one-character patterns. */
  function ReplaceChar(s: string, a: char, b: char): (r: string)
    ensures |r| == |s|
    ensures forall i :: 0 <= i < |s| ==> r[i] == (if s[i] == a then b else s[i])
  {
    seq(|s|, i requires 0 <= i < |s| => if s[i] == a then b else s[i])
  }

  /** Number of occurrences of `c` in `s`. */
  function Count(s: string, c: char): (n: nat)
    ensures n <= |s|
    ensures n == 0 <==> c !in s
  {
    if |s| == 0 then 0 else (if s[0] == c then 1 else 0) + Count(s[1..], c)
  }

  // ---------------------------------------------------------------------
  // Prefixes and suffixes
  // ---------------------------------------------------------------------

  predicate StartsWith(s: string, prefix: string) {
    |prefix| <= |s| && s[..|prefix|] == prefix
  }

  predicate EndsWith(s: string, suffix: string) {
    |suffix| <= |s| && s[|s| - |suffix|..] == suffix
  }

  /** Go's `strings.TrimSuffix`: drops `suffix` when `s` ends with it. */
  function TrimSuffix(s: string, suffix: string): (r: string)
    ensures EndsWith(s, suffix) ==> r + suffix == s
    ensures !EndsWith(s, suffix) ==> r == s
  {
    if EndsWith(s, suffix) then s[..|s| - |suffix|] else s
  }

  /** Go's `strings.TrimPrefix`: drops `prefix` when `s` starts with it. */
  function TrimPrefix(s: string, prefix: string): (r: string)
    ensures StartsWith(s, prefix) ==> prefix + r == s
    ensures !StartsWith(s, prefix) ==> r == s
  {
    if StartsWith(s, prefix) then s[|prefix|..] else s
  }

  lemma EndsWithAppend(s: string, suffix: string)
    ensures EndsWith(s + suffix, suffix)
  {
    assert (s + suffix)[|s|..] == suffix;
  }

  // ---------------------------------------------------------------------
  // White space (Go's unicode.IsSpace) and strings.TrimSpace
  // ---------------------------------------------------------------------

  predicate IsSpace(c: char) {
    var n := c as int;
    n == 0x20 || (0x09 <= n <= 0x0D) || n == 0x85 || n == 0xA0 || n == 0x1680
    || (0x2000 <= n <= 0x200A) || n == 0x2028 || n == 0x2029 || n == 0x202F
    || n == 0x205F || n == 0x3000
  }

  /** Drops leading white space. */
  function TrimLeft(s: string): (r: string)
    ensures |r| <= |s|
  {
    if |s| > 0 && IsSpace(s[0]) then TrimLeft(s[1..]) else s
  }

  /** What TrimLeft leaves is a suffix of `s`, everything it drops is white
      space, and the result does not start with any. */
  lemma {:induction false} TrimLeftFacts(s: string)
    ensures var r := TrimLeft(s);
      && r == s[|s| - |r|..]
      && (forall k :: 0 <= k < |s| - |r| ==> IsSpace(s[k]))
      && (r != [] ==> !IsSpace(r[0]))
  {
    if |s| > 0 && IsSpace(s[0]) {
      TrimLeftFacts(s[1..]);
      var r := TrimLeft(s);
      assert s[1..][|s| - 1 - |r|..] == s[|s| - |r|..];
      forall k | 1 <= k < |s| - |r| ensures IsSpace(s[k]) {
        assert s[k] == s[1..][k - 1];
      }
    }
  }

  /** Drops trailing white space: the mirror image of TrimLeft. */
  function TrimRight(s: string): (r: string)
    ensures |r| <= |s|
  {
    if |s| > 0 && IsSpace(s[|s| - 1]) then TrimRight(s[..|s| - 1]) else s
  }

  lemma {:induction false} TrimRightFacts(s: string)
    ensures var r := TrimRight(s);
      && r == s[..|r|]
      && (forall k :: |r| <= k < |s| ==> IsSpace(s[k]))
      && (r != [] ==> !IsSpace(r[|r| - 1]))
  {
    if |s| > 0 && IsSpace(s[|s| - 1]) {
      var t := s[..|s| - 1];
      TrimRightFacts(t);
      var r := TrimRight(s);
      assert t[..|r|] == s[..|r|];
      forall k | |r| <= k < |s| - 1 ensures IsSpace(s[k]) {
        assert s[k] == t[k];
      }
    }
  }

  /** Go's `strings.TrimSpace`. */
  function TrimSpace(s: string): (r: string)
    ensures |r| <= |s|
  {
    TrimRight(TrimLeft(s))
  }

  /** TrimSpace leaves neither leading nor trailing white space. */
  lemma TrimSpaceClean(s: string)
    ensures var r := TrimSpace(s);
      r != [] ==> !IsSpace(r[0]) && !IsSpace(r[|r| - 1])
  {
    var l := TrimLeft(s);
    TrimLeftFacts(s);
    TrimRightFacts(l);
    var r := TrimRight(l);
    if r != [] {
      assert r[0] == l[0];
    }
  }

  /** A string that ends in a non-space does not trim to nothing. */
  lemma TrimSpaceNonEmpty(s: string)
    requires |s| > 0 && !IsSpace(s[|s| - 1])
    ensures TrimSpace(s) != []
  {
    var l := TrimLeft(s);
    TrimLeftFacts(s);
    assert l[|l| - 1] == s[|s| - 1];
  }

  // ---------------------------------------------------------------------
  // strings.Split and strings.Join with a one-character separator
  // ---------------------------------------------------------------------

  /** Go's `strings.Split(s, [sep])`: the maximal runs between separators,
      always at least one (`Split("", sep) == [""]`). */
  function Split(s: string, sep: char): (parts: seq<string>)
    ensures |parts| >= 1
  {
    if |s| == 0 then [[]]
    else
      var rest := Split(s[1..], sep);
      if s[0] == sep then [[]] + rest
      else [[s[0]] + rest[0]] + rest[1..]
  }

  /** A split has one more piece than there are separators, and no piece
      holds the separator. */
  lemma {:induction false} SplitParts(s: string, sep: char)
    ensures |Split(s, sep)| == Count(s, sep) + 1
    ensures forall i :: 0 <= i < |Split(s, sep)| ==> sep !in Split(s, sep)[i]
  {
    if |s| > 0 {
      SplitParts(s[1..], sep);
      var rest := Split(s[1..], sep);
      var parts := Split(s, sep);
      if s[0] != sep {
        forall i | 1 <= i < |parts| ensures parts[i] == rest[i] {
        }
      } else {
        forall i | 1 <= i < |parts| ensures parts[i] == rest[i - 1] {
        }
      }
    }
  }

  /** Go's `strings.Join(parts, [sep])`. */
  function Join(parts: seq<string>, sep: char): string
  {
    if |parts| == 0 then []
    else if |parts| == 1 then parts[0]
    else parts[0] + [sep] + Join(parts[1..], sep)
  }

  /** Go's `strings.Join(parts, "")`. */
  function Concat(parts: seq<string>): string
  {
    if |parts| == 0 then [] else parts[0] + Concat(parts[1..])
  }

  /** Joining the pieces of a split gives back the original string. */
  lemma {:induction false} JoinSplit(s: string, sep: char)
    ensures Join(Split(s, sep), sep) == s
  {
    if |s| > 0 {
      var rest := Split(s[1..], sep);
      JoinSplit(s[1..], sep);
      if s[0] == sep {
        assert ([[]] + rest)[1..] == rest;
      } else {
        var parts := [[s[0]] + rest[0]] + rest[1..];
        if |rest| > 1 {
          assert parts[1..] == rest[1..];
          assert Join(rest, sep) == rest[0] + [sep] + Join(rest[1..], sep);
        }
      }
    }
  }

  /** Splitting a join of separator-free pieces gives back the pieces. */
  lemma {:induction false} SplitJoin(parts: seq<string>, sep: char)
    requires |parts| >= 1
    requires forall i :: 0 <= i < |parts| ==> sep !in parts[i]
    ensures Split(Join(parts, sep), sep) == parts
  {
    var p := parts[0];
    if |parts| == 1 {
      SplitNoSep(p, sep);
    } else {
      SplitJoin(parts[1..], sep);
      SplitPrefix(p, Join(parts[1..], sep), sep);
    }
  }

  lemma {:induction false} SplitNoSep(p: string, sep: char)
    requires sep !in p
    ensures Split(p, sep) == [p]
  {
    if |p| > 0 {
      SplitNoSep(p[1..], sep);
      assert [p[0]] + p[1..] == p;
    }
  }

  /** Splitting `p + [sep] + q` for a separator-free `p` puts `p` in front of
      the pieces of `q`. */
  lemma {:induction false} SplitPrefix(p: string, q: string, sep: char)
    requires sep !in p
    ensures Split(p + [sep] + q, sep) == [p] + Split(q, sep)
  {
    if |p| == 0 {
      assert ([] + [sep] + q)[1..] == q;
    } else {
      var s := p + [sep] + q;
      assert s[0] == p[0] && p[0] in p;
      assert s[1..] == p[1..] + [sep] + q;
      SplitPrefix(p[1..], q, sep);
      var rest := Split(s[1..], sep);
      assert rest == [p[1..]] + Split(q, sep);
      assert rest[0] == p[1..] && rest[1..] == Split(q, sep);
      assert Split(s, sep) == [[p[0]] + rest[0]] + rest[1..];
      assert [p[0]] + p[1..] == p;
    }
  }

  lemma {:induction false} ConcatAppend(a: seq<string>, b: seq<string>)
    ensures Concat(a + b) == Concat(a) + Concat(b)
  {
    if |a| == 0 {
      assert a + b == b;
    } else {
      assert (a + b)[1..] == a[1..] + b;
      ConcatAppend(a[1..], b);
      assert Concat(a + b) == a[0] + (Concat(a[1..]) + Concat(b));
    }
  }

  // ---------------------------------------------------------------------
  // Go's string order (byte-wise, which is code point order for UTF-8)
  // ---------------------------------------------------------------------

  /** `a < b` on Go strings. (Dafny's own `<` on sequences is "proper prefix".) */
  predicate LexLess(a: string, b: string)
    decreases |a|
  {
    if |a| == 0 then |b| > 0
    else if |b| == 0 then false
    else if a[0] != b[0] then a[0] < b[0]
    else LexLess(a[1..], b[1..])
  }

  lemma {:induction false} LexIrreflexive(a: string)
    ensures !LexLess(a, a)
  {
    if |a| > 0 { LexIrreflexive(a[1..]); }
  }

  lemma {:induction false} LexAsymmetric(a: string, b: string)
    requires LexLess(a, b)
    ensures !LexLess(b, a)
  {
    if |a| > 0 && |b| > 0 && a[0] == b[0] { LexAsymmetric(a[1..], b[1..]); }
  }

  lemma {:induction false} LexTransitive(a: string, b: string, c: string)
    requires LexLess(a, b) && LexLess(b, c)
    ensures LexLess(a, c)
  {
    if |a| > 0 && a[0] == b[0] && b[0] == c[0] {
      LexTransitive(a[1..], b[1..], c[1..]);
    }
  }

  lemma {:induction false} LexTotal(a: string, b: string)
    ensures a == b || LexLess(a, b) || LexLess(b, a)
  {
    if |a| > 0 && |b| > 0 && a[0] == b[0] {
      LexTotal(a[1..], b[1..]);
      if a[1..] == b[1..] {
        assert a == [a[0]] + a[1..] && b == [b[0]] + b[1..];
      }
    }
  }

  /** Comparing two strings whose first blocks have the same length compares
      the first blocks, and the second blocks only when the first are equal. */
  lemma {:induction false} LexConcat(p1: string, q1: string, p2: string, q2: string)
    requires |p1| == |p2|
    ensures LexLess(p1 + q1, p2 + q2) <==> LexLess(p1, p2) || (p1 == p2 && LexLess(q1, q2))
  {
    if |p1| == 0 {
      assert p1 + q1 == q1 && p2 + q2 == q2;
    } else {
      assert (p1 + q1)[1..] == p1[1..] + q1;
      assert (p2 + q2)[1..] == p2[1..] + q2;
      LexConcat(p1[1..], q1, p2[1..], q2);
      if p1[0] == p2[0] && p1[1..] == p2[1..] {
        assert p1 == [p1[0]] + p1[1..] && p2 == [p2[0]] + p2[1..];
      }
    }
  }

  /** A list sorted ascending without repeats, as `filepath.Glob` returns it. */
  predicate StrictlySorted(xs: seq<string>) {
    forall i, j :: 0 <= i < j < |xs| ==> LexLess(xs[i], xs[j])
  }

  lemma SortedDistinct(xs: seq<string>, i: int, j: int)
    requires StrictlySorted(xs)
    requires 0 <= i < |xs| && 0 <= j < |xs| && i != j
    ensures xs[i] != xs[j]
  {
    if i < j { LexIrreflexive(xs[i]); } else { LexIrreflexive(xs[j]); }
  }
}
