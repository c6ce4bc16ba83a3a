/** The few Python string operations the builder relies on, with Python's
    semantics: `startswith`, `endswith`, `find`, `in`, `replace`, `split`,
    `strip`, `lower` and slicing with possibly negative bounds. */
module Strings {

  predicate StartsWith(s: string, prefix: string)
  {
    |prefix| <= |s| && s[..|prefix|] == prefix
  }

  predicate EndsWith(s: string, suffix: string)
  {
    |suffix| <= |s| && s[|s| - |suffix|..] == suffix
  }

  /** `sub` occurs in `s` starting at index `i`. */
  predicate OccursAt(s: string, sub: string, i: int)
  {
    0 <= i && i + |sub| <= |s| && s[i..i + |sub|] == sub
  }

  function FindFrom(s: string, sub: string, i: nat): (r: int)
    requires i <= |s|
    decreases |s| - i
    ensures r == -1 || (i <= r && OccursAt(s, sub, r))
    ensures forall j :: i <= j && (r == -1 || j < r) ==> !OccursAt(s, sub, j)
  {
    if i + |sub| > |s| then -1
    else if s[i..i + |sub|] == sub then i
    else FindFrom(s, sub, i + 1)
  }

  /** Python `s.find(sub)`: the first index where `sub` occurs, or -1. */
  function Find(s: string, sub: string): (r: int)
    ensures r == -1 || OccursAt(s, sub, r)
    ensures r == -1 <==> forall j :: !OccursAt(s, sub, j)
    ensures forall j :: 0 <= j < r ==> !OccursAt(s, sub, j)
  {
    FindFrom(s, sub, 0)
  }

  /** Python `sub in s`. */
  predicate Contains(s: string, sub: string)
  {
    Find(s, sub) != -1
  }

  lemma ContainsAt(s: string, sub: string, i: int)
    requires OccursAt(s, sub, i)
    ensures Contains(s, sub)
  {
  }

  /** Python `s[i:]`: a negative `i` counts from the end. */
  function SliceFrom(s: string, i: int): (r: string)
    ensures EndsWith(s, r)
  {
    if i >= 0 then (if i <= |s| then s[i..] else [])
    else if |s| + i >= 0 then s[|s| + i..]
    else s
  }

  /** Python `s[:i]`: a negative `i` counts from the end. */
  function SliceTo(s: string, i: int): (r: string)
    ensures StartsWith(s, r)
  {
    if i >= 0 then (if i <= |s| then s[..i] else s)
    else if |s| + i >= 0 then s[..|s| + i]
    else []
  }

  /** Python `s.replace(pat, rep)` for a non-empty `pat`: occurrences are
      replaced from left to right and never overlap. */
  function ReplaceAll(s: string, pat: string, rep: string): string
    requires |pat| > 0
    decreases |s|
  {
    if |s| < |pat| then s
    else if s[..|pat|] == pat then rep + ReplaceAll(s[|pat|..], pat, rep)
    else [s[0]] + ReplaceAll(s[1..], pat, rep)
  }

  lemma ReplaceAllHead(y: string, pat: string, rep: string)
    requires |pat| > 0
    ensures ReplaceAll(pat + y, pat, rep) == rep + ReplaceAll(y, pat, rep)
  {
  }

  /** A prefix that does not contain the first character of the pattern is
      copied unchanged. */
  lemma {:induction false} ReplaceAllSkip(x: string, y: string, pat: string, rep: string)
    requires |pat| > 0 && pat[0] !in x
    ensures ReplaceAll(x + y, pat, rep) == x + ReplaceAll(y, pat, rep)
    decreases |x|
  {
    if x == [] {
      assert x + y == y;
    } else {
      var s := x + y;
      if |s| < |pat| {
        assert ReplaceAll(y, pat, rep) == y;
      } else {
        assert s[..|pat|][0] == x[0] != pat[0];
        assert s[1..] == x[1..] + y;
        assert pat[0] !in x[1..] by {
          forall k | 0 <= k < |x[1..]| ensures x[1..][k] != pat[0] {
            assert x[1..][k] == x[k + 1];
          }
        }
        ReplaceAllSkip(x[1..], y, pat, rep);
        calc {
          ReplaceAll(s, pat, rep);
          [x[0]] + ReplaceAll(x[1..] + y, pat, rep);
          [x[0]] + (x[1..] + ReplaceAll(y, pat, rep));
          ([x[0]] + x[1..]) + ReplaceAll(y, pat, rep);
          { assert [x[0]] + x[1..] == x; }
          x + ReplaceAll(y, pat, rep);
        }
      }
    }
  }

  /** Replacing a pattern that does not occur changes nothing. */
  lemma {:induction false} ReplaceAllAbsent(s: string, pat: string, rep: string)
    requires |pat| > 0 && !Contains(s, pat)
    ensures ReplaceAll(s, pat, rep) == s
    decreases |s|
  {
    if |s| >= |pat| {
      assert !OccursAt(s, pat, 0);
      forall j ensures !OccursAt(s[1..], pat, j) {
        if OccursAt(s[1..], pat, j) {
          assert s[1..][j..j + |pat|] == s[j + 1..j + 1 + |pat|];
          assert OccursAt(s, pat, j + 1);
        }
      }
      ReplaceAllAbsent(s[1..], pat, rep);
      assert [s[0]] + s[1..] == s;
    }
  }

  /** A pattern that occurs once, after a part without its first character,
      is replaced there and nowhere else. */
  lemma ReplaceSingle(x: string, pat: string, y: string, rep: string)
    requires |pat| > 0 && pat[0] !in x && !Contains(y, pat)
    ensures ReplaceAll(x + pat + y, pat, rep) == x + rep + y
  {
    assert x + pat + y == x + (pat + y);
    ReplaceAllSkip(x, pat + y, pat, rep);
    ReplaceAllHead(y, pat, rep);
    ReplaceAllAbsent(y, pat, rep);
  }

  /** A pattern cannot occur where one of its characters is missing. */
  lemma AbsentByChar(s: string, pat: string, j: nat)
    requires j < |pat| && pat[j] !in s
    ensures !Contains(s, pat)
  {
  }

  /** `s` has the character `a` immediately followed by `b`. */
  predicate HasPair(s: string, a: char, b: char)
  {
    exists i :: 0 <= i < |s| - 1 && s[i] == a && s[i + 1] == b
  }

  /** A pattern cannot occur where one of its adjacent character pairs is missing. */
  lemma AbsentByPair(s: string, pat: string, j: nat)
    requires j + 1 < |pat| && !HasPair(s, pat[j], pat[j + 1])
    ensures !Contains(s, pat)
  {
  }

  lemma PairFreeConcat(x: string, y: string, a: char, b: char)
    requires !HasPair(x, a, b) && !HasPair(y, a, b)
    requires !(|x| > 0 && |y| > 0 && x[|x| - 1] == a && y[0] == b)
    ensures !HasPair(x + y, a, b)
  {
  }

  /** The middle part of a concatenation occurs right after the first part. */
  lemma OccursInMiddle(x: string, y: string, z: string)
    ensures OccursAt(x + y + z, y, |x|)
  {
    assert (x + y + z)[|x|..|x| + |y|] == y;
  }

  /** A concatenation starts with its first part and with that part's first character. */
  lemma StartsWithFirstPart(x: string, y: string)
    ensures StartsWith(x + y, x)
    ensures |x| > 0 ==> (x + y)[0] == x[0]
  {
    assert (x + y)[..|x|] == x;
  }

  /** The index of the first `c` in `s`. */
  function IndexOf(s: string, c: char): (i: nat)
    requires c in s
    ensures i < |s| && s[i] == c && c !in s[..i]
  {
    if s[0] == c then 0 else IndexOf(s[1..], c) + 1
  }

  /** Joins non-empty list of parts with the separator `c` between them. */
  function JoinWith(parts: seq<string>, c: char): string
    requires |parts| >= 1
  {
    if |parts| == 1 then parts[0] else parts[0] + [c] + JoinWith(parts[1..], c)
  }

  /** Python `s.split(c)` for a one-character separator: never empty, no
      part contains the separator, and joining the parts gives `s` back. */
  function Split(s: string, c: char): (parts: seq<string>)
    ensures |parts| >= 1
    ensures forall k :: 0 <= k < |parts| ==> c !in parts[k]
    ensures JoinWith(parts, c) == s
    decreases |s|
  {
    if c in s then
      var i := IndexOf(s, c);
      var rest := Split(s[i + 1..], c);
      assert s == s[..i] + [c] + s[i + 1..];
      [s[..i]] + rest
    else [s]
  }

  /** Python `s.split(c)[0]`: everything before the first `c`. */
  function FirstField(s: string, c: char): (r: string)
    ensures StartsWith(s, r) && c !in r
    ensures r == s || s[|r|] == c
  {
    var parts := Split(s, c);
    SplitFirst(s, c);
    parts[0]
  }

  lemma SplitFirst(s: string, c: char)
    ensures StartsWith(s, Split(s, c)[0])
    ensures Split(s, c)[0] == s || s[|Split(s, c)[0]|] == c
  {
  }

  /** Python's `str.isspace` for one character (ASCII and Latin-1 spaces). */
  predicate IsSpace(c: char)
  {
    ('\t' <= c <= '\r') || ('\U{1C}' <= c <= ' ') || c == '\U{85}' || c == '\U{A0}'
  }

  function LStrip(s: string): (r: string)
    ensures EndsWith(s, r)
    ensures r == [] || !IsSpace(r[0])
    ensures forall k :: 0 <= k < |s| - |r| ==> IsSpace(s[k])
  {
    if |s| > 0 && IsSpace(s[0]) then
      var r := LStrip(s[1..]);
      assert s[1..][|s| - 1 - |r|..] == s[|s| - |r|..];
      assert forall k :: 1 <= k < |s| - |r| ==> s[k] == s[1..][k - 1];
      r
    else s
  }

  function RStrip(s: string): (r: string)
    ensures StartsWith(s, r)
    ensures r == [] || !IsSpace(r[|r| - 1])
    ensures forall k :: |r| <= k < |s| ==> IsSpace(s[k])
  {
    if |s| > 0 && IsSpace(s[|s| - 1]) then RStrip(s[..|s| - 1]) else s
  }

  /** Every character of `t` is whitespace. */
  predicate AllSpace(t: string)
  {
    forall k :: 0 <= k < |t| ==> IsSpace(t[k])
  }

  /** Python `s.strip()`. */
  function Strip(s: string): (r: string)
    ensures r == [] || (!IsSpace(r[0]) && !IsSpace(r[|r| - 1]))
  {
    LStrip(RStrip(s))
  }

  /** `s` is its stripped form with whitespace before and after it. */
  lemma StripMeaning(s: string)
    ensures var r := Strip(s);
            exists i :: 0 <= i <= |s| - |r| && AllSpace(s[..i]) && s[i..i + |r|] == r && AllSpace(s[i + |r|..])
  {
    StripParts(s, RStrip(s), Strip(s));
  }

  /** Whitespace-only pieces cut off both ends of `s` leave `r` in the middle. */
  lemma StripParts(s: string, t: string, r: string)
    requires StartsWith(s, t) && forall k :: |t| <= k < |s| ==> IsSpace(s[k])
    requires EndsWith(t, r) && forall k :: 0 <= k < |t| - |r| ==> IsSpace(t[k])
    ensures exists i :: 0 <= i <= |s| - |r| && AllSpace(s[..i]) && s[i..i + |r|] == r && AllSpace(s[i + |r|..])
  {
    var i := |t| - |r|;
    assert s[i..i + |r|] == t[i..] == r;
    assert AllSpace(s[..i]) by {
      forall k | 0 <= k < i ensures IsSpace(s[..i][k]) { assert s[..i][k] == t[k]; }
    }
    var tail := s[|t|..];
    assert AllSpace(tail) by {
      forall k | 0 <= k < |tail| ensures IsSpace(tail[k]) { assert tail[k] == s[|t| + k]; }
    }
  }

  /** Stripping on the right never reaches into a prefix that ends in a
      non-space character. */
  lemma {:induction false} RStripKeepsPrefix(p: string, q: string)
    requires |p| > 0 && !IsSpace(p[|p| - 1])
    ensures StartsWith(RStrip(p + q), p)
    decreases |q|
  {
    var s := p + q;
    if |q| > 0 && IsSpace(s[|s| - 1]) {
      assert s[..|s| - 1] == p + q[..|q| - 1];
      RStripKeepsPrefix(p, q[..|q| - 1]);
    }
  }

  /** A string that starts with a non-space keeps its prefix (that ends in a
      non-space) under `strip`. */
  lemma StripKeepsPrefix(p: string, q: string)
    requires |p| > 0 && !IsSpace(p[0]) && !IsSpace(p[|p| - 1])
    ensures StartsWith(Strip(p + q), p)
  {
    RStripKeepsPrefix(p, q);
    var t := RStrip(p + q);
    assert t[0] == p[0];
  }

  /** Leading whitespace is all `lstrip` removes. */
  lemma {:induction false} LStripSkipsSpaces(sp: string, w: string)
    requires forall k :: 0 <= k < |sp| ==> IsSpace(sp[k])
    ensures LStrip(sp + w) == LStrip(w)
    decreases |sp|
  {
    if |sp| > 0 {
      assert (sp + w)[1..] == sp[1..] + w;
      LStripSkipsSpaces(sp[1..], w);
    } else {
      assert sp + w == w;
    }
  }

  /** The first `c` in `x + [c] + y` is the one after `x` when `x` has none. */
  lemma FindAfterFreePrefix(x: string, c: char, y: string)
    requires c !in x
    ensures Find(x + [c] + y, [c]) == |x|
  {
    var s := x + [c] + y;
    assert s[|x|..|x| + 1] == [c];
    forall j | 0 <= j < |x| ensures !OccursAt(s, [c], j) {
      assert s[j..j + 1] == [x[j]];
    }
    assert OccursAt(s, [c], |x|);
    var r := Find(s, [c]);
    assert r != -1;
  }

  function LowerChar(c: char): char
  {
    if 'A' <= c <= 'Z' then (c as int - 'A' as int + 'a' as int) as char else c
  }

  /** Python `s.lower()` on ASCII letters. */
  function Lower(s: string): (r: string)
    ensures |r| == |s|
    ensures forall k :: 0 <= k < |s| ==> r[k] == LowerChar(s[k])
    ensures forall k :: 0 <= k < |r| ==> !('A' <= r[k] <= 'Z')
  {
    seq(|s|, k requires 0 <= k < |s| => LowerChar(s[k]))
  }
}
