/**
 * The few ECMAScript string operations that the blocker relies on:
 * `trim`, `toLowerCase`, `includes`, `startsWith`/`endsWith`, the
 * `/^www\./` replacement, and the relational operators on strings.
 */
module JsString {

  /** The characters `String.prototype.trim` removes: the WhiteSpace and
      LineTerminator code points of ECMA-262. */
  predicate IsTrimmable(c: char) {
    || c == '\U{0009}' || c == '\U{000B}' || c == '\U{000C}' || c == ' '
    || c == '\U{00A0}' || c == '\U{FEFF}' || c == '\U{1680}'
    || ('\U{2000}' <= c <= '\U{200A}')
    || c == '\U{202F}' || c == '\U{205F}' || c == '\U{3000}'
    || c == '\U{000A}' || c == '\U{000D}' || c == '\U{2028}' || c == '\U{2029}'
  }

  /** No whitespace at either end: what `trim` leaves behind. */
  predicate IsTrimmed(s: string) {
    s == [] || (!IsTrimmable(s[0]) && !IsTrimmable(s[|s| - 1]))
  }

  /** Removes the leading trimmable characters; the result is a suffix of `s`. */
  function TrimStart(s: string): (r: string)
    ensures |r| <= |s| && r == s[|s| - |r|..]
    ensures r == [] || !IsTrimmable(r[0])
  {
    if s != [] && IsTrimmable(s[0]) then TrimStart(s[1..]) else s
  }

  /** Removes the trailing trimmable characters; the result is a prefix of `s`. */
  function TrimEnd(s: string): (r: string)
    ensures |r| <= |s| && r == s[..|r|]
    ensures r == [] || !IsTrimmable(r[|r| - 1])
  {
    if s != [] && IsTrimmable(s[|s| - 1]) then TrimEnd(s[..|s| - 1]) else s
  }

  /** `s.trim()` */
  function Trim(s: string): (r: string)
    ensures IsTrimmed(r)
    ensures |r| <= |s|
  {
    TrimEnd(TrimStart(s))
  }

  /** How many characters `TrimStart` drops from `s`. */
  function Leading(s: string): nat {
    |s| - |TrimStart(s)|
  }

  /** `TrimStart` drops trimmable characters only. */
  lemma {:induction false} TrimStartDropsTrimmable(s: string)
    ensures forall i :: 0 <= i < |s| - |TrimStart(s)| ==> IsTrimmable(s[i])
  {
    if s != [] && IsTrimmable(s[0]) {
      TrimStartDropsTrimmable(s[1..]);
      forall i | 1 <= i < |s| - |TrimStart(s)|
        ensures IsTrimmable(s[i])
      {
        assert s[i] == s[1..][i - 1];
      }
    }
  }

  /** `TrimEnd` drops trimmable characters only. */
  lemma {:induction false} TrimEndDropsTrimmable(s: string)
    ensures forall i :: |TrimEnd(s)| <= i < |s| ==> IsTrimmable(s[i])
  {
    if s != [] && IsTrimmable(s[|s| - 1]) {
      TrimEndDropsTrimmable(s[..|s| - 1]);
      forall i | |TrimEnd(s)| <= i < |s| - 1
        ensures IsTrimmable(s[i])
      {
        assert s[i] == s[..|s| - 1][i];
      }
    }
  }

  /** `trim` keeps one slice of `s`, the one starting where `TrimStart`
      stops. */
  lemma TrimIsSlice(s: string)
    ensures Leading(s) + |Trim(s)| <= |s|
    ensures Trim(s) == s[Leading(s)..Leading(s) + |Trim(s)|]
  {
    var t := TrimStart(s);
    var r := TrimEnd(t);
    assert s[Leading(s)..][..|r|] == s[Leading(s)..Leading(s) + |r|];
  }

  /** Only trimmable characters lie outside that slice. */
  lemma TrimDropsOnlyTrimmable(s: string)
    ensures forall i :: 0 <= i < Leading(s) ==> IsTrimmable(s[i])
    ensures forall i :: Leading(s) + |Trim(s)| <= i < |s| ==> IsTrimmable(s[i])
  {
    var t := TrimStart(s);
    TrimStartDropsTrimmable(s);
    TrimEndDropsTrimmable(t);
    forall i | Leading(s) + |Trim(s)| <= i < |s|
      ensures IsTrimmable(s[i])
    {
      assert s[i] == t[i - Leading(s)];
    }
  }

  lemma TrimKeepsTrimmed(s: string)
    requires IsTrimmed(s)
    ensures Trim(s) == s
  {
  }

  /** Trimming removes characters only, so it keeps "no capital letters". */
  lemma TrimKeepsLower(s: string)
    requires IsLowerAscii(s)
    ensures IsLowerAscii(Trim(s))
  {
    var t := TrimStart(s);
    assert t == s[|s| - |t|..];
    assert IsLowerAscii(t);
  }

  /** A string that contains `p` contains `p`'s first character. */
  lemma {:induction false} ContainsHead(s: string, p: string)
    requires p != [] && Contains(s, p)
    ensures p[0] in s
  {
    if !StartsWith(s, p) {
      ContainsHead(s[1..], p);
    } else {
      assert s[0] == p[0];
    }
  }

  /** ASCII case mapping of one character. */
  function LowerChar(c: char): char {
    if 'A' <= c <= 'Z' then (c as int + 32) as char else c
  }

  /** No ASCII capital letter occurs in `s`. */
  predicate IsLowerAscii(s: string) {
    forall i :: 0 <= i < |s| ==> !('A' <= s[i] <= 'Z')
  }

  /** `s.toLowerCase()`, restricted to the ASCII letters. */
  function ToLower(s: string): (r: string)
    ensures |r| == |s| && IsLowerAscii(r)
  {
    seq(|s|, i requires 0 <= i < |s| => LowerChar(s[i]))
  }

  /** Each ASCII capital becomes the letter 32 code points above it, the
      small letter; every other character is kept. */
  lemma ToLowerMapsCapitals(s: string)
    ensures forall i :: 0 <= i < |s| ==>
      if 'A' <= s[i] <= 'Z' then ToLower(s)[i] as int == s[i] as int + 32 else ToLower(s)[i] == s[i]
  {
  }

  lemma ToLowerKeepsLower(s: string)
    requires IsLowerAscii(s)
    ensures ToLower(s) == s
  {
  }

  /** Lower-casing moves no trimmable character and creates none, so a
      trimmed string stays trimmed and lower-casing commutes with `trim`. */
  lemma {:induction false} LowerPreservesTrimmed(s: string)
    requires IsTrimmed(s)
    ensures IsTrimmed(ToLower(s))
  {
    if s != [] {
      assert ToLower(s)[0] == LowerChar(s[0]);
      assert ToLower(s)[|s| - 1] == LowerChar(s[|s| - 1]);
    }
  }

  predicate StartsWith(s: string, p: string) {
    |p| <= |s| && s[..|p|] == p
  }

  predicate EndsWith(s: string, p: string) {
    |p| <= |s| && s[|s| - |p|..] == p
  }

  /** `s.includes(p)`: `p` occurs somewhere in `s`. */
  predicate Contains(s: string, p: string) {
    StartsWith(s, p) || (s != [] && Contains(s[1..], p))
  }

  /** Anything that occurs in a suffix of `s` occurs in `s`. */
  lemma {:induction false} SuffixContains(s: string, k: nat, p: string)
    requires k <= |s| && Contains(s[k..], p)
    ensures Contains(s, p)
  {
    if k > 0 {
      assert s[1..][k - 1..] == s[k..];
      SuffixContains(s[1..], k - 1, p);
    }
  }

  /** Anything that occurs in a prefix of `s` occurs in `s`. */
  lemma {:induction false} PrefixContains(s: string, k: nat, p: string)
    requires k <= |s| && Contains(s[..k], p)
    ensures Contains(s, p)
  {
    if StartsWith(s[..k], p) {
      assert s[..k][..|p|] == s[..|p|];
    } else {
      assert s[..k][1..] == s[1..][..k - 1];
      PrefixContains(s[1..], k - 1, p);
    }
  }

  lemma TrimContains(s: string, p: string)
    requires Contains(Trim(s), p)
    ensures Contains(s, p)
  {
    var t := TrimStart(s);
    PrefixContains(t, |TrimEnd(t)|, p);
    SuffixContains(s, |s| - |t|, p);
  }

  /** A pattern without lower-case ASCII letters occurs in `ToLower(s)`
      only where it already occurs in `s`. */
  lemma {:induction false} LowerContains(s: string, p: string)
    requires forall i :: 0 <= i < |p| ==> !('a' <= p[i] <= 'z')
    requires Contains(ToLower(s), p)
    ensures Contains(s, p)
  {
    if StartsWith(ToLower(s), p) {
      forall i | 0 <= i < |p|
        ensures s[i] == p[i]
      {
        assert ToLower(s)[i] == p[i];
      }
      assert s[..|p|] == p;
    } else {
      assert ToLower(s)[1..] == ToLower(s[1..]);
      LowerContains(s[1..], p);
    }
  }

  /** Anything that occurs after the "www." that `StripWww` drops occurs in `s`. */
  lemma StripWwwContains(s: string, p: string)
    requires Contains(StripWww(s), p)
    ensures Contains(s, p)
  {
    if StartsWith(s, "www.") {
      SuffixContains(s, 4, p);
    }
  }

  /** `s.replace(/^www\./, '')`: one leading, lower-case "www." is removed. */
  function StripWww(s: string): (r: string)
    ensures StartsWith(s, "www.") ==> r == s[4..]
    ensures !StartsWith(s, "www.") ==> r == s
  {
    if StartsWith(s, "www.") then s[4..] else s
  }

  /** The relation `a < b` on strings: lexicographic order of the
      characters, a proper prefix coming first. */
  predicate LexLess(a: string, b: string) {
    if a == [] then b != []
    else if b == [] then false
    else if a[0] == b[0] then LexLess(a[1..], b[1..])
    else a[0] < b[0]
  }

  /** A proper prefix comes first. */
  lemma {:induction false} ProperPrefixLess(p: string, s: string)
    requires |p| < |s| && s[..|p|] == p
    ensures LexLess(p, s)
  {
    if p != [] {
      assert s[1..][..|p| - 1] == p[1..];
      ProperPrefixLess(p[1..], s[1..]);
    }
  }

  lemma {:induction false} LexLessIrreflexive(a: string)
    ensures !LexLess(a, a)
  {
    if a != [] {
      LexLessIrreflexive(a[1..]);
    }
  }

  lemma {:induction false} LexLessTransitive(a: string, b: string, c: string)
    requires LexLess(a, b) && LexLess(b, c)
    ensures LexLess(a, c)
  {
    if a != [] && b != [] && c != [] && a[0] == b[0] && b[0] == c[0] {
      LexLessTransitive(a[1..], b[1..], c[1..]);
    }
  }

  lemma {:induction false} LexLessConnected(a: string, b: string)
    requires a != b
    ensures LexLess(a, b) || LexLess(b, a)
  {
    if a != [] && b != [] && a[0] == b[0] {
      assert a == [a[0]] + a[1..] && b == [b[0]] + b[1..];
      LexLessConnected(a[1..], b[1..]);
    }
  }

  /** `c < a` splits around any `b`: either `c < b` or `b < a`. */
  lemma LexLessSplit(a: string, b: string, c: string)
    requires LexLess(c, a)
    ensures LexLess(c, b) || LexLess(b, a)
  {
    if b != a && !LexLess(b, a) {
      LexLessConnected(a, b);
      LexLessTransitive(c, a, b);
    }
  }

  /** `a <= b` on strings, that is `!(b < a)`, is transitive. */
  lemma LexLessEqTransitive(a: string, b: string, c: string)
    requires !LexLess(b, a) && !LexLess(c, b)
    ensures !LexLess(c, a)
  {
    if LexLess(c, a) {
      LexLessSplit(a, b, c);
    }
  }
}
