/** String primitives the renderer relies on: `toLowerCase`, `includes`, `trim`,
    `Array.prototype.join`, the digit class of regular expressions, and the
    binary string order used by SQLite's `ORDER BY` and by `Array.prototype.sort`. */
module Text {

  /** The regular-expression class `\d` (ASCII digits only). */
  predicate IsDigit(c: char) {
    '0' <= c <= '9'
  }

  /** `toLowerCase` restricted to ASCII letters; every other character is kept. */
  function LowerChar(c: char): char {
    if 'A' <= c <= 'Z' then (c as int + 32) as char else c
  }

  function Lower(s: string): (r: string)
    ensures |r| == |s|
  {
    seq(|s|, i requires 0 <= i < |s| => LowerChar(s[i]))
  }

  predicate StartsWith(s: string, prefix: string) {
    |prefix| <= |s| && s[..|prefix|] == prefix
  }

  /** `needle` occurs in `hay` starting at index `i`. */
  predicate OccursAt(hay: string, needle: string, i: int) {
    0 <= i && i + |needle| <= |hay| && hay[i..i + |needle|] == needle
  }

  /** `hay.includes(needle)`. */
  predicate Contains(hay: string, needle: string)
    decreases |hay|
  {
    StartsWith(hay, needle) || (|hay| > 0 && Contains(hay[1..], needle))
  }

  /** `hay.toLowerCase().includes(needle.toLowerCase())`. */
  predicate ContainsCi(hay: string, needle: string) {
    Contains(Lower(hay), Lower(needle))
  }

  /** The recursive `Contains` agrees with the positional definition of a substring. */
  lemma {:induction false} ContainsIffOccurs(hay: string, needle: string)
    ensures Contains(hay, needle) <==> exists i :: OccursAt(hay, needle, i)
    decreases |hay|
  {
    if StartsWith(hay, needle) {
      assert OccursAt(hay, needle, 0);
    } else if |hay| > 0 {
      ContainsIffOccurs(hay[1..], needle);
      if Contains(hay[1..], needle) {
        var i :| OccursAt(hay[1..], needle, i);
        OccursShift(hay, needle, i + 1);
      } else {
        forall i | OccursAt(hay, needle, i) ensures false {
          if i > 0 {
            OccursShift(hay, needle, i);
          }
        }
      }
    }
  }

  /** An occurrence after the first character is an occurrence in the tail. */
  lemma OccursShift(hay: string, needle: string, i: int)
    requires |hay| > 0 && i > 0
    ensures OccursAt(hay, needle, i) <==> OccursAt(hay[1..], needle, i - 1)
  {
    if i + |needle| <= |hay| {
      assert hay[1..][i - 1..i - 1 + |needle|] == hay[i..i + |needle|];
    }
  }

  /** Every string includes the empty string. */
  lemma ContainsEmpty(hay: string)
    ensures Contains(hay, "")
  {
    assert StartsWith(hay, "");
  }

  /** Whitespace and line terminators as removed by ECMAScript `String.prototype.trim`. */
  predicate IsJsSpace(c: char) {
    || c == '\t' || c == '\n' || c == '\U{000B}' || c == '\U{000C}' || c == '\r'
    || c == ' ' || c == '\U{00A0}' || c == '\U{1680}' || ('\U{2000}' <= c <= '\U{200A}')
    || c == '\U{2028}' || c == '\U{2029}' || c == '\U{202F}' || c == '\U{205F}'
    || c == '\U{3000}' || c == '\U{FEFF}'
  }

  function TrimStart(s: string): string
    decreases |s|
  {
    if |s| > 0 && IsJsSpace(s[0]) then TrimStart(s[1..]) else s
  }

  function TrimEnd(s: string): string
    decreases |s|
  {
    if |s| > 0 && IsJsSpace(s[|s| - 1]) then TrimEnd(s[..|s| - 1]) else s
  }

  /** `s.trim()`. */
  function Trim(s: string): string {
    TrimEnd(TrimStart(s))
  }

  /** `s` with its first `i` and last `|s| - j` characters all whitespace. */
  predicate SpaceOutside(s: string, i: int, j: int)
    requires 0 <= i <= j <= |s|
  {
    (forall k :: 0 <= k < i ==> IsJsSpace(s[k])) && (forall k :: j <= k < |s| ==> IsJsSpace(s[k]))
  }

  lemma {:induction false} TrimStartSpec(s: string)
    ensures var r := TrimStart(s);
      exists i :: 0 <= i <= |s| && r == s[i..] && SpaceOutside(s, i, |s|)
    ensures |TrimStart(s)| > 0 ==> !IsJsSpace(TrimStart(s)[0])
    decreases |s|
  {
    if |s| > 0 && IsJsSpace(s[0]) {
      TrimStartSpec(s[1..]);
      var i :| 0 <= i <= |s| - 1 && TrimStart(s[1..]) == s[1..][i..] && SpaceOutside(s[1..], i, |s| - 1);
      SpaceBefore(s, i);
      assert TrimStart(s) == s[i + 1..];
    } else {
      assert TrimStart(s) == s[0..];
      assert SpaceOutside(s, 0, |s|);
    }
  }

  /** A whitespace character in front keeps a whitespace prefix a whitespace prefix. */
  lemma SpaceBefore(s: string, i: int)
    requires |s| > 0 && IsJsSpace(s[0]) && 0 <= i <= |s| - 1
    requires SpaceOutside(s[1..], i, |s| - 1)
    ensures SpaceOutside(s, i + 1, |s|)
  {
    forall k | 1 <= k < i + 1 ensures IsJsSpace(s[k]) {
      assert s[k] == s[1..][k - 1];
    }
  }

  lemma {:induction false} TrimEndSpec(s: string)
    ensures var r := TrimEnd(s);
      exists j :: 0 <= j <= |s| && r == s[..j] && SpaceOutside(s, 0, j)
    ensures |TrimEnd(s)| > 0 ==> !IsJsSpace(TrimEnd(s)[|TrimEnd(s)| - 1])
    decreases |s|
  {
    if |s| > 0 && IsJsSpace(s[|s| - 1]) {
      var p := s[..|s| - 1];
      TrimEndSpec(p);
      var j :| 0 <= j <= |p| && TrimEnd(p) == p[..j] && SpaceOutside(p, 0, j);
      SpaceAfter(s, j);
      assert TrimEnd(s) == s[..j];
    } else {
      assert TrimEnd(s) == s[..|s|];
      assert SpaceOutside(s, 0, |s|);
    }
  }

  /** A whitespace character at the end keeps a whitespace suffix a whitespace suffix. */
  lemma SpaceAfter(s: string, j: int)
    requires |s| > 0 && IsJsSpace(s[|s| - 1]) && 0 <= j <= |s| - 1
    requires SpaceOutside(s[..|s| - 1], 0, j)
    ensures SpaceOutside(s, 0, j)
  {
    forall k | j <= k < |s| - 1 ensures IsJsSpace(s[k]) {
      assert s[k] == s[..|s| - 1][k];
    }
  }

  /** `trim` removes exactly a whitespace prefix and a whitespace suffix and
      leaves no whitespace at either end of what remains. */
  lemma TrimSpec(s: string)
    ensures exists i, j :: 0 <= i <= j <= |s| && Trim(s) == s[i..j] && SpaceOutside(s, i, j)
    ensures |Trim(s)| > 0 ==> !IsJsSpace(Trim(s)[0]) && !IsJsSpace(Trim(s)[|Trim(s)| - 1])
  {
    TrimSlice(s);
    if |Trim(s)| > 0 {
      TrimEnds(s);
    }
  }

  /** `trim` keeps a slice of its input and drops only whitespace around it. */
  lemma TrimSlice(s: string)
    ensures exists i, j :: 0 <= i <= j <= |s| && Trim(s) == s[i..j] && SpaceOutside(s, i, j)
  {
    var t := TrimStart(s);
    TrimStartSpec(s);
    TrimEndSpec(t);
    var i :| 0 <= i <= |s| && t == s[i..] && SpaceOutside(s, i, |s|);
    var j :| 0 <= j <= |t| && TrimEnd(t) == t[..j] && SpaceOutside(t, 0, j);
    SpaceOutsideShift(s, i, j);
    assert Trim(s) == s[i..i + j] && SpaceOutside(s, i, i + j);
  }

  /** A non-empty `trim` result starts and ends with a non-whitespace character. */
  lemma TrimEnds(s: string)
    requires |Trim(s)| > 0
    ensures !IsJsSpace(Trim(s)[0]) && !IsJsSpace(Trim(s)[|Trim(s)| - 1])
  {
    var t := TrimStart(s);
    TrimStartSpec(s);
    TrimEndSpec(t);
    TrimEndKeepsFirst(t);
  }

  /** Trimming the end keeps the first character of what remains. */
  lemma TrimEndKeepsFirst(t: string)
    requires |TrimEnd(t)| > 0
    ensures TrimEnd(t)[0] == t[0]
  {
    TrimEndSpec(t);
  }

  lemma SpaceOutsideShift(s: string, i: int, j: int)
    requires 0 <= i <= |s| && 0 <= j <= |s| - i
    requires SpaceOutside(s, i, |s|) && SpaceOutside(s[i..], 0, j)
    ensures SpaceOutside(s, i, i + j)
  {
    forall k | i + j <= k < |s| ensures IsJsSpace(s[k]) {
      assert s[k] == s[i..][k - i];
    }
  }

  /** `xs.join(sep)`. */
  function Join(xs: seq<string>, sep: string): string
    decreases |xs|
  {
    if |xs| == 0 then "" else if |xs| == 1 then xs[0] else xs[0] + sep + Join(xs[1..], sep)
  }

  /** Strict binary (code-point lexicographic) order on strings; a proper prefix is smaller. */
  predicate Less(a: string, b: string)
    decreases |a|
  {
    |b| > 0 && (|a| == 0 || a[0] < b[0] || (a[0] == b[0] && Less(a[1..], b[1..])))
  }

  predicate LessEq(a: string, b: string) {
    a == b || Less(a, b)
  }

  lemma {:induction false} LessIrreflexive(a: string)
    ensures !Less(a, a)
    decreases |a|
  {
    if |a| > 0 {
      LessIrreflexive(a[1..]);
    }
  }

  lemma {:induction false} LessAsymmetric(a: string, b: string)
    requires Less(a, b)
    ensures !Less(b, a)
    decreases |a|
  {
    if |a| > 0 && a[0] == b[0] {
      LessAsymmetric(a[1..], b[1..]);
    }
  }

  lemma {:induction false} LessTransitive(a: string, b: string, c: string)
    requires Less(a, b) && Less(b, c)
    ensures Less(a, c)
    decreases |a|
  {
    if |a| > 0 && a[0] == b[0] && b[0] == c[0] {
      LessTransitive(a[1..], b[1..], c[1..]);
    }
  }

  lemma {:induction false} LessTotal(a: string, b: string)
    ensures a == b || Less(a, b) || Less(b, a)
    decreases |a|
  {
    if |a| > 0 && |b| > 0 && a[0] == b[0] {
      LessTotal(a[1..], b[1..]);
      if a[1..] == b[1..] {
        assert a == [a[0]] + a[1..] && b == [b[0]] + b[1..];
      }
    }
  }
}
