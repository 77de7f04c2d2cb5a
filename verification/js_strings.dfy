/**
 The JavaScript string operations the two auth forms rely on: whitespace as
 ECMAScript defines it, `String.prototype.trim`, `.length` (UTF-16 code units),
 `Array.prototype.join`, and the counting and searching helpers the email
 pattern is stated with.
 */
module JsStrings {

  /** ECMAScript WhiteSpace and LineTerminator code points (sections 12.2 and
      12.3 of ECMA-262, with the Unicode "Zs" category as of Unicode 15). The
      regular-expression class `\s` and `String.prototype.trim` use this same
      set. */
  predicate IsWhitespace(c: char) {
    || c == '\t' || c == '\n' || c == '\U{000B}' || c == '\U{000C}' || c == '\r'
    || c == ' ' || c == '\U{00A0}' || c == '\U{1680}'
    || ('\U{2000}' <= c <= '\U{200A}')
    || c == '\U{2028}' || c == '\U{2029}' || c == '\U{202F}' || c == '\U{205F}'
    || c == '\U{3000}' || c == '\U{FEFF}'
  }

  /** Every character is whitespace; the empty string is blank. */
  predicate IsBlank(s: string) {
    forall i | 0 <= i < |s| :: IsWhitespace(s[i])
  }

  /** No character is whitespace. */
  predicate NoWhitespace(s: string) {
    forall i | 0 <= i < |s| :: !IsWhitespace(s[i])
  }

  /** Index of the first character at or after `from` that is not
      whitespace, or `|s|` if there is none. */
  function SkipBlankForward(s: string, from: nat): (k: nat)
    requires from <= |s|
    ensures from <= k <= |s|
    ensures forall i | from <= i < k :: IsWhitespace(s[i])
    ensures k < |s| ==> !IsWhitespace(s[k])
    decreases |s| - from
  {
    if from < |s| && IsWhitespace(s[from]) then SkipBlankForward(s, from + 1) else from
  }

  /** One past the last character before `upto` that is not whitespace, or 0
      if there is none. */
  function SkipBlankBackward(s: string, upto: nat): (k: nat)
    requires upto <= |s|
    ensures k <= upto
    ensures forall i | k <= i < upto :: IsWhitespace(s[i])
    ensures k > 0 ==> !IsWhitespace(s[k - 1])
  {
    if upto > 0 && IsWhitespace(s[upto - 1]) then SkipBlankBackward(s, upto - 1) else upto
  }

  /** `String.prototype.trim`: the leading and the trailing whitespace
      removed. */
  function Trim(s: string): (r: string)
    ensures |r| <= |s|
    ensures r == [] || (!IsWhitespace(r[0]) && !IsWhitespace(r[|r| - 1]))
  {
    var start, end := SkipBlankForward(s, 0), SkipBlankBackward(s, |s|);
    if start < end then s[start..end] else []
  }

  /** The trimmed string is an infix of the input between a blank prefix and
      a blank suffix; with the edges `Trim` promises, that fixes it. */
  lemma TrimIsInfix(s: string)
    ensures exists i, j | 0 <= i <= j <= |s| :: Trim(s) == s[i..j] && IsBlank(s[..i]) && IsBlank(s[j..])
  {
    var start, end := SkipBlankForward(s, 0), SkipBlankBackward(s, |s|);
    if start < end {
      assert IsBlank(s[..start]) by {
        forall i | 0 <= i < start ensures IsWhitespace(s[..start][i]) {
          assert s[..start][i] == s[i];
        }
      }
      assert IsBlank(s[end..]) by {
        forall i | 0 <= i < |s| - end ensures IsWhitespace(s[end..][i]) {
          assert s[end..][i] == s[end + i];
        }
      }
      assert Trim(s) == s[start..end];
    } else {
      assert IsBlank(s[..|s|]) by {
        forall i | 0 <= i < |s| ensures IsWhitespace(s[..|s|][i]) {
          assert s[..|s|][i] == s[i];
        }
      }
      assert Trim(s) == s[|s|..|s|];
    }
  }

  /** `!s.trim()` holds exactly of the blank strings. */
  lemma TrimEmptyIffBlank(s: string)
    ensures Trim(s) == [] <==> IsBlank(s)
  {
    var start, end := SkipBlankForward(s, 0), SkipBlankBackward(s, |s|);
    if !IsBlank(s) {
      var j :| 0 <= j < |s| && !IsWhitespace(s[j]);
      assert start <= j < end;
    }
  }

  /** `s.length`: the number of UTF-16 code units, two for every code point
      above U+FFFF. */
  function Utf16Length(s: string): (n: nat)
    ensures |s| <= n <= 2 * |s|
    ensures |s| == 1 ==> n == (if s[0] as int > 0xFFFF then 2 else 1)
  {
    if s == [] then 0
    else (if s[0] as int > 0xFFFF then 2 else 1) + Utf16Length(s[1..])
  }

  /** Code units add up over concatenation; with the single-character case
      in the contract of `Utf16Length`, this fixes the count for every
      string. */
  lemma {:induction false} Utf16LengthConcat(a: string, b: string)
    ensures Utf16Length(a + b) == Utf16Length(a) + Utf16Length(b)
  {
    if a == [] {
      assert a + b == b;
    } else {
      assert (a + b)[1..] == a[1..] + b;
      Utf16LengthConcat(a[1..], b);
    }
  }

  /** `.length` counts characters exactly when none lies outside the Basic
      Multilingual Plane. */
  lemma {:induction false} Utf16LengthIsSizeIffBmp(s: string)
    ensures Utf16Length(s) == |s| <==> forall i | 0 <= i < |s| :: s[i] as int <= 0xFFFF
  {
    if s != [] {
      Utf16LengthIsSizeIffBmp(s[1..]);
      assert forall i | 1 <= i < |s| :: s[i] == s[1..][i - 1];
    }
  }

  /** Sum of the lengths of the parts. */
  function TotalLength(parts: seq<string>): nat {
    if parts == [] then 0 else |parts[0]| + TotalLength(parts[1..])
  }

  /** `parts.join(sep)`. */
  function Join(parts: seq<string>, sep: string): (r: string)
    ensures parts == [] ==> r == []
    ensures parts != [] ==> |r| == TotalLength(parts) + (|parts| - 1) * |sep|
    ensures parts != [] ==> r[..|parts[0]|] == parts[0]
    ensures |parts| == 1 ==> r == parts[0]
  {
    if parts == [] then []
    else if |parts| == 1 then parts[0]
    else parts[0] + sep + Join(parts[1..], sep)
  }

  /** A join of non-empty parts is empty exactly when there are no parts. */
  lemma {:induction false} JoinEmptyIff(parts: seq<string>, sep: string)
    requires forall i | 0 <= i < |parts| :: parts[i] != []
    ensures Join(parts, sep) == [] <==> parts == []
  {
    if parts != [] {
      assert |Join(parts, sep)| >= |parts[0]| > 0 by {
        TotalLengthAtLeastFirst(parts);
      }
    }
  }

  /** Joining two non-empty lists of parts is joining each and putting one
      separator between: the parts keep their order and are separated by
      exactly one `sep`. */
  lemma {:induction false} JoinConcat(a: seq<string>, b: seq<string>, sep: string)
    requires a != [] && b != []
    ensures Join(a + b, sep) == Join(a, sep) + sep + Join(b, sep)
  {
    if |a| == 1 {
      assert (a + b)[1..] == b;
    } else {
      assert (a + b)[1..] == a[1..] + b;
      JoinConcat(a[1..], b, sep);
    }
  }

  /** `t` occurs in `s` starting at index `i`. */
  predicate OccursAt(s: string, t: string, i: int) {
    0 <= i && i + |t| <= |s| && s[i..i + |t|] == t
  }

  /** `t` occurs in `s` as a contiguous piece. */
  predicate Contains(s: string, t: string) {
    exists i | 0 <= i <= |s| :: OccursAt(s, t, i)
  }

  /** Every part shows up, whole, in the joined string. */
  lemma {:induction false} JoinContainsEach(parts: seq<string>, sep: string, k: int)
    requires 0 <= k < |parts|
    ensures Contains(Join(parts, sep), parts[k])
  {
    var r := Join(parts, sep);
    if k == 0 {
      assert OccursAt(r, parts[0], 0);
    } else {
      JoinContainsEach(parts[1..], sep, k - 1);
      assert parts[1..][k - 1] == parts[k];
      var tail := Join(parts[1..], sep);
      var i :| 0 <= i <= |tail| && OccursAt(tail, parts[k], i);
      assert r == (parts[0] + sep) + tail;
      OccursAfterPrefix(parts[0] + sep, tail, parts[k], i);
    }
  }

  /** An occurrence survives putting something in front, shifted by its
      length. */
  lemma OccursAfterPrefix(prefix: string, s: string, t: string, i: int)
    requires OccursAt(s, t, i)
    ensures OccursAt(prefix + s, t, |prefix| + i)
  {
    assert (prefix + s)[|prefix| + i..|prefix| + i + |t|] == s[i..i + |t|];
  }

  lemma TotalLengthAtLeastFirst(parts: seq<string>)
    requires parts != []
    ensures TotalLength(parts) >= |parts[0]|
  {
  }

  /** Number of occurrences of `c` in `s`. */
  function Count<T(==)>(s: seq<T>, c: T): (n: nat)
    ensures n <= |s|
    ensures n == 0 <==> c !in s
  {
    if s == [] then 0
    else (if s[0] == c then 1 else 0) + Count(s[1..], c)
  }

  lemma {:induction false} CountConcat<T>(a: seq<T>, b: seq<T>, c: T)
    ensures Count(a + b, c) == Count(a, c) + Count(b, c)
  {
    if a != [] {
      assert (a + b)[1..] == a[1..] + b;
      CountConcat(a[1..], b, c);
    } else {
      assert a + b == b;
    }
  }

  /** Two occurrences at different positions count twice. */
  lemma {:induction false} CountAtLeastTwo<T>(s: seq<T>, c: T, a: nat, b: nat)
    requires a < b < |s| && s[a] == c && s[b] == c
    ensures Count(s, c) >= 2
  {
    if a == 0 {
      assert s[1..][b - 1] == c;
    } else {
      CountAtLeastTwo(s[1..], c, a - 1, b - 1);
    }
  }

  /** Position of the first occurrence of `c`. */
  function IndexOf<T(==)>(s: seq<T>, c: T): (i: nat)
    requires c in s
    ensures i < |s| && s[i] == c && c !in s[..i]
  {
    if s[0] == c then 0
    else
      var k := IndexOf(s[1..], c);
      assert s[..k + 1] == [s[0]] + s[1..][..k];
      k + 1
  }
}
