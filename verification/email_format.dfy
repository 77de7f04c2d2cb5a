/**
 The sign-up form's email check, the regular expression
 `^[^\s@]+@[^\s@]+\.[^\s@]+$` applied to the untrimmed input. It is given
 twice: once following the pattern piece by piece, with the positions of the
 `@` and of the `\.` as witnesses, and once as the shape of address it admits.
 The two are proved to agree.
 */
module EmailFormat {
  import opened JsStrings

  /** One character of the class `[^\s@]`. */
  predicate IsAddressChar(c: char) {
    !IsWhitespace(c) && c != '@'
  }

  /** `[^\s@]+`: a non-empty run of address characters. */
  predicate IsAddressRun(s: string) {
    |s| > 0 && forall i | 0 <= i < |s| :: IsAddressChar(s[i])
  }

  /** The pattern matches the whole of `s` with its `@` at index `at` and its
      `\.` at index `dot`. */
  predicate MatchesWith(s: string, at: int, dot: int) {
    && 0 <= at < dot < |s|
    && IsAddressRun(s[..at])
    && s[at] == '@'
    && IsAddressRun(s[at + 1..dot])
    && s[dot] == '.'
    && IsAddressRun(s[dot + 1..])
  }

  /** `/^[^\s@]+@[^\s@]+\.[^\s@]+$/.test(s)`. The shortest match is
      `a@b.c`, and every match holds an `@`. */
  predicate MatchesEmailPattern(s: string)
    ensures MatchesEmailPattern(s) ==> |s| >= 5 && '@' in s
  {
    exists at, dot | 0 <= at < dot < |s| :: MatchesWith(s, at, dot)
  }

  /** The domain has a `.` that is neither its first nor its last character. */
  predicate HasInnerDot(domain: string) {
    exists k | 0 < k < |domain| - 1 :: domain[k] == '.'
  }

  /** The addresses the pattern admits: no whitespace, exactly one `@`, a
      non-empty part before it, and a domain after it with an inner dot. */
  predicate HasEmailShape(s: string) {
    && NoWhitespace(s)
    && Count(s, '@') == 1
    && var at := IndexOf(s, '@');
       at > 0 && HasInnerDot(s[at + 1..])
  }

  /** A match places the only `@` of `s` at `at`. */
  lemma MatchHasSingleAt(s: string, at: int, dot: int)
    requires MatchesWith(s, at, dot)
    ensures NoWhitespace(s)
    ensures Count(s, '@') == 1
    ensures IndexOf(s, '@') == at
  {
    var local, middle, tail := s[..at], s[at + 1..dot], s[dot + 1..];
    assert s == local + ['@'] + (middle + ['.'] + tail);
    forall i | 0 <= i < |s|
      ensures !IsWhitespace(s[i])
    {
      if i < at {
        assert s[i] == local[i];
      } else if at < i < dot {
        assert s[i] == middle[i - at - 1];
      } else if dot < i {
        assert s[i] == tail[i - dot - 1];
      }
    }
    assert '@' !in local by {
      forall i | 0 <= i < |local| ensures local[i] != '@' { }
    }
    assert '@' !in middle + ['.'] + tail by {
      forall i | 0 <= i < |middle + ['.'] + tail|
        ensures (middle + ['.'] + tail)[i] != '@'
      {
        if i < |middle| {
          assert (middle + ['.'] + tail)[i] == middle[i];
        } else if i > |middle| {
          assert (middle + ['.'] + tail)[i] == tail[i - |middle| - 1];
        }
      }
    }
    CountConcat(local, ['@'], '@');
    CountConcat(local + ['@'], middle + ['.'] + tail, '@');
    assert forall j | 0 <= j < at :: local[j] == s[j];
  }

  /** With exactly one `@`, no other position holds one. */
  lemma SingleAtElsewhereAbsent(s: string, i: int)
    requires Count(s, '@') == 1
    requires 0 <= i < |s| && i != IndexOf(s, '@')
    ensures s[i] != '@'
  {
    var at := IndexOf(s, '@');
    if i < at {
      assert s[..at][i] == s[i];
    } else if s[i] == '@' {
      CountAtLeastTwo(s, '@', at, i);
    }
  }

  /** The piece-by-piece reading and the shape reading agree. */
  lemma PatternIffShape(s: string)
    ensures MatchesEmailPattern(s) <==> HasEmailShape(s)
  {
    if MatchesEmailPattern(s) {
      var at, dot :| 0 <= at < dot < |s| && MatchesWith(s, at, dot);
      MatchHasSingleAt(s, at, dot);
      assert s[at + 1..][dot - at - 1] == '.';
    }
    if HasEmailShape(s) {
      var at := IndexOf(s, '@');
      var domain := s[at + 1..];
      var k :| 0 < k < |domain| - 1 && domain[k] == '.';
      var dot := at + 1 + k;
      forall i | 0 <= i < |s| && i != at
        ensures IsAddressChar(s[i])
      {
        SingleAtElsewhereAbsent(s, i);
      }
      assert IsAddressRun(s[..at]) by {
        forall i | 0 <= i < at ensures IsAddressChar(s[..at][i]) {
          assert s[..at][i] == s[i];
        }
      }
      var middle, tail := s[at + 1..dot], s[dot + 1..];
      assert IsAddressRun(middle) by {
        forall i | 0 <= i < |middle| ensures IsAddressChar(middle[i]) {
          assert middle[i] == s[at + 1 + i];
        }
      }
      assert IsAddressRun(tail) by {
        forall i | 0 <= i < |tail| ensures IsAddressChar(tail[i]) {
          assert tail[i] == s[dot + 1 + i];
        }
      }
      assert MatchesWith(s, at, dot);
    }
  }

  /** Whitespace at either end makes the pattern fail, even though `trim()`
      leaves something, so such an input is reported as malformed rather
      than missing. */
  lemma PaddedEmailIsMalformed(s: string)
    requires |s| > 0 && (IsWhitespace(s[0]) || IsWhitespace(s[|s| - 1]))
    requires !IsBlank(s)
    ensures Trim(s) != []
    ensures !MatchesEmailPattern(s)
  {
    TrimEmptyIffBlank(s);
    PatternIffShape(s);
  }
}
