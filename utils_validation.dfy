/** `Utils.validation` in utils.js: the input sanitiser and the e-mail check. */
module Validation {
  import opened JsBuiltins

  predicate IsAngle(c: char) {
    c == '<' || c == '>'
  }

  /** `input.replace(/[<>]/g, '')`: every `<` and `>` goes, nothing else changes. */
  function SanitizeInput(s: string): (r: string)
    ensures |r| <= |s|
    ensures forall k | 0 <= k < |r| :: !IsAngle(r[k])
    ensures forall c | c in r :: c in s
  {
    if s == [] then []
    else (if IsAngle(s[0]) then [] else [s[0]]) + SanitizeInput(s[1..])
  }

  /** Sanitising works character by character, so the kept characters stay in
      their order: the result for `a + b` is the result for `a` followed by
      the result for `b`. */
  lemma {:induction false} SanitizeConcat(a: string, b: string)
    ensures SanitizeInput(a + b) == SanitizeInput(a) + SanitizeInput(b)
  {
    if a == [] {
      assert a + b == b;
    } else {
      assert (a + b)[0] == a[0];
      assert (a + b)[1..] == a[1..] + b;
      SanitizeConcat(a[1..], b);
    }
  }

  /** A string is left alone exactly when it holds no angle bracket. */
  lemma {:induction false} SanitizeFixedPoint(s: string)
    ensures SanitizeInput(s) == s <==> forall k | 0 <= k < |s| :: !IsAngle(s[k])
  {
    if s != [] {
      SanitizeFixedPoint(s[1..]);
      if !IsAngle(s[0]) {
        assert SanitizeInput(s) == [s[0]] + SanitizeInput(s[1..]);
        assert (forall k | 0 <= k < |s| :: !IsAngle(s[k])) <==>
               (forall k | 0 <= k < |s[1..]| :: !IsAngle(s[1..][k])) by {
          forall k | 1 <= k < |s| ensures s[k] == s[1..][k - 1] { }
        }
      } else {
        assert |SanitizeInput(s)| < |s| by { assert |SanitizeInput(s[1..])| <= |s| - 1; }
      }
    }
  }

  /** Sanitising twice is sanitising once. */
  lemma SanitizeIdempotent(s: string)
    ensures SanitizeInput(SanitizeInput(s)) == SanitizeInput(s)
  {
    SanitizeFixedPoint(SanitizeInput(s));
  }

  /** The character class `[^\s@]`. */
  predicate IsPartChar(c: char) {
    !IsSpace(c) && c != '@'
  }

  predicate AllPart(s: string) {
    forall k | 0 <= k < |s| :: IsPartChar(s[k])
  }

  /** The regular expression `^[^\s@]+@[^\s@]+\.[^\s@]+$`, read as: some
      split of `s` into a local part, `@`, a name, `.` and a suffix, the three
      pieces non-empty and free of white space and `@`. */
  ghost predicate MatchesEmailPattern(s: string) {
    exists i, j | 0 < i && i + 1 < j && j + 1 < |s| ::
      && s[i] == '@' && s[j] == '.'
      && AllPart(s[..i]) && AllPart(s[i + 1..j]) && AllPart(s[j + 1..])
  }

  /** `isValidEmail`, decided without search: the first `@` must have a
      non-empty local part before it, nothing after it may be white space or
      another `@`, and the domain must hold a `.` that is neither its first
      nor its last character. */
  predicate IsValidEmail(s: string) {
    var i := IndexOf(s, '@');
    && 0 < i < |s|
    && AllPart(s[..i])
    && AllPart(s[i + 1..])
    && |s| - i >= 4
    && '.' in s[i + 2..|s| - 1]
  }

  /** The check accepts exactly the strings the regular expression matches. */
  lemma ValidEmailIsPattern(s: string)
    ensures IsValidEmail(s) <==> MatchesEmailPattern(s)
  {
    if IsValidEmail(s) {
      ValidEmailMatches(s);
    }
    if MatchesEmailPattern(s) {
      var i, j :| 0 < i && i + 1 < j && j + 1 < |s| && s[i] == '@' && s[j] == '.'
        && AllPart(s[..i]) && AllPart(s[i + 1..j]) && AllPart(s[j + 1..]);
      MatchIsValidEmail(s, i, j);
    }
  }

  lemma ValidEmailMatches(s: string)
    requires IsValidEmail(s)
    ensures MatchesEmailPattern(s)
  {
    var i := IndexOf(s, '@');
    var domain := s[i + 1..];
    var inner := s[i + 2..|s| - 1];
    var m :| 0 <= m < |inner| && inner[m] == '.';
    var j := i + 2 + m;
    assert s[j] == '.';
    var name, suffix := s[i + 1..j], s[j + 1..];
    assert name == domain[..m + 1];
    assert suffix == domain[m + 2..];
    assert AllPart(name) by {
      forall k | 0 <= k < |name| ensures IsPartChar(name[k]) {
        assert name[k] == domain[k];
      }
    }
    assert AllPart(suffix) by {
      forall k | 0 <= k < |suffix| ensures IsPartChar(suffix[k]) {
        assert suffix[k] == domain[k + m + 2];
      }
    }
  }

  lemma MatchIsValidEmail(s: string, i: int, j: int)
    requires 0 < i && i + 1 < j && j + 1 < |s| && s[i] == '@' && s[j] == '.'
    requires AllPart(s[..i]) && AllPart(s[i + 1..j]) && AllPart(s[j + 1..])
    ensures IsValidEmail(s)
  {
    var local, name, suffix := s[..i], s[i + 1..j], s[j + 1..];
    forall k | 0 <= k < i ensures s[k] != '@' {
      assert s[k] == local[k];
    }
    assert IndexOf(s, '@') == i;
    var domain := s[i + 1..];
    assert AllPart(domain) by {
      forall k | 0 <= k < |domain| ensures IsPartChar(domain[k]) {
        var p := i + 1 + k;
        if p < j {
          assert domain[k] == name[k];
        } else if p > j {
          assert domain[k] == suffix[p - j - 1];
        }
      }
    }
    assert s[i + 2..|s| - 1][j - i - 2] == '.';
  }

  /** What an accepted address looks like: no white space anywhere, exactly
      one `@` with something before it, and a `.` in the domain with a
      character on each side. */
  lemma ValidEmailShape(s: string)
    requires IsValidEmail(s)
    ensures forall k | 0 <= k < |s| :: !IsSpace(s[k])
    ensures exists i | 0 < i < |s| ::
      && s[i] == '@'
      && (forall k | 0 <= k < |s| && k != i :: s[k] != '@')
      && (exists j | i + 1 < j < |s| - 1 :: s[j] == '.')
  {
    var i := IndexOf(s, '@');
    forall k | 0 <= k < |s| ensures !IsSpace(s[k]) && (k != i ==> s[k] != '@') {
      if k < i {
        assert s[k] == s[..i][k];
      } else if k > i {
        assert s[k] == s[i + 1..][k - i - 1];
      }
    }
    var inner := s[i + 2..|s| - 1];
    var m :| 0 <= m < |inner| && inner[m] == '.';
    assert s[i + 2 + m] == '.';
  }
}
