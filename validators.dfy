/**
 * The server's two input validators. Both endpoint files define the same
 * pair (`is_valid_username`, `is_valid_email`); each is a Python `re.match`,
 * which anchors the pattern at the start of the string only, and whose `$`
 * matches at the end of the string or just before a final newline.
 */
module Validators {

  predicate IsUsernameChar(c: char)
  {
    'a' <= c <= 'z' || 'A' <= c <= 'Z' || '0' <= c <= '9' || c == '_' || c == '-'
  }

  predicate AllUsernameChars(s: string)
  {
    forall i :: 0 <= i < |s| ==> IsUsernameChar(s[i])
  }

  /** Where Python's `$` (without MULTILINE) can match in `s`. */
  predicate DollarAt(s: string, k: int)
  {
    k == |s| || (k == |s| - 1 && 0 <= k && s[k] == '\n')
  }

  /** `^[a-zA-Z0-9_-]+$` matches: a non-empty run of username characters from the start ends where `$` matches. */
  ghost predicate UsernamePatternMatches(s: string)
  {
    exists k :: 1 <= k <= |s| && AllUsernameChars(s[..k]) && DollarAt(s, k)
  }

  /** is_valid_username. */
  function IsValidUsername(s: string): (ok: bool)
    ensures ok <==> UsernamePatternMatches(s)
  {
    var ok := if |s| >= 1 && s[|s| - 1] == '\n' then |s| >= 2 && AllUsernameChars(s[..|s| - 1])
              else |s| >= 1 && AllUsernameChars(s);
    assert ok ==> UsernamePatternMatches(s) by {
      if ok {
        if s[|s| - 1] == '\n' {
          assert DollarAt(s, |s| - 1);
        } else {
          assert s[..|s|] == s;
        }
      }
    }
    assert UsernamePatternMatches(s) ==> ok by {
      if UsernamePatternMatches(s) {
        var k :| 1 <= k <= |s| && AllUsernameChars(s[..k]) && DollarAt(s, k);
        if k == |s| {
          assert s[..k] == s;
          assert s[|s| - 1] == s[..k][k - 1];
        }
      }
    }
    ok
  }

  /**
   * The accepted language: a non-empty run of `[a-zA-Z0-9_-]`, optionally
   * followed by one newline (stated for a `t` that does not itself end in one).
   */
  lemma {:induction false} UsernameLanguage(t: string)
    requires |t| == 0 || t[|t| - 1] != '\n'
    ensures IsValidUsername(t) <==> |t| >= 1 && AllUsernameChars(t)
    ensures IsValidUsername(t + "\n") <==> |t| >= 1 && AllUsernameChars(t)
  {
    var s := t + "\n";
    assert s[..|s| - 1] == t;
    if |t| >= 1 && AllUsernameChars(t) {
      assert t[..|t|] == t;
      assert DollarAt(t, |t|);
      assert s[..|t|] == t && DollarAt(s, |t|);
    }
    if UsernamePatternMatches(t) {
      var k :| 1 <= k <= |t| && AllUsernameChars(t[..k]) && DollarAt(t, k);
      assert k == |t|;
      assert t[..k] == t;
    }
    if UsernamePatternMatches(s) {
      var k :| 1 <= k <= |s| && AllUsernameChars(s[..k]) && DollarAt(s, k);
      assert !IsUsernameChar(s[|t|]);
      assert s[..k] == t;
    }
  }

  /** No '@' in s[lo..hi]. */
  predicate AtFree(s: string, lo: int, hi: int)
    requires 0 <= lo <= hi <= |s|
  {
    forall j :: lo <= j < hi ==> s[j] != '@'
  }

  /** `s` begins with X@Y.Z where X = s[..a], Y = s[a+1..d], Z = s[d+1..e] are non-empty and '@'-free. */
  predicate EmailShapeAt(s: string, a: int, d: int, e: int)
  {
    && 1 <= a && a + 2 <= d && d + 2 <= e <= |s|
    && s[a] == '@' && s[d] == '.'
    && AtFree(s, 0, a) && AtFree(s, a + 1, d) && AtFree(s, d + 1, e)
  }

  /** `[^@]+@[^@]+\.[^@]+` matches at the start of `s`. */
  ghost predicate EmailPatternMatches(s: string)
  {
    exists a, d, e :: EmailShapeAt(s, a, d, e)
  }

  /** Index of the first `c` in s[from..], or |s| when there is none. */
  function IndexOf(s: string, c: char, from: nat): (i: nat)
    requires from <= |s|
    ensures from <= i <= |s|
    ensures i < |s| ==> s[i] == c
    ensures forall j :: from <= j < i ==> s[j] != c
    decreases |s| - from
  {
    if from == |s| || s[from] == c then from else IndexOf(s, c, from + 1)
  }

  /** is_valid_email: the first '@' has a non-empty prefix, and the '@'-free run after it holds a '.' with a character on each side. */
  function IsValidEmail(s: string): (ok: bool)
    ensures ok <==> EmailPatternMatches(s)
  {
    var a := IndexOf(s, '@', 0);
    if a == 0 || a == |s| then
      false
    else
      var b := IndexOf(s, '@', a + 1);
      var ok := exists d | a + 2 <= d <= b - 2 :: s[d] == '.';
      assert ok ==> EmailPatternMatches(s) by {
        if ok {
          var d :| a + 2 <= d <= b - 2 && s[d] == '.';
          assert EmailShapeAt(s, a, d, d + 2);
        }
      }
      assert EmailPatternMatches(s) ==> ok by {
        if EmailPatternMatches(s) {
          var a', d, e :| EmailShapeAt(s, a', d, e);
          assert a == a';
          assert e <= b;
          assert a + 2 <= d <= b - 2 && s[d] == '.';
        }
      }
      ok
  }

  /** `re.match` anchors only at the start: whatever follows an accepted address is accepted too. */
  lemma {:induction false} EmailAcceptsAnySuffix(s: string, t: string)
    requires IsValidEmail(s)
    ensures IsValidEmail(s + t)
  {
    var a, d, e :| EmailShapeAt(s, a, d, e);
    var u := s + t;
    assert forall j :: 0 <= j < e ==> u[j] == s[j];
    assert EmailShapeAt(u, a, d, e);
  }
}
