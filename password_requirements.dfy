/**
 * The password checklist of client/src/components/PasswordRequirementsComponent.tsx:
 * six regular expressions, each tested against the password with
 * JavaScript's `RegExp.prototype.test` (a search at every start position,
 * no flags), and one list item per expression, marked passing when its
 * expression finds a match.
 *
 * Each expression is written as the search the engine performs (try the
 * pattern at the start, otherwise at the next position) and proved equal
 * to a declarative description of the strings it accepts.
 */
module PasswordRequirements {

  /** The characters `.` does not match without the `s` flag. */
  predicate IsLineTerminator(c: char)
  {
    c == '\n' || c == '\r' || c == '\U{2028}' || c == '\U{2029}'
  }

  /** What `\s` matches: ECMAScript's WhiteSpace and LineTerminator characters. */
  predicate IsJsWhitespace(c: char)
  {
    || c == '\t' || c == '\U{000B}' || c == '\U{000C}' || c == ' ' || c == '\U{00A0}' || c == '\U{FEFF}'
    || c == '\U{1680}' || ('\U{2000}' <= c <= '\U{200A}') || c == '\U{202F}' || c == '\U{205F}' || c == '\U{3000}'
    || IsLineTerminator(c)
  }

  predicate IsUpper(c: char) { 'A' <= c <= 'Z' }
  predicate IsLower(c: char) { 'a' <= c <= 'z' }
  predicate IsAsciiDigit(c: char) { '0' <= c <= '9' }

  /** The class `[!@#$%^&*(),.?":{}|<>]`. */
  predicate IsSymbol(c: char)
  {
    c in "!@#$%^&*(),.?\":{}|<>"
  }

  /** A search for a one-character class: does some character of `s` satisfy `p`? */
  function AnyChar(s: string, p: char -> bool): (b: bool)
    ensures b <==> exists i :: 0 <= i < |s| && p(s[i])
  {
    if |s| == 0 then false
    else if p(s[0]) then true
    else
      assert forall i :: 1 <= i < |s| ==> s[i] == s[1..][i - 1];
      AnyChar(s[1..], p)
  }

  // ---------------------------------------------------------------------
  // /.{8,}/
  // ---------------------------------------------------------------------

  /**
   * JavaScript strings are UTF-16: without the `u` flag `.` consumes one
   * code unit, so a character outside the Basic Multilingual Plane (a
   * surrogate pair) counts twice.
   */
  function Units(c: char): nat
  {
    if c as int > 0xFFFF then 2 else 1
  }

  /** The length JavaScript reports for `s`: its number of UTF-16 code units. */
  function UnitCount(s: string): nat
  {
    if |s| == 0 then 0 else Units(s[0]) + UnitCount(s[1..])
  }

  /** How many characters `.` consumes from the start of `s`. */
  function CleanPrefix(s: string): (n: nat)
    ensures n <= |s|
    ensures forall j :: 0 <= j < n ==> !IsLineTerminator(s[j])
    ensures n < |s| ==> IsLineTerminator(s[n])
  {
    if |s| == 0 || IsLineTerminator(s[0]) then 0 else 1 + CleanPrefix(s[1..])
  }

  /** How many code units `.*` consumes from the start of `s`: those of its clean prefix. */
  function CleanUnits(s: string): (n: nat)
    ensures n == UnitCount(s[..CleanPrefix(s)])
  {
    if |s| == 0 || IsLineTerminator(s[0]) then 0
    else
      assert s[..CleanPrefix(s)][1..] == s[1..][..CleanPrefix(s[1..])];
      Units(s[0]) + CleanUnits(s[1..])
  }

  /**
   * `/.{8,}/.test(s)`: the pattern matches at the first start position
   * where at least 8 code units follow before a line terminator.
   */
  function LengthRule(s: string): bool
  {
    CleanUnits(s) >= 8 || (|s| > 0 && LengthRule(s[1..]))
  }

  /** The `n` characters of `s` from position `i` on hold no line terminator. */
  predicate CleanWindow(s: string, i: int, n: nat)
  {
    0 <= i && i + n <= |s| && forall j :: i <= j < i + n ==> !IsLineTerminator(s[j])
  }

  /** Some run of consecutive characters of `s` with no line terminator spans at least `k` UTF-16 code units. */
  ghost predicate HasCleanRun(s: string, k: nat)
  {
    exists i: nat, n: nat :: CleanWindow(s, i, n) && UnitCount(s[i..i + n]) >= k
  }

  /** A longer prefix has at least as many code units. */
  lemma {:induction false} UnitCountMonotone(s: string, m: nat, n: nat)
    requires m <= n <= |s|
    ensures UnitCount(s[..m]) <= UnitCount(s[..n])
  {
    if m > 0 {
      assert s[..m][1..] == s[1..][..m - 1];
      assert s[..n][1..] == s[1..][..n - 1];
      UnitCountMonotone(s[1..], m - 1, n - 1);
    }
  }

  /** The clean prefix is a clean run of CleanUnits(s) code units. */
  lemma CleanPrefixRun(s: string)
    ensures CleanWindow(s, 0, CleanPrefix(s)) && UnitCount(s[0..0 + CleanPrefix(s)]) == CleanUnits(s)
  {
    assert s[0..0 + CleanPrefix(s)] == s[..CleanPrefix(s)];
  }

  /** A clean run starting at 0 spans no more code units than the clean prefix. */
  lemma CleanRunAtStart(s: string, n: nat)
    requires CleanWindow(s, 0, n)
    ensures UnitCount(s[0..0 + n]) <= CleanUnits(s)
  {
    assert s[0..0 + n] == s[..n];
    UnitCountMonotone(s, n, CleanPrefix(s));
  }

  /** A clean run of `s[1..]` is one of `s`, one position later. */
  lemma ShiftRun(s: string, i: nat, n: nat)
    requires |s| > 0 && CleanWindow(s[1..], i, n)
    ensures CleanWindow(s, i + 1, n) && s[i + 1..i + 1 + n] == s[1..][i..i + n]
  {
  }

  lemma {:induction false} LengthRuleSound(s: string)
    requires LengthRule(s)
    ensures HasCleanRun(s, 8)
  {
    if CleanUnits(s) >= 8 {
      CleanPrefixRun(s);
    } else {
      LengthRuleSound(s[1..]);
      var i: nat, n: nat :| CleanWindow(s[1..], i, n) && UnitCount(s[1..][i..i + n]) >= 8;
      ShiftRun(s, i, n);
    }
  }

  lemma {:induction false} LengthRuleComplete(s: string)
    requires HasCleanRun(s, 8)
    ensures LengthRule(s)
  {
    var i: nat, n: nat :| CleanWindow(s, i, n) && UnitCount(s[i..i + n]) >= 8;
    if i == 0 {
      CleanRunAtStart(s, n);
    } else {
      assert s[1..][i - 1..i - 1 + n] == s[i..i + n];
      assert CleanWindow(s[1..], i - 1, n);
      LengthRuleComplete(s[1..]);
    }
  }

  /** `/.{8,}/` passes iff some run without a line terminator spans 8 UTF-16 code units. */
  lemma LengthRuleMeaning(s: string)
    ensures LengthRule(s) <==> HasCleanRun(s, 8)
  {
    if LengthRule(s) { LengthRuleSound(s); }
    if HasCleanRun(s, 8) { LengthRuleComplete(s); }
  }

  /** Four characters outside the Basic Multilingual Plane already make eight code units. */
  lemma AstralPasswordPasses()
    ensures LengthRule("\U{1F600}\U{1F600}\U{1F600}\U{1F600}")
  {
    var s := "\U{1F600}\U{1F600}\U{1F600}\U{1F600}";
    assert CleanPrefix(s[3..]) == 1;
    assert CleanPrefix(s[2..]) == 2;
    assert CleanPrefix(s[1..]) == 3;
    assert CleanPrefix(s) == 4;
    assert CleanUnits(s[3..]) == 2;
    assert CleanUnits(s[2..]) == 4;
    assert CleanUnits(s[1..]) == 6;
  }

  // ---------------------------------------------------------------------
  // /[0-9].*[0-9]/
  // ---------------------------------------------------------------------

  /** After the first digit: `.*[0-9]` matches at the start of `t`, i.e. a digit comes before any line terminator. */
  function DigitBeforeTerminator(t: string): bool
  {
    |t| > 0 && (IsAsciiDigit(t[0]) || (!IsLineTerminator(t[0]) && DigitBeforeTerminator(t[1..])))
  }

  /** `/[0-9].*[0-9]/.test(s)`. */
  function DigitsRule(s: string): bool
  {
    (|s| > 0 && IsAsciiDigit(s[0]) && DigitBeforeTerminator(s[1..])) || (|s| > 0 && DigitsRule(s[1..]))
  }

  /** Positions `i < j` hold digits with no line terminator between them. */
  predicate DigitPairAt(s: string, i: int, j: int)
  {
    0 <= i < j < |s| && IsAsciiDigit(s[i]) && IsAsciiDigit(s[j]) && forall k :: i < k < j ==> !IsLineTerminator(s[k])
  }

  /** Two digits with no line terminator between them. */
  ghost predicate HasDigitPair(s: string)
  {
    exists i, j :: DigitPairAt(s, i, j)
  }

  /** Position `j` holds a digit and no line terminator comes before it. */
  predicate DigitReachableAt(t: string, j: int)
  {
    0 <= j < |t| && IsAsciiDigit(t[j]) && forall k :: 0 <= k < j ==> !IsLineTerminator(t[k])
  }

  lemma {:induction false} DigitBeforeTerminatorMeaning(t: string)
    ensures DigitBeforeTerminator(t) <==> exists j :: DigitReachableAt(t, j)
  {
    if |t| > 0 && !IsAsciiDigit(t[0]) {
      DigitBeforeTerminatorMeaning(t[1..]);
      if exists j :: DigitReachableAt(t, j) {
        var j :| DigitReachableAt(t, j);
        assert DigitReachableAt(t[1..], j - 1);
      }
      if DigitBeforeTerminator(t) {
        var j :| DigitReachableAt(t[1..], j);
        assert DigitReachableAt(t, j + 1);
      }
    } else if |t| > 0 {
      assert DigitReachableAt(t, 0);
    }
  }

  lemma ShiftPair(s: string, i: int, j: int)
    requires |s| > 0 && DigitPairAt(s[1..], i, j)
    ensures DigitPairAt(s, i + 1, j + 1)
  {
    assert forall k :: i + 1 < k < j + 1 ==> s[k] == s[1..][k - 1];
  }

  lemma UnshiftPair(s: string, i: int, j: int)
    requires DigitPairAt(s, i, j) && i > 0
    ensures DigitPairAt(s[1..], i - 1, j - 1)
  {
    assert forall k :: i - 1 < k < j - 1 ==> s[1..][k] == s[k + 1];
  }

  lemma PairFromHead(s: string, j: int)
    requires |s| > 0 && IsAsciiDigit(s[0]) && DigitReachableAt(s[1..], j)
    ensures DigitPairAt(s, 0, j + 1)
  {
    assert forall k :: 0 < k < j + 1 ==> s[k] == s[1..][k - 1];
  }

  lemma HeadFromPair(s: string, j: int)
    requires DigitPairAt(s, 0, j)
    ensures DigitReachableAt(s[1..], j - 1)
  {
    assert forall k :: 0 <= k < j - 1 ==> s[1..][k] == s[k + 1];
  }

  lemma {:induction false} DigitsRuleMeaning(s: string)
    ensures DigitsRule(s) <==> HasDigitPair(s)
  {
    if |s| > 0 {
      DigitsRuleMeaning(s[1..]);
      DigitBeforeTerminatorMeaning(s[1..]);
      if IsAsciiDigit(s[0]) && DigitBeforeTerminator(s[1..]) {
        var j :| DigitReachableAt(s[1..], j);
        PairFromHead(s, j);
      }
      if HasDigitPair(s[1..]) {
        var i, j :| DigitPairAt(s[1..], i, j);
        ShiftPair(s, i, j);
      }
      if HasDigitPair(s) {
        var i, j :| DigitPairAt(s, i, j);
        if i == 0 {
          HeadFromPair(s, j);
        } else {
          UnshiftPair(s, i, j);
        }
      }
    }
  }

  /** How many ASCII digits `s` holds. */
  function DigitCount(s: string): (n: nat)
    ensures n <= |s|
  {
    if |s| == 0 then 0 else (if IsAsciiDigit(s[0]) then 1 else 0) + DigitCount(s[1..])
  }

  /** Without line terminators the rule means what its label says: at least two digits. */
  lemma {:induction false} DigitsRuleCounts(s: string)
    requires forall k :: 0 <= k < |s| ==> !IsLineTerminator(s[k])
    ensures DigitsRule(s) <==> DigitCount(s) >= 2
  {
    if |s| > 0 {
      DigitsRuleCounts(s[1..]);
      DigitBeforeTerminatorCounts(s[1..]);
    }
  }

  lemma {:induction false} DigitBeforeTerminatorCounts(t: string)
    requires forall k :: 0 <= k < |t| ==> !IsLineTerminator(t[k])
    ensures DigitBeforeTerminator(t) <==> DigitCount(t) >= 1
  {
    if |t| > 0 {
      DigitBeforeTerminatorCounts(t[1..]);
    }
  }

  /** A line terminator between the only two digits defeats the rule. */
  lemma {:induction false} NewlineSplitsDigits()
    ensures DigitCount("1\n2") == 2 && !DigitsRule("1\n2")
  {
    assert "1\n2"[1..] == "\n2" && "\n2"[1..] == "2" && "2"[1..] == "";
  }

  // ---------------------------------------------------------------------
  // The checklist
  // ---------------------------------------------------------------------

  /** `/^\S*$/.test(s)`: without the `m` flag the anchors are the ends of the string. */
  function NoSpacesRule(s: string): (ok: bool)
    ensures ok <==> forall i :: 0 <= i < |s| ==> !IsJsWhitespace(s[i])
  {
    !AnyChar(s, IsJsWhitespace)
  }

  datatype Item = Item(text: string, passed: bool)

  const LABELS := ["At least 8 characters", "At least 1 uppercase letter", "At least 1 lowercase letter",
                   "At least 2 digits", "At least 1 symbol", "No spaces"]

  /** Whether requirement `i` holds for `password`, in the list's order. */
  function Rule(i: nat, password: string): bool
    requires i < 6
  {
    match i
    case 0 => LengthRule(password)
    case 1 => AnyChar(password, IsUpper)
    case 2 => AnyChar(password, IsLower)
    case 3 => DigitsRule(password)
    case 4 => AnyChar(password, IsSymbol)
    case 5 => NoSpacesRule(password)
  }

  /** The rendered list: six items in fixed order, each green exactly when its own rule holds. */
  function Requirements(password: string): (items: seq<Item>)
    ensures |items| == 6
    ensures forall i :: 0 <= i < 6 ==> items[i].text == LABELS[i] && (items[i].passed <==> Rule(i, password))
  {
    seq(6, i requires 0 <= i < 6 => Item(LABELS[i], Rule(i, password)))
  }

  /** Each item depends on its own rule only: two passwords agreeing on rule `i` get the same item `i`. */
  lemma ItemsIndependent(p: string, q: string, i: nat)
    requires i < 6 && (Rule(i, p) <==> Rule(i, q))
    ensures Requirements(p)[i] == Requirements(q)[i]
  {
  }
}
