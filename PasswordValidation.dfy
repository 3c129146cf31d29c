/**
 * The password policy (src/utils/passwordValidation.ts): the schema's rules
 * with the messages `validatePassword` reports, and the 0..8 strength score
 * with its label.  The character classes of the source's regular
 * expressions are ASCII ranges; everything else counts as special.
 */
module PasswordValidation {

  // ---------------------------------------------------------------------------
  // Character classes

  predicate IsUpper(c: char) { 'A' <= c <= 'Z' }
  predicate IsLower(c: char) { 'a' <= c <= 'z' }
  predicate IsDigit(c: char) { '0' <= c <= '9' }

  /** `[^A-Za-z0-9]` */
  predicate IsSpecial(c: char) { !IsUpper(c) && !IsLower(c) && !IsDigit(c) }

  /** The characters the regular-expression `.` does not match. */
  predicate IsLineTerminator(c: char) {
    c == '\n' || c == '\r' || c == '\U{2028}' || c == '\U{2029}'
  }

  predicate HasUpper(p: string) { exists i :: 0 <= i < |p| && IsUpper(p[i]) }
  predicate HasLower(p: string) { exists i :: 0 <= i < |p| && IsLower(p[i]) }
  predicate HasDigit(p: string) { exists i :: 0 <= i < |p| && IsDigit(p[i]) }
  predicate HasSpecial(p: string) { exists i :: 0 <= i < |p| && IsSpecial(p[i]) }

  /** `(password.match(/[0-9]/g) || []).length` */
  function DigitCount(p: string): (n: nat)
    ensures n <= |p|
  {
    if p == [] then 0 else (if IsDigit(p[0]) then 1 else 0) + DigitCount(p[1..])
  }

  function SpecialCount(p: string): (n: nat)
    ensures n <= |p|
  {
    if p == [] then 0 else (if IsSpecial(p[0]) then 1 else 0) + SpecialCount(p[1..])
  }

  lemma {:induction false} DigitCountPositive(p: string)
    ensures DigitCount(p) > 0 <==> HasDigit(p)
  {
    if p != [] {
      DigitCountPositive(p[1..]);
      if HasDigit(p[1..]) {
        var i :| 0 <= i < |p[1..]| && IsDigit(p[1..][i]);
        assert IsDigit(p[i + 1]);
      }
      if HasDigit(p) && !IsDigit(p[0]) {
        var i :| 0 <= i < |p| && IsDigit(p[i]);
        assert IsDigit(p[1..][i - 1]);
      }
    }
  }

  // ---------------------------------------------------------------------------
  // Substrings

  predicate ContainsAt(p: string, w: string, i: int) {
    0 <= i && i + |w| <= |p| && p[i..i + |w|] == w
  }

  /** `p.includes(w)` */
  predicate Contains(p: string, w: string) {
    exists i :: 0 <= i <= |p| - |w| && ContainsAt(p, w, i)
  }

  /** The alternatives of `/123|234|345|456|567|678|789|987|876|765|654|543|432|321/`. */
  const SequentialTriples: seq<string> :=
    ["123", "234", "345", "456", "567", "678", "789", "987", "876", "765", "654", "543", "432", "321"]

  predicate HasSequential(p: string) {
    exists k :: 0 <= k < |SequentialTriples| && Contains(p, SequentialTriples[k])
  }

  const CommonWords: seq<string> := ["password", "admin", "123456", "qwerty"]

  /** `toLowerCase()` on the ASCII letters. */
  function ToLower(p: string): (r: string)
    ensures |r| == |p|
    ensures forall i :: 0 <= i < |p| ==> r[i] == (if IsUpper(p[i]) then (p[i] as int + 32) as char else p[i])
  {
    seq(|p|, i requires 0 <= i < |p| => if IsUpper(p[i]) then (p[i] as int + 32) as char else p[i])
  }

  /** `commonWords.some(word => password.toLowerCase().includes(word))` */
  predicate HasCommonWord(p: string) {
    exists k :: 0 <= k < |CommonWords| && Contains(ToLower(p), CommonWords[k])
  }

  // ---------------------------------------------------------------------------
  // The schema and validatePassword

  const MinLengthMessage: string := "Password must be at least 12 characters"
  const UppercaseMessage: string := "Password must contain at least one uppercase letter"
  const LowercaseMessage: string := "Password must contain at least one lowercase letter"
  const TwoNumbersMessage: string := "Password must contain at least two numbers"
  const SpecialMessage: string := "Password must contain at least one special character"
  const SequentialMessage: string := "Password cannot contain sequential numbers"
  const CommonWordMessage: string := "Password cannot contain common words"

  function Check(ok: bool, message: string): seq<string> {
    if ok then [] else [message]
  }

  /**
   * `validatePassword(password)`: the schema reports every failing check, in
   * declaration order; the `[0-9]` pattern carries the two-numbers message,
   * as does the refinement after it.
   */
  function ValidatePassword(p: string): (messages: seq<string>)
    ensures |p| < 12 ==> |messages| > 0 && messages[0] == MinLengthMessage
  {
    Messages(|p| >= 12, HasUpper(p), HasLower(p), HasDigit(p), HasSpecial(p),
             DigitCount(p) >= 2, !HasSequential(p), !HasCommonWord(p))
  }

  /** The seven rules a password must meet. */
  predicate MeetsPolicy(p: string) {
    && |p| >= 12
    && HasUpper(p)
    && HasLower(p)
    && DigitCount(p) >= 2
    && HasSpecial(p)
    && !HasSequential(p)
    && !HasCommonWord(p)
  }

  /** No message exactly when every rule holds. */
  lemma ValidateEmptyIff(p: string)
    ensures ValidatePassword(p) == [] <==> MeetsPolicy(p)
  {
    DigitCountPositive(p);
  }

  function Occurrences(messages: seq<string>, m: string): nat {
    if messages == [] then 0 else (if messages[0] == m then 1 else 0) + Occurrences(messages[1..], m)
  }

  lemma {:induction false} OccurrencesConcat(a: seq<string>, b: seq<string>, m: string)
    ensures Occurrences(a + b, m) == Occurrences(a, m) + Occurrences(b, m)
  {
    if a == [] {
      assert a + b == b;
    } else {
      assert (a + b)[1..] == a[1..] + b;
      OccurrencesConcat(a[1..], b, m);
    }
  }

  /** The message list of eight check outcomes, as `ValidatePassword` builds it. */
  function Messages(a: bool, b: bool, c: bool, d: bool, e: bool, f: bool, g: bool, h: bool): seq<string> {
    Check(a, MinLengthMessage) + Check(b, UppercaseMessage) + Check(c, LowercaseMessage) + Check(d, TwoNumbersMessage)
    + Check(e, SpecialMessage) + Check(f, TwoNumbersMessage) + Check(g, SequentialMessage) + Check(h, CommonWordMessage)
  }

  lemma CheckOccurrences(ok: bool, message: string, m: string)
    ensures Occurrences(Check(ok, message), m) == if !ok && message == m then 1 else 0
  {
  }

  /** Of the eight checks only the fourth and the sixth carry the two-numbers message. */
  lemma MessagesTwoNumbers(a: bool, b: bool, c: bool, d: bool, e: bool, f: bool, g: bool, h: bool)
    ensures Occurrences(Messages(a, b, c, d, e, f, g, h), TwoNumbersMessage) == Point(!d) + Point(!f)
  {
    var m := TwoNumbersMessage;
    assert MinLengthMessage[14] != m[14];
    assert UppercaseMessage[31] != m[31];
    assert LowercaseMessage[31] != m[31];
    assert SpecialMessage[31] != m[31];
    assert SequentialMessage[9] != m[9];
    assert CommonWordMessage[9] != m[9];
    var ca := Check(a, MinLengthMessage);
    var cb := Check(b, UppercaseMessage);
    var cc := Check(c, LowercaseMessage);
    var cd := Check(d, m);
    var ce := Check(e, SpecialMessage);
    var cf := Check(f, m);
    var cg := Check(g, SequentialMessage);
    var ch := Check(h, CommonWordMessage);
    CheckOccurrences(a, MinLengthMessage, m);
    CheckOccurrences(b, UppercaseMessage, m);
    CheckOccurrences(c, LowercaseMessage, m);
    CheckOccurrences(d, m, m);
    CheckOccurrences(e, SpecialMessage, m);
    CheckOccurrences(f, m, m);
    CheckOccurrences(g, SequentialMessage, m);
    CheckOccurrences(h, CommonWordMessage, m);
    OccurrencesConcat(ca, cb, m);
    OccurrencesConcat(ca + cb, cc, m);
    OccurrencesConcat(ca + cb + cc, cd, m);
    OccurrencesConcat(ca + cb + cc + cd, ce, m);
    OccurrencesConcat(ca + cb + cc + cd + ce, cf, m);
    OccurrencesConcat(ca + cb + cc + cd + ce + cf, cg, m);
    OccurrencesConcat(ca + cb + cc + cd + ce + cf + cg, ch, m);
  }

  /**
   * The two-numbers message appears twice for a password without digits,
   * once for a password with exactly one, and not at all otherwise.
   */
  lemma TwoNumbersMessageCount(p: string)
    ensures Occurrences(ValidatePassword(p), TwoNumbersMessage)
            == if DigitCount(p) == 0 then 2 else if DigitCount(p) == 1 then 1 else 0
  {
    DigitCountPositive(p);
    MessagesTwoNumbers(|p| >= 12, HasUpper(p), HasLower(p), HasDigit(p), HasSpecial(p),
                       DigitCount(p) >= 2, !HasSequential(p), !HasCommonWord(p));
  }

  /** Only the listed triples count as sequential: a password made of "012" and "890" is not. */
  lemma OnlyListedTriples()
    ensures !HasSequential("0128900")
  {
    var p := "0128900";
    forall k, i | 0 <= k < |SequentialTriples| && 0 <= i <= |p| - 3
      ensures !ContainsAt(p, SequentialTriples[k], i)
    {
      assert p[i..i + 3] == [p[i], p[i + 1], p[i + 2]];
    }
  }

  lemma ToLowerSlice(p: string, i: int, j: int)
    requires 0 <= i <= j <= |p|
    ensures ToLower(p)[i..j] == ToLower(p[i..j])
  {
  }

  /**
   * Three digits in a row that step up by one from 1..7 or down by one from
   * 9..3: the runs the sequential pattern lists (it leaves out 012 and 210).
   */
  predicate SequentialRunAt(p: string, i: int) {
    && 0 <= i && i + 3 <= |p|
    && (|| ('1' <= p[i] <= '7' && p[i + 1] as int == p[i] as int + 1 && p[i + 2] as int == p[i] as int + 2)
        || ('3' <= p[i] <= '9' && p[i + 1] as int == p[i] as int - 1 && p[i + 2] as int == p[i] as int - 2))
  }

  /** The listed triple at position `i`, read off its first character and direction. */
  lemma TripleAt(p: string, i: int, k: int)
    requires 0 <= k < |SequentialTriples| && 0 <= i && i + 3 <= |p|
    ensures ContainsAt(p, SequentialTriples[k], i) <==>
      (if k < 7 then p[i] == ('1' as int + k) as char && p[i + 1] as int == p[i] as int + 1 && p[i + 2] as int == p[i] as int + 2
       else p[i] == ('9' as int - (k - 7)) as char && p[i + 1] as int == p[i] as int - 1 && p[i + 2] as int == p[i] as int - 2)
  {
    assert p[i..i + 3] == [p[i], p[i + 1], p[i + 2]];
  }

  /** The sequential rule fires exactly when the password holds a run of three stepping digits. */
  lemma HasSequentialIff(p: string)
    ensures HasSequential(p) <==> exists i :: SequentialRunAt(p, i)
  {
    if HasSequential(p) {
      var k, i :| 0 <= k < |SequentialTriples| && 0 <= i <= |p| - |SequentialTriples[k]| && ContainsAt(p, SequentialTriples[k], i);
      TripleAt(p, i, k);
      assert SequentialRunAt(p, i);
    }
    if i :| SequentialRunAt(p, i) {
      var k := if p[i + 1] as int == p[i] as int + 1 then p[i] as int - '1' as int else 7 + ('9' as int - p[i] as int);
      TripleAt(p, i, k);
      assert ContainsAt(p, SequentialTriples[k], i);
    }
  }

  /** The slice of `p` at `i` spells `w` once lowercased. */
  predicate SpellsAt(p: string, w: string, i: int) {
    0 <= i && i + |w| <= |p| && ToLower(p[i..i + |w|]) == w
  }

  /** The common-word rule fires exactly when some slice of the password spells a common word in any case. */
  lemma HasCommonWordIff(p: string)
    ensures HasCommonWord(p) <==> exists k, i :: 0 <= k < |CommonWords| && SpellsAt(p, CommonWords[k], i)
  {
    if HasCommonWord(p) {
      var k :| 0 <= k < |CommonWords| && Contains(ToLower(p), CommonWords[k]);
      var w := CommonWords[k];
      var i :| 0 <= i <= |ToLower(p)| - |w| && ContainsAt(ToLower(p), w, i);
      ToLowerSlice(p, i, i + |w|);
      assert SpellsAt(p, w, i);
    }
    if k, i :| 0 <= k < |CommonWords| && SpellsAt(p, CommonWords[k], i) {
      ToLowerSlice(p, i, i + |CommonWords[k]|);
      assert ContainsAt(ToLower(p), CommonWords[k], i);
    }
  }

  /** The common-word rule ignores case: a password with "PassWord" in it breaks it. */
  lemma CommonWordIgnoresCase(p: string, i: int)
    requires ContainsAt(p, "PassWord", i)
    ensures HasCommonWord(p)
    ensures CommonWordMessage in ValidatePassword(p)
  {
    ToLowerSlice(p, i, i + 8);
    var w := p[i..i + 8];
    assert w == "PassWord";
    assert ToLower(w) == "password";
    assert ContainsAt(ToLower(p), CommonWords[0], i);
  }

  /** The common word "123456" is also caught by the sequential rule. */
  lemma CommonDigitsAreSequential(p: string, i: int)
    requires ContainsAt(ToLower(p), "123456", i)
    ensures HasSequential(p)
  {
    ToLowerSlice(p, i, i + 3);
    var w := p[i..i + 3];
    assert ToLower(p)[i..i + 3] == ToLower(p)[i..i + 6][..3];
    assert ToLower(w) == "123";
    assert !IsUpper(w[0]) && !IsUpper(w[1]) && !IsUpper(w[2]);
    assert w == [w[0], w[1], w[2]];
    assert ContainsAt(p, SequentialTriples[0], i);
  }

  // ---------------------------------------------------------------------------
  // getPasswordStrength

  /**
   * `/[^A-Za-z0-9].*[^A-Za-z0-9]/.test(password)`: two special characters
   * with no line terminator between them.
   */
  predicate TwoSpecialsMatch(p: string) {
    exists i, j :: 0 <= i < j < |p| && IsSpecial(p[i]) && IsSpecial(p[j])
                   && forall k :: i < k < j ==> !IsLineTerminator(p[k])
  }

  /** The first special character at or after `from`, or `|p|`. */
  function NextSpecial(p: string, from: nat): (k: nat)
    requires from <= |p|
    ensures from <= k <= |p| && (k < |p| ==> IsSpecial(p[k]))
    ensures forall m :: from <= m < k ==> !IsSpecial(p[m])
    decreases |p| - from
  {
    if from == |p| || IsSpecial(p[from]) then from else NextSpecial(p, from + 1)
  }

  lemma {:induction false} SpecialCountSkip(p: string, from: nat, k: nat)
    requires from <= k <= |p| && forall m :: from <= m < k ==> !IsSpecial(p[m])
    ensures SpecialCount(p[from..]) == SpecialCount(p[k..])
    decreases k - from
  {
    if from < k {
      assert p[from..][1..] == p[from + 1..];
      SpecialCountSkip(p, from + 1, k);
    }
  }

  lemma {:induction false} SpecialCountConcat(a: string, b: string)
    ensures SpecialCount(a + b) == SpecialCount(a) + SpecialCount(b)
  {
    if a == [] {
      assert a + b == b;
    } else {
      assert (a + b)[1..] == a[1..] + b;
      SpecialCountConcat(a[1..], b);
    }
  }

  lemma {:induction false} SpecialCountAt(p: string, i: int)
    requires 0 <= i < |p| && IsSpecial(p[i])
    ensures SpecialCount(p) >= 1
  {
    if i > 0 {
      SpecialCountAt(p[1..], i - 1);
    }
  }

  lemma TwoSpecialsCounted(p: string)
    requires TwoSpecialsMatch(p)
    ensures SpecialCount(p) >= 2
  {
    var i, j :| 0 <= i < j < |p| && IsSpecial(p[i]) && IsSpecial(p[j])
                && forall k :: i < k < j ==> !IsLineTerminator(p[k]);
    assert p == p[..j] + p[j..];
    SpecialCountConcat(p[..j], p[j..]);
    SpecialCountAt(p[..j], i);
    SpecialCountAt(p[j..], 0);
  }

  lemma TwoSpecialsFound(p: string)
    requires SpecialCount(p) >= 2
    ensures TwoSpecialsMatch(p)
  {
    var i := NextSpecial(p, 0);
    SpecialCountSkip(p, 0, i);
    assert p[0..] == p;
    assert SpecialCount(p[i..]) >= 2;
    assert p[i..][1..] == p[i + 1..];
    var j := NextSpecial(p, i + 1);
    SpecialCountSkip(p, i + 1, j);
    assert SpecialCount(p[j..]) >= 1;
    assert forall k :: i < k < j ==> !IsLineTerminator(p[k]);
  }

  /**
   * The regular expression matches exactly when there are at least two
   * special characters: line terminators are special themselves, so two
   * consecutive specials have none between them.
   */
  lemma TwoSpecialsMatchIff(p: string)
    ensures TwoSpecialsMatch(p) <==> SpecialCount(p) >= 2
  {
    if TwoSpecialsMatch(p) {
      TwoSpecialsCounted(p);
    }
    if SpecialCount(p) >= 2 {
      TwoSpecialsFound(p);
    }
  }

  /** The label for each score. */
  const StrengthLabels: seq<string> :=
    ["Very Weak", "Weak", "Fair", "Moderate", "Good", "Strong", "Very Strong", "Excellent", "Exceptional"]

  const StrengthColors: seq<string> :=
    ["bg-red-500", "bg-red-400", "bg-yellow-500", "bg-yellow-400", "bg-blue-500", "bg-green-500",
     "bg-green-600", "bg-green-700", "bg-green-800"]

  function Point(b: bool): nat {
    if b then 1 else 0
  }

  /** The eight independent checks, one point each. */
  function StrengthScore(p: string): (score: nat)
    ensures score <= 8
    ensures p == [] ==> score == 1
  {
    Points(|p| >= 12, |p| >= 16, HasUpper(p), HasLower(p),
           DigitCount(p) >= 2, HasSpecial(p), SpecialCount(p) >= 2, !HasSequential(p))
  }

  /** The number of checks that hold. */
  function Points(a: bool, b: bool, c: bool, d: bool, e: bool, f: bool, g: bool, h: bool): nat {
    Point(a) + Point(b) + Point(c) + Point(d) + Point(e) + Point(f) + Point(g) + Point(h)
  }

  datatype Strength = Strength(score: nat, caption: string, color: string)

  /** `getPasswordStrength(password)` */
  method GetPasswordStrength(password: string) returns (r: Strength)
    ensures r.score == StrengthScore(password) && r.score <= 8
    ensures r.caption == StrengthLabels[r.score] && r.color == StrengthColors[r.score]
  {
    var long, veryLong := |password| >= 12, |password| >= 16;
    var upper, lower := HasUpper(password), HasLower(password);
    var twoDigits := HasDigit(password) && DigitCount(password) >= 2;
    var special, twoSpecials := HasSpecial(password), TwoSpecialsMatch(password);
    var sequential := HasSequential(password);
    // `if (check) score++` for each check in turn.
    var score := 0;
    score := score + Point(long);
    score := score + Point(veryLong);
    score := score + Point(upper);
    score := score + Point(lower);
    score := score + Point(twoDigits);
    score := score + Point(special);
    score := score + Point(twoSpecials);
    score := score + Point(!sequential);
    StrengthChecks(password);
    r := Strength(score, StrengthLabels[score], StrengthColors[score]);
  }

  /** The checks as the source writes them score the same points as the eight independent checks. */
  lemma StrengthChecks(p: string)
    ensures StrengthScore(p) == Points(|p| >= 12, |p| >= 16, HasUpper(p), HasLower(p),
                                       HasDigit(p) && DigitCount(p) >= 2, HasSpecial(p), TwoSpecialsMatch(p), !HasSequential(p))
  {
    DigitCountPositive(p);
    TwoSpecialsMatchIff(p);
  }



  /** Length gives two points from 16 characters on, one from 12 to 15, none below. */
  lemma LengthPoints(p: string)
    ensures Point(|p| >= 12) + Point(|p| >= 16) == if |p| >= 16 then 2 else if |p| >= 12 then 1 else 0
  {
  }

  /** A second special character is worth one point more than a single one. */
  lemma SecondSpecialPoint(p: string, c: char)
    requires IsSpecial(c) && SpecialCount(p) == 1
    ensures SpecialCount(p + [c]) == 2
    ensures HasSpecial(p + [c])
  {
    SpecialCountConcat(p, [c]);
    assert (p + [c])[|p|] == c;
  }

  /** The empty password scores 1, "Weak". */
  lemma EmptyPasswordIsWeak()
    ensures StrengthScore("") == 1 && StrengthLabels[StrengthScore("")] == "Weak"
  {
  }

  /** A password that meets the policy scores at least 6, "Very Strong" or better. */
  lemma PolicyPasswordIsStrong(p: string)
    requires MeetsPolicy(p)
    ensures StrengthScore(p) >= 6
    ensures StrengthLabels[StrengthScore(p)] in ["Very Strong", "Excellent", "Exceptional"]
  {
  }
}
