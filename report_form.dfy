/** The report form's pure checks: the e-mail pattern of `isValidEmail`, the
    severity table of `getSeverityBadge`, and the order in which
    `handleSendReport` rejects an e-mail before sending anything. */
module ReportForm {
  import opened Wrappers

  // ---------------------------------------------------------------------------
  // isValidEmail

  /** ECMAScript's `\s`: the WhiteSpace code points (tab, vertical tab, form
      feed, the byte order mark and the space separators of Unicode category Zs)
      and the LineTerminator ones (line feed, carriage return, U+2028, U+2029). */
  predicate IsWhitespace(c: char): (ws: bool)
    ensures ws ==> c != '@' && c != '.'
  {
    || c == '\t' || c == '\n' || c == '\U{000B}' || c == '\U{000C}' || c == '\r'
    || c == ' ' || c == '\U{00A0}' || c == '\U{1680}' || ('\U{2000}' <= c <= '\U{200A}')
    || c == '\U{2028}' || c == '\U{2029}' || c == '\U{202F}' || c == '\U{205F}'
    || c == '\U{3000}' || c == '\U{FEFF}'
  }

  /** The class `[^\s@]`. */
  predicate IsAddressChar(c: char) {
    !IsWhitespace(c) && c != '@'
  }

  /** `[^\s@]+`: a non-empty run of address characters. */
  predicate IsRun(s: string) {
    |s| > 0 && forall k | 0 <= k < |s| :: IsAddressChar(s[k])
  }

  /** The text splits at an `@` at index `i` and a `.` at index `j` into three
      runs. */
  predicate SplitsAt(email: string, i: int, j: int) {
    && 0 < i < j < |email|
    && email[i] == '@' && email[j] == '.'
    && IsRun(email[..i]) && IsRun(email[i + 1..j]) && IsRun(email[j + 1..])
  }

  /** `/^[^\s@]+@[^\s@]+\.[^\s@]+$/.test(email)`. */
  predicate IsValidEmail(email: string): (valid: bool)
    ensures valid ==> |email| >= 5
  {
    exists i, j | 0 < i < j < |email| :: SplitsAt(email, i, j)
  }

  /** `s` holds exactly one `@`. */
  predicate HasSingleAt(s: string) {
    exists i | 0 <= i < |s| :: s[i] == '@' && forall k | 0 <= k < |s| && k != i :: s[k] != '@'
  }

  predicate HasNoWhitespace(s: string) {
    forall k | 0 <= k < |s| :: !IsWhitespace(s[k])
  }

  /** `d` holds a `.` that is neither its first nor its last character. */
  predicate HasInnerDot(d: string) {
    exists k | 0 < k < |d| - 1 :: d[k] == '.'
  }

  /** The conditions the regular expression amounts to: one `@`, no
      whitespace, a non-empty local part, and a domain with a `.` strictly
      inside it. */
  predicate EmailConditions(s: string) {
    && HasSingleAt(s)
    && HasNoWhitespace(s)
    && (forall i | 0 <= i < |s| && s[i] == '@' :: i > 0 && HasInnerDot(s[i + 1..]))
  }

  /** Every character of a run is an address character. */
  lemma RunCharAt(s: string, lo: nat, hi: nat, k: nat)
    requires lo <= k < hi <= |s| && IsRun(s[lo..hi])
    ensures IsAddressChar(s[k])
  {
    assert s[k] == s[lo..hi][k - lo];
  }

  /** Outside the `@` and the `.` a split text holds only address characters. */
  lemma SplitChars(s: string, i: int, j: int)
    requires SplitsAt(s, i, j)
    ensures forall k | 0 <= k < |s| && k != i && k != j :: IsAddressChar(s[k])
  {
    assert s[..i] == s[0..i] && s[j + 1..] == s[j + 1..|s|];
    forall k | 0 <= k < |s| && k != i && k != j
      ensures IsAddressChar(s[k])
    {
      if k < i {
        RunCharAt(s, 0, i, k);
      } else if k < j {
        RunCharAt(s, i + 1, j, k);
      } else {
        RunCharAt(s, j + 1, |s|, k);
      }
    }
  }

  /** A match of the pattern meets every condition. */
  lemma {:induction false} ValidEmailMeetsConditions(s: string)
    requires IsValidEmail(s)
    ensures EmailConditions(s)
  {
    var i, j :| SplitsAt(s, i, j);
    SplitChars(s, i, j);
    assert HasNoWhitespace(s);
    assert forall k | 0 <= k < |s| && k != i :: s[k] != '@' by {
      forall k | 0 <= k < |s| && k != i
        ensures s[k] != '@'
      {
        if k != j { assert IsAddressChar(s[k]); }
      }
    }
    assert HasSingleAt(s);
    assert s[i + 1..][j - i - 1] == '.';
    assert HasInnerDot(s[i + 1..]);
  }

  /** Text meeting every condition matches the pattern. */
  lemma {:induction false} ConditionsGiveValidEmail(s: string)
    requires EmailConditions(s)
    ensures IsValidEmail(s)
  {
    var i :| 0 <= i < |s| && s[i] == '@' && forall k | 0 <= k < |s| && k != i :: s[k] != '@';
    var d := s[i + 1..];
    var k :| 0 < k < |d| - 1 && d[k] == '.';
    var j := i + 1 + k;
    assert s[j] == '.';
    assert IsRun(s[..i]);
    assert IsRun(s[i + 1..j]);
    assert IsRun(s[j + 1..]);
    assert SplitsAt(s, i, j);
  }

  /** The regular expression in plain terms, both directions. */
  lemma EmailCharacterization(s: string)
    ensures IsValidEmail(s) <==> EmailConditions(s)
  {
    if IsValidEmail(s) {
      ValidEmailMeetsConditions(s);
    }
    if EmailConditions(s) {
      ConditionsGiveValidEmail(s);
    }
  }

  /** Text with no `@`, or with two, is rejected. */
  lemma EmailNeedsExactlyOneAt(s: string)
    ensures (forall k | 0 <= k < |s| :: s[k] != '@') ==> !IsValidEmail(s)
    ensures (exists a, b | 0 <= a < b < |s| :: s[a] == '@' && s[b] == '@') ==> !IsValidEmail(s)
  {
    EmailCharacterization(s);
  }

  /** Text with any whitespace character is rejected. */
  lemma EmailRejectsWhitespace(s: string, k: nat)
    requires k < |s| && IsWhitespace(s[k])
    ensures !IsValidEmail(s)
  {
    EmailCharacterization(s);
  }

  /** The smallest accepted address. */
  lemma ShortestEmailAccepted()
    ensures IsValidEmail("a@b.c")
  {
    var s := "a@b.c";
    assert s[1] == '@' && s[3] == '.';
    assert s[..1] == "a" && s[2..3] == "b" && s[4..] == "c";
    assert IsRun(s[..1]) && IsRun(s[2..3]) && IsRun(s[4..]);
    assert SplitsAt(s, 1, 3);
  }

  /** An empty domain label before the dot is rejected. */
  lemma EmailEmptyDomainLabelRejected()
    ensures !IsValidEmail("a@.c")
  {
    var s := "a@.c";
    EmailCharacterization(s);
    assert s[1] == '@' && s[2..] == ".c";
    assert !HasInnerDot(s[2..]);
  }

  /** An empty label after the dot is rejected. */
  lemma EmailEmptyTopLabelRejected()
    ensures !IsValidEmail("a@b.")
  {
    var s := "a@b.";
    EmailCharacterization(s);
    assert s[1] == '@' && s[2..] == "b.";
    assert !HasInnerDot(s[2..]);
  }

  /** An empty local part is rejected. */
  lemma EmailEmptyLocalPartRejected()
    ensures !IsValidEmail("@b.c")
  {
    var s := "@b.c";
    EmailCharacterization(s);
    assert s[0] == '@';
  }

  // ---------------------------------------------------------------------------
  // getSeverityBadge

  /** One row of `severityConfig`. */
  datatype Badge = Badge(cssClass: string, caption: string)

  /** The four severities the table knows. */
  predicate IsKnownSeverity(severity: string) {
    severity == "critical" || severity == "high" || severity == "medium" || severity == "low"
  }

  /** `severityConfig[severity]`, restricted to the table's own keys. */
  function SeverityConfig(severity: string): (b: Option<Badge>)
    ensures b.Some? <==> IsKnownSeverity(severity)
    ensures b.Some? ==> b.value.cssClass == "badge-" + severity
  {
    if severity == "critical" then Some(Badge("badge-critical", "خطيرة جداً"))
    else if severity == "high" then Some(Badge("badge-high", "خطيرة"))
    else if severity == "medium" then Some(Badge("badge-medium", "متوسطة"))
    else if severity == "low" then Some(Badge("badge-low", "منخفضة"))
    else None
  }

  /** `severityConfig[severity] || severityConfig.low`. */
  function SeverityBadge(severity: string): (b: Badge)
    ensures IsKnownSeverity(severity) ==> Some(b) == SeverityConfig(severity)
    ensures IsKnownSeverity(severity) ==> b.cssClass == "badge-" + severity
    ensures !IsKnownSeverity(severity) ==> b == Badge("badge-low", "منخفضة")
  {
    SeverityConfig(severity).GetOr(SeverityConfig("low").value)
  }

  /** The markup `getSeverityBadge` returns for a badge. */
  function BadgeMarkup(b: Badge): string {
    "<span class=\"badge " + b.cssClass + "\">" + b.caption + "</span>"
  }

  /** `getSeverityBadge(severity)`. */
  function GetSeverityBadge(severity: string): (html: string)
    ensures IsKnownSeverity(severity) ==> html == BadgeMarkup(SeverityConfig(severity).value)
    ensures !IsKnownSeverity(severity) ==> html == BadgeMarkup(SeverityConfig("low").value)
  {
    BadgeMarkup(SeverityBadge(severity))
  }

  /** Any severity outside the table renders exactly as `low` does. */
  lemma UnknownSeverityRendersAsLow(severity: string)
    requires !IsKnownSeverity(severity)
    ensures GetSeverityBadge(severity) == GetSeverityBadge("low")
  {
  }

  /** The four known severities get four different labels and classes. */
  lemma KnownSeveritiesDistinct(a: string, b: string)
    requires IsKnownSeverity(a) && IsKnownSeverity(b) && a != b
    ensures SeverityBadge(a).caption != SeverityBadge(b).caption
    ensures SeverityBadge(a).cssClass != SeverityBadge(b).cssClass
  {
    assert ("badge-" + a)[6..] == a && ("badge-" + b)[6..] == b;
  }

  // ---------------------------------------------------------------------------
  // handleSendReport

  /** What the check before sending decides. */
  datatype EmailCheck = MissingEmail | MalformedEmail | EmailAccepted

  /** `if (!email) ...; if (!isValidEmail(email)) ...;` in that order. */
  function CheckReportEmail(email: string): (r: EmailCheck)
    ensures r == MissingEmail <==> email == ""
    ensures r == MalformedEmail <==> email != "" && !IsValidEmail(email)
    ensures r == EmailAccepted <==> IsValidEmail(email)
  {
    if email == "" then MissingEmail
    else if !IsValidEmail(email) then MalformedEmail
    else EmailAccepted
  }

  /** The error toast (title, description, type) shown for a rejected e-mail. */
  function ReportErrorToast(r: EmailCheck): (msg: Option<(string, string, string)>)
    ensures msg.None? <==> r == EmailAccepted
    ensures msg.Some? ==> msg.value.0 == "خطأ" && msg.value.2 == "error"
  {
    match r
    case MissingEmail => Some(("خطأ", "يرجى إدخال البريد الإلكتروني", "error"))
    case MalformedEmail => Some(("خطأ", "يرجى إدخال بريد إلكتروني صحيح", "error"))
    case EmailAccepted => None
  }
}
