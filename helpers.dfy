/**
 * The validation and formatting helpers shared by the form pages:
 * `validateEmail`, `validateForm`, `truncateText` and `formatContactInfo`.
 */
module Helpers {
  import opened Text

  // ---------------------------------------------------------------------------
  // validateEmail
  // ---------------------------------------------------------------------------

  /** The character class `[^\s@]`. */
  predicate IsPartChar(c: char) {
    !IsWhitespace(c) && c != '@'
  }

  /** `[^\s@]+`: a non-empty run of part characters. */
  predicate IsPart(t: string) {
    |t| > 0 && forall k :: 0 <= k < |t| ==> IsPartChar(t[k])
  }

  /**
   * The anchored pattern `^[^\s@]+@[^\s@]+\.[^\s@]+$`: `s` splits as
   * local + "@" + domain + "." + tld with all three parts matching `[^\s@]+`.
   */
  ghost predicate MatchesEmailPattern(s: string) {
    exists i, j :: 0 <= i < j < |s| && s[i] == '@' && s[j] == '.'
      && IsPart(s[..i]) && IsPart(s[i + 1..j]) && IsPart(s[j + 1..])
  }

  /** Position of the first `c` in `s`, or `|s|` when there is none. */
  function IndexOf(s: string, c: char): (k: nat)
    ensures k <= |s|
    ensures k < |s| ==> s[k] == c
    ensures forall i :: 0 <= i < k ==> s[i] != c
  {
    if s == [] then 0
    else if s[0] == c then 0
    else 1 + IndexOf(s[1..], c)
  }

  /** What may follow the '@': part characters only, with a '.' that is neither first nor last. */
  predicate IsDomain(d: string) {
    (forall k :: 0 <= k < |d| ==> IsPartChar(d[k]))
    && exists k :: 0 < k < |d| - 1 && d[k] == '.'
  }

  /** `validateEmail`: split at the first '@' and check both sides. */
  function ValidateEmail(email: string): (ok: bool)
  {
    var at := IndexOf(email, '@');
    0 < at < |email| && IsPart(email[..at]) && IsDomain(email[at + 1..])
  }

  /** `IndexOf` finds the first occurrence. */
  lemma IndexOfFirst(s: string, c: char, k: nat)
    requires k < |s| && s[k] == c
    requires forall i :: 0 <= i < k ==> s[i] != c
    ensures IndexOf(s, c) == k
  {
  }

  /** A matching split yields a valid address. */
  lemma PatternSplitIsValid(s: string, i: int, j: int)
    requires 0 <= i < j < |s| && s[i] == '@' && s[j] == '.'
    requires IsPart(s[..i]) && IsPart(s[i + 1..j]) && IsPart(s[j + 1..])
    ensures ValidateEmail(s)
  {
    assert forall k :: 0 <= k < i ==> s[k] == s[..i][k];
    IndexOfFirst(s, '@', i);
    var d := s[i + 1..];
    assert d[j - i - 1] == '.';
    forall k | 0 <= k < |d| ensures IsPartChar(d[k]) {
      if k < j - i - 1 {
        assert d[k] == s[i + 1..j][k];
      } else if k > j - i - 1 {
        assert d[k] == s[j + 1..][k - (j - i)];
      }
    }
  }

  /** A valid address has a matching split. */
  lemma ValidHasPatternSplit(s: string) returns (i: int, j: int)
    requires ValidateEmail(s)
    ensures 0 <= i < j < |s| && s[i] == '@' && s[j] == '.'
    ensures IsPart(s[..i]) && IsPart(s[i + 1..j]) && IsPart(s[j + 1..])
  {
    i := IndexOf(s, '@');
    var d := s[i + 1..];
    var m :| 0 < m < |d| - 1 && d[m] == '.';
    j := i + 1 + m;
    assert forall k :: i < k < |s| ==> s[k] == d[k - i - 1];
    assert forall k :: i < k < j ==> s[k] == s[i + 1..j][k - i - 1];
    assert forall k :: j < k < |s| ==> s[k] == s[j + 1..][k - j - 1];
  }

  /** `ValidateEmail` accepts exactly the strings the regular expression matches. */
  lemma ValidateEmailMatchesPattern(s: string)
    ensures ValidateEmail(s) <==> MatchesEmailPattern(s)
  {
    if MatchesEmailPattern(s) {
      var i, j :| 0 <= i < j < |s| && s[i] == '@' && s[j] == '.'
        && IsPart(s[..i]) && IsPart(s[i + 1..j]) && IsPart(s[j + 1..]);
      PatternSplitIsValid(s, i, j);
    }
    if ValidateEmail(s) {
      var i, j := ValidHasPatternSplit(s);
    }
  }

  /** A valid address contains no whitespace, and its one '@' is not the first character. */
  lemma ValidEmailShape(s: string)
    requires ValidateEmail(s)
    ensures NoWhitespace(s)
    ensures 0 < IndexOf(s, '@') < |s|
    ensures forall k :: 0 <= k < |s| && s[k] == '@' ==> k == IndexOf(s, '@')
  {
    var i, j := ValidHasPatternSplit(s);
    forall k | 0 <= k < |s| ensures !IsWhitespace(s[k]) && (s[k] == '@' ==> k == i) {
      if k < i {
        assert s[k] == s[..i][k];
      } else if i < k < j {
        assert s[k] == s[i + 1..j][k - i - 1];
      } else if j < k {
        assert s[k] == s[j + 1..][k - j - 1];
      }
    }
  }

  /** Without an '@' there is no address. */
  lemma NoAtIsInvalid(s: string)
    requires forall k :: 0 <= k < |s| ==> s[k] != '@'
    ensures !ValidateEmail(s)
  {
  }

  /** Without a '.' after the first '@' there is no address. */
  lemma NoDotInDomainIsInvalid(s: string, at: nat)
    requires at < |s| && s[at] == '@' && forall k :: 0 <= k < at ==> s[k] != '@'
    requires forall k :: at < k < |s| ==> s[k] != '.'
    ensures !ValidateEmail(s)
  {
    IndexOfFirst(s, '@', at);
    var d := s[at + 1..];
    assert forall k :: 0 <= k < |d| ==> d[k] == s[at + 1 + k];
  }

  /** Three parts joined by '@' and '.' make a valid address. */
  lemma JoinedPartsAreValid(local: string, domain: string, tld: string)
    requires IsPart(local) && IsPart(domain) && IsPart(tld)
    ensures ValidateEmail(local + "@" + domain + "." + tld)
  {
    var s := local + "@" + domain + "." + tld;
    var i, j := |local|, |local| + 1 + |domain|;
    assert s[..i] == local;
    assert s[i + 1..j] == domain;
    assert s[j + 1..] == tld;
    PatternSplitIsValid(s, i, j);
  }

  lemma AcceptsTestAtExampleCom()
    ensures ValidateEmail("test@example.com")
  {
    JoinedPartsAreValid("test", "example", "com");
    assert "test" + "@" + "example" + "." + "com" == "test@example.com";
  }

  lemma AcceptsDottedLocalPart()
    ensures ValidateEmail("user.name@domain.co.uk")
  {
    JoinedPartsAreValid("user.name", "domain.co", "uk");
    assert "user.name" + "@" + "domain.co" + "." + "uk" == "user.name@domain.co.uk";
  }

  lemma AcceptsPlusTag()
    ensures ValidateEmail("user+tag@example.org")
  {
    JoinedPartsAreValid("user+tag", "example", "org");
    assert "user+tag" + "@" + "example" + "." + "org" == "user+tag@example.org";
  }

  lemma AcceptsJohnAtExampleCom()
    ensures ValidateEmail("john@example.com")
  {
    JoinedPartsAreValid("john", "example", "com");
    assert "john" + "@" + "example" + "." + "com" == "john@example.com";
  }

  /** The addresses the unit tests expect to be accepted and rejected. */
  lemma ValidateEmailExamples()
    ensures ValidateEmail("test@example.com")
    ensures ValidateEmail("user.name@domain.co.uk")
    ensures ValidateEmail("user+tag@example.org")
    ensures !ValidateEmail("invalid-email")
    ensures !ValidateEmail("missing@domain")
    ensures !ValidateEmail("@domain.com")
    ensures !ValidateEmail("user@")
    ensures !ValidateEmail("")
  {
    AcceptsTestAtExampleCom();
    AcceptsDottedLocalPart();
    AcceptsPlusTag();
    RejectsNoAt();
    RejectsNoDot();
    RejectsEmptyLocalPart();
    RejectsEmptyDomain();
  }

  lemma RejectsNoAt()
    ensures !ValidateEmail("invalid-email")
  {
    NoAtIsInvalid("invalid-email");
  }

  lemma RejectsNoDot()
    ensures !ValidateEmail("missing@domain")
  {
    NoDotInDomainIsInvalid("missing@domain", 7);
  }

  lemma RejectsEmptyLocalPart()
    ensures !ValidateEmail("@domain.com")
  {
    assert IndexOf("@domain.com", '@') == 0;
  }

  lemma RejectsEmptyDomain()
    ensures !ValidateEmail("user@")
  {
    NoDotInDomainIsInvalid("user@", 4);
  }

  // ---------------------------------------------------------------------------
  // validateForm
  // ---------------------------------------------------------------------------

  const NameRequired := "Name is required"
  const EmailRequired := "Email is required"
  const EmailInvalid := "Please enter a valid email address"
  const MessageRequired := "Message is required"
  const MessageTooShort := "Message must be at least 10 characters long"
  const MinMessageLength := 10

  datatype ValidationResult = ValidationResult(isValid: bool, errors: seq<string>)

  /** The error, if any, contributed by the name field. */
  function NameErrors(name: string): seq<string> {
    if Trim(name) == [] then [NameRequired] else []
  }

  /** The error, if any, contributed by the email field: blank wins over malformed. */
  function EmailErrors(email: string): seq<string> {
    if Trim(email) == [] then [EmailRequired]
    else if !ValidateEmail(email) then [EmailInvalid]
    else []
  }

  /** The error, if any, contributed by the message field. */
  function MessageErrors(message: string): seq<string> {
    if Trim(message) == [] then [MessageRequired]
    else if |Trim(message)| < MinMessageLength then [MessageTooShort]
    else []
  }

  /** The errors of a whole form: name, then email, then message. */
  function FormErrors(name: string, email: string, message: string): seq<string> {
    NameErrors(name) + EmailErrors(email) + MessageErrors(message)
  }

  /** `validateForm`: three checks in order, each appending at most one error. */
  method ValidateForm(name: string, email: string, message: string) returns (result: ValidationResult)
    ensures result.errors == FormErrors(name, email, message)
    ensures result.isValid <==> result.errors == []
  {
    var errors: seq<string> := [];
    if Trim(name) == [] {
      errors := errors + [NameRequired];
    }
    assert errors == NameErrors(name);
    if Trim(email) == [] {
      errors := errors + [EmailRequired];
    } else if !ValidateEmail(email) {
      errors := errors + [EmailInvalid];
    }
    assert errors == NameErrors(name) + EmailErrors(email);
    if Trim(message) == [] {
      errors := errors + [MessageRequired];
    } else if |Trim(message)| < MinMessageLength {
      errors := errors + [MessageTooShort];
    }
    result := ValidationResult(|errors| == 0, errors);
  }

  /** Which field an error message belongs to: 0 name, 1 email, 2 message. */
  function ErrorField(error: string): int {
    if error == NameRequired then 0
    else if error == EmailRequired || error == EmailInvalid then 1
    else 2
  }

  predicate IsKnownError(error: string) {
    error in {NameRequired, EmailRequired, EmailInvalid, MessageRequired, MessageTooShort}
  }

  /** The five messages are distinct (their lengths already differ) and belong to their own fields. */
  lemma ErrorMessageFields()
    ensures IsKnownError(NameRequired) && ErrorField(NameRequired) == 0
    ensures IsKnownError(EmailRequired) && ErrorField(EmailRequired) == 1
    ensures IsKnownError(EmailInvalid) && ErrorField(EmailInvalid) == 1
    ensures IsKnownError(MessageRequired) && ErrorField(MessageRequired) == 2
    ensures IsKnownError(MessageTooShort) && ErrorField(MessageTooShort) == 2
  {
    assert |NameRequired| == 16 && |EmailRequired| == 17 && |EmailInvalid| == 34;
    assert |MessageRequired| == 19 && |MessageTooShort| == 43;
  }

  /** `errors` holds at most one known message, belonging to field `field`. */
  predicate FieldErrors(errors: seq<string>, field: int) {
    |errors| <= 1 && forall i :: 0 <= i < |errors| ==> IsKnownError(errors[i]) && ErrorField(errors[i]) == field
  }

  lemma NameHasItsOwnErrors(name: string)
    ensures FieldErrors(NameErrors(name), 0)
  {
    ErrorMessageFields();
  }

  lemma EmailHasItsOwnErrors(email: string)
    ensures FieldErrors(EmailErrors(email), 1)
  {
    ErrorMessageFields();
  }

  lemma MessageHasItsOwnErrors(message: string)
    ensures FieldErrors(MessageErrors(message), 2)
  {
    ErrorMessageFields();
  }

  /** Per-field error lists, joined in field order, are in field order. */
  lemma JoinedFieldErrorsOrdered(n: seq<string>, e: seq<string>, m: seq<string>)
    requires FieldErrors(n, 0) && FieldErrors(e, 1) && FieldErrors(m, 2)
    ensures var errors := n + e + m;
      |errors| <= 3
      && (forall i :: 0 <= i < |errors| ==> IsKnownError(errors[i]))
      && (forall i, j :: 0 <= i < j < |errors| ==> ErrorField(errors[i]) < ErrorField(errors[j]))
  {
    var errors := n + e + m;
    forall i | 0 <= i < |errors|
      ensures IsKnownError(errors[i])
      ensures i < |n| ==> ErrorField(errors[i]) == 0
      ensures |n| <= i < |n| + |e| ==> ErrorField(errors[i]) == 1
      ensures |n| + |e| <= i ==> ErrorField(errors[i]) == 2
    {
      if i < |n| {
        assert errors[i] == n[i];
      } else if i < |n| + |e| {
        assert errors[i] == e[i - |n|];
      } else {
        assert errors[i] == m[i - |n| - |e|];
      }
    }
  }

  /** At most one error per field, only the five known messages, in field order. */
  lemma FormErrorsOrdered(name: string, email: string, message: string)
    ensures var errors := FormErrors(name, email, message);
      |errors| <= 3
      && (forall i :: 0 <= i < |errors| ==> IsKnownError(errors[i]))
      && (forall i, j :: 0 <= i < j < |errors| ==> ErrorField(errors[i]) < ErrorField(errors[j]))
  {
    NameHasItsOwnErrors(name);
    EmailHasItsOwnErrors(email);
    MessageHasItsOwnErrors(message);
    JoinedFieldErrorsOrdered(NameErrors(name), EmailErrors(email), MessageErrors(message));
  }

  /** A form is accepted exactly when every field passes its own rule. */
  lemma FormErrorsEmptyIff(name: string, email: string, message: string)
    ensures FormErrors(name, email, message) == [] <==>
      Trim(name) != [] && ValidateEmail(email) && |Trim(message)| >= MinMessageLength
  {
    if ValidateEmail(email) {
      assert email != [] && !IsWhitespace(email[0]);
      assert !AllWhitespace(email);
    }
  }

  /** A blank email reports only that it is required; the pattern is not consulted. */
  lemma BlankEmailIsRequired(email: string)
    requires AllWhitespace(email)
    ensures EmailErrors(email) == [EmailRequired]
  {
  }

  /** The untrimmed email is matched: surrounding whitespace makes even a valid address invalid. */
  lemma PaddedEmailIsInvalid(email: string)
    requires ValidateEmail(email)
    ensures EmailErrors(" " + email) == [EmailInvalid]
    ensures EmailErrors(email + " ") == [EmailInvalid]
  {
    assert !ValidateEmail(" " + email) by { assert (" " + email)[0] == ' '; }
    assert !ValidateEmail(email + " ") by { assert (email + " ")[|email|] == ' '; }
    assert !IsWhitespace(email[0]);
    assert (" " + email)[1] == email[0] && (email + " ")[0] == email[0];
  }

  /** The message rule by trimmed length: 0, 1 to 9, 10 or more. */
  lemma MessageRule(message: string)
    ensures |Trim(message)| == 0 ==> MessageErrors(message) == [MessageRequired]
    ensures 0 < |Trim(message)| < 10 ==> MessageErrors(message) == [MessageTooShort]
    ensures |Trim(message)| >= 10 ==> MessageErrors(message) == []
  {
  }

  lemma NameErrorsExamples()
    ensures NameErrors("") == [NameRequired]
    ensures NameErrors("John Doe") == []
  {
    assert !IsWhitespace("John Doe"[0]);
  }

  lemma EmailErrorsExamples()
    ensures EmailErrors("") == [EmailRequired]
    ensures EmailErrors("invalid-email") == [EmailInvalid]
    ensures EmailErrors("john@example.com") == []
  {
    EmailErrorsInvalidExample();
    EmailErrorsValidExample();
  }

  lemma EmailErrorsInvalidExample()
    ensures EmailErrors("invalid-email") == [EmailInvalid]
  {
    RejectsNoAt();
    assert !IsWhitespace("invalid-email"[0]);
  }

  lemma EmailErrorsValidExample()
    ensures EmailErrors("john@example.com") == []
  {
    AcceptsJohnAtExampleCom();
    assert !IsWhitespace("john@example.com"[0]);
  }

  lemma MessageErrorsExamples()
    ensures MessageErrors("") == [MessageRequired]
    ensures MessageErrors("Short") == [MessageTooShort]
    ensures MessageErrors("Valid message here") == []
    ensures MessageErrors("This is a valid message with enough characters") == []
  {
    MessageErrorsShortExample();
    MessageErrorsMediumExample();
    MessageErrorsLongExample();
  }

  lemma MessageErrorsShortExample()
    ensures MessageErrors("Short") == [MessageTooShort]
  {
    TrimOfTrimmed("Short");
  }

  lemma MessageErrorsMediumExample()
    ensures MessageErrors("Valid message here") == []
  {
    TrimOfTrimmed("Valid message here");
  }

  lemma MessageErrorsLongExample()
    ensures MessageErrors("This is a valid message with enough characters") == []
  {
    var a, b := "This is a valid ", "message with enough characters";
    assert a + b == "This is a valid message with enough characters";
    assert (a + b)[0] == 'T' && (a + b)[|a + b| - 1] == 's';
    TrimOfTrimmed(a + b);
  }

  /** The form's errors, assembled from what each field reports. */
  lemma FormErrorsFromFields(name: string, email: string, message: string, n: seq<string>, e: seq<string>, m: seq<string>)
    requires NameErrors(name) == n && EmailErrors(email) == e && MessageErrors(message) == m
    ensures FormErrors(name, email, message) == n + e + m
  {
  }

  lemma JoinSingletons(a: string, b: string, c: string)
    ensures [a] + [b] + [c] == [a, b, c]
  {
  }

  lemma JoinOneSingleton(a: string)
    ensures [a] + [] + [] == [a] && [] + [a] + [] == [a] && [] + [] + [a] == [a]
    ensures var none: seq<string> := []; none + none + none == none
  {
  }

  /** Every field fails: three errors, in field order. */
  lemma FormErrorsAllFieldsExample()
    ensures FormErrors("", "invalid-email", "Short") == [NameRequired, EmailInvalid, MessageTooShort]
  {
    EmailErrorsInvalidExample();
    MessageErrorsShortExample();
    FormErrorsFromFields("", "invalid-email", "Short", [NameRequired], [EmailInvalid], [MessageTooShort]);
    JoinSingletons(NameRequired, EmailInvalid, MessageTooShort);
  }

  lemma FormErrorsValidExample()
    ensures FormErrors("John Doe", "john@example.com", "This is a valid message with enough characters") == []
  {
    NameErrorsExamples();
    EmailErrorsValidExample();
    MessageErrorsLongExample();
    FormErrorsFromFields("John Doe", "john@example.com", "This is a valid message with enough characters", [], [], []);
    JoinOneSingleton(NameRequired);
  }

  lemma BlankNameExample()
    ensures FormErrors("", "john@example.com", "Valid message here") == [NameRequired]
  {
    EmailErrorsValidExample();
    MessageErrorsMediumExample();
    FormErrorsFromFields("", "john@example.com", "Valid message here", [NameRequired], [], []);
    JoinOneSingleton(NameRequired);
  }

  lemma BlankEmailExample()
    ensures FormErrors("John Doe", "", "Valid message here") == [EmailRequired]
  {
    NameErrorsExamples();
    MessageErrorsMediumExample();
    FormErrorsFromFields("John Doe", "", "Valid message here", [], [EmailRequired], []);
    JoinOneSingleton(EmailRequired);
  }

  lemma MalformedEmailExample()
    ensures FormErrors("John Doe", "invalid-email", "Valid message here") == [EmailInvalid]
  {
    NameErrorsExamples();
    EmailErrorsInvalidExample();
    MessageErrorsMediumExample();
    FormErrorsFromFields("John Doe", "invalid-email", "Valid message here", [], [EmailInvalid], []);
    JoinOneSingleton(EmailInvalid);
  }

  lemma BlankMessageExample()
    ensures FormErrors("John Doe", "john@example.com", "") == [MessageRequired]
  {
    NameErrorsExamples();
    EmailErrorsValidExample();
    FormErrorsFromFields("John Doe", "john@example.com", "", [], [], [MessageRequired]);
    JoinOneSingleton(MessageRequired);
  }

  lemma ShortMessageExample()
    ensures FormErrors("John Doe", "john@example.com", "Short") == [MessageTooShort]
  {
    NameErrorsExamples();
    EmailErrorsValidExample();
    MessageErrorsShortExample();
    FormErrorsFromFields("John Doe", "john@example.com", "Short", [], [], [MessageTooShort]);
    JoinOneSingleton(MessageTooShort);
  }

  /** One bad field at a time gives exactly that field's error. */
  lemma FormErrorsSingleFieldExamples()
    ensures FormErrors("", "john@example.com", "Valid message here") == [NameRequired]
    ensures FormErrors("John Doe", "", "Valid message here") == [EmailRequired]
    ensures FormErrors("John Doe", "invalid-email", "Valid message here") == [EmailInvalid]
    ensures FormErrors("John Doe", "john@example.com", "") == [MessageRequired]
    ensures FormErrors("John Doe", "john@example.com", "Short") == [MessageTooShort]
  {
    BlankNameExample();
    BlankEmailExample();
    MalformedEmailExample();
    BlankMessageExample();
    ShortMessageExample();
  }

  // ---------------------------------------------------------------------------
  // truncateText
  // ---------------------------------------------------------------------------

  const Ellipsis := "..."

  /**
   * The end index `text.slice(0, end)` uses: a negative end counts back from
   * the end of the string, and the result is clamped to `0..len`.
   */
  function SliceEnd(len: nat, end: int): (k: nat)
    ensures k <= len
    ensures 0 <= end <= len ==> k == end
    ensures end < 0 && len + end >= 0 ==> k == len + end
    ensures end > len ==> k == len
    ensures len + end < 0 ==> k == 0
  {
    if end < 0 then (if len + end < 0 then 0 else len + end)
    else if end > len then len
    else end
  }

  /** `truncateText`. */
  function TruncateText(text: string, maxLength: int): (r: string)
    ensures |text| <= maxLength ==> r == text
    ensures maxLength < |text| ==>
      |r| == SliceEnd(|text|, maxLength) + 3
      && r[..|r| - 3] == text[..|r| - 3]
      && r[|r| - 3..] == Ellipsis
    ensures 0 <= maxLength < |text| ==> |r| == maxLength + 3
  {
    if |text| <= maxLength then text
    else text[..SliceEnd(|text|, maxLength)] + Ellipsis
  }

  /** With a non-negative limit, truncating an already truncated text changes nothing. */
  lemma TruncateTextIdempotent(text: string, maxLength: int)
    requires maxLength >= 0
    ensures TruncateText(TruncateText(text, maxLength), maxLength) == TruncateText(text, maxLength)
  {
  }

  lemma TruncateTextExamples()
    ensures TruncateText("This is a very long text that should be truncated", 20) == "This is a very long ..."
    ensures TruncateText("Short text", 20) == "Short text"
    ensures TruncateText("Exactly twenty chars", 20) == "Exactly twenty chars"
    ensures TruncateText("", 10) == ""
    ensures TruncateText("abcdef", -2) == "abcd..."
    ensures TruncateText("abc", -5) == "..."
  {
  }

  // ---------------------------------------------------------------------------
  // formatContactInfo
  // ---------------------------------------------------------------------------

  datatype ContactRecord = ContactRecord(name: string, email: string, message: string, timestamp: string)

  /** `formatContactInfo`; the current instant is passed in as `timestamp`. */
  function FormatContactInfo(name: string, email: string, message: string, timestamp: string): (r: ContactRecord)
    ensures IsTrimOf(name, r.name)
    ensures IsTrimOf(ToLower(email), r.email)
    ensures IsTrimOf(message, r.message)
    ensures r.timestamp == timestamp
  {
    TrimIsTrimOf(name);
    TrimIsTrimOf(ToLower(email));
    TrimIsTrimOf(message);
    ContactRecord(Trim(name), Trim(ToLower(email)), Trim(message), timestamp)
  }

  /** The email comes out lower-cased, and lower-casing before or after the trim is the same. */
  lemma FormatContactInfoEmail(name: string, email: string, message: string, timestamp: string)
    ensures NoUpperAscii(FormatContactInfo(name, email, message, timestamp).email)
    ensures FormatContactInfo(name, email, message, timestamp).email == ToLower(Trim(email))
  {
    TrimToLowerCommute(email);
    ToLowerLowers(Trim(email));
  }

  /** Formatting an already formatted record gives it back unchanged. */
  lemma FormatContactInfoIdempotent(name: string, email: string, message: string, timestamp: string)
    ensures var r := FormatContactInfo(name, email, message, timestamp);
      FormatContactInfo(r.name, r.email, r.message, r.timestamp) == r
  {
    TrimIdempotent(name);
    TrimIdempotent(message);
    TrimToLowerCommute(email);
    ToLowerLowers(Trim(email));
    TrimIdempotent(ToLower(email));
  }

  lemma TrimJohnDoe()
    ensures Trim("  John Doe  ") == "John Doe"
  {
    var s := "  John Doe  ";
    assert IsTrimSlice(s, 2, 10) && s[2..10] == "John Doe";
    TrimOfIsUnique(s, "John Doe");
  }

  lemma TrimJohnEmail()
    ensures Trim("  JOHN@EXAMPLE.COM  ") == "JOHN@EXAMPLE.COM"
  {
    var s := "  JOHN@EXAMPLE.COM  ";
    assert IsTrimSlice(s, 2, 18) && s[2..18] == "JOHN@EXAMPLE.COM";
    TrimOfIsUnique(s, "JOHN@EXAMPLE.COM");
  }

  lemma LowerJohnEmail()
    ensures ToLower("JOHN@EXAMPLE.COM") == "john@example.com"
  {
  }

  lemma TrimHelloWorld()
    ensures Trim("  Hello World  ") == "Hello World"
  {
    var s := "  Hello World  ";
    assert IsTrimSlice(s, 2, 13) && s[2..13] == "Hello World";
    TrimOfIsUnique(s, "Hello World");
  }

  /** The unit tests' records: padded input comes out trimmed, the email lower-cased; empty stays empty. */
  lemma FormatContactInfoExamples(timestamp: string)
    ensures FormatContactInfo("  John Doe  ", "  JOHN@EXAMPLE.COM  ", "  Hello World  ", timestamp)
      == ContactRecord("John Doe", "john@example.com", "Hello World", timestamp)
    ensures FormatContactInfo("", "", "", timestamp) == ContactRecord("", "", "", timestamp)
  {
    TrimJohnDoe();
    TrimToLowerCommute("  JOHN@EXAMPLE.COM  ");
    TrimJohnEmail();
    LowerJohnEmail();
    TrimHelloWorld();
  }
}
