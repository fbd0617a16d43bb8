/**
 * The leader-signup field checks. Each returns `None` (the source's `null`) when the
 * input is acceptable and otherwise the message of the FIRST check that fails.
 * A missing argument is modelled as the empty string: `!x` treats both alike.
 */
module Validators {
  import opened Wrappers
  import opened JsStrings
  import Seqs

  const PasswordTooShort := "Password must be at least 8 characters long"
  const PasswordTooLong := "Password must not exceed 128 characters"
  const PasswordHasSpace := "Password cannot contain spaces"
  const PasswordNoUpper := "Password must contain at least one uppercase letter"
  const PasswordNoLower := "Password must contain at least one lowercase letter"
  const PasswordNoDigit := "Password must contain at least one number"
  const PasswordNoSpecial := "Password must contain at least one special character (!@#$%^&*...)"
  const EmailRequired := "Email is required"
  const EmailInvalid := "Please enter a valid email address"
  const MobileRequired := "Mobile number is required"
  const MobileInvalid := "Please enter a valid 10-digit mobile number starting with 6-9"
  const NameTooShort := "Name must be at least 2 characters long"
  const NameTooLong := "Name must not exceed 100 characters"
  const NameInvalid := "Name can only contain letters, spaces, dots, and hyphens"

  /** The punctuation class of the password rule; backquote and tilde are not in it. */
  predicate IsSpecial(c: char) {
    c in "!@#$%^&*()_+-=[]{};':\"\\|,.<>/?"
  }

  /** The password rule, stated without regard to the order of the checks. */
  ghost predicate StrongPassword(p: string) {
    && 8 <= Utf16Length(p) <= 128
    && (forall i :: 0 <= i < |p| ==> !IsWhitespace(p[i]))
    && (exists i :: 0 <= i < |p| && IsUpper(p[i]))
    && (exists i :: 0 <= i < |p| && IsLower(p[i]))
    && (exists i :: 0 <= i < |p| && IsDigit(p[i]))
    && (exists i :: 0 <= i < |p| && IsSpecial(p[i]))
  }

  /** The password gets past the length, whitespace and upper-case checks. */
  ghost predicate PassesUpperCheck(p: string) {
    && 8 <= Utf16Length(p) <= 128
    && (forall i :: 0 <= i < |p| ==> !IsWhitespace(p[i]))
    && (exists i :: 0 <= i < |p| && IsUpper(p[i]))
  }

  /** `validatePassword`. */
  function ValidatePassword(password: string): (r: Option<string>)
    ensures r.None? <==> StrongPassword(password)
    ensures r == Some(PasswordTooShort) <==> Utf16Length(password) < 8
    ensures r == Some(PasswordTooLong) <==> Utf16Length(password) > 128
    ensures r == Some(PasswordHasSpace) <==>
      8 <= Utf16Length(password) <= 128 && exists i :: 0 <= i < |password| && IsWhitespace(password[i])
    ensures r == Some(PasswordNoUpper) <==>
      && 8 <= Utf16Length(password) <= 128
      && (forall i :: 0 <= i < |password| ==> !IsWhitespace(password[i]))
      && (forall i :: 0 <= i < |password| ==> !IsUpper(password[i]))
    ensures r == Some(PasswordNoLower) <==>
      PassesUpperCheck(password) && forall i :: 0 <= i < |password| ==> !IsLower(password[i])
    ensures r == Some(PasswordNoDigit) <==>
      && PassesUpperCheck(password) && (exists i :: 0 <= i < |password| && IsLower(password[i]))
      && forall i :: 0 <= i < |password| ==> !IsDigit(password[i])
    ensures r == Some(PasswordNoSpecial) <==>
      && PassesUpperCheck(password) && (exists i :: 0 <= i < |password| && IsLower(password[i]))
      && (exists i :: 0 <= i < |password| && IsDigit(password[i]))
      && forall i :: 0 <= i < |password| ==> !IsSpecial(password[i])
  {
    if Utf16Length(password) < 8 then Some(PasswordTooShort)
    else if Utf16Length(password) > 128 then Some(PasswordTooLong)
    else if Any(password, IsWhitespace) then Some(PasswordHasSpace)
    else if !Any(password, IsUpper) then Some(PasswordNoUpper)
    else if !Any(password, IsLower) then Some(PasswordNoLower)
    else if !Any(password, IsDigit) then Some(PasswordNoDigit)
    else if !Any(password, IsSpecial) then Some(PasswordNoSpecial)
    else None
  }

  predicate IsLocalChar(c: char) { IsLetter(c) || IsDigit(c) || c == '.' || c == '_' || c == '-' }
  predicate IsDomainChar(c: char) { IsLetter(c) || IsDigit(c) || c == '.' || c == '-' }

  /**
   * `s` splits as local part, `@` at index `at`, domain, `.` at index `dot`, and a
   * top-level part: the shape `/^[a-zA-Z0-9._-]+@[a-zA-Z0-9.-]+\.[a-zA-Z]{2,}$/` accepts.
   */
  ghost predicate EmailSplit(s: string, at: int, dot: int) {
    && 0 < at && at + 1 < dot && dot + 3 <= |s|
    && s[at] == '@' && s[dot] == '.'
    && (forall i :: 0 <= i < at ==> IsLocalChar(s[i]))
    && (forall i :: at < i < dot ==> IsDomainChar(s[i]))
    && (forall i :: dot < i < |s| ==> IsLetter(s[i]))
  }

  ghost predicate EmailShaped(s: string) {
    exists at, dot :: EmailSplit(s, at, dot)
  }

  /** Index of the first occurrence of `c`. */
  function IndexOf(s: string, c: char): (r: Option<nat>)
    ensures r.Some? ==> r.value < |s| && s[r.value] == c && forall j :: 0 <= j < r.value ==> s[j] != c
    ensures r.None? ==> forall j :: 0 <= j < |s| ==> s[j] != c
    decreases |s|
  {
    if |s| == 0 then None
    else if s[0] == c then Some(0)
    else match IndexOf(s[1..], c)
      case None => None
      case Some(k) => Some(k + 1)
  }

  /** Index of the last occurrence of `c`. */
  function LastIndexOf(s: string, c: char): (r: Option<nat>)
    ensures r.Some? ==> r.value < |s| && s[r.value] == c && forall j :: r.value < j < |s| ==> s[j] != c
    ensures r.None? ==> forall j :: 0 <= j < |s| ==> s[j] != c
    decreases |s|
  {
    if |s| == 0 then None
    else if s[|s| - 1] == c then Some(|s| - 1)
    else LastIndexOf(s[..|s| - 1], c)
  }

  /**
   * The email pattern, decided the way a backtracking matcher settles it: the local
   * part cannot hold `@`, so the `@` is the first one; the top-level part cannot hold
   * `.`, so the separating dot is the last one after the `@`.
   */
  function MatchesEmail(s: string): (b: bool)
    ensures b <==> EmailShaped(s)
  {
    match IndexOf(s, '@')
    case None => false
    case Some(at) =>
      var rest := s[at + 1..];
      match LastIndexOf(rest, '.')
      case None => false
      case Some(d) =>
        var b := at > 0 && All(s[..at], IsLocalChar) && d > 0 && All(rest[..d], IsDomainChar)
                 && |rest| - d - 1 >= 2 && All(rest[d + 1..], IsLetter);
        assert b ==> EmailSplit(s, at, at + 1 + d);
        assert EmailShaped(s) ==> b by {
          if EmailShaped(s) {
            var at', dot' :| EmailSplit(s, at', dot');
            EmailSplitIsCanonical(s, at', dot', at, d);
          }
        }
        b
  }

  /** Any split the pattern admits uses the first `@` and the last `.` after it. */
  lemma EmailSplitIsCanonical(s: string, at': int, dot': int, at: nat, d: nat)
    requires EmailSplit(s, at', dot')
    requires at < |s| && s[at] == '@' && forall j :: 0 <= j < at ==> s[j] != '@'
    requires at + 1 + d < |s| && s[at + 1 + d] == '.'
    requires forall j :: at + 1 + d < j < |s| ==> s[j] != '.'
    ensures at' == at && dot' == at + 1 + d
  {
  }

  /** `validateEmail`. */
  function ValidateEmail(email: string): (r: Option<string>)
    ensures r.None? <==> EmailShaped(Trim(email))
    ensures r == Some(EmailRequired) <==> email == ""
    ensures r == Some(EmailInvalid) <==> email != "" && !EmailShaped(Trim(email))
  {
    if email == "" then Some(EmailRequired)
    else if !MatchesEmail(Trim(email)) then Some(EmailInvalid)
    else None
  }

  /** `/^[6-9]\d{9}$/.test(s)`. */
  predicate IsIndianMobile(s: string) {
    |s| == 10 && '6' <= s[0] <= '9' && All(s, IsDigit)
  }

  /** `validateMobileNumber`: every non-digit is removed before the pattern is applied. */
  function ValidateMobileNumber(mobile: string): (r: Option<string>)
    ensures r.None? <==> mobile != "" && IsIndianMobile(Seqs.Filter(mobile, IsDigit))
    ensures r == Some(MobileRequired) <==> mobile == ""
    ensures r == Some(MobileInvalid) <==> mobile != "" && !IsIndianMobile(Seqs.Filter(mobile, IsDigit))
    ensures r.None? ==> exists i :: 0 <= i < |mobile| && '6' <= mobile[i] <= '9'
  {
    if mobile == "" then Some(MobileRequired)
    else
      var digits := Seqs.Filter(mobile, IsDigit);
      if !IsIndianMobile(digits) then Some(MobileInvalid) else None
  }

  /** The characters of `/^[a-zA-Z\s.\-']+$/`. */
  predicate IsNameChar(c: char) {
    IsLetter(c) || IsWhitespace(c) || c == '.' || c == '-' || c == '\''
  }

  /** `validateName`. */
  function ValidateName(name: string): (r: Option<string>)
    ensures r.None? <==>
      2 <= Utf16Length(Trim(name)) <= 100 && forall i :: 0 <= i < |Trim(name)| ==> IsNameChar(Trim(name)[i])
    ensures r == Some(NameTooShort) <==> Utf16Length(Trim(name)) < 2
    ensures r == Some(NameTooLong) <==> Utf16Length(Trim(name)) > 100
    ensures r == Some(NameInvalid) <==>
      2 <= Utf16Length(Trim(name)) <= 100 && exists i :: 0 <= i < |Trim(name)| && !IsNameChar(Trim(name)[i])
  {
    var t := Trim(name);
    if name == "" || Utf16Length(t) < 2 then Some(NameTooShort)
    else if Utf16Length(t) > 100 then Some(NameTooLong)
    else if !All(t, IsNameChar) then Some(NameInvalid)
    else None
  }

  /** `validateField`; the message names the field. */
  function ValidateField(value: string, fieldName: string): (r: Option<string>)
    ensures r.None? <==> 2 <= Utf16Length(Trim(value)) <= 100
    ensures r == Some(fieldName + " must be at least 2 characters long") <==> Utf16Length(Trim(value)) < 2
    ensures r == Some(fieldName + " must not exceed 100 characters") <==> Utf16Length(Trim(value)) > 100
  {
    var t := Trim(value);
    assert |fieldName + " must be at least 2 characters long"| != |fieldName + " must not exceed 100 characters"|;
    if value == "" || Utf16Length(t) < 2 then Some(fieldName + " must be at least 2 characters long")
    else if Utf16Length(t) > 100 then Some(fieldName + " must not exceed 100 characters")
    else None
  }

  /** Trimming a single non-blank character keeps it. */
  lemma TrimOne(c: char)
    requires !IsWhitespace(c)
    ensures Trim([c]) == [c]
  {
    var k :| TrimmedAt([c], k, Trim([c]));
  }

  /** No whitespace or name character is astral. */
  lemma AstralIsPlain(c: char)
    requires IsAstral(c)
    ensures !IsWhitespace(c) && !IsNameChar(c)
  {
  }

  /** A lone astral character is two code units. */
  lemma AstralIsTwoUnits(c: char)
    requires IsAstral(c)
    ensures Utf16Length([c]) == 2
  {
    assert [c][..0] == [];
  }

  /** `.length` counts an astral character twice, so the field check accepts one alone. */
  lemma AstralFieldIsLongEnough(c: char, fieldName: string)
    requires IsAstral(c)
    ensures ValidateField([c], fieldName).None?
  {
    TrimOne(c);
    AstralIsTwoUnits(c);
  }

  /** A lone astral character is long enough for a name, so its characters decide the verdict. */
  lemma AstralNameIsInvalid(c: char)
    requires IsAstral(c)
    ensures ValidateName([c]) == Some(NameInvalid)
  {
    AstralIsPlain(c);
    TrimOne(c);
    AstralIsTwoUnits(c);
    assert !IsNameChar(Trim([c])[0]);
  }

  /** Six characters, two of them astral, make a password of the minimum length 8. */
  lemma AstralPasswordIsLongEnough(c: char, d: char)
    requires IsAstral(c) && IsAstral(d)
    ensures ValidatePassword("Aa1!" + [c, d]).None?
  {
    var p := "Aa1!" + [c, d];
    assert Utf16Length(p) == 8 by {
      assert [c, d] == [c] + [d];
      assert p == "Aa1!" + [c] + [d];
      Utf16LengthAppend("Aa1!" + [c], [d]);
      Utf16LengthAppend("Aa1!", [c]);
      Utf16LengthOfBmp("Aa1!");
      AstralIsTwoUnits(c);
      AstralIsTwoUnits(d);
    }
    AstralIsPlain(c);
    AstralIsPlain(d);
    assert forall i :: 0 <= i < |p| ==> !IsWhitespace(p[i]) by {
      forall i | 0 <= i < |p| ensures !IsWhitespace(p[i]) {
        if i == 4 { assert p[i] == c; } else if i == 5 { assert p[i] == d; }
      }
    }
    assert IsUpper(p[0]) && IsLower(p[1]) && IsDigit(p[2]) && IsSpecial(p[3]);
  }

  /** Every name `validateName` accepts also passes the generic field check. */
  lemma ValidNameIsValidField(name: string, fieldName: string)
    requires ValidateName(name).None?
    ensures ValidateField(name, fieldName).None?
  {
  }
}
