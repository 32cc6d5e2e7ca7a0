/**
 * The registration form of the main application: the phone and CNIC (Pakistani national
 * identity number) formatters that insert the hyphens, the nested validators, and the order in
 * which the form's checks report an error. Regular expressions are written out as predicates
 * over ASCII character classes.
 */
module App {
  import opened Wrappers
  import opened Text

  // ---------------------------------------------------------------- formatters

  /** `^0\d{3}-\d{7}$`: a 0, three digits, a hyphen, seven digits. */
  predicate PhoneShape(s: string) {
    |s| == 12 && s[0] == '0' && AllDigits(s[1..4]) && s[4] == '-' && AllDigits(s[5..])
  }

  /** `^\d{5}-\d{7}-\d{1}$`: five digits, a hyphen, seven digits, a hyphen, one digit. */
  predicate CnicShape(s: string) {
    |s| == 15 && AllDigits(s[..5]) && s[5] == '-' && AllDigits(s[6..13]) && s[13] == '-' && IsDigit(s[14])
  }

  /** `format_phone_number`: an 11-digit number starting with 0, or a 10-digit one given a
      leading 0, hyphenated after the fourth digit; "" for anything else. */
  function FormatPhone(raw: string): string {
    var d := DigitsOnly(raw);
    if |d| == 11 && d[0] == '0' then d[..4] + "-" + d[4..]
    else if |d| == 10 then "0" + d[..3] + "-" + d[3..]
    else ""
  }

  /** `format_cnic`: exactly 13 digits, hyphenated 5-7-1; "" for anything else. */
  function FormatCnic(raw: string): string {
    var d := DigitsOnly(raw);
    if |d| == 13 then d[..5] + "-" + d[5..12] + "-" + [d[12]] else ""
  }

  lemma DigitsOnlyHyphenated(a: string, b: string)
    requires AllDigits(b)
    ensures DigitsOnly(a + "-" + b) == DigitsOnly(a) + b
  {
    DigitsOnlyAppend(a + "-", b);
    DigitsOnlyAppend(a, "-");
  }

  lemma PhoneFromElevenDigits(d: string)
    requires AllDigits(d) && |d| == 11 && d[0] == '0'
    ensures PhoneShape(d[..4] + "-" + d[4..]) && DigitsOnly(d[..4] + "-" + d[4..]) == d
  {
    var r := d[..4] + "-" + d[4..];
    DigitsOnlyHyphenated(d[..4], d[4..]);
    assert d[..4] + d[4..] == d;
    assert r[1..4] == d[1..4] && r[5..] == d[4..];
  }

  lemma PhoneFromTenDigits(d: string)
    requires AllDigits(d) && |d| == 10
    ensures "0" + d[..3] + "-" + d[3..] == ("0" + d)[..4] + "-" + ("0" + d)[4..]
    ensures AllDigits("0" + d)
  {
    assert ("0" + d)[..4] == "0" + d[..3] && ("0" + d)[4..] == d[3..];
  }

  /** The phone formatter keeps the digits only, accepts exactly the 11-digit numbers starting
      with 0 and the 10-digit ones, and then yields the digits (with the added 0) in the
      0XXX-XXXXXXX shape. */
  lemma FormatPhoneSpec(raw: string)
    ensures var d := DigitsOnly(raw);
      && (FormatPhone(raw) != "" <==> (|d| == 11 && d[0] == '0') || |d| == 10)
      && (FormatPhone(raw) != "" ==>
            && PhoneShape(FormatPhone(raw))
            && DigitsOnly(FormatPhone(raw)) == if |d| == 11 then d else "0" + d)
  {
    var d := DigitsOnly(raw);
    if |d| == 11 && d[0] == '0' {
      PhoneFromElevenDigits(d);
    } else if |d| == 10 {
      PhoneFromTenDigits(d);
      PhoneFromElevenDigits("0" + d);
    }
  }

  /** Formatting a formatted number changes nothing. */
  lemma FormatPhoneIdempotent(raw: string)
    ensures FormatPhone(FormatPhone(raw)) == FormatPhone(raw)
  {
    var d := DigitsOnly(raw);
    FormatPhoneSpec(raw);
    if |d| == 10 {
      PhoneFromTenDigits(d);
    }
  }

  lemma CnicFromThirteenDigits(d: string)
    requires AllDigits(d) && |d| == 13
    ensures var r := d[..5] + "-" + d[5..12] + "-" + [d[12]]; CnicShape(r) && DigitsOnly(r) == d
  {
    var r := d[..5] + "-" + d[5..12] + "-" + [d[12]];
    assert r[..5] == d[..5] && r[6..13] == d[5..12] && r[14] == d[12];
    DigitsOnlyHyphenated(d[..5], d[5..12]);
    DigitsOnlyHyphenated(d[..5] + "-" + d[5..12], [d[12]]);
    assert d[..5] + d[5..12] + [d[12]] == d;
  }

  /** The CNIC formatter accepts exactly 13 digits and yields them in 5-7-1 form. */
  lemma FormatCnicSpec(raw: string)
    ensures var d := DigitsOnly(raw);
      && (FormatCnic(raw) != "" <==> |d| == 13)
      && (FormatCnic(raw) != "" ==> CnicShape(FormatCnic(raw)) && DigitsOnly(FormatCnic(raw)) == d)
  {
    var d := DigitsOnly(raw);
    if |d| == 13 {
      CnicFromThirteenDigits(d);
    }
  }

  lemma FormatCnicIdempotent(raw: string)
    ensures FormatCnic(FormatCnic(raw)) == FormatCnic(raw)
  {
    FormatCnicSpec(raw);
  }

  // ---------------------------------------------------------------- validators

  /** `validate_name`: letters and whitespace only, at least two characters once stripped. */
  predicate ValidateName(name: string) {
    var s := Strip(name);
    |s| >= 2 && forall i :: 0 <= i < |s| ==> IsLetter(s[i]) || IsSpace(s[i])
  }

  predicate UsernameChar(c: char) { IsLetter(c) || IsDigit(c) || c == '_' }

  /** `validate_username`: 3 to 20 letters, digits and underscores once stripped. */
  predicate ValidateUsername(username: string) {
    var s := Strip(username);
    3 <= |s| <= 20 && forall i :: 0 <= i < |s| ==> UsernameChar(s[i])
  }

  /** `validate_phone` */
  predicate ValidatePhone(phone: string) {
    PhoneShape(Strip(phone)) && phone != ""
  }

  /** `validate_cnic`: optional, and otherwise 5-7-1 digits. */
  predicate ValidateCnic(cnic: string) {
    cnic == "" || CnicShape(Strip(cnic))
  }

  predicate EmailLocalChar(c: char) { IsLetter(c) || IsDigit(c) || c in "._%+-" }
  predicate EmailDomainChar(c: char) { IsLetter(c) || IsDigit(c) || c == '.' || c == '-' }

  /** `^[a-zA-Z0-9._%+-]+@[a-zA-Z0-9.-]+\.[a-zA-Z]{2,}$` matches all of `s`, split at the '@'
      and at the dot before the final letters. */
  predicate EmailShape(s: string) {
    exists at, dot | 0 < at < dot < |s| :: EmailSplit(s, at, dot)
  }

  predicate EmailSplit(s: string, at: int, dot: int) {
    && 0 < at && at + 1 < dot && dot + 3 <= |s|
    && s[at] == '@' && s[dot] == '.'
    && (forall i :: 0 <= i < at ==> EmailLocalChar(s[i]))
    && (forall i :: at < i < dot ==> EmailDomainChar(s[i]))
    && (forall i :: dot < i < |s| ==> IsLetter(s[i]))
  }

  /** `validate_email` */
  predicate ValidateEmail(email: string) { EmailShape(Strip(email)) }

  /** A formatted number always passes the phone validator. */
  lemma FormattedPhoneIsValid(raw: string)
    requires FormatPhone(raw) != ""
    ensures ValidatePhone(FormatPhone(raw))
  {
    FormatPhoneSpec(raw);
    StripUnpadded(FormatPhone(raw));
  }

  /** A formatted CNIC always passes the CNIC validator. */
  lemma FormattedCnicIsValid(raw: string)
    ensures ValidateCnic(FormatCnic(raw))
  {
    FormatCnicSpec(raw);
    StripUnpadded(FormatCnic(raw));
  }

  /** Stripping twice strips nothing more. */
  lemma StripIdempotent(s: string)
    ensures Strip(Strip(s)) == Strip(s)
  {
    StripSpec(s);
    StripUnpadded(Strip(s));
  }

  /** `validate_username` looks at the stripped name only, so blanks around a name never change
      its verdict: " alice" validates exactly as "alice" does. */
  lemma ValidateUsernameIgnoresPadding(username: string)
    ensures ValidateUsername(username) <==> ValidateUsername(Strip(username))
    ensures ValidateUsername(" " + username) <==> ValidateUsername(username)
    ensures ValidateUsername(username + " ") <==> ValidateUsername(username)
  {
    StripIdempotent(username);
    assert (" " + username)[1..] == username;
    assert TrimStart(" " + username) == TrimStart(username);
    PaddedRightStrip(username);
  }

  /** A trailing blank goes with the strip. */
  lemma PaddedRightStrip(s: string)
    ensures Strip(s + " ") == Strip(s)
  {
    TrimStartAppendBlank(s);
    var t := TrimStart(s);
    if t == [] {
      assert TrimEnd(" ") == TrimEnd([]);
    } else {
      assert (t + " ")[..|t + " "| - 1] == t;
    }
  }

  lemma {:induction false} TrimStartAppendBlank(s: string)
    ensures TrimStart(s + " ") == if TrimStart(s) == [] then [] else TrimStart(s) + " "
  {
    if s == [] {
      assert TrimStart(" ") == TrimStart([]);
    } else {
      assert (s + " ")[0] == s[0] && (s + " ")[1..] == s[1..] + " ";
      if IsSpace(s[0]) {
        TrimStartAppendBlank(s[1..]);
      }
    }
  }

  /** A valid name has a letter at each end and no character outside letters and blanks. */
  lemma ValidateNameSpec(name: string)
    requires ValidateName(name)
    ensures var s := Strip(name); IsLetter(s[0]) && IsLetter(s[|s| - 1])
  {
    StripSpec(name);
  }

  // ---------------------------------------------------------------- the registration form

  datatype RegistrationForm = RegistrationForm(
    fullName: string, username: string, email: string, phoneRaw: string, role: string,
    cnicRaw: string, password: string, confirmPassword: string, terms: bool)

  datatype RegistrationError =
    MissingFields | InvalidName | InvalidUsername | InvalidEmail | InvalidPhone | InvalidCnic
    | PasswordsDiffer | PasswordTooShort | TermsNotAccepted

  /** Either an error shown on the form or the arguments passed on to registration. */
  datatype RegistrationStep =
    | Rejected(error: RegistrationError)
    | Register(username: string, password: string, fullName: string, email: string, phone: string, role: string, cnic: string)

  function PhoneField(f: RegistrationForm): string { if f.phoneRaw != "" then FormatPhone(f.phoneRaw) else "" }
  function CnicField(f: RegistrationForm): string { if f.cnicRaw != "" then FormatCnic(f.cnicRaw) else "" }

  /** The checks before the CNIC, first failing one first. */
  function FieldChecks(f: RegistrationForm): Option<RegistrationError> {
    var phone := PhoneField(f);
    if f.fullName == "" || f.username == "" || f.email == "" || phone == "" || f.password == "" then Some(MissingFields)
    else if !ValidateName(f.fullName) then Some(InvalidName)
    else if !ValidateUsername(f.username) then Some(InvalidUsername)
    else if !ValidateEmail(f.email) then Some(InvalidEmail)
    else if !ValidatePhone(phone) then Some(InvalidPhone)
    else None
  }

  /** The checks after the CNIC. */
  function PasswordChecks(f: RegistrationForm): Option<RegistrationError> {
    if f.password != f.confirmPassword then Some(PasswordsDiffer)
    else if |f.password| < 6 then Some(PasswordTooShort)
    else if !f.terms then Some(TermsNotAccepted)
    else None
  }

  /** The chain of checks of the form; with `strictCnic` a CNIC that was typed but could not be
      formatted is an error instead of being dropped. */
  function RegistrationChain(f: RegistrationForm, strictCnic: bool): RegistrationStep {
    var cnic := CnicField(f);
    if FieldChecks(f).Some? then Rejected(FieldChecks(f).value)
    else if !ValidateCnic(cnic) || (strictCnic && f.cnicRaw != "" && cnic == "") then Rejected(InvalidCnic)
    else if PasswordChecks(f).Some? then Rejected(PasswordChecks(f).value)
    else Register(f.username, f.password, f.fullName, f.email, PhoneField(f), f.role, cnic)
  }

  /** The form as written. */
  function SubmitRegistration(f: RegistrationForm): RegistrationStep { RegistrationChain(f, false) }

  /** The form with typed CNICs checked. */
  function SubmitRegistrationChecked(f: RegistrationForm): RegistrationStep { RegistrationChain(f, true) }

  /** Registration is attempted exactly when every check passes: fields filled, valid name,
      username, email and phone, matching passwords of at least six characters, terms accepted;
      the phone passed on is the formatted one. */
  lemma SubmitRegistrationSpec(f: RegistrationForm)
    ensures SubmitRegistration(f).Register? <==>
      && f.fullName != "" && f.username != "" && f.email != "" && f.password != ""
      && ValidateName(f.fullName) && ValidateUsername(f.username) && ValidateEmail(f.email)
      && FormatPhone(f.phoneRaw) != ""
      && f.password == f.confirmPassword && |f.password| >= 6 && f.terms
    ensures SubmitRegistration(f).Register? ==>
      && SubmitRegistration(f).username == f.username && SubmitRegistration(f).fullName == f.fullName
      && SubmitRegistration(f).phone == FormatPhone(f.phoneRaw) && ValidatePhone(SubmitRegistration(f).phone)
      && ValidateCnic(SubmitRegistration(f).cnic)
  {
    if f.phoneRaw == "" {
      assert DigitsOnly(f.phoneRaw) == "";
    }
    if FormatPhone(f.phoneRaw) != "" {
      FormattedPhoneIsValid(f.phoneRaw);
    }
    if f.cnicRaw != "" {
      FormattedCnicIsValid(f.cnicRaw);
    }
  }

  lemma FieldsFormatted(f: RegistrationForm)
    ensures PhoneField(f) == "" || ValidatePhone(PhoneField(f))
    ensures ValidateCnic(CnicField(f))
  {
    if PhoneField(f) != "" {
      FormattedPhoneIsValid(f.phoneRaw);
    }
    if f.cnicRaw != "" {
      FormattedCnicIsValid(f.cnicRaw);
    }
  }

  /** Over the ASCII characters of this model, where `str.isdigit` and `\d` agree, the phone and
      CNIC messages can never be shown: a phone that does not format is reported as a missing
      field, and a CNIC that does not format is dropped. */
  lemma FormatErrorsUnreachable(f: RegistrationForm)
    ensures SubmitRegistration(f) != Rejected(InvalidPhone)
    ensures SubmitRegistration(f) != Rejected(InvalidCnic)
  {
    FieldsFormatted(f);
  }

  /** Every form whose typed CNIC cannot be formatted, and which is otherwise in order, is
      registered as written without a CNIC. */
  lemma InvalidCnicDropped(f: RegistrationForm)
    requires SubmitRegistrationChecked(f) == Rejected(InvalidCnic) && PasswordChecks(f).None?
    ensures f.cnicRaw != "" && |DigitsOnly(f.cnicRaw)| != 13
    ensures SubmitRegistration(f).Register? && SubmitRegistration(f).cnic == ""
  {
    FieldsFormatted(f);
    FormatCnicSpec(f.cnicRaw);
  }

  /** With typed CNICs checked, a registration carries a CNIC exactly when one was typed, and it is
      then in 5-7-1 form; everything else is decided as before. */
  lemma SubmitRegistrationCheckedSpec(f: RegistrationForm)
    ensures SubmitRegistrationChecked(f).Register? ==>
      && SubmitRegistration(f) == SubmitRegistrationChecked(f)
      && (SubmitRegistrationChecked(f).cnic != "" <==> f.cnicRaw != "")
      && (f.cnicRaw != "" ==> CnicShape(SubmitRegistrationChecked(f).cnic))
    ensures SubmitRegistration(f).Register? && SubmitRegistrationChecked(f).Rejected? ==>
      SubmitRegistrationChecked(f) == Rejected(InvalidCnic) && f.cnicRaw != "" && FormatCnic(f.cnicRaw) == ""
  {
    if f.cnicRaw != "" {
      FormatCnicSpec(f.cnicRaw);
    }
  }
}
