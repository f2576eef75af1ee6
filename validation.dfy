/**
 * The registration handler's input checks (server.js:283-290, 365-379):
 * presence, the email pattern, the password length and the contact number.
 */
module Validation {
  import opened Wrappers
  import opened Text

  /** Why registration refused its input; every one of these answers HTTP 400. */
  datatype RegisterError = MissingField | InvalidEmail | WeakPassword | InvalidContact | EmailTaken

  /** JavaScript truthiness of a body field that should be a string: present and non-empty. */
  predicate Given(field: Option<string>) {
    field.Some? && field.value != ""
  }

  /** A character that the class `[^\s@]` accepts. */
  predicate EmailChar(c: char) {
    !IsSpace(c) && c != '@'
  }

  /** `[^\s@]+`: a non-empty run of email characters. */
  predicate Word(w: string) {
    |w| > 0 && forall k :: 0 <= k < |w| ==> EmailChar(w[k])
  }

  /** The strings `/^[^\s@]+@[^\s@]+\.[^\s@]+$/` accepts, read off the pattern piece by piece. */
  ghost predicate EmailPattern(email: string) {
    exists local, host, tld :: Word(local) && Word(host) && Word(tld) && email == local + "@" + host + "." + tld
  }

  /** The first position of `c` in `s`, if any. */
  function IndexOf(s: string, c: char): (r: Option<nat>)
    ensures r.Some? ==> r.value < |s| && s[r.value] == c && c !in s[..r.value]
    ensures r.None? ==> c !in s
  {
    if s == [] then None
    else if s[0] == c then Some(0)
    else match IndexOf(s[1..], c)
      case None => None
      case Some(k) => assert s[..k + 1] == [s[0]] + s[1..][..k]; Some(k + 1)
  }

  /** The first occurrence of `c` is where `IndexOf` finds it. */
  lemma IndexOfFirst(s: string, c: char, n: nat)
    requires n < |s| && s[n] == c
    requires forall k :: 0 <= k < n ==> s[k] != c
    ensures IndexOf(s, c) == Some(n)
  {
    if n > 0 {
      IndexOfFirst(s[1..], c, n - 1);
    }
  }

  /**
   * The email pattern as a scan: the first '@' is not the first character,
   * nothing before it is white space, nothing after it is white space or a
   * second '@', and some '.' after it is neither the first nor the last
   * character of the domain.
   */
  predicate EmailScan(email: string) {
    match IndexOf(email, '@')
    case None => false
    case Some(at) =>
      var domain := email[at + 1..];
      && at > 0
      && (forall k :: 0 <= k < at ==> !IsSpace(email[k]))
      && (forall k :: 0 <= k < |domain| ==> EmailChar(domain[k]))
      && exists d :: 0 < d < |domain| - 1 && domain[d] == '.'
  }

  /** `validateEmail`: the test of the regular expression, computed by the scan. */
  function ValidateEmail(email: string): (ok: bool)
    ensures ok <==> EmailPattern(email)
  {
    EmailScanMatchesPattern(email);
    EmailScan(email)
  }

  /** The scan agrees with the regular expression, in both directions. */
  lemma EmailScanMatchesPattern(email: string)
    ensures EmailScan(email) <==> EmailPattern(email)
  {
    if EmailScan(email) {
      EmailScanSound(email);
    }
    if EmailPattern(email) {
      EmailScanComplete(email);
    }
  }

  /** What the scan accepts, the pattern accepts: split at the first '@' and at the chosen '.'. */
  lemma EmailScanSound(email: string)
    requires EmailScan(email)
    ensures EmailPattern(email)
  {
    var at := IndexOf(email, '@').value;
    var domain := email[at + 1..];
    var d :| 0 < d < |domain| - 1 && domain[d] == '.';
    var local, host, tld := email[..at], domain[..d], domain[d + 1..];
    forall k | 0 <= k < |local| ensures EmailChar(local[k]) {
      assert local[k] in email[..at];
    }
    assert Word(local) && Word(host) && Word(tld);
    assert email == local + "@" + host + "." + tld;
  }

  /** What the pattern accepts, the scan accepts: its '@' is the first one. */
  lemma EmailScanComplete(email: string)
    requires EmailPattern(email)
    ensures EmailScan(email)
  {
    var local, host, tld :| Word(local) && Word(host) && Word(tld) && email == local + "@" + host + "." + tld;
    var n := |local|;
    assert email[n] == '@';
    assert forall k :: 0 <= k < n ==> email[k] == local[k];
    IndexOfFirst(email, '@', n);
    var domain := email[n + 1..];
    assert domain == host + "." + tld;
    assert forall k :: 0 <= k < |domain| ==> EmailChar(domain[k]);
    assert domain[|host|] == '.';
  }

  /**
   * `validatePassword`: present and at least six UTF-16 code units long.
   * Three characters outside the Basic Multilingual Plane are enough; six
   * characters always are.
   */
  function ValidatePassword(password: Option<string>): (ok: bool)
    ensures password.None? ==> !ok
    ensures ok ==> |password.value| >= 3
    ensures password.Some? && |password.value| >= 6 ==> ok
    ensures password.Some? && AllBmp(password.value) ==> (ok <==> |password.value| >= 6)
  {
    password.Some? && Utf16Length(password.value) >= 6
  }

  /** The contact number check: ten code units, all of them decimal digits. */
  predicate ValidContactNumber(contact: string) {
    Utf16Length(contact) == 10 && AllDigits(contact)
  }

  /** The JSON body of a registration, each field possibly missing. */
  datatype RegisterBody = RegisterBody(
    fullName: Option<string>,
    contactNumber: Option<string>,
    email: Option<string>,
    residence: Option<string>,
    block: Option<string>,
    password: Option<string>)

  predicate AllGiven(b: RegisterBody) {
    Given(b.fullName) && Given(b.contactNumber) && Given(b.email) && Given(b.residence) && Given(b.block) && Given(b.password)
  }

  /**
   * The validation steps of the registration handler, in their order: the
   * first failing check decides the error; `None` lets the request reach the
   * database. The checks see the raw, untrimmed input.
   */
  function CheckRegistration(b: RegisterBody): (r: Option<RegisterError>)
    ensures r == Some(MissingField) <==> !AllGiven(b)
    ensures r == Some(InvalidEmail) <==> AllGiven(b) && !EmailPattern(b.email.value)
    ensures r == Some(WeakPassword) <==> AllGiven(b) && EmailPattern(b.email.value) && Utf16Length(b.password.value) < 6
    ensures r == Some(InvalidContact) <==>
      AllGiven(b) && EmailPattern(b.email.value) && Utf16Length(b.password.value) >= 6 && !ValidContactNumber(b.contactNumber.value)
    ensures r == None <==>
      AllGiven(b) && EmailPattern(b.email.value) && Utf16Length(b.password.value) >= 6 && ValidContactNumber(b.contactNumber.value)
  {
    if !AllGiven(b) then Some(MissingField)
    else if !ValidateEmail(b.email.value) then Some(InvalidEmail)
    else if !ValidatePassword(b.password) then Some(WeakPassword)
    else if Utf16Length(b.contactNumber.value) != 10 || !(|b.contactNumber.value| > 0 && AllDigits(b.contactNumber.value)) then Some(InvalidContact)
    else None
  }
}
