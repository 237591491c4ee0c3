/**
 * The request checks of the security middleware that are plain predicates:
 * the disposable-email check, the password rule shared by registration and
 * password reset, the CORS origin check and the reset-code presence and
 * length checks.
 */
module Validators {
  import opened Base
  import opened JsOps
  import opened PasswordReset

  /* ---------------------------------------------------------------- */
  /* isTempEmail                                                        */
  /* ---------------------------------------------------------------- */

  /** The text after the first '@' up to the next '@' (or the end): `email.split('@')[1]`, `None` when there is no '@'. */
  function DomainPart(email: string): (r: Option<string>)
    ensures r.None? <==> '@' !in email
    ensures r.Some? ==> '@' !in r.value
  {
    var at := IndexOf(email, '@');
    if at == -1 then None
    else
      var rest := email[at + 1..];
      var next := IndexOf(rest, '@');
      Some(if next == -1 then rest else rest[..next])
  }

  /**
   * `isTempEmail`: false for a missing or non-string value (`None`), for
   * "" and for an address without '@'; otherwise whether the lower-cased
   * domain part is in the list of disposable domains.
   */
  function IsTempEmail(email: Option<string>, domains: seq<string>): (r: bool)
    ensures r ==> email.Some? && '@' in email.value && exists d :: d in domains && |d| < |email.value|
  {
    if email.None? || email.value == "" then false
    else
      var d := DomainPart(email.value);
      d.Some? && Lower(d.value) in domains
  }

  /** For an address `local@domain` with no other '@', the check is exactly whether the lower-cased domain is listed. */
  lemma TempEmailOfAddress(local: string, domain: string, domains: seq<string>)
    requires '@' !in local && '@' !in domain
    ensures IsTempEmail(Some(local + "@" + domain), domains) <==> Lower(domain) in domains
  {
    var e := local + "@" + domain;
    assert e[|local|] == '@';
    assert e[..|local|] == local;
    assert IndexOf(e, '@') == |local|;
    assert e[|local| + 1..] == domain;
  }

  /** With a second '@', only the text between the first two counts: `a@b@c` is looked up as `b`. */
  lemma TempEmailSecondAt(local: string, domain: string, tail: string, domains: seq<string>)
    requires '@' !in local && '@' !in domain
    ensures IsTempEmail(Some(local + "@" + domain + "@" + tail), domains) <==> Lower(domain) in domains
  {
    var e := local + "@" + domain + "@" + tail;
    assert e[|local|] == '@';
    assert e[..|local|] == local;
    assert IndexOf(e, '@') == |local|;
    var rest := e[|local| + 1..];
    assert rest == domain + "@" + tail;
    assert rest[|domain|] == '@' && rest[..|domain|] == domain;
    assert IndexOf(rest, '@') == |domain|;
  }

  /** Missing values, "" and strings without '@' are never disposable. */
  lemma TempEmailFalseCases(s: string, domains: seq<string>)
    requires '@' !in s
    ensures !IsTempEmail(None, domains) && !IsTempEmail(Some(""), domains) && !IsTempEmail(Some(s), domains)
  {
  }

  /* ---------------------------------------------------------------- */
  /* Password rule                                                      */
  /* ---------------------------------------------------------------- */

  /** The five checks of the password chain, in the order they report. */
  datatype PasswordRule = TooShort | NoUpper | NoLower | NoDigit | NoSpecial

  predicate IsUpper(c: char) { 'A' <= c <= 'Z' }
  predicate IsLower(c: char) { 'a' <= c <= 'z' }
  /** `\W`: anything but a letter A-Z or a-z, a digit or '_'. */
  predicate IsSpecial(c: char) { !(IsUpper(c) || IsLower(c) || IsDigit(c) || c == '_') }

  /** Whether some character of s satisfies the class: what `.matches(/[...]/)` checks. */
  function Contains(s: string, cls: char -> bool): (r: bool)
    ensures r <==> exists i :: 0 <= i < |s| && cls(s[i])
  {
    if s == [] then false else cls(s[0]) || Contains(s[1..], cls)
  }

  /** The password chain, in the order its checks report. */
  const PasswordChain: seq<PasswordRule> := [TooShort, NoUpper, NoLower, NoDigit, NoSpecial]

  /** Whether the password passes one check of the chain: a minimum length, or a `.matches` on a character class. */
  function Passes(rule: PasswordRule, pw: string): bool
  {
    match rule
    case TooShort => |pw| >= 8
    case NoUpper => Contains(pw, IsUpper)
    case NoLower => Contains(pw, IsLower)
    case NoDigit => Contains(pw, IsDigit)
    case NoSpecial => Contains(pw, IsSpecial)
  }

  /** The checks among `rules` that the password does not pass, in their order. */
  function Failed(rules: seq<PasswordRule>, pw: string): (r: seq<PasswordRule>)
    ensures forall rule :: rule in r <==> rule in rules && !Passes(rule, pw)
  {
    if rules == [] then []
    else (if Passes(rules[0], pw) then [] else [rules[0]]) + Failed(rules[1..], pw)
  }

  /** The errors the chain reports for a password: one entry per failed check, in chain order. */
  function PasswordErrors(pw: string): seq<PasswordRule>
  {
    Failed(PasswordChain, pw)
  }

  /** A strong password: at least 8 characters, with an upper-case letter, a lower-case letter, a digit and a special character. */
  predicate PasswordStrong(pw: string)
  {
    |pw| >= 8
    && (exists i :: 0 <= i < |pw| && IsUpper(pw[i]))
    && (exists i :: 0 <= i < |pw| && IsLower(pw[i]))
    && (exists i :: 0 <= i < |pw| && IsDigit(pw[i]))
    && (exists i :: 0 <= i < |pw| && IsSpecial(pw[i]))
  }

  /** What failing each rule means, stated on the characters of the password. */
  predicate Fails(rule: PasswordRule, pw: string)
  {
    match rule
    case TooShort => |pw| < 8
    case NoUpper => forall i :: 0 <= i < |pw| ==> !IsUpper(pw[i])
    case NoLower => forall i :: 0 <= i < |pw| ==> !IsLower(pw[i])
    case NoDigit => forall i :: 0 <= i < |pw| ==> !IsDigit(pw[i])
    case NoSpecial => forall i :: 0 <= i < |pw| ==> !IsSpecial(pw[i])
  }

  /** The chain reports each rule exactly when the password fails it. */
  lemma PasswordRuleReports(pw: string, rule: PasswordRule)
    ensures rule in PasswordErrors(pw) <==> Fails(rule, pw)
  {
    assert rule in PasswordChain;
  }

  /** The chain reports no error exactly for the strong passwords. */
  lemma PasswordRuleExact(pw: string)
    ensures PasswordErrors(pw) == [] <==> PasswordStrong(pw)
  {
    if PasswordErrors(pw) != [] {
      var rule := PasswordErrors(pw)[0];
      PasswordRuleReports(pw, rule);
    } else {
      PasswordRuleReports(pw, TooShort);
      PasswordRuleReports(pw, NoUpper);
      PasswordRuleReports(pw, NoLower);
      PasswordRuleReports(pw, NoDigit);
      PasswordRuleReports(pw, NoSpecial);
    }
  }

  /** A password of eight or more characters with a letter of each case and a digit fails only the special-character rule, or none. */
  lemma PasswordOnlySpecialMissing(pw: string, u: nat, l: nat, d: nat)
    requires |pw| >= 8 && u < |pw| && l < |pw| && d < |pw|
    requires IsUpper(pw[u]) && IsLower(pw[l]) && IsDigit(pw[d])
    ensures PasswordErrors(pw) == (if forall i :: 0 <= i < |pw| ==> !IsSpecial(pw[i]) then [NoSpecial] else [])
  {
    assert Passes(TooShort, pw) && Passes(NoUpper, pw) && Passes(NoLower, pw) && Passes(NoDigit, pw);
    assert [TooShort, NoUpper, NoLower, NoDigit, NoSpecial][1..] == [NoUpper, NoLower, NoDigit, NoSpecial];
    assert [NoUpper, NoLower, NoDigit, NoSpecial][1..] == [NoLower, NoDigit, NoSpecial];
    assert [NoLower, NoDigit, NoSpecial][1..] == [NoDigit, NoSpecial];
    assert [NoDigit, NoSpecial][1..] == [NoSpecial];
    assert PasswordErrors(pw) == Failed([NoUpper, NoLower, NoDigit, NoSpecial], pw);
    assert Failed([NoUpper, NoLower, NoDigit, NoSpecial], pw) == Failed([NoLower, NoDigit, NoSpecial], pw);
    assert Failed([NoLower, NoDigit, NoSpecial], pw) == Failed([NoDigit, NoSpecial], pw);
    assert Failed([NoDigit, NoSpecial], pw) == Failed([NoSpecial], pw);
    assert [NoSpecial][1..] == [];
  }

  /** An underscore is a word character, so it does not count as the special character. */
  lemma UnderscoreNotSpecial()
    ensures PasswordErrors("Abcdefg1_") == [NoSpecial]
  {
    var pw := "Abcdefg1_";
    assert forall i :: 0 <= i < |pw| ==> !IsSpecial(pw[i]) by {
      forall i | 0 <= i < |pw| ensures !IsSpecial(pw[i]) {
        assert pw[i] in "Abcdefg1_";
      }
    }
    PasswordOnlySpecialMissing(pw, 0, 1, 7);
  }

  /** '!' is a non-word character, so it satisfies the rule. */
  lemma BangIsSpecial()
    ensures PasswordErrors("Abcdefg1!") == []
  {
    var pw := "Abcdefg1!";
    assert IsSpecial(pw[8]);
    PasswordOnlySpecialMissing(pw, 0, 1, 7);
  }

  /* ---------------------------------------------------------------- */
  /* CORS                                                               */
  /* ---------------------------------------------------------------- */

  const Whitelist: seq<string> := ["http://localhost:3000", "https://app.monsite.com"]

  /** The `origin` callback: a request without an origin (or with an empty one) passes, as does an origin equal to a whitelisted one. */
  function CorsAllowed(origin: Option<string>): bool
  {
    origin.None? || origin.value == "" || origin.value in Whitelist
  }

  /** The comparison is exact: a trailing slash, a different scheme or a different case is refused. */
  lemma CorsExact(origin: string)
    ensures CorsAllowed(Some(origin)) <==> origin == "" || origin == "http://localhost:3000" || origin == "https://app.monsite.com"
    ensures !CorsAllowed(Some("http://localhost:3000/"))
    ensures !CorsAllowed(Some("https://localhost:3000"))
    ensures !CorsAllowed(Some("HTTPS://APP.MONSITE.COM"))
  {
    assert "http://localhost:3000/" != "http://localhost:3000" by { assert |"http://localhost:3000/"| != |"http://localhost:3000"|; }
    assert "http://localhost:3000/" != "https://app.monsite.com" by { assert "http://localhost:3000/"[4] != "https://app.monsite.com"[4]; }
    assert "https://localhost:3000" != "http://localhost:3000" by { assert |"https://localhost:3000"| != |"http://localhost:3000"|; }
    assert "https://localhost:3000" != "https://app.monsite.com" by { assert "https://localhost:3000"[8] != "https://app.monsite.com"[8]; }
    assert "HTTPS://APP.MONSITE.COM" != "http://localhost:3000" by { assert "HTTPS://APP.MONSITE.COM"[0] != "http://localhost:3000"[0]; }
    assert "HTTPS://APP.MONSITE.COM" != "https://app.monsite.com" by { assert "HTTPS://APP.MONSITE.COM"[0] != "https://app.monsite.com"[0]; }
  }

  /* ---------------------------------------------------------------- */
  /* Reset codes                                                        */
  /* ---------------------------------------------------------------- */

  /** `validateResetVerify`: the code has at least 4 characters. */
  predicate VerifyCodeLengthOk(code: string)
  {
    |code| >= 4
  }

  /** `validateResetPassword`: the code is not empty. */
  predicate ResetCodePresent(code: string)
  {
    code != ""
  }

  /** Every code the reset request can issue passes both checks, also with white space around it for the verification. */
  lemma IssuedCodesPassChecks(random: real, pre: string, post: string)
    requires 0.0 <= random < 1.0
    ensures VerifyCodeLengthOk(pre + DecimalString(DrawCode(random)) + post)
    ensures ResetCodePresent(DecimalString(DrawCode(random)))
  {
    DrawnCodeShape(random);
  }

  /** A code of 1 to 3 characters is refused before verification, even the right one. */
  lemma ShortCodesRefused(code: string)
    requires 1 <= |code| <= 3
    ensures !VerifyCodeLengthOk(code) && ResetCodePresent(code)
  {
  }
}
