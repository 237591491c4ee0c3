/**
 * The password-reset state of one account: the pair `resetCode` /
 * `resetCodeExpires` and the three transitions the user controller drives
 * over it (issue a code, verify it, reset the password with it). The clock
 * is the input `now`, in milliseconds since the epoch.
 */
module PasswordReset {
  import opened Base
  import opened JsOps
  import opened Models

  /** A code lives ten minutes: `10 * 60 * 1000` milliseconds. */
  const CodeLifetime: int := 600000
  const MsPerMinute: int := 60000

  /** The reset code and its expiry are set together and cleared together. */
  predicate CodePaired(a: Account)
  {
    a.resetCode.Some? <==> a.resetCodeExpires.Some?
  }

  /** The cooldown check of `requestPasswordReset`: an expiry is set and lies strictly in the future. */
  predicate CodeActive(a: Account, now: int)
  {
    a.resetCodeExpires.Some? && a.resetCodeExpires.value > now
  }

  /** The minutes the cooldown message reports: `Math.ceil((expires - now) / 60000)`. */
  function RemainingMinutes(expires: int, now: int): (r: int)
    requires expires > now
    ensures r >= 1
    ensures (r - 1) * MsPerMinute < expires - now <= r * MsPerMinute
  {
    var r := CeilDiv(expires - now, MsPerMinute);
    CeilDivZero(expires - now, MsPerMinute);
    ProductSign(r, MsPerMinute);
    r
  }

  /** `Math.floor(100000 + random * 900000)` for a draw `random` of `Math.random()`, which lies in [0, 1). */
  function DrawCode(random: real): (n: int)
    requires 0.0 <= random < 1.0
    ensures 100000 <= n <= 999999
  {
    (100000.0 + random * 900000.0).Floor
  }

  /** The account once a code has been issued at `now`: the decimal rendering of n, expiring ten minutes later. */
  function IssueCode(a: Account, now: int, n: nat): (r: Account)
    ensures r.resetCode == Some(DecimalString(n)) && r.resetCodeExpires == Some(now + CodeLifetime)
    ensures r == a.(resetCode := r.resetCode, resetCodeExpires := r.resetCodeExpires)
  {
    a.(resetCode := Some(DecimalString(n)), resetCodeExpires := Some(now + CodeLifetime))
  }

  /**
   * The checks of `verifyResetCode` on an account that was found: a code is
   * set and non-empty (the empty string is falsy), an expiry is set, the
   * expiry is not before `now`, and the stored code equals the supplied one
   * once trimmed.
   */
  predicate VerifyAccepts(a: Account, supplied: string, now: int)
  {
    a.resetCode.Some? && a.resetCode.value != ""
    && a.resetCodeExpires.Some? && !(a.resetCodeExpires.value < now)
    && a.resetCode.value == Trim(supplied)
  }

  /** The account after a successful verification: code and expiry back to `null`. */
  function Consume(a: Account): (r: Account)
    ensures r.resetCode == None && r.resetCodeExpires == None
    ensures r == a.(resetCode := None, resetCodeExpires := None)
  {
    a.(resetCode := None, resetCodeExpires := None)
  }

  /**
   * The checks of `resetPasswordWithCode` on the account found by email: the
   * query also demands `resetCode` equal to the supplied code exactly (no
   * trimming), and the expiry must not be before `now`, where a `null`
   * expiry compares as 0.
   */
  predicate ResetAccepts(a: Account, code: string, now: int)
  {
    a.resetCode == Some(code)
    && !((if a.resetCodeExpires.Some? then a.resetCodeExpires.value else 0) < now)
  }

  /** The account after a successful reset: the new digest stored, code and expiry cleared. */
  function ApplyReset(a: Account, digest: string): (r: Account)
    ensures r.password == digest && r.resetCode == None && r.resetCodeExpires == None
    ensures r == a.(password := digest, resetCode := None, resetCodeExpires := None)
  {
    a.(password := digest, resetCode := None, resetCodeExpires := None)
  }

  /* ---------------------------------------------------------------- */
  /* Properties of the state machine                                    */
  /* ---------------------------------------------------------------- */

  /** Every code drawn is six decimal digits with no leading zero, and reads back as the number drawn. */
  lemma DrawnCodeShape(random: real)
    requires 0.0 <= random < 1.0
    ensures var s := DecimalString(DrawCode(random));
            |s| == 6 && AllDigits(s) && s[0] != '0' && ParseDecimal(s) == DrawCode(random)
  {
    var n := DrawCode(random);
    assert Pow10(5) == 100000 && Pow10(6) == 1000000;
    DecimalLength(n, 6);
    DecimalRoundTrip(n);
  }

  /** Two draws give the same code string only when they give the same number. */
  lemma DistinctDrawsDistinctCodes(r1: real, r2: real)
    requires 0.0 <= r1 < 1.0 && 0.0 <= r2 < 1.0
    requires DrawCode(r1) != DrawCode(r2)
    ensures DecimalString(DrawCode(r1)) != DecimalString(DrawCode(r2))
  {
    if DecimalString(DrawCode(r1)) == DecimalString(DrawCode(r2)) {
      DecimalInjective(DrawCode(r1), DrawCode(r2));
    }
  }

  /** An issued code keeps the cooldown on exactly until its expiry, ten minutes after issue, and not from that instant on. */
  lemma IssuedCodeLifetime(a: Account, now: int, n: nat, t: int)
    ensures CodeActive(IssueCode(a, now, n), t) <==> t < now + CodeLifetime
  {
  }

  /**
   * Right after issuing, the cooldown reports ten minutes; the code stays
   * active for every instant before the expiry, and the reported minutes
   * never exceed ten.
   */
  lemma IssueStartsCooldown(a: Account, now: int, n: nat, later: int)
    requires now <= later < now + CodeLifetime
    ensures CodeActive(IssueCode(a, now, n), later)
    ensures RemainingMinutes(now + CodeLifetime, now) == 10
    ensures 1 <= RemainingMinutes(now + CodeLifetime, later) <= 10
  {
    var r := RemainingMinutes(now + CodeLifetime, later);
    if r > 10 {
      MulMonotone(10, r - 1, MsPerMinute);
    }
  }

  /**
   * At the expiry instant itself the cooldown is over (strict `>`), yet the
   * code still verifies (the verification rejects only `expires < now`).
   */
  lemma ExpiryInstant(a: Account, now: int, n: nat)
    ensures !CodeActive(IssueCode(a, now, n), now + CodeLifetime)
    ensures VerifyAccepts(IssueCode(a, now, n), DecimalString(n), now + CodeLifetime)
    ensures ResetAccepts(IssueCode(a, now, n), DecimalString(n), now + CodeLifetime)
  {
    var s := DecimalString(n);
    assert [] + s + [] == s;
    assert AllSpaces([]);
    IssuedCodeVerifies(a, now, n, now + CodeLifetime, [], []);
  }

  /** A string of digits has no white space to trim. */
  lemma TrimDigits(s: string)
    requires |s| >= 1 && AllDigits(s)
    ensures Trim(s) == s
  {
    assert [] + s + [] == s;
    assert AllSpaces([]);
    TrimExact([], s, []);
  }

  /**
   * Within the ten minutes, the issued code verifies even when the user
   * surrounds it with white space, and the password reset accepts it as
   * issued.
   */
  lemma IssuedCodeVerifies(a: Account, now: int, n: nat, t: int, pre: string, post: string)
    requires now <= t <= now + CodeLifetime
    requires AllSpaces(pre) && AllSpaces(post)
    ensures VerifyAccepts(IssueCode(a, now, n), pre + DecimalString(n) + post, t)
    ensures ResetAccepts(IssueCode(a, now, n), DecimalString(n), t)
  {
    var s := DecimalString(n);
    assert !IsJsSpace(s[0]) && !IsJsSpace(s[|s| - 1]);
    TrimExact(pre, s, post);
  }

  /** Verification accepts only the code that was issued: the digits of another number fail. */
  lemma OnlyIssuedCodeVerifies(a: Account, now: int, n: nat, m: nat, t: int)
    requires VerifyAccepts(IssueCode(a, now, n), DecimalString(m), t)
    ensures m == n
  {
    TrimDigits(DecimalString(m));
    DecimalInjective(m, n);
  }

  /** After the ten minutes, neither verification nor reset accepts anything. */
  lemma ExpiredCodeRejected(a: Account, now: int, n: nat, t: int, supplied: string)
    requires t > now + CodeLifetime
    ensures !VerifyAccepts(IssueCode(a, now, n), supplied, t)
    ensures !ResetAccepts(IssueCode(a, now, n), supplied, t)
  {
  }

  /** The reset compares the code untrimmed: a leading space makes it fail where verification succeeds. */
  lemma ResetDoesNotTrim(a: Account, now: int, n: nat, t: int)
    requires now <= t <= now + CodeLifetime
    ensures VerifyAccepts(IssueCode(a, now, n), " " + DecimalString(n), t)
    ensures !ResetAccepts(IssueCode(a, now, n), " " + DecimalString(n), t)
  {
    var s := DecimalString(n);
    assert " " + s == " " + s + [];
    assert AllSpaces(" ") && AllSpaces([]);
    IssuedCodeVerifies(a, now, n, t, " ", []);
    assert (" " + s)[0] == ' ' && s[0] != ' ';
  }

  /** A code is good for one use: once consumed by verification, no code verifies and no reset is accepted. */
  lemma SingleUse(a: Account, supplied: string, code: string, t: int)
    ensures !VerifyAccepts(Consume(a), supplied, t)
    ensures !ResetAccepts(Consume(a), code, t)
    ensures !CodeActive(Consume(a), t)
  {
  }

  /** The same holds after a reset: the code it used is gone. */
  lemma ResetConsumes(a: Account, digest: string, supplied: string, code: string, t: int)
    ensures !VerifyAccepts(ApplyReset(a, digest), supplied, t)
    ensures !ResetAccepts(ApplyReset(a, digest), code, t)
    ensures ApplyReset(a, digest).password == digest
  {
  }

  /** Each transition keeps the code and the expiry paired. */
  lemma TransitionsKeepPairing(a: Account, now: int, n: nat, digest: string)
    ensures CodePaired(IssueCode(a, now, n)) && CodePaired(Consume(a)) && CodePaired(ApplyReset(a, digest))
  {
  }

  /** On an account whose code and expiry are paired, a reset needs an expiry that is set and not past. */
  lemma PairedResetNeedsExpiry(a: Account, code: string, now: int)
    requires CodePaired(a)
    requires ResetAccepts(a, code, now)
    ensures a.resetCodeExpires.Some? && a.resetCodeExpires.value >= now
  {
  }
}
