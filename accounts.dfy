/**
 * The account collection and the user-controller handlers that change it:
 * registration, login, logout, token refresh, profile update and the three
 * steps of the password reset. Each handler loads one account, changes some
 * of its fields and saves it; a save that the schema refuses (a required
 * field empty, a duplicate email) changes nothing.
 *
 * bcrypt, jwt and `Math.random` are not modelled: a handler receives the
 * digest it would store, the token it would sign, the id a token decodes
 * to (`None` when `jwt.verify` throws), the verdict of `bcrypt.compare` as
 * a function, and the draw of `Math.random()`.
 */
module Accounts {
  import opened Base
  import opened JsOps
  import opened Models
  import opened PasswordReset
  import opened Sessions

  /** `User.findOne({ email })`: the first account whose stored email is `email`. */
  function FindByEmail(accs: seq<Account>, email: string): (r: Option<nat>)
    ensures r.Some? ==> r.value < |accs| && accs[r.value].email == email
    ensures r.Some? ==> forall i :: 0 <= i < r.value ==> accs[i].email != email
    ensures r.None? <==> forall i :: 0 <= i < |accs| ==> accs[i].email != email
  {
    if accs == [] then None
    else if accs[0].email == email then Some(0)
    else match FindByEmail(accs[1..], email)
      case None => None
      case Some(k) => Some(k + 1)
  }

  /** An account answers the login query `$or: [{ email: identifier }, { nom: identifier }]`; the email side goes through the schema's trim. */
  predicate LoginMatch(a: Account, identifier: string)
  {
    var email := Trim(identifier);
    a.email == email || a.nom == identifier
  }

  /** The first account, in collection order, that answers the login query. */
  function FindLogin(accs: seq<Account>, identifier: string): (r: Option<nat>)
    ensures r.Some? ==> r.value < |accs| && LoginMatch(accs[r.value], identifier)
    ensures r.Some? ==> forall i :: 0 <= i < r.value ==> !LoginMatch(accs[i], identifier)
    ensures r.None? <==> forall i :: 0 <= i < |accs| ==> !LoginMatch(accs[i], identifier)
  {
    if accs == [] then None
    else if LoginMatch(accs[0], identifier) then Some(0)
    else match FindLogin(accs[1..], identifier)
      case None => None
      case Some(k) => Some(k + 1)
  }

  /**
   * `req.body.identifier || req.body.email || req.body.nom`. The login route
   * validates `email` as an email address first, so `email` is a non-empty
   * string and the last alternative is never reached.
   */
  function LoginIdentifier(identifier: Option<string>, email: string): (r: string)
    ensures identifier.Some? && identifier.value != "" ==> r == identifier.value
    ensures (identifier.None? || identifier.value == "") ==> r == email
  {
    if identifier.Some? && identifier.value != "" then identifier.value else email
  }

  /** The `unique` index on `email`. */
  predicate UniqueEmails(accs: seq<Account>)
  {
    forall i, j :: 0 <= i < j < |accs| ==> accs[i].email != accs[j].email
  }

  /** No account other than the one at `k` uses `email`. */
  predicate EmailFreeFor(accs: seq<Account>, email: string, k: int)
  {
    forall j :: 0 <= j < |accs| && j != k ==> accs[j].email != email
  }

  /** With unique emails, the lookup by email finds the one account holding it. */
  lemma FindByEmailUnique(accs: seq<Account>, email: string, i: nat)
    requires UniqueEmails(accs)
    requires i < |accs| && accs[i].email == email
    ensures FindByEmail(accs, email) == Some(i)
  {
  }

  /**
   * What the collection keeps true: each account's id is its position,
   * every stored account passes the schema, emails are unique, and the
   * reset code and its expiry are set and cleared together.
   */
  ghost predicate StoreValid(accs: seq<Account>)
  {
    (forall i :: 0 <= i < |accs| ==> accs[i].id == i)
    && (forall i :: 0 <= i < |accs| ==> SchemaValid(accs[i]) && CodePaired(accs[i]))
    && UniqueEmails(accs)
  }

  /** Saving one account that passes the schema under an email no other account holds keeps the collection valid. */
  lemma SaveKeepsValid(accs: seq<Account>, i: nat, b: Account)
    requires StoreValid(accs) && i < |accs|
    requires b.id == i && SchemaValid(b) && CodePaired(b) && EmailFreeFor(accs, b.email, i)
    ensures StoreValid(accs[i := b])
  {
    var t := accs[i := b];
    forall k | 0 <= k < |t|
      ensures t[k].id == k && SchemaValid(t[k]) && CodePaired(t[k])
    {
      if k != i {
        assert t[k] == accs[k];
      }
    }
    forall k, l | 0 <= k < l < |t|
      ensures t[k].email != t[l].email
    {
      if k != i && l != i {
        assert t[k] == accs[k] && t[l] == accs[l];
      }
    }
  }

  /** Saving an account under its own email, with only its password, tokens or reset fields changed, keeps the collection valid. */
  lemma SaveSameEmail(accs: seq<Account>, i: nat, b: Account)
    requires StoreValid(accs) && i < |accs|
    requires b.id == i && b.email == accs[i].email && b.nom == accs[i].nom && b.telephone == accs[i].telephone
    requires b.password != "" && CodePaired(b)
    ensures StoreValid(accs[i := b])
  {
    SaveKeepsValid(accs, i, b);
  }

  /** Creating an account that passes the schema under an unused email keeps the collection valid. */
  lemma CreateKeepsValid(accs: seq<Account>, b: Account)
    requires StoreValid(accs)
    requires b.id == |accs| && SchemaValid(b) && CodePaired(b) && EmailFreeFor(accs, b.email, -1)
    ensures StoreValid(accs + [b])
  {
    var t := accs + [b];
    forall k | 0 <= k < |t|
      ensures t[k].id == k && SchemaValid(t[k]) && CodePaired(t[k])
    {
      if k < |accs| {
        assert t[k] == accs[k];
      }
    }
    forall k, l | 0 <= k < l < |t|
      ensures t[k].email != t[l].email
    {
      assert t[k] == accs[k];
      if l < |accs| {
        assert t[l] == accs[l];
      } else {
        assert t[l] == b;
        assert accs[k].email != b.email;
      }
    }
  }

  datatype RegisterOutcome = AlreadyRegistered | RegisterRejected | Registered(id: Id, refreshToken: string)
  datatype LoginOutcome = LoginUnknownUser | WrongPassword | LoggedIn(id: Id, refreshToken: string)
  datatype LogoutOutcome = LogoutTokenRequired | LogoutServerError | LogoutUnknownUser | LoggedOut
  datatype RefreshOutcome = RefreshTokenRequired | RefreshRejected | Refreshed(refreshToken: string)
  datatype UpdateOutcome = AccountNotFound | NotOwner | UpdateRejected | Updated(account: Account)
  datatype ResetRequestOutcome = NoAccountForEmail | CooldownActive(remaining: int) | CodeSent(to: string, code: string)
  datatype VerifyOutcome = CodeInvalid | CodeValid
  datatype ResetOutcome = ResetInvalid | ResetSaveRejected | PasswordChanged

  class AccountStore {
    var accounts: seq<Account>

    ghost predicate Valid()
      reads this
    {
      StoreValid(accounts)
    }

    constructor ()
      ensures Valid() && accounts == []
    {
      accounts := [];
    }

    /**
     * `registerUser`: an email already stored is refused; otherwise a new
     * client account is created with the given digest and one refresh
     * token, unless the schema refuses it.
     */
    method RegisterUser(nom: string, email: string, telephone: string, digest: string, refreshToken: string)
      returns (r: RegisterOutcome)
      requires Valid()
      modifies this
      ensures Valid()
      ensures FindByEmail(old(accounts), Trim(email)).Some? ==> r == AlreadyRegistered && accounts == old(accounts)
      ensures FindByEmail(old(accounts), Trim(email)).None? && !SchemaValid(NewAccount(|old(accounts)|, nom, email, telephone, digest))
        ==> r == RegisterRejected && accounts == old(accounts)
      ensures r.Registered? ==>
        FindByEmail(old(accounts), Trim(email)).None?
        && r == Registered(|old(accounts)|, refreshToken)
        && accounts == old(accounts) + [NewAccount(|old(accounts)|, nom, email, telephone, digest).(refreshTokens := [refreshToken])]
      ensures r.AlreadyRegistered? || r.RegisterRejected? || r.Registered?
      ensures FindByEmail(old(accounts), Trim(email)).None? && SchemaValid(NewAccount(|old(accounts)|, nom, email, telephone, digest))
        ==> r.Registered?
    {
      if FindByEmail(accounts, Trim(email)).Some? {
        return AlreadyRegistered;
      }
      var id := |accounts|;
      var created := NewAccount(id, nom, email, telephone, digest);
      if !SchemaValid(created) {
        return RegisterRejected;
      }
      CreateKeepsValid(accounts, created.(refreshTokens := [refreshToken]));
      accounts := accounts + [created.(refreshTokens := [refreshToken])];
      r := Registered(id, refreshToken);
    }

    /**
     * `loginUser`: the first account answering the identifier, then the
     * password check; a successful login pushes one refresh token.
     */
    method LoginUser(identifier: Option<string>, email: string, password: string,
                     compare: (string, string) -> bool, refreshToken: string)
      returns (r: LoginOutcome)
      requires Valid()
      modifies this
      ensures Valid()
      ensures FindLogin(old(accounts), LoginIdentifier(identifier, email)).None? ==> r == LoginUnknownUser && accounts == old(accounts)
      ensures FindLogin(old(accounts), LoginIdentifier(identifier, email)).Some? ==>
        var i := FindLogin(old(accounts), LoginIdentifier(identifier, email)).value;
        if compare(password, old(accounts)[i].password) then
          r == LoggedIn(i, refreshToken)
          && accounts == old(accounts)[i := old(accounts)[i].(refreshTokens := old(accounts)[i].refreshTokens + [refreshToken])]
        else
          r == WrongPassword && accounts == old(accounts)
    {
      var found := FindLogin(accounts, LoginIdentifier(identifier, email));
      if found.None? {
        return LoginUnknownUser;
      }
      var i := found.value;
      if !compare(password, accounts[i].password) {
        return WrongPassword;
      }
      SaveSameEmail(accounts, i, accounts[i].(refreshTokens := accounts[i].refreshTokens + [refreshToken]));
      accounts := accounts[i := accounts[i].(refreshTokens := accounts[i].refreshTokens + [refreshToken])];
      r := LoggedIn(i, refreshToken);
    }

    /**
     * `logoutUser`: a missing token is a 400, a token that fails
     * verification a 500, an unknown account a 401; otherwise every copy
     * of the token leaves the account's list.
     */
    method LogoutUser(token: string, decoded: Option<Id>) returns (r: LogoutOutcome)
      requires Valid()
      modifies this
      ensures Valid()
      ensures token == "" ==> r == LogoutTokenRequired && accounts == old(accounts)
      ensures token != "" && decoded.None? ==> r == LogoutServerError && accounts == old(accounts)
      ensures token != "" && decoded.Some? && decoded.value >= |old(accounts)| ==> r == LogoutUnknownUser && accounts == old(accounts)
      ensures token != "" && decoded.Some? && decoded.value < |old(accounts)| ==>
        var i := decoded.value;
        r == LoggedOut
        && accounts == old(accounts)[i := old(accounts)[i].(refreshTokens := RemoveAll(old(accounts)[i].refreshTokens, token))]
    {
      if token == "" {
        return LogoutTokenRequired;
      }
      if decoded.None? {
        return LogoutServerError;
      }
      var i := decoded.value;
      if i >= |accounts| {
        return LogoutUnknownUser;
      }
      SaveSameEmail(accounts, i, accounts[i].(refreshTokens := RemoveAll(accounts[i].refreshTokens, token)));
      accounts := accounts[i := accounts[i].(refreshTokens := RemoveAll(accounts[i].refreshTokens, token))];
      r := LoggedOut;
    }

    /**
     * `refreshToken`: a missing token is a 401; a token that fails
     * verification, names no account or is not in the account's list is a
     * 403; otherwise the token is rotated.
     */
    method RefreshToken(token: string, decoded: Option<Id>, replacement: string) returns (r: RefreshOutcome)
      requires Valid()
      modifies this
      ensures Valid()
      ensures token == "" ==> r == RefreshTokenRequired && accounts == old(accounts)
      ensures token != "" && (decoded.None? || decoded.value >= |old(accounts)| || token !in old(accounts)[decoded.value].refreshTokens)
        ==> r == RefreshRejected && accounts == old(accounts)
      ensures token != "" && decoded.Some? && decoded.value < |old(accounts)| && token in old(accounts)[decoded.value].refreshTokens ==>
        var i := decoded.value;
        r == Refreshed(replacement)
        && accounts == old(accounts)[i := old(accounts)[i].(refreshTokens := Rotate(old(accounts)[i].refreshTokens, token, replacement))]
    {
      if token == "" {
        return RefreshTokenRequired;
      }
      if decoded.None? || decoded.value >= |accounts| || token !in accounts[decoded.value].refreshTokens {
        return RefreshRejected;
      }
      var i := decoded.value;
      SaveSameEmail(accounts, i, accounts[i].(refreshTokens := Rotate(accounts[i].refreshTokens, token, replacement)));
      accounts := accounts[i := accounts[i].(refreshTokens := Rotate(accounts[i].refreshTokens, token, replacement))];
      r := Refreshed(replacement);
    }

    /**
     * `updateUser`: the account must exist and belong to the caller; each of
     * `nom`, `email`, `telephone` supplied non-empty overwrites the stored
     * value (the email through the trim setter). A save the schema or the
     * unique index refuses changes nothing.
     */
    method UpdateUser(target: Id, caller: Id, nom: string, email: string, telephone: string) returns (r: UpdateOutcome)
      requires Valid()
      modifies this
      ensures Valid()
      ensures target >= |old(accounts)| ==> r == AccountNotFound && accounts == old(accounts)
      ensures target < |old(accounts)| && target != caller ==> r == NotOwner && accounts == old(accounts)
      ensures target < |old(accounts)| && target == caller ==>
        var a := old(accounts)[target];
        var b := a.(nom := if nom != "" then nom else a.nom,
                    email := if email != "" then Trim(email) else a.email,
                    telephone := if telephone != "" then telephone else a.telephone);
        if SchemaValid(b) && EmailFreeFor(old(accounts), b.email, target) then
          r == Updated(b) && accounts == old(accounts)[target := b]
        else
          r == UpdateRejected && accounts == old(accounts)
    {
      if target >= |accounts| {
        return AccountNotFound;
      }
      if target != caller {
        return NotOwner;
      }
      var a := accounts[target];
      var b := a;
      if nom != "" { b := b.(nom := nom); }
      if email != "" { b := b.(email := Trim(email)); }
      if telephone != "" { b := b.(telephone := telephone); }
      if !(SchemaValid(b) && EmailFreeFor(accounts, b.email, target)) {
        return UpdateRejected;
      }
      SaveKeepsValid(accounts, target, b);
      accounts := accounts[target := b];
      r := Updated(b);
    }

    /**
     * `requestPasswordReset`: an unknown email is a 404; an active code is a
     * 429 reporting the minutes left; otherwise a fresh six-digit code is
     * stored with a ten-minute expiry and mailed to the address given.
     */
    method RequestPasswordReset(email: string, now: int, random: real) returns (r: ResetRequestOutcome)
      requires Valid()
      requires 0.0 <= random < 1.0
      modifies this
      ensures Valid()
      ensures FindByEmail(old(accounts), Trim(email)).None? ==> r == NoAccountForEmail && accounts == old(accounts)
      ensures FindByEmail(old(accounts), Trim(email)).Some? ==>
        var i := FindByEmail(old(accounts), Trim(email)).value;
        var a := old(accounts)[i];
        if CodeActive(a, now) then
          r == CooldownActive(RemainingMinutes(a.resetCodeExpires.value, now)) && accounts == old(accounts)
        else
          r == CodeSent(email, DecimalString(DrawCode(random)))
          && accounts == old(accounts)[i := IssueCode(a, now, DrawCode(random))]
    {
      var found := FindByEmail(accounts, Trim(email));
      if found.None? {
        return NoAccountForEmail;
      }
      var i := found.value;
      var a := accounts[i];
      if CodeActive(a, now) {
        return CooldownActive(RemainingMinutes(a.resetCodeExpires.value, now));
      }
      var n := DrawCode(random);
      SaveSameEmail(accounts, i, IssueCode(a, now, n));
      accounts := accounts[i := IssueCode(a, now, n)];
      r := CodeSent(email, DecimalString(n));
    }

    /** `verifyResetCode`: every failure is the same "invalid or expired" answer; success consumes the code. */
    method VerifyResetCode(email: string, supplied: string, now: int) returns (r: VerifyOutcome)
      requires Valid()
      modifies this
      ensures Valid()
      ensures FindByEmail(old(accounts), Trim(email)).None? ==> r == CodeInvalid && accounts == old(accounts)
      ensures FindByEmail(old(accounts), Trim(email)).Some? ==>
        var i := FindByEmail(old(accounts), Trim(email)).value;
        if VerifyAccepts(old(accounts)[i], supplied, now) then
          r == CodeValid && accounts == old(accounts)[i := Consume(old(accounts)[i])]
        else
          r == CodeInvalid && accounts == old(accounts)
    {
      var found := FindByEmail(accounts, Trim(email));
      if found.None? {
        return CodeInvalid;
      }
      var i := found.value;
      if !VerifyAccepts(accounts[i], supplied, now) {
        return CodeInvalid;
      }
      SaveSameEmail(accounts, i, Consume(accounts[i]));
      accounts := accounts[i := Consume(accounts[i])];
      r := CodeValid;
    }

    /**
     * `resetPasswordWithCode`: the account must match the email and hold
     * exactly the code given, unexpired; success stores the new digest and
     * clears the code. A digest the schema refuses is not saved.
     */
    method ResetPasswordWithCode(email: string, code: string, digest: string, now: int) returns (r: ResetOutcome)
      requires Valid()
      modifies this
      ensures Valid()
      ensures FindByEmail(old(accounts), Trim(email)).None? ==> r == ResetInvalid && accounts == old(accounts)
      ensures FindByEmail(old(accounts), Trim(email)).Some? ==>
        var i := FindByEmail(old(accounts), Trim(email)).value;
        if !ResetAccepts(old(accounts)[i], code, now) then
          r == ResetInvalid && accounts == old(accounts)
        else if digest == "" then
          r == ResetSaveRejected && accounts == old(accounts)
        else
          r == PasswordChanged && accounts == old(accounts)[i := ApplyReset(old(accounts)[i], digest)]
    {
      var found := FindByEmail(accounts, Trim(email));
      if found.None? {
        return ResetInvalid;
      }
      var i := found.value;
      if !ResetAccepts(accounts[i], code, now) {
        return ResetInvalid;
      }
      if digest == "" {
        return ResetSaveRejected;
      }
      SaveSameEmail(accounts, i, ApplyReset(accounts[i], digest));
      accounts := accounts[i := ApplyReset(accounts[i], digest)];
      r := PasswordChanged;
    }
  }
}
