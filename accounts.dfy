/** The account handlers of the user controller: registration, login, activation of the
    email address and the two steps of a password reset. Hashing and its comparison are
    parameters (`hash` is the stored form of the new password, `matches` the comparison of
    a password with a stored hash), as are the random tokens, the request's origin, the
    mail template, the current year and the clock. */
module Accounts {
  import opened Common
  import opened Text
  import opened Validation
  import opened Database

  /** What the handlers send back about an account: never the password hash. */
  datatype PublicUser = PublicUser(id: UserId, fullName: string, email: string)

  function View(u: User): PublicUser {
    PublicUser(u.id, u.fullName, u.email)
  }

  /** A new account and the verification mail sent for it. */
  datatype Registration = Registration(account: PublicUser, mail: string)

  /** The first account that passes `test`, in store order: the `findUnique` and
      `findFirst` lookups on one column. */
  function FirstIndex(users: seq<User>, test: User -> bool): (r: Option<nat>)
    ensures r.Some? ==> r.value < |users| && test(users[r.value])
    ensures r.Some? ==> forall k :: 0 <= k < r.value ==> !test(users[k])
    ensures r.None? <==> forall k :: 0 <= k < |users| ==> !test(users[k])
  {
    if users == [] then None
    else if test(users[0]) then Some(0)
    else
      var r := FirstIndex(users[1..], test);
      assert forall k :: 1 <= k < |users| ==> users[k] == users[1..][k - 1];
      if r.None? then None else Some(r.value + 1)
  }

  /** The first account with this email. */
  function EmailIndex(users: seq<User>, email: string): Option<nat> {
    FirstIndex(users, (u: User) => u.email == email)
  }

  /** The account with this id. */
  function IdIndex(users: seq<User>, id: UserId): Option<nat> {
    FirstIndex(users, (u: User) => u.id == id)
  }

  /** With distinct ids the account with an id is the one at any index holding it. */
  lemma IdIndexUnique(users: seq<User>, id: UserId, i: nat)
    requires forall a, b | 0 <= a < b < |users| :: users[a].id != users[b].id
    requires i < |users| && users[i].id == id
    ensures IdIndex(users, id) == Some(i)
  {
  }

  const BadLogin: string := "Incorrect email or password"

  /** A stored hash JavaScript treats as present. */
  predicate HasPassword(u: User) {
    u.hashedPassword.Some? && u.hashedPassword.value != ""
  }

  /** `loginUser`. */
  function LoginUser(users: seq<User>, email: string, password: string, matches: (string, string) -> bool): (r: Reply<PublicUser>)
    ensures r.Ok? <==>
      (email != "" && password != "" && IsEmail(email) &&
       exists i :: (0 <= i < |users| && users[i].email == email && EmailIndex(users, email) == Some(i) &&
                    HasPassword(users[i]) && matches(password, users[i].hashedPassword.value)))
    ensures r.Ok? ==> r.status == 200 && exists u :: u in users && u.email == email && r.value == View(u)
    ensures email == "" || password == "" ==> r == Fail(400, "Missing required fields")
    ensures email != "" && password != "" && !IsEmail(email) ==> r == Fail(422, "Invalid email format")
  {
    if email == "" || password == "" then Fail(400, "Missing required fields")
    else if !IsEmail(email) then Fail(422, "Invalid email format")
    else match EmailIndex(users, email)
      case None => Fail(400, BadLogin)
      case Some(i) =>
        if !HasPassword(users[i]) then Fail(400, BadLogin)
        else if !matches(password, users[i].hashedPassword.value) then Fail(400, BadLogin)
        else Ok(200, View(users[i]))
  }

  /** An unknown email, an account without a password and a wrong password all get the
      same answer, so a failed login does not tell which of them it was. */
  lemma LoginUniformError(users: seq<User>, email: string, password: string, matches: (string, string) -> bool)
    requires email != "" && password != "" && IsEmail(email)
    ensures LoginUser(users, email, password, matches).Fail? ==> LoginUser(users, email, password, matches) == Fail(400, BadLogin)
    ensures EmailIndex(users, email).None? ==> LoginUser(users, email, password, matches) == Fail(400, BadLogin)
    ensures (forall k :: 0 <= k < |users| && users[k].email == email ==> !HasPassword(users[k])) ==>
      LoginUser(users, email, password, matches) == Fail(400, BadLogin)
  {
    var e := EmailIndex(users, email);
    if e.Some? {
      assert users[e.value].email == email;
    }
  }

  /** An account just added with an email nobody else has can log in with the password
      its hash was made from. */
  lemma RegisteredCanLogIn(users: seq<User>, u: User, password: string, matches: (string, string) -> bool)
    requires forall k :: 0 <= k < |users| ==> users[k].email != u.email
    requires IsEmail(u.email) && password != "" && HasPassword(u) && matches(password, u.hashedPassword.value)
    ensures LoginUser(users + [u], u.email, password, matches) == Ok(200, View(u))
  {
    var all := users + [u];
    assert forall k :: 0 <= k < |users| ==> all[k] == users[k];
    assert all[|users|] == u;
    assert EmailIndex(all, u.email) == Some(|users|);
  }

  const NameLengthMessage: string := "Full name must be between 3 and 50 characters"
  const WeakPassword: string := "Password does not meet security requirments"

  /** The reasons `registerUser` refuses a request before it writes anything, in the order
      it checks them. */
  function RegisterError(users: seq<User>, fullName: string, email: string, password: string): (r: Option<Reply<Registration>>)
    ensures r.None? <==>
      (fullName != "" && email != "" && password != "" && NameLengthOk(fullName) && IsEmail(email) &&
       EmailIndex(users, email).None? && IsStrongPassword(password))
    ensures r.Some? ==> r.value.Fail?
  {
    if fullName == "" || email == "" || password == "" then Some(Fail(400, "Missing required fields"))
    else if !NameLengthOk(fullName) then Some(Fail(400, NameLengthMessage))
    else if !IsEmail(email) then Some(Fail(422, "Invalid email format"))
    else if EmailIndex(users, email).Some? then Some(Fail(400, "User already exists"))
    else if !IsStrongPassword(password) then Some(Fail(422, WeakPassword))
    else None
  }

  /** `registerUser`: a new account under the trimmed name with an activation token, and
      the verification mail built from the template. The account is written before the
      token, so a token that is already taken leaves the account in place and fails. */
  method RegisterUser(db: Db, fullName: string, email: string, password: string, hash: string,
                      token: string, origin: string, template: string, year: string)
    returns (r: Reply<Registration>)
    requires db.UsersValid()
    modifies db`users, db`nextUserId, db`activateTokens
    ensures db.UsersValid()
    ensures RegisterError(old(db.users), fullName, email, password).Some? ==>
      r == RegisterError(old(db.users), fullName, email, password).value &&
      db.users == old(db.users) && db.nextUserId == old(db.nextUserId) && db.activateTokens == old(db.activateTokens)
    ensures RegisterError(old(db.users), fullName, email, password).None? ==>
      db.users == old(db.users) + [User(old(db.nextUserId), Trim(fullName), email, Some(hash), false)] &&
      db.nextUserId == old(db.nextUserId) + 1
    ensures RegisterError(old(db.users), fullName, email, password).None? && token in old(db.activateTokens) ==>
      r == Fail(500, StoreError) && db.activateTokens == old(db.activateTokens)
    ensures r.Ok? <==> RegisterError(old(db.users), fullName, email, password).None? && token !in old(db.activateTokens)
    ensures r.Ok? ==>
      r == Ok(201, Registration(PublicUser(old(db.nextUserId), Trim(fullName), email),
                                VerifyMail(template, LogoUrl, Trim(fullName), ActivateUrl(origin, token), year))) &&
      db.activateTokens == old(db.activateTokens)[token := old(db.nextUserId)]
  {
    var refused := RegisterError(db.users, fullName, email, password);
    if refused.Some? {
      return refused.value;
    }
    var id := db.nextUserId;
    var name := Trim(fullName);
    forall k | 0 <= k < |db.users| ensures db.users[k].email != email {
    }
    db.users := db.users + [User(id, name, email, Some(hash), false)];
    db.nextUserId := id + 1;
    if token in db.activateTokens {
      return Fail(500, StoreError);
    }
    db.activateTokens := db.activateTokens[token := id];
    var mail := VerifyMail(template, LogoUrl, name, ActivateUrl(origin, token), year);
    r := Ok(201, Registration(PublicUser(id, name, email), mail));
  }

  /** `activateAccount`: marks the account of the token as verified, once. */
  method ActivateAccount(db: Db, token: string) returns (r: Reply<PublicUser>)
    requires db.UsersValid()
    modifies db`users
    ensures db.UsersValid()
    ensures token !in old(db.activateTokens) ==> r == Fail(400, "Token not valid") && db.users == old(db.users)
    ensures token in old(db.activateTokens) ==>
      match IdIndex(old(db.users), old(db.activateTokens)[token])
      case None => r == Fail(500, StoreError) && db.users == old(db.users)
      case Some(i) =>
        if old(db.users)[i].isEmailVerified then
          r == Fail(400, "Email is already verified") && db.users == old(db.users)
        else
          r == Ok(200, View(old(db.users)[i])) &&
          db.users == old(db.users)[i := old(db.users)[i].(isEmailVerified := true)]
  {
    if token !in db.activateTokens {
      return Fail(400, "Token not valid");
    }
    var at := IdIndex(db.users, db.activateTokens[token]);
    if at.None? {
      return Fail(500, StoreError);
    }
    var i := at.value;
    if db.users[i].isEmailVerified {
      return Fail(400, "Email is already verified");
    }
    var u := db.users[i];
    db.users := db.users[i := u.(isEmailVerified := true)];
    r := Ok(200, View(u));
  }

  /** Activating with the same token again always fails. */
  method ActivateTwice(db: Db, token: string) returns (first: Reply<PublicUser>, second: Reply<PublicUser>)
    requires db.UsersValid()
    modifies db`users
    ensures second.Fail?
    ensures first.Ok? ==> second == Fail(400, "Email is already verified")
  {
    ghost var before := db.users;
    first := ActivateAccount(db, token);
    if first.Ok? {
      var i := IdIndex(before, db.activateTokens[token]).value;
      IdIndexUnique(db.users, db.activateTokens[token], i);
    }
    second := ActivateAccount(db, token);
  }

  const BadToken: string := "Token expired or not valid"

  /** `resetPasswordRequest`: a reset token for the account with this email. The handler
      does not look at the account's password, so an account that signs in through a
      provider gets a token too. */
  method ResetPasswordRequest(db: Db, email: string, token: string, now: int) returns (r: Reply<string>)
    modifies db`resetTokens
    ensures email == "" ==> r == Fail(400, "Missing email address")
    ensures email != "" && !IsEmail(email) ==> r == Fail(422, "Invalid email format")
    ensures email != "" && IsEmail(email) && EmailIndex(db.users, email).None? ==>
      r == Fail(404, "Email cannot be found or signed in using a provider")
    ensures EmailIndex(db.users, email).Some? && email != "" && IsEmail(email) && token in old(db.resetTokens) ==>
      r == Fail(500, StoreError)
    ensures r.Ok? <==> email != "" && IsEmail(email) && EmailIndex(db.users, email).Some? && token !in old(db.resetTokens)
    ensures r.Ok? ==>
      r == Ok(200, "Password reset link sent to email") &&
      db.resetTokens == old(db.resetTokens)[token := ResetToken(db.users[EmailIndex(db.users, email).value].id, now, None)]
    ensures !r.Ok? ==> db.resetTokens == old(db.resetTokens)
  {
    if email == "" {
      return Fail(400, "Missing email address");
    }
    if !IsEmail(email) {
      return Fail(422, "Invalid email format");
    }
    var at := EmailIndex(db.users, email);
    if at.None? {
      return Fail(404, "Email cannot be found or signed in using a provider");
    }
    if token in db.resetTokens {
      return Fail(500, StoreError);
    }
    db.resetTokens := db.resetTokens[token := ResetToken(db.users[at.value].id, now, None)];
    r := Ok(200, "Password reset link sent to email");
  }

  /** Whether `resetAccountPassword` accepts the token at `now`: it exists and is at most
      one day old. Whether it was used before plays no part. */
  predicate TokenUsable(tokens: map<string, ResetToken>, token: string, now: int) {
    token in tokens && !TokenExpired(tokens[token].createdAt, now)
  }

  /** `resetAccountPassword`: the account of the token gets the new password hash, and the
      token records when it was used. */
  method ResetAccountPassword(db: Db, token: string, password: string, hash: string, now: int)
    returns (r: Reply<PublicUser>)
    requires db.UsersValid()
    modifies db`users, db`resetTokens
    ensures db.UsersValid()
    ensures password == "" ==> r == Fail(400, "Missing new password")
    ensures password != "" && !TokenUsable(old(db.resetTokens), token, now) ==> r == Fail(400, BadToken)
    ensures password != "" && TokenUsable(old(db.resetTokens), token, now) && !IsStrongPassword(password) ==>
      r == Fail(422, WeakPassword)
    ensures (password != "" && TokenUsable(old(db.resetTokens), token, now) && IsStrongPassword(password) &&
             IdIndex(old(db.users), old(db.resetTokens)[token].user).None?) ==> r == Fail(500, StoreError)
    ensures r.Ok? <==>
      (password != "" && TokenUsable(old(db.resetTokens), token, now) && IsStrongPassword(password) &&
       IdIndex(old(db.users), old(db.resetTokens)[token].user).Some?)
    ensures r.Ok? ==>
      var i := IdIndex(old(db.users), old(db.resetTokens)[token].user).value;
      r == Ok(200, View(old(db.users)[i])) &&
      db.users == old(db.users)[i := old(db.users)[i].(hashedPassword := Some(hash))] &&
      db.resetTokens == old(db.resetTokens)[token := old(db.resetTokens)[token].(resetAt := Some(now))]
    ensures !r.Ok? ==> db.users == old(db.users) && db.resetTokens == old(db.resetTokens)
  {
    if password == "" {
      return Fail(400, "Missing new password");
    }
    if token !in db.resetTokens {
      return Fail(400, BadToken);
    }
    var t := db.resetTokens[token];
    if TokenExpired(t.createdAt, now) {
      return Fail(400, BadToken);
    }
    if !IsStrongPassword(password) {
      return Fail(422, WeakPassword);
    }
    var at := IdIndex(db.users, t.user);
    if at.None? {
      return Fail(500, StoreError);
    }
    var u := db.users[at.value];
    db.users := db.users[at.value := u.(hashedPassword := Some(hash))];
    db.resetTokens := db.resetTokens[token := t.(resetAt := Some(now))];
    r := Ok(200, View(u));
  }

  /** A token that has already reset the password does it again as long as it is at most a
      day old. */
  method ResetTwice(db: Db, token: string, password: string, hash1: string, hash2: string, now1: int, now2: int)
    returns (first: Reply<PublicUser>, second: Reply<PublicUser>)
    requires db.UsersValid()
    requires token in db.resetTokens && !TokenExpired(db.resetTokens[token].createdAt, now2)
    modifies db`users, db`resetTokens
    ensures first.Ok? ==> second.Ok? && token in db.resetTokens && db.resetTokens[token].resetAt == Some(now2)
  {
    ghost var before := db.users;
    first := ResetAccountPassword(db, token, password, hash1, now1);
    if first.Ok? {
      var i := IdIndex(before, db.resetTokens[token].user).value;
      IdIndexUnique(db.users, db.resetTokens[token].user, i);
    }
    second := ResetAccountPassword(db, token, password, hash2, now2);
  }
}
