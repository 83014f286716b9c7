/** What login and the token helper promise: the order of the checks, the frame of a login, and the tokens it hands out. */
module LoginProperties {
  import opened Wrappers
  import opened JsText
  import opened UserModel
  import opened UserController
  import RegisterProperties

  /** Record `k` is the first in store order whose username or e-mail is the submitted one. */
  ghost predicate FirstMatchAt(users: seq<User>, form: LoginForm, k: int) {
    && 0 <= k < |users|
    && MatchesIdentity(users[k], form.username, form.email)
    && forall j :: 0 <= j < k ==> !MatchesIdentity(users[j], form.username, form.email)
  }

  /** `users` with only record `k`'s refresh token replaced. */
  function WithRefreshToken(users: seq<User>, k: nat, token: string): seq<User>
    requires k < |users|
  {
    users[k := users[k].(refreshToken := Some(token))]
  }

  // ---------------------------------------------------------------------------
  // generateRefreshAndAccessTokens

  /**
   * For a stored user, a generated pair is returned and becomes that record's
   * refresh token, nothing else changes; a generation failure is a 500 and
   * changes nothing.
   */
  lemma IssueTokensForStoredUser(users: seq<User>, k: nat, tokens: Option<TokenPair>)
    requires UniqueIds(users) && k < |users|
    ensures var o := IssueTokens(users, users[k].id, tokens);
      && (tokens.Some? ==> o == TokenOutcome(Ok(tokens.value), WithRefreshToken(users, k, tokens.value.refreshToken)))
      && (tokens.None? ==> o == TokenOutcome(Err(ApiError(500, TokenFailure)), users))
  {
    IndexOfOwnId(users, k);
  }

  /** An id no record carries is a 500 and changes nothing. */
  lemma IssueTokensForUnknownId(users: seq<User>, userId: nat, tokens: Option<TokenPair>)
    requires forall j :: 0 <= j < |users| ==> users[j].id != userId
    ensures IssueTokens(users, userId, tokens) == TokenOutcome(Err(ApiError(500, TokenFailure)), users)
  {
  }

  /** Replacing a refresh token changes no id, e-mail or username. */
  lemma WithRefreshTokenKeepsIdentity(users: seq<User>, k: nat, token: string)
    requires k < |users|
    ensures var after := WithRefreshToken(users, k, token);
      && |after| == |users|
      && (forall j :: 0 <= j < |users| && j != k ==> after[j] == users[j])
      && after[k].(refreshToken := users[k].refreshToken) == users[k]
      && (UniqueIds(users) ==> UniqueIds(after))
      && (UniqueEmails(users) ==> UniqueEmails(after))
      && (UniqueUsernames(users) ==> UniqueUsernames(after))
  {
  }

  // ---------------------------------------------------------------------------
  // loginUser

  /** A 400 comes exactly when the username or the e-mail is missing (both are required); nothing changes. */
  lemma LoginRejectsMissingIdentifier(users: seq<User>, form: LoginForm, verify: (string, Option<string>) -> bool,
                                      tokens: Option<TokenPair>)
    ensures var o := Login(users, form, verify, tokens);
      && (o.reply == Err(ApiError(400, IdentifierRequired)) <==> !Truthy(form.username) || !Truthy(form.email))
      && (!Truthy(form.username) || !Truthy(form.email) ==> o.users == users)
  {
  }

  /** With both identifiers present, a 404 comes exactly when no record matches either; nothing changes. */
  lemma LoginNotFound(users: seq<User>, form: LoginForm, verify: (string, Option<string>) -> bool,
                      tokens: Option<TokenPair>)
    requires Truthy(form.username) && Truthy(form.email)
    ensures var o := Login(users, form, verify, tokens);
      && (o.reply == Err(ApiError(404, NotRegistered)) <==>
            forall i :: 0 <= i < |users| ==> !MatchesIdentity(users[i], form.username, form.email))
      && (o.reply == Err(ApiError(404, NotRegistered)) ==> o.users == users)
  {
  }

  /** The password is checked against the first matching record; a 401 comes exactly when it is wrong. */
  lemma LoginWrongPassword(users: seq<User>, form: LoginForm, verify: (string, Option<string>) -> bool,
                           tokens: Option<TokenPair>, k: nat)
    requires Truthy(form.username) && Truthy(form.email)
    requires FirstMatchAt(users, form, k)
    ensures var o := Login(users, form, verify, tokens);
      && (o.reply == Err(ApiError(401, IncorrectPassword)) <==> !verify(users[k].password, form.password))
      && (!verify(users[k].password, form.password) ==> o.users == users)
  {
  }

  /** No login failure changes the store. */
  lemma LoginFailureLeavesStore(users: seq<User>, form: LoginForm, verify: (string, Option<string>) -> bool,
                                tokens: Option<TokenPair>)
    requires Login(users, form, verify, tokens).reply.Err?
    ensures Login(users, form, verify, tokens).users == users
  {
  }

  /** A token failure after a correct password is a 500 "error while generating tokens". */
  lemma LoginTokenFailure(users: seq<User>, form: LoginForm, verify: (string, Option<string>) -> bool, k: nat)
    requires UniqueIds(users)
    requires Truthy(form.username) && Truthy(form.email)
    requires FirstMatchAt(users, form, k) && verify(users[k].password, form.password)
    ensures Login(users, form, verify, None) == LoginOutcome(Err(ApiError(500, TokenFailure)), users)
  {
    IssueTokensForStoredUser(users, k, None);
  }

  /**
   * A successful login replies HTTP 200 with envelope status 201, the first
   * matching user's sanitised view, the generated tokens and the two cookies
   * carrying them; it replaces that user's refresh token and nothing else.
   */
  lemma LoginSuccess(users: seq<User>, form: LoginForm, verify: (string, Option<string>) -> bool,
                     pair: TokenPair, k: nat)
    requires UniqueIds(users)
    requires Truthy(form.username) && Truthy(form.email)
    requires FirstMatchAt(users, form, k) && verify(users[k].password, form.password)
    ensures var o := Login(users, form, verify, Some(pair));
      && o.reply == Ok(LoggedIn(200, 201, Some(View(users[k])), pair.accessToken, pair.refreshToken,
                                [Cookie("accessToken", pair.accessToken), Cookie("refreshToken", pair.refreshToken)],
                                LoggedInMessage))
      && o.users == WithRefreshToken(users, k, pair.refreshToken)
      && o.users[k].refreshToken == Some(pair.refreshToken)
  {
    IssueTokensForStoredUser(users, k, Some(pair));
    var after := WithRefreshToken(users, k, pair.refreshToken);
    WithRefreshTokenKeepsIdentity(users, k, pair.refreshToken);
    IndexOfOwnId(after, k);
  }

  /**
   * A login succeeds exactly when both identifiers are present, some record
   * matches, the password is right for the first one, and tokens are generated.
   */
  lemma LoginSucceedsIff(users: seq<User>, form: LoginForm, verify: (string, Option<string>) -> bool,
                         tokens: Option<TokenPair>)
    requires UniqueIds(users)
    ensures Login(users, form, verify, tokens).reply.Ok? <==>
      && Truthy(form.username) && Truthy(form.email)
      && tokens.Some?
      && exists k :: FirstMatchAt(users, form, k) && verify(users[k].password, form.password)
  {
    if Truthy(form.username) && Truthy(form.email) {
      match FirstMatch(users, form.username, form.email)
      case None =>
      case Some(k) =>
        assert FirstMatchAt(users, form, k);
        IssueTokensForStoredUser(users, k, tokens);
    }
  }

  /** Login keeps ids, e-mails and usernames unique: it changes only a refresh token. */
  lemma LoginPreservesUniqueness(users: seq<User>, form: LoginForm, verify: (string, Option<string>) -> bool,
                                 tokens: Option<TokenPair>)
    requires UniqueIds(users)
    ensures var after := Login(users, form, verify, tokens).users;
      && UniqueIds(after)
      && (UniqueEmails(users) ==> UniqueEmails(after))
      && (UniqueUsernames(users) ==> UniqueUsernames(after))
  {
    var o := Login(users, form, verify, tokens);
    if o.reply.Ok? {
      LoginSucceedsIff(users, form, verify, tokens);
      var k :| FirstMatchAt(users, form, k) && verify(users[k].password, form.password);
      LoginSuccess(users, form, verify, tokens.value, k);
      WithRefreshTokenKeepsIdentity(users, k, tokens.value.refreshToken);
    }
  }

  // ---------------------------------------------------------------------------
  // Registration, then login

  /**
   * Someone who has just registered can log in with the username and e-mail
   * as submitted and the right password, whatever the username's case: the
   * conflict check left no earlier record with that username or e-mail, and
   * the new record carries the e-mail, so the login matches the new record
   * and sets its refresh token.
   */
  lemma RegisterThenLogin(users: seq<User>, form: RegisterForm, files: RegisterFiles,
                          upload: Option<string> -> Option<string>, hash: string -> string,
                          verify: (string, Option<string>) -> bool, pair: TokenPair)
    requires UniqueIds(users)
    requires Register(users, form, files, upload, hash).reply.Ok?
    requires form.password.Some? && verify(hash(form.password.value), form.password)
    ensures var stored := Register(users, form, files, upload, hash).users;
      var o := Login(stored, LoginForm(form.username, form.email, form.password), verify, Some(pair));
      && o.reply.Ok?
      && o.reply.value.user == Some(View(stored[|users|]))
      && o.users == WithRefreshToken(stored, |users|, pair.refreshToken)
  {
    var stored := Register(users, form, files, upload, hash).users;
    var login := LoginForm(form.username, form.email, form.password);
    RegisterProperties.RegisterSuccess(users, form, files, upload, hash);
    RegisterProperties.RegisterSucceedsIff(users, form, files, upload, hash);
    RegisterProperties.RegisterPreservesUniqueIds(users, form, files, upload, hash);
    var k := |users|;
    assert stored[k].email == form.email.value;
    assert Truthy(form.username) && Truthy(form.email) by {
      RegisterProperties.BlankIff(form.username);
      RegisterProperties.BlankIff(form.email);
    }
    assert FirstMatchAt(stored, login, k) by {
      forall j | 0 <= j < k ensures !MatchesIdentity(stored[j], login.username, login.email) {
        assert stored[j] == users[j];
        assert !MatchesIdentity(users[j], form.username, form.email);
      }
    }
    LoginSuccess(stored, login, verify, pair, k);
  }
}
