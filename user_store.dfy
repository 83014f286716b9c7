/**
 * The controller's handlers as they run against a mutable store: each one is
 * a sequence of early exits, and only the final step of a successful request
 * writes to the store. Every method is proved to agree with the function of
 * the same name in UserController, so the properties proved about those
 * functions are properties of these methods.
 */
module UserStoreModule {
  import opened Wrappers
  import opened JsText
  import opened UserModel
  import opened UserController
  import RegisterProperties
  import LoginProperties
  import EmailPattern

  class UserStore {
    /** The user collection, in insertion order. */
    var users: seq<User>

    /** Ids and e-mails are unique across the stored records. */
    ghost predicate Valid()
      reads this
    {
      UniqueIds(users) && UniqueEmails(users)
    }

    constructor ()
      ensures Valid() && users == []
    {
      users := [];
    }

    /** `registerUser` */
    method RegisterUser(form: RegisterForm, files: RegisterFiles,
                        upload: Option<string> -> Option<string>, hash: string -> string)
      returns (reply: Result<Registered>, uploaded: seq<Option<string>>)
      requires Valid()
      modifies this
      ensures Valid()
      ensures RegisterOutcome(reply, users, uploaded) == Register(old(users), form, files, upload, hash)
      ensures reply.Err? ==> users == old(users)
      ensures reply.Ok? ==> |users| == |old(users)| + 1 && users[..|old(users)|] == old(users)
    {
      ghost var before := users;
      RegisterProperties.RegisterPreservesUniqueIds(before, form, files, upload, hash);
      RegisterProperties.RegisterPreservesUniqueEmails(before, form, files, upload, hash);
      RegisterProperties.UploadAndInsertOutcome(before, form, files, upload, hash);
      uploaded := [];
      if AnyBlank(form) {
        reply := Err(ApiError(400, AllFieldsRequired));
        return;
      }
      if form.email.None? {
        reply := Err(Fault);
        return;
      }
      var email := form.email.value;
      if !EmailPattern.IsValidEmail(email) {
        reply := Err(ApiError(400, InvalidEmail));
        return;
      }
      var existingUser := FirstMatch(users, form.username, form.email);
      if existingUser.Some? {
        reply := Err(ApiError(409, UserExists));
        return;
      }
      if files.avatar.None? {
        reply := Err(ApiError(400, AvatarRequired));
        return;
      }
      var avatar := upload(files.avatar);
      var coverImage := upload(files.coverImage);
      uploaded := [files.avatar, files.coverImage];
      if avatar.None? {
        reply := Err(ApiError(400, AvatarUploadFailed));
        return;
      }
      if form.username.None? || form.fullName.None? || form.password.None? {
        reply := Err(Fault);
        return;
      }
      var user := NewUser(users, form.fullName.value, email, form.username.value,
                          form.password.value, avatar.value, coverImage, hash);
      users := users + [user];
      var createdUser := ViewById(users, user.id);
      if createdUser.None? {
        reply := Err(ReadBackFailure);
        return;
      }
      reply := Ok(Registered(201, 201, createdUser.value, RegisteredMessage));
      assert users[..|before|] == before;
    }

    /** `generateRefreshAndAccessTokens(userId)` */
    method GenerateRefreshAndAccessTokens(userId: nat, tokens: Option<TokenPair>) returns (reply: Result<TokenPair>)
      requires Valid()
      modifies this
      ensures Valid()
      ensures TokenOutcome(reply, users) == IssueTokens(old(users), userId, tokens)
    {
      var found := IndexOfId(users, userId);
      if found.None? || tokens.None? {
        reply := Err(ApiError(500, TokenFailure));
        return;
      }
      var k := found.value;
      LoginProperties.WithRefreshTokenKeepsIdentity(users, k, tokens.value.refreshToken);
      users := users[k := users[k].(refreshToken := Some(tokens.value.refreshToken))];
      reply := Ok(tokens.value);
    }

    /** `loginUser` */
    method LoginUser(form: LoginForm, verify: (string, Option<string>) -> bool, tokens: Option<TokenPair>)
      returns (reply: Result<LoggedIn>)
      requires Valid()
      modifies this
      ensures Valid()
      ensures LoginOutcome(reply, users) == Login(old(users), form, verify, tokens)
      ensures reply.Err? ==> users == old(users)
      ensures reply.Ok? ==> |users| == |old(users)|
    {
      if !Truthy(form.username) || !Truthy(form.email) {
        reply := Err(ApiError(400, IdentifierRequired));
        return;
      }
      var found := FirstMatch(users, form.username, form.email);
      if found.None? {
        reply := Err(ApiError(404, NotRegistered));
        return;
      }
      var user := users[found.value];
      if !verify(user.password, form.password) {
        reply := Err(ApiError(401, IncorrectPassword));
        return;
      }
      var issued := GenerateRefreshAndAccessTokens(user.id, tokens);
      if issued.Err? {
        reply := Err(issued.failure);
        return;
      }
      var pair := issued.value;
      var loggedInUser := ViewById(users, user.id);
      reply := Ok(LoggedIn(200, 201, loggedInUser, pair.accessToken, pair.refreshToken,
                           TokenCookies(pair), LoggedInMessage));
    }
  }

  /**
   * Two requests in a row, as a client of the class: a registration, then,
   * if it succeeded, a login with the same username (in any case), e-mail
   * and password. The login then succeeds and sets the new
   * record's refresh token. `loggedIn` is None when no login was attempted.
   */
  method RegisterThenLoginSession(store: UserStore, form: RegisterForm, files: RegisterFiles,
                                  upload: Option<string> -> Option<string>, hash: string -> string,
                                  verify: (string, Option<string>) -> bool, pair: TokenPair)
    returns (registered: Result<Registered>, loggedIn: Option<Result<LoggedIn>>)
    requires store.Valid()
    requires form.password.Some? && verify(hash(form.password.value), form.password)
    modifies store
    ensures store.Valid()
    ensures registered.Err? ==> loggedIn.None? && store.users == old(store.users)
    ensures registered.Ok? ==> loggedIn.Some? && loggedIn.value.Ok? && |store.users| == |old(store.users)| + 1
    ensures registered.Ok? ==> store.users[|old(store.users)|].refreshToken == Some(pair.refreshToken)
  {
    ghost var before := store.users;
    var uploaded;
    registered, uploaded := store.RegisterUser(form, files, upload, hash);
    if registered.Err? {
      loggedIn := None;
      return;
    }
    LoginProperties.RegisterThenLogin(before, form, files, upload, hash, verify, pair);
    var reply := store.LoginUser(LoginForm(form.username, form.email, form.password), verify, Some(pair));
    loggedIn := Some(reply);
  }
}
