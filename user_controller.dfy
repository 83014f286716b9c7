/**
 * The decisions of the user controller: registration, login and the token
 * helper, each as a function from the request, the external collaborators'
 * answers and the store before the request, to the reply and the store after
 * it. The class in user_store.dfy performs the same steps on a mutable store
 * and is proved to agree with these functions.
 *
 * External collaborators are parameters:
 * - `upload` is the media host: it takes a local file path (None stands for
 *   `null`) and gives the hosted URL, or None when the upload failed;
 * - `hash` is what the persistence layer stores for a submitted password;
 * - `verify` is `user.isPasswordCorrect`, given the stored value and the
 *   submitted password;
 * - `tokens` is the pair the token signer produces, or None when signing or
 *   saving the record fails.
 */
module UserController {
  import opened Wrappers
  import opened JsText
  import opened UserModel
  import EmailPattern

  const AllFieldsRequired := "All fields are required"
  const InvalidEmail := "Invalid email"
  const UserExists := "User with this username or email already exists"
  const AvatarRequired := "Avatar file is required"
  const AvatarUploadFailed := "Failed to upload avatar on cloudinary"
  const RegisterReadBackFailed := "error while registering user"
  const RegisteredMessage := "User registered successfully. Now you can login"
  const IdentifierRequired := "username or email is required"
  const NotRegistered := "Username or email is not registered"
  const IncorrectPassword := "Incorrect password"
  const TokenFailure := "error while generating tokens"
  const LoggedInMessage := "User logged in successfully"

  /** The error raised when the record just inserted cannot be read back. */
  const ReadBackFailure := ApiError(500, RegisterReadBackFailed)

  // ---------------------------------------------------------------------------
  // Requests and replies

  /** The text fields of the registration form; an absent field is None. */
  datatype RegisterForm = RegisterForm(
    fullName: Option<string>,
    email: Option<string>,
    password: Option<string>,
    username: Option<string>)

  /** Local paths of the uploaded files, as the multipart parser stored them. */
  datatype RegisterFiles = RegisterFiles(avatar: Option<string>, coverImage: Option<string>)

  /** The 201 reply: the HTTP status, the envelope's status, the sanitised user and the message. */
  datatype Registered = Registered(httpStatus: nat, status: nat, data: UserView, message: string)

  /** The reply, the store afterwards, and the paths handed to the media host, in order. */
  datatype RegisterOutcome = RegisterOutcome(reply: Result<Registered>, users: seq<User>, uploaded: seq<Option<string>>)

  datatype LoginForm = LoginForm(username: Option<string>, email: Option<string>, password: Option<string>)

  datatype TokenPair = TokenPair(accessToken: string, refreshToken: string)

  datatype TokenOutcome = TokenOutcome(reply: Result<TokenPair>, users: seq<User>)

  datatype Cookie = Cookie(name: string, value: string)

  /** The login reply: HTTP status, envelope status, the sanitised user (or null), both tokens and the cookies set. */
  datatype LoggedIn = LoggedIn(
    httpStatus: nat,
    status: nat,
    user: Option<UserView>,
    accessToken: string,
    refreshToken: string,
    cookies: seq<Cookie>,
    message: string)

  datatype LoginOutcome = LoginOutcome(reply: Result<LoggedIn>, users: seq<User>)

  // ---------------------------------------------------------------------------
  // Validation

  /** `field?.trim() === ""`: false for an absent field. */
  predicate Blank(field: Option<string>) {
    field.Some? && Trim(field.value) == ""
  }

  /** `[fullName, email, password, username].some(field => field?.trim() === "")` */
  predicate AnyBlank(form: RegisterForm) {
    Blank(form.fullName) || Blank(form.email) || Blank(form.password) || Blank(form.username)
  }

  /** `coverImage?.url || ""` */
  function CoverUrl(coverImage: Option<string>): string {
    coverImage.GetOr("")
  }

  /** The record `User.create` receives and stores: username lower-cased, no refresh token yet. */
  function NewUser(users: seq<User>, fullName: string, email: string, username: string, password: string,
                   avatarUrl: string, coverImage: Option<string>, hash: string -> string): User
  {
    User(FreshId(users), fullName, email, ToLower(username), hash(password), avatarUrl, CoverUrl(coverImage), None)
  }

  // ---------------------------------------------------------------------------
  // Registration

  function Rejected(users: seq<User>, failure: Failure): RegisterOutcome {
    RegisterOutcome(Err(failure), users, [])
  }

  /**
   * The checks `registerUser` makes before it uploads anything, in their
   * order; the first that fails decides the error. An absent e-mail reaching
   * the pattern test is a fault.
   */
  function FirstRejection(users: seq<User>, form: RegisterForm, files: RegisterFiles): Option<Failure> {
    if AnyBlank(form) then Some(ApiError(400, AllFieldsRequired))
    else if form.email.None? then Some(Fault)
    else if !EmailPattern.IsValidEmail(form.email.value) then Some(ApiError(400, InvalidEmail))
    else if FirstMatch(users, form.username, form.email).Some? then Some(ApiError(409, UserExists))
    else if files.avatar.None? then Some(ApiError(400, AvatarRequired))
    else None
  }

  /**
   * What `registerUser` does once the checks have passed: upload both files,
   * fail if the avatar upload did, insert the record and read it back. An
   * absent username, full name or password reaching the insert is a fault.
   */
  function UploadAndInsert(users: seq<User>, form: RegisterForm, files: RegisterFiles,
                           upload: Option<string> -> Option<string>, hash: string -> string): RegisterOutcome
  {
    var uploaded := [files.avatar, files.coverImage];
    var avatar := upload(files.avatar);
    var coverImage := upload(files.coverImage);
    if avatar.None? then RegisterOutcome(Err(ApiError(400, AvatarUploadFailed)), users, uploaded)
    else if form.username.None? || form.fullName.None? || form.password.None? || form.email.None? then
      RegisterOutcome(Err(Fault), users, uploaded)
    else
      var user := NewUser(users, form.fullName.value, form.email.value, form.username.value,
                          form.password.value, avatar.value, coverImage, hash);
      var stored := users + [user];
      match ViewById(stored, user.id)
      case None => RegisterOutcome(Err(ReadBackFailure), stored, uploaded)
      case Some(created) => RegisterOutcome(Ok(Registered(201, 201, created, RegisteredMessage)), stored, uploaded)
  }

  /** `registerUser` */
  function Register(users: seq<User>, form: RegisterForm, files: RegisterFiles,
                    upload: Option<string> -> Option<string>, hash: string -> string): RegisterOutcome
  {
    match FirstRejection(users, form, files)
    case Some(failure) => Rejected(users, failure)
    case None => UploadAndInsert(users, form, files, upload, hash)
  }

  // ---------------------------------------------------------------------------
  // Tokens and login

  /**
   * `generateRefreshAndAccessTokens(userId)`: find the record, store the new
   * refresh token on it and return the pair; any failure is a 500.
   */
  function IssueTokens(users: seq<User>, userId: nat, tokens: Option<TokenPair>): TokenOutcome {
    match IndexOfId(users, userId)
    case None => TokenOutcome(Err(ApiError(500, TokenFailure)), users)
    case Some(k) =>
      match tokens
      case None => TokenOutcome(Err(ApiError(500, TokenFailure)), users)
      case Some(pair) =>
        TokenOutcome(Ok(pair), users[k := users[k].(refreshToken := Some(pair.refreshToken))])
  }

  /** The two cookies the login reply sets. */
  function TokenCookies(pair: TokenPair): seq<Cookie> {
    [Cookie("accessToken", pair.accessToken), Cookie("refreshToken", pair.refreshToken)]
  }

  /** `loginUser` */
  function Login(users: seq<User>, form: LoginForm, verify: (string, Option<string>) -> bool,
                 tokens: Option<TokenPair>): LoginOutcome
  {
    if !Truthy(form.username) || !Truthy(form.email) then
      LoginOutcome(Err(ApiError(400, IdentifierRequired)), users)
    else
      match FirstMatch(users, form.username, form.email)
      case None => LoginOutcome(Err(ApiError(404, NotRegistered)), users)
      case Some(k) =>
        if !verify(users[k].password, form.password) then
          LoginOutcome(Err(ApiError(401, IncorrectPassword)), users)
        else
          var issued := IssueTokens(users, users[k].id, tokens);
          match issued.reply
          case Err(failure) => LoginOutcome(Err(failure), issued.users)
          case Ok(pair) =>
            var reply := LoggedIn(200, 201, ViewById(issued.users, users[k].id), pair.accessToken,
                                  pair.refreshToken, TokenCookies(pair), LoggedInMessage);
            LoginOutcome(Ok(reply), issued.users)
  }
}
