/** What registration promises: the order of its checks, what each failure leaves behind, and what a success stores. */
module RegisterProperties {
  import opened Wrappers
  import opened JsText
  import opened UserModel
  import opened UserController
  import EmailPattern

  /** The blank check fires exactly for a present field made only of whitespace; an absent field passes it. */
  lemma BlankIff(field: Option<string>)
    ensures Blank(field) <==> field.Some? && AllWhitespace(field.value)
  {
    if field.Some? {
      TrimIsEmptyIff(field.value);
    }
  }

  /** The form passes the blank check and carries an e-mail that matches the pattern. */
  ghost predicate PassesEmailCheck(form: RegisterForm) {
    && !AnyBlank(form)
    && form.email.Some?
    && EmailPattern.MatchesPattern(form.email.value)
  }

  /** Some stored record has the submitted username, exactly as submitted, or the submitted e-mail. */
  ghost predicate Taken(users: seq<User>, form: RegisterForm) {
    exists i :: 0 <= i < |users| && MatchesIdentity(users[i], form.username, form.email)
  }

  /** 1. A blank field is reported first; nothing is stored and nothing uploaded. */
  lemma RegisterRejectsBlank(users: seq<User>, form: RegisterForm, files: RegisterFiles,
                             upload: Option<string> -> Option<string>, hash: string -> string)
    requires AnyBlank(form)
    ensures Register(users, form, files, upload, hash) == RegisterOutcome(Err(ApiError(400, AllFieldsRequired)), users, [])
  {
  }

  /** 2. Then the e-mail: a present e-mail the pattern rejects gives 400; an absent one is a fault. */
  lemma RegisterRejectsEmail(users: seq<User>, form: RegisterForm, files: RegisterFiles,
                             upload: Option<string> -> Option<string>, hash: string -> string)
    requires !AnyBlank(form)
    requires form.email.None? || !EmailPattern.MatchesPattern(form.email.value)
    ensures var o := Register(users, form, files, upload, hash);
      && o.users == users && o.uploaded == []
      && o.reply == Err(if form.email.None? then Fault else ApiError(400, InvalidEmail))
  {
    if form.email.Some? {
      EmailPattern.ValidEmailIffPattern(form.email.value);
    }
  }

  /** Past the e-mail check, only the conflict and the avatar file can still reject a registration. */
  lemma FirstRejectionPastEmail(users: seq<User>, form: RegisterForm, files: RegisterFiles)
    requires PassesEmailCheck(form)
    ensures FirstRejection(users, form, files)
         == if Taken(users, form) then Some(ApiError(409, UserExists))
            else if files.avatar.None? then Some(ApiError(400, AvatarRequired))
            else None
  {
    EmailPattern.ValidEmailIffPattern(form.email.value);
  }

  /** The upload and insert stage fails only with a failed upload, a fault or a failed read-back. */
  lemma UploadAndInsertNeverConflicts(users: seq<User>, form: RegisterForm, files: RegisterFiles,
                                      upload: Option<string> -> Option<string>, hash: string -> string)
    ensures var o := UploadAndInsert(users, form, files, upload, hash);
      o.reply.Err? ==> o.reply.failure in {Fault, ApiError(400, AvatarUploadFailed), ReadBackFailure}
  {
  }

  /**
   * 3. Then the conflict: a 409 comes exactly when the submitted username (not
   * lower-cased) or the submitted e-mail is already stored; nothing changes.
   */
  lemma RegisterConflict(users: seq<User>, form: RegisterForm, files: RegisterFiles,
                         upload: Option<string> -> Option<string>, hash: string -> string)
    requires PassesEmailCheck(form)
    ensures var o := Register(users, form, files, upload, hash);
      && (o.reply == Err(ApiError(409, UserExists)) <==> Taken(users, form))
      && (Taken(users, form) ==> o.users == users && o.uploaded == [])
  {
    FirstRejectionPastEmail(users, form, files);
    if !Taken(users, form) && files.avatar.Some? {
      UploadAndInsertNeverConflicts(users, form, files, upload, hash);
    }
  }

  /** 4. Then the avatar file: without one the reply is 400 and no upload is attempted. */
  lemma RegisterRejectsMissingAvatar(users: seq<User>, form: RegisterForm, files: RegisterFiles,
                                     upload: Option<string> -> Option<string>, hash: string -> string)
    requires PassesEmailCheck(form) && !Taken(users, form)
    requires files.avatar.None?
    ensures Register(users, form, files, upload, hash) == RegisterOutcome(Err(ApiError(400, AvatarRequired)), users, [])
  {
    FirstRejectionPastEmail(users, form, files);
  }

  /** 5. Then the upload: both files are handed over, avatar first; a failed avatar upload is a 400 and nothing is stored. */
  lemma RegisterRejectsFailedUpload(users: seq<User>, form: RegisterForm, files: RegisterFiles,
                                    upload: Option<string> -> Option<string>, hash: string -> string)
    requires PassesEmailCheck(form) && !Taken(users, form)
    requires files.avatar.Some? && upload(files.avatar).None?
    ensures Register(users, form, files, upload, hash)
         == RegisterOutcome(Err(ApiError(400, AvatarUploadFailed)), users, [files.avatar, files.coverImage])
  {
    FirstRejectionPastEmail(users, form, files);
  }

  /** All fields the insert needs are present. */
  predicate Complete(form: RegisterForm) {
    form.fullName.Some? && form.email.Some? && form.password.Some? && form.username.Some?
  }

  /** After appending a record with a fresh id, `findById` finds it at the end. */
  lemma NewRecordIsFound(users: seq<User>, user: User)
    requires UniqueIds(users) && user.id == FreshId(users)
    ensures UniqueIds(users + [user])
    ensures ViewById(users + [user], user.id) == Some(View(user))
  {
    var stored := users + [user];
    assert stored[|users|] == user;
    IndexOfOwnId(stored, |users|);
  }

  /** Once the checks pass, the outcome is decided by the avatar upload and the presence of the fields. */
  lemma UploadAndInsertOutcome(users: seq<User>, form: RegisterForm, files: RegisterFiles,
                               upload: Option<string> -> Option<string>, hash: string -> string)
    requires UniqueIds(users)
    ensures var o := UploadAndInsert(users, form, files, upload, hash);
      && o.uploaded == [files.avatar, files.coverImage]
      && (o.reply.Ok? <==> upload(files.avatar).Some? && Complete(form))
      && (o.reply.Err? ==> o.users == users && (o.reply.failure.Fault? || o.reply.failure == ApiError(400, AvatarUploadFailed)))
      && (o.reply.Ok? ==>
            var user := NewUser(users, form.fullName.value, form.email.value, form.username.value,
                                form.password.value, upload(files.avatar).value, upload(files.coverImage), hash);
            o.users == users + [user] && o.reply.value == Registered(201, 201, View(user), RegisteredMessage))
  {
    if upload(files.avatar).Some? && Complete(form) {
      var user := NewUser(users, form.fullName.value, form.email.value, form.username.value,
                          form.password.value, upload(files.avatar).value, upload(files.coverImage), hash);
      NewRecordIsFound(users, user);
    }
  }

  /**
   * A registration succeeds exactly when every check passes, the avatar
   * upload gives a URL and every field is present.
   */
  lemma RegisterSucceedsIff(users: seq<User>, form: RegisterForm, files: RegisterFiles,
                            upload: Option<string> -> Option<string>, hash: string -> string)
    requires UniqueIds(users)
    ensures Register(users, form, files, upload, hash).reply.Ok? <==>
      && PassesEmailCheck(form)
      && !Taken(users, form)
      && files.avatar.Some? && upload(files.avatar).Some?
      && Complete(form)
  {
    if form.email.Some? {
      EmailPattern.ValidEmailIffPattern(form.email.value);
    }
    UploadAndInsertOutcome(users, form, files, upload, hash);
  }

  /**
   * A success appends exactly one record: the submitted full name and e-mail,
   * the username lower-cased, the stored password value, the avatar URL, the
   * cover URL or "", no refresh token and a fresh id. The reply is 201 with
   * that record's sanitised view. Earlier records are untouched.
   */
  lemma RegisterSuccess(users: seq<User>, form: RegisterForm, files: RegisterFiles,
                        upload: Option<string> -> Option<string>, hash: string -> string)
    requires UniqueIds(users)
    requires Register(users, form, files, upload, hash).reply.Ok?
    ensures var o := Register(users, form, files, upload, hash);
      && |o.users| == |users| + 1
      && o.users[..|users|] == users
      && var u := o.users[|users|];
      && form.fullName == Some(u.fullName)
      && form.email == Some(u.email)
      && form.username.Some? && u.username == ToLower(form.username.value)
      && form.password.Some? && u.password == hash(form.password.value)
      && upload(files.avatar) == Some(u.avatar)
      && u.coverImage == (if upload(files.coverImage).Some? then upload(files.coverImage).value else "")
      && u.refreshToken == None
      && (forall j :: 0 <= j < |users| ==> users[j].id != u.id)
      && o.reply == Ok(Registered(201, 201, View(u), RegisteredMessage))
      && o.uploaded == [files.avatar, files.coverImage]
      && IsLowerCase(u.username)
      && EmailPattern.MatchesPattern(u.email)
  {
    assert FirstRejection(users, form, files).None?;
    UploadAndInsertOutcome(users, form, files, upload, hash);
    var user := NewUser(users, form.fullName.value, form.email.value, form.username.value,
                        form.password.value, upload(files.avatar).value, upload(files.coverImage), hash);
    ToLowerProperties(form.username.value);
    EmailPattern.ValidEmailIffPattern(form.email.value);
    assert (users + [user])[..|users|] == users;
    assert (users + [user])[|users|] == user;
  }

  /**
   * Every failure leaves the store as it was; the read-back after the insert
   * never fails, and the only statuses are 400, 409 and faults.
   */
  lemma RegisterFailureLeavesStore(users: seq<User>, form: RegisterForm, files: RegisterFiles,
                                   upload: Option<string> -> Option<string>, hash: string -> string)
    requires UniqueIds(users)
    requires Register(users, form, files, upload, hash).reply.Err?
    ensures var o := Register(users, form, files, upload, hash);
      && o.users == users
      && (o.reply.failure.Fault? || o.reply.failure.status in {400, 409})
  {
    match FirstRejection(users, form, files)
    case Some(_) =>
    case None => UploadAndInsertOutcome(users, form, files, upload, hash);
  }

  /** Registration keeps object ids unique. */
  lemma RegisterPreservesUniqueIds(users: seq<User>, form: RegisterForm, files: RegisterFiles,
                                   upload: Option<string> -> Option<string>, hash: string -> string)
    requires UniqueIds(users)
    ensures UniqueIds(Register(users, form, files, upload, hash).users)
  {
    if FirstRejection(users, form, files).None? {
      UploadAndInsertOutcome(users, form, files, upload, hash);
      if upload(files.avatar).Some? && Complete(form) {
        var user := NewUser(users, form.fullName.value, form.email.value, form.username.value,
                            form.password.value, upload(files.avatar).value, upload(files.coverImage), hash);
        NewRecordIsFound(users, user);
      }
    }
  }

  /** E-mails are compared exactly as stored, so registration keeps them unique. */
  lemma RegisterPreservesUniqueEmails(users: seq<User>, form: RegisterForm, files: RegisterFiles,
                                      upload: Option<string> -> Option<string>, hash: string -> string)
    requires UniqueIds(users) && UniqueEmails(users)
    ensures UniqueEmails(Register(users, form, files, upload, hash).users)
  {
    var o := Register(users, form, files, upload, hash);
    if o.reply.Ok? {
      RegisterSuccess(users, form, files, upload, hash);
      assert FirstMatch(users, form.username, form.email).None?;
      forall i, j | 0 <= i < j < |o.users| ensures o.users[i].email != o.users[j].email {
        assert o.users[i] == users[i];
        if j == |users| {
          assert !MatchesIdentity(users[i], form.username, form.email);
        } else {
          assert o.users[j] == users[j];
        }
      }
    } else {
      RegisterFailureLeavesStore(users, form, files, upload, hash);
    }
  }

  /**
   * The conflict check compares the username as submitted, so when it is
   * already lower-case, registration keeps usernames unique.
   */
  lemma RegisterPreservesUniqueUsernames(users: seq<User>, form: RegisterForm, files: RegisterFiles,
                                         upload: Option<string> -> Option<string>, hash: string -> string)
    requires UniqueIds(users) && UniqueUsernames(users)
    requires form.username.Some? ==> IsLowerCase(form.username.value)
    ensures UniqueUsernames(Register(users, form, files, upload, hash).users)
  {
    var o := Register(users, form, files, upload, hash);
    if o.reply.Ok? {
      RegisterSuccess(users, form, files, upload, hash);
      assert FirstMatch(users, form.username, form.email).None?;
      ToLowerProperties(form.username.value);
      forall i, j | 0 <= i < j < |o.users| ensures o.users[i].username != o.users[j].username {
        assert o.users[i] == users[i];
        if j == |users| {
          assert !MatchesIdentity(users[i], form.username, form.email);
        } else {
          assert o.users[j] == users[j];
        }
      }
    } else {
      RegisterFailureLeavesStore(users, form, files, upload, hash);
    }
  }

  /** A sample registration form. */
  function SampleForm(username: string, email: string): RegisterForm {
    RegisterForm(Some("Alice A"), Some(email), Some("secret1"), Some(username))
  }

  /** A field whose first character is not whitespace is not blank. */
  lemma NotBlank(field: string)
    requires field != [] && !IsJsWhitespace(field[0])
    ensures !Blank(Some(field))
  {
    BlankIff(Some(field));
  }

  /** The sample form with a non-blank username and e-mail passes the blank check. */
  lemma SampleFormPassesBlankCheck(username: string, email: string)
    requires username != [] && !IsJsWhitespace(username[0])
    requires email != [] && !IsJsWhitespace(email[0])
    ensures !AnyBlank(SampleForm(username, email))
  {
    NotBlank("Alice A");
    NotBlank("secret1");
    NotBlank(username);
    NotBlank(email);
  }

  /**
   * Registering alice into an empty store gives 201 with username "alice" and
   * the hosted avatar URL; the reply has no password field by construction.
   */
  lemma RegisterAliceExample(form: RegisterForm, files: RegisterFiles,
                             upload: Option<string> -> Option<string>, hash: string -> string)
    requires form == SampleForm("alice", "alice@example.com")
    requires files == RegisterFiles(Some("avatar.png"), None)
    requires upload(files.avatar) == Some("https://media.example/avatar.png")
    ensures var o := Register([], form, files, upload, hash);
      && o.reply.Ok?
      && o.reply.value.httpStatus == 201
      && o.reply.value.data.username == "alice"
      && o.reply.value.data.avatar == "https://media.example/avatar.png"
      && |o.users| == 1
  {
    AliceRegistrationSucceeds(form, files, upload, hash);
    RegisterSuccess([], form, files, upload, hash);
    AliceIsLowerCase();
  }

  lemma AliceRegistrationSucceeds(form: RegisterForm, files: RegisterFiles,
                                  upload: Option<string> -> Option<string>, hash: string -> string)
    requires form == SampleForm("alice", "alice@example.com")
    requires files == RegisterFiles(Some("avatar.png"), None)
    requires upload(files.avatar).Some?
    ensures Register([], form, files, upload, hash).reply.Ok?
  {
    AliceFormPassesEmailCheck(form);
    assert !Taken([], form);
    RegisterSucceedsIff([], form, files, upload, hash);
  }

  lemma AliceFormPassesEmailCheck(form: RegisterForm)
    requires form == SampleForm("alice", "alice@example.com")
    ensures PassesEmailCheck(form)
  {
    SampleFormPassesBlankCheck("alice", "alice@example.com");
    EmailPattern.ExampleAddressMatches(form.email.value);
    EmailPattern.ValidEmailIffPattern(form.email.value);
  }

  lemma AliceIsLowerCase()
    ensures ToLower("alice") == "alice" && ToLower("Alice") == "alice"
  {
    ToLowerProperties("alice");
    assert IsLowerCase("alice") by {
      forall i | 0 <= i < 5 ensures !('A' <= "alice"[i] <= 'Z') {
        assert 'a' <= "alice"[i] <= 'z';
      }
    }
    assert ToLower("Alice")[0] == 'a';
    assert ToLower("Alice")[1..] == ToLower("alice")[1..];
    assert ToLower("Alice") == [ToLower("Alice")[0]] + ToLower("Alice")[1..];
  }

  /**
   * With "alice" stored, "Alice" with a new e-mail passes the conflict check
   * and is stored lower-cased: two records then share the username "alice".
   */
  lemma MixedCaseUsernameIsStoredTwice(form1: RegisterForm, form2: RegisterForm, files: RegisterFiles,
                                       upload: Option<string> -> Option<string>, hash: string -> string)
    requires form1 == SampleForm("alice", "alice@example.com")
    requires form2 == SampleForm("Alice", "alice2@example.com")
    requires files == RegisterFiles(Some("avatar.png"), None)
    requires upload(files.avatar) == Some("https://media.example/avatar.png")
    ensures var first := Register([], form1, files, upload, hash);
      var second := Register(first.users, form2, files, upload, hash);
      && second.reply.Ok?
      && |second.users| == 2
      && second.users[0].username == second.users[1].username == "alice"
  {
    var first := Register([], form1, files, upload, hash);
    AliceIsStored(form1, files, upload, hash);
    SecondAliceRegistrationSucceeds(first.users, form2, files, upload, hash);
    RegisterSuccess(first.users, form2, files, upload, hash);
    AliceIsLowerCase();
  }

  lemma AliceIsStored(form: RegisterForm, files: RegisterFiles,
                      upload: Option<string> -> Option<string>, hash: string -> string)
    requires form == SampleForm("alice", "alice@example.com")
    requires files == RegisterFiles(Some("avatar.png"), None)
    requires upload(files.avatar) == Some("https://media.example/avatar.png")
    ensures var users := Register([], form, files, upload, hash).users;
      |users| == 1 && users[0].username == "alice" && users[0].email == "alice@example.com" && UniqueIds(users)
  {
    AliceRegistrationSucceeds(form, files, upload, hash);
    RegisterSuccess([], form, files, upload, hash);
    RegisterPreservesUniqueIds([], form, files, upload, hash);
    AliceIsLowerCase();
  }

  lemma SecondAliceRegistrationSucceeds(users: seq<User>, form: RegisterForm, files: RegisterFiles,
                                        upload: Option<string> -> Option<string>, hash: string -> string)
    requires |users| == 1 && users[0].username == "alice" && users[0].email == "alice@example.com" && UniqueIds(users)
    requires form == SampleForm("Alice", "alice2@example.com")
    requires files == RegisterFiles(Some("avatar.png"), None)
    requires upload(files.avatar).Some?
    ensures Register(users, form, files, upload, hash).reply.Ok?
  {
    assert "Alice" != "alice" by { assert "Alice"[0] != "alice"[0]; }
    assert "alice2@example.com" != "alice@example.com" by { assert "alice2@example.com"[5] != "alice@example.com"[5]; }
    assert !Taken(users, form);
    SecondFormPassesEmailCheck(form);
    RegisterSucceedsIff(users, form, files, upload, hash);
  }

  lemma SecondFormPassesEmailCheck(form: RegisterForm)
    requires form == SampleForm("Alice", "alice2@example.com")
    ensures PassesEmailCheck(form)
  {
    SampleFormPassesBlankCheck("Alice", "alice2@example.com");
    EmailPattern.SecondAddressMatches(form.email.value);
    EmailPattern.ValidEmailIffPattern(form.email.value);
  }
}
