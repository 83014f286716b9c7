/**
 * The user records the controller reads and writes, and the two store
 * queries it issues: `User.findOne({ $or: [{ username }, { email }] })` and
 * `User.findById(id)`. The persistence layer is a sequence of records in
 * insertion order; ids stand for the store's object ids.
 */
module UserModel {
  import opened Wrappers

  /** A stored user. `password` holds what the persistence layer stored (the hash). */
  datatype User = User(
    id: nat,
    fullName: string,
    email: string,
    username: string,
    password: string,
    avatar: string,
    coverImage: string,
    refreshToken: Option<string>)

  /** A user as `.select("-password -refreshToken")` returns it: the two secret fields are not there. */
  datatype UserView = UserView(
    id: nat,
    fullName: string,
    email: string,
    username: string,
    avatar: string,
    coverImage: string)

  function View(u: User): UserView {
    UserView(u.id, u.fullName, u.email, u.username, u.avatar, u.coverImage)
  }

  /** An error the controller raises (`ApiError(status, message)`), or any other fault the handler wrapper receives. */
  datatype Failure = ApiError(status: nat, message: string) | Fault

  datatype Result<T> = Ok(value: T) | Err(failure: Failure)

  /**
   * The filter `{ $or: [{ username }, { email }] }`: the record's username or
   * its e-mail equals the given one. An absent value matches no record.
   */
  predicate MatchesIdentity(u: User, username: Option<string>, email: Option<string>) {
    username == Some(u.username) || email == Some(u.email)
  }

  /** `findOne` with that filter: the first matching record in store order. */
  function FirstMatch(users: seq<User>, username: Option<string>, email: Option<string>): (r: Option<nat>)
    ensures r.Some? ==> r.value < |users| && MatchesIdentity(users[r.value], username, email)
    ensures r.Some? ==> forall j :: 0 <= j < r.value ==> !MatchesIdentity(users[j], username, email)
    ensures r.None? <==> forall j :: 0 <= j < |users| ==> !MatchesIdentity(users[j], username, email)
  {
    if users == [] then None
    else if MatchesIdentity(users[0], username, email) then Some(0)
    else
      match FirstMatch(users[1..], username, email)
      case None => None
      case Some(k) => Some(k + 1)
  }

  /** `findById`: the position of the first record with that id. */
  function IndexOfId(users: seq<User>, id: nat): (r: Option<nat>)
    ensures r.Some? ==> r.value < |users| && users[r.value].id == id
    ensures r.Some? ==> forall j :: 0 <= j < r.value ==> users[j].id != id
    ensures r.None? <==> forall j :: 0 <= j < |users| ==> users[j].id != id
  {
    if users == [] then None
    else if users[0].id == id then Some(0)
    else
      match IndexOfId(users[1..], id)
      case None => None
      case Some(k) => Some(k + 1)
  }

  /** `findById(id).select("-password -refreshToken")`: the sanitised record, or null. */
  function ViewById(users: seq<User>, id: nat): (r: Option<UserView>)
    ensures r.None? <==> forall j :: 0 <= j < |users| ==> users[j].id != id
    ensures r.Some? ==> exists k :: 0 <= k < |users| && users[k].id == id && r.value == View(users[k])
    ensures r.Some? ==> r.value.id == id
  {
    match IndexOfId(users, id)
    case None => None
    case Some(k) => Some(View(users[k]))
  }

  /** An id that no stored record carries, as the store gives a new record. */
  function FreshId(users: seq<User>): (id: nat)
    ensures forall j :: 0 <= j < |users| ==> users[j].id < id
  {
    if users == [] then 0
    else
      var rest := FreshId(users[1..]);
      assert forall j :: 1 <= j < |users| ==> users[j].id == users[1..][j - 1].id;
      if users[0].id < rest then rest else users[0].id + 1
  }

  /** Object ids identify records. */
  ghost predicate UniqueIds(users: seq<User>) {
    forall i, j :: 0 <= i < j < |users| ==> users[i].id != users[j].id
  }

  ghost predicate UniqueEmails(users: seq<User>) {
    forall i, j :: 0 <= i < j < |users| ==> users[i].email != users[j].email
  }

  ghost predicate UniqueUsernames(users: seq<User>) {
    forall i, j :: 0 <= i < j < |users| ==> users[i].username != users[j].username
  }

  /** With unique ids, `findById` finds the record at its own position. */
  lemma IndexOfOwnId(users: seq<User>, k: nat)
    requires UniqueIds(users) && k < |users|
    ensures IndexOfId(users, users[k].id) == Some(k)
  {
  }
}
