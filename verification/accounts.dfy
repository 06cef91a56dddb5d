/** The account store: registration with required fields and unique e-mail
    addresses, login that accepts exactly a known address with a matching
    password, and profile updates. bcrypt is an oracle: registration receives
    the hash computed for the password, and login receives the comparison
    function. Issuing the session cookie is left to the caller. */
module Accounts {
  import opened Common
  import opened Text
  import opened Records

  const AllFieldsRequired: string := "All fields are required"
  const UserExists: string := "User already exists"
  const BadCredentials: string := "Incorrect email or password"
  const AccountCreated: string := "Account created successfully"

  /** `User.findOne({email})`: the first user, in natural order, with that address. */
  function FindByEmail(users: seq<User>, email: string): (r: Option<UserId>)
    ensures r.None? <==> forall u :: 0 <= u < |users| ==> users[u].email != email
    ensures r.Some? ==>
      && r.value < |users| && users[r.value].email == email
      && forall u :: 0 <= u < r.value ==> users[u].email != email
  {
    if |users| == 0 then None
    else if users[0].email == email then Some(0)
    else match FindByEmail(users[1..], email)
      case None => None
      case Some(u) => Some(u + 1)
  }

  /** No two accounts share an e-mail address. */
  predicate UniqueEmails(users: seq<User>)
  {
    forall a, b :: 0 <= a < b < |users| ==> users[a].email != users[b].email
  }

  /** The user summary the session response carries. */
  datatype Profile = Profile(id: UserId, name: string, email: string, role: string)

  function ProfileOf(users: seq<User>, id: UserId): Profile
    requires id < |users|
  {
    Profile(id, users[id].name, users[id].email, users[id].role)
  }

  datatype AuthReply = AuthReply(status: nat, message: string, store: Store, user: Option<Profile>)

  /** `register`: 400 when a field is missing or empty, 400 when the address is
      already registered (both without change); otherwise 201 and a new account
      storing the bcrypt hash, never the password itself, so that addresses stay
      unique. */
  function Register(s: Store, name: Option<string>, email: Option<string>, password: Option<string>,
                    role: Option<string>, hashed: string): (r: AuthReply)
    ensures r.status == Created || r.status == BadRequest
    ensures !(Truthy(name) && Truthy(email) && Truthy(password) && Truthy(role)) ==>
      r == AuthReply(BadRequest, AllFieldsRequired, s, None)
    ensures Truthy(name) && Truthy(email) && Truthy(password) && Truthy(role) ==>
      ((exists u :: 0 <= u < |s.users| && s.users[u].email == email.value) <==> r.status == BadRequest)
    ensures r.status == BadRequest ==> r.store == s && r.user == None
    ensures r.status == Created ==>
      && r.store == s.(users := s.users + [User(name.value, email.value, hashed, role.value, None, {})])
      && (forall u :: 0 <= u < |s.users| ==> s.users[u].email != email.value)
      && r.user == Some(ProfileOf(r.store.users, |s.users|))
      && r.message == AccountCreated
    ensures UniqueEmails(s.users) ==> UniqueEmails(r.store.users)
  {
    if !(Truthy(name) && Truthy(email) && Truthy(password) && Truthy(role)) then
      AuthReply(BadRequest, AllFieldsRequired, s, None)
    else if FindByEmail(s.users, email.value).Some? then
      AuthReply(BadRequest, UserExists, s, None)
    else
      var users := s.users + [User(name.value, email.value, hashed, role.value, None, {})];
      AuthReply(Created, AccountCreated, s.(users := users), Some(ProfileOf(users, |s.users|)))
  }

  datatype LoginReply = LoginReply(status: nat, message: string, user: Option<Profile>)

  /** `login`: 400 when a field is missing or empty; the same 400 message for an
      unknown address and for a wrong password; 201 with the user's profile
      exactly when the address is registered and `compare` accepts the password
      against the stored hash. Login changes no state. */
  function Login(s: Store, email: Option<string>, password: Option<string>,
                 compare: (string, string) -> bool): (r: LoginReply)
    ensures r.status == Created || r.status == BadRequest
    ensures !(Truthy(email) && Truthy(password)) ==> r == LoginReply(BadRequest, AllFieldsRequired, None)
    ensures Truthy(email) && Truthy(password) && r.status == BadRequest ==> r.message == BadCredentials
    ensures r.status == BadRequest <==> r.user.None?
    ensures r.status == Created <==>
      && Truthy(email) && Truthy(password)
      && exists u :: 0 <= u < |s.users| && s.users[u].email == email.value
           && compare(password.value, s.users[u].password)
           && (forall v :: 0 <= v < u ==> s.users[v].email != email.value)
    ensures r.status == Created ==>
      && r.user.value.id < |s.users|
      && r.user == Some(ProfileOf(s.users, r.user.value.id))
      && r.user.value.email == email.value
      && compare(password.value, s.users[r.user.value.id].password)
      && r.message == "Welcome back " + r.user.value.name
  {
    if !(Truthy(email) && Truthy(password)) then LoginReply(BadRequest, AllFieldsRequired, None)
    else match FindByEmail(s.users, email.value)
      case None => LoginReply(BadRequest, BadCredentials, None)
      case Some(u) =>
        if !compare(password.value, s.users[u].password) then LoginReply(BadRequest, BadCredentials, None)
        else LoginReply(Created, "Welcome back " + s.users[u].name, Some(ProfileOf(s.users, u)))
  }

  /** With unique addresses, login succeeds exactly for a registered address
      whose stored hash matches the password. */
  lemma LoginIffMatch(s: Store, email: string, password: string, compare: (string, string) -> bool)
    requires UniqueEmails(s.users)
    requires email != "" && password != ""
    ensures Login(s, Some(email), Some(password), compare).status == Created <==>
      exists u :: 0 <= u < |s.users| && s.users[u].email == email && compare(password, s.users[u].password)
  {
    if exists u :: 0 <= u < |s.users| && s.users[u].email == email && compare(password, s.users[u].password) {
      var u :| 0 <= u < |s.users| && s.users[u].email == email && compare(password, s.users[u].password);
      assert forall v :: 0 <= v < u ==> s.users[v].email != email;
    }
  }

  /** A fresh registration can log in at once with the same address and
      password, provided bcrypt's `compare` accepts the password against the
      hash `register` stored for it; the session names the new account. */
  lemma RegisterThenLogin(s: Store, name: string, email: string, password: string, role: string,
                          hashed: string, compare: (string, string) -> bool)
    requires name != "" && email != "" && password != "" && role != ""
    requires forall u :: 0 <= u < |s.users| ==> s.users[u].email != email
    requires compare(password, hashed)
    ensures var reg := Register(s, Some(name), Some(email), Some(password), Some(role), hashed);
      && reg.status == Created
      && var log := Login(reg.store, Some(email), Some(password), compare);
         && log.status == Created
         && log.user == reg.user
  {
    var reg := Register(s, Some(name), Some(email), Some(password), Some(role), hashed);
    var users := reg.store.users;
    assert users[|s.users|].email == email && users[|s.users|].password == hashed;
    assert forall v :: 0 <= v < |s.users| ==> users[v].email != email;
  }

  /** The public id of an old profile photo: the URL's last path segment up to
      its first dot, with no folder prefix. */
  function PhotoPublicId(url: string): (r: string)
    ensures '/' !in r && '.' !in r
    ensures |r| <= |url|
  {
    MediaName(url)
  }

  /** The derivation inverts a delivery URL `dir/name.ext`. */
  lemma PhotoPublicIdOfUrl(dir: string, name: string, ext: string)
    requires '/' !in name && '.' !in name && '/' !in ext
    ensures PhotoPublicId(dir + "/" + name + "." + ext) == name
  {
    MediaNameOfUrl(dir, name, ext);
  }

  datatype ProfileReply = ProfileReply(status: nat, store: Store, deleted: Option<string>)

  /** The file object the upload middleware attaches to the request. Memory
      storage, the only storage the middleware configures, fills the buffer and
      leaves `path` unset; disk storage would set `path` to a local file name. */
  datatype UploadedFile = UploadedFile(hasBuffer: bool, path: Option<string>)

  /** A file as memory storage delivers it. */
  const MemoryFile: UploadedFile := UploadedFile(true, None)

  /** `uploadMedia(arg, folder)`: a falsy argument is rejected before the media
      host is contacted; otherwise the host's reply decides (`None` when it
      fails, the delivery URL when it succeeds). */
  function UploadMedia(argTruthy: bool, hostReply: Option<string>): (r: Option<string>)
    ensures !argTruthy ==> r.None?
    ensures argTruthy ==> r == hostReply
  {
    if argTruthy then hostReply else None
  }

  /** `updateProfile` as the handler is written: 404 for an unknown caller.
      With a photo, the old photo is deleted first (when there is one) and then
      the file's `path` is passed to the upload; a falsy path or a failing host
      ends in 500 with the account unchanged. Otherwise the name is replaced
      only by a truthy value and the photo URL only by the upload's URL, and
      nothing but the caller's account changes. */
  function UpdateProfile(s: Store, caller: UserId, name: Option<string>, photo: Option<UploadedFile>,
                         hostReply: Option<string>): (r: ProfileReply)
    ensures r.status == NotFound <==> !s.HasUser(caller)
    ensures r.status == NotFound ==> r.store == s && r.deleted == None
    ensures r.status != NotFound ==>
      var prev := s.users[caller];
      && (r.deleted.Some? <==> photo.Some? && Truthy(prev.photoUrl))
      && (r.deleted.Some? ==> r.deleted.value == PhotoPublicId(prev.photoUrl.value))
    ensures r.status == ServerError <==>
      s.HasUser(caller) && photo.Some? && UploadMedia(Truthy(photo.value.path), hostReply).None?
    ensures r.status == ServerError ==> r.store == s
    ensures r.status == OK ==>
      var prev := s.users[caller];
      && |r.store.users| == |s.users|
      && r.store == s.(users := s.users[caller := r.store.users[caller]])
      && r.store.users[caller] == prev.(
           name := if Truthy(name) then name.value else prev.name,
           photoUrl := if photo.Some? then hostReply else prev.photoUrl)
    ensures r.status in {OK, NotFound, ServerError}
  {
    if !s.HasUser(caller) then ProfileReply(NotFound, s, None)
    else
      var prev := s.users[caller];
      var deleted := if photo.Some? && Truthy(prev.photoUrl) then Some(PhotoPublicId(prev.photoUrl.value)) else None;
      var uploaded := if photo.Some? then UploadMedia(Truthy(photo.value.path), hostReply) else None;
      if photo.Some? && uploaded.None? then ProfileReply(ServerError, s, deleted)
      else
        var u := prev.(
          name := if Truthy(name) then name.value else prev.name,
          photoUrl := if photo.Some? then uploaded else prev.photoUrl);
        ProfileReply(OK, s.(users := s.users[caller := u]), deleted)
  }

  /** `updateProfile` with the upload given the file's buffer, as the course
      handlers pass it: a photo the host accepts replaces the URL. */
  function UpdateProfileIntended(s: Store, caller: UserId, name: Option<string>, photo: Option<UploadedFile>,
                                 hostReply: Option<string>): (r: ProfileReply)
    ensures r.status == NotFound <==> !s.HasUser(caller)
    ensures r.status == NotFound ==> r.store == s && r.deleted == None
    ensures r.status == ServerError <==>
      s.HasUser(caller) && photo.Some? && UploadMedia(photo.value.hasBuffer, hostReply).None?
    ensures r.status == ServerError ==> r.store == s
    ensures r.status != NotFound ==>
      var prev := s.users[caller];
      && (r.deleted.Some? <==> photo.Some? && Truthy(prev.photoUrl))
      && (r.deleted.Some? ==> r.deleted.value == PhotoPublicId(prev.photoUrl.value))
    ensures r.status == OK ==>
      var prev := s.users[caller];
      && |r.store.users| == |s.users|
      && r.store == s.(users := s.users[caller := r.store.users[caller]])
      && r.store.users[caller] == prev.(
           name := if Truthy(name) then name.value else prev.name,
           photoUrl := if photo.Some? then hostReply else prev.photoUrl)
    ensures r.status in {OK, NotFound, ServerError}
  {
    if !s.HasUser(caller) then ProfileReply(NotFound, s, None)
    else
      var prev := s.users[caller];
      var deleted := if photo.Some? && Truthy(prev.photoUrl) then Some(PhotoPublicId(prev.photoUrl.value)) else None;
      var uploaded := if photo.Some? then UploadMedia(photo.value.hasBuffer, hostReply) else None;
      if photo.Some? && uploaded.None? then ProfileReply(ServerError, s, deleted)
      else
        var u := prev.(
          name := if Truthy(name) then name.value else prev.name,
          photoUrl := if photo.Some? then uploaded else prev.photoUrl);
        ProfileReply(OK, s.(users := s.users[caller := u]), deleted)
  }

  /** Under memory storage every profile update that carries a photo fails with
      500 after the old photo was deleted, and the stored URL stays as it was,
      whatever the host would answer; passing the buffer instead stores the
      host's URL. */
  lemma PhotoUploadFailsInMemory(s: Store, caller: UserId, name: Option<string>, url: string)
    requires s.HasUser(caller)
    ensures var r := UpdateProfile(s, caller, name, Some(MemoryFile), Some(url));
      && r.status == ServerError
      && r.store.users[caller].photoUrl == s.users[caller].photoUrl
      && (r.deleted.Some? <==> Truthy(s.users[caller].photoUrl))
    ensures var r := UpdateProfileIntended(s, caller, name, Some(MemoryFile), Some(url));
      r.status == OK && r.store.users[caller].photoUrl == Some(url)
  {
  }

  /** Without a photo the handler as written and the corrected one agree. */
  lemma NoPhotoSameReply(s: Store, caller: UserId, name: Option<string>, hostReply: Option<string>)
    ensures UpdateProfile(s, caller, name, None, hostReply) == UpdateProfileIntended(s, caller, name, None, hostReply)
  {
  }
}
