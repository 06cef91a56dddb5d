/** The login and signup page: two input forms held as field maps, the role
    switch, the signup payload, and the route chosen after a successful
    response. */
module LoginPage {
  import opened Common
  import opened Records
  import Accounts

  type Form = map<string, string>

  datatype Forms = Forms(signup: Form, login: Form)

  const Student: string := "student"
  const Instructor: string := "instructor"

  /** Both forms start empty; the signup role starts as student. */
  const Initial: Forms := Forms(
    map["name" := "", "email" := "", "password" := "", "role" := Student],
    map["email" := "", "password" := ""])

  /** A field of a form; a missing field reads as undefined. */
  function Get(f: Form, key: string): Option<string>
  {
    if key in f then Some(f[key]) else None
  }

  /** `changeInputHandler`: the input's name selects the field; `"signup"`
      selects the signup form and any other kind the login form. Only that
      field of that form changes; the other form is untouched. */
  function ChangeInput(fs: Forms, kind: string, name: string, value: string): (r: Forms)
    ensures kind == "signup" ==> r.login == fs.login
    ensures kind != "signup" ==> r.signup == fs.signup
    ensures var before := if kind == "signup" then fs.signup else fs.login;
      var after := if kind == "signup" then r.signup else r.login;
      && after.Keys == before.Keys + {name}
      && Get(after, name) == Some(value)
      && forall k :: k != name ==> Get(after, k) == Get(before, k)
  {
    if kind == "signup" then fs.(signup := fs.signup[name := value])
    else fs.(login := fs.login[name := value])
  }

  /** `toggleRole`: a student becomes an instructor, anything else a student. */
  function ToggleRole(fs: Forms): (r: Forms)
    ensures r.login == fs.login
    ensures Get(r.signup, "role") == Some(if Get(fs.signup, "role") == Some(Student) then Instructor else Student)
    ensures forall k :: k != "role" ==> Get(r.signup, k) == Get(fs.signup, k)
  {
    fs.(signup := fs.signup["role" := if Get(fs.signup, "role") == Some(Student) then Instructor else Student])
  }

  /** On the two roles the page offers, toggling twice restores the forms. */
  lemma ToggleRoleInvolution(fs: Forms)
    requires Get(fs.signup, "role") == Some(Student) || Get(fs.signup, "role") == Some(Instructor)
    ensures ToggleRole(ToggleRole(fs)) == fs
  {
    var once := ToggleRole(fs);
    assert once.signup["role" := fs.signup["role"]] == fs.signup;
  }

  /** The registration body: exactly name, email, password and role. */
  datatype SignupBody = SignupBody(name: Option<string>, email: Option<string>,
                                   password: Option<string>, role: Option<string>)

  function SignupPayload(fs: Forms): (b: SignupBody)
    ensures b.name == Get(fs.signup, "name") && b.email == Get(fs.signup, "email")
    ensures b.password == Get(fs.signup, "password") && b.role == Get(fs.signup, "role")
  {
    SignupBody(Get(fs.signup, "name"), Get(fs.signup, "email"), Get(fs.signup, "password"), Get(fs.signup, "role"))
  }

  /** Typing into any other field of either form leaves the signup body as it was. */
  lemma SignupPayloadIgnoresOtherFields(fs: Forms, kind: string, name: string, value: string)
    requires name !in {"name", "email", "password", "role"}
    ensures SignupPayload(ChangeInput(fs, kind, name, value)) == SignupPayload(fs)
  {
    var r := ChangeInput(fs, kind, name, value);
    assert Get(r.signup, "name") == Get(fs.signup, "name");
    assert Get(r.signup, "email") == Get(fs.signup, "email");
    assert Get(r.signup, "password") == Get(fs.signup, "password");
    assert Get(r.signup, "role") == Get(fs.signup, "role");
  }

  const DashboardRoute: string := "/admin/dashboard"
  const HomeRoute: string := "/"

  /** After signup or login: instructors go to the dashboard, everyone else home. */
  function PostAuthRoute(user: Option<Accounts.Profile>): (route: string)
    ensures route == DashboardRoute <==> user.Some? && user.value.role == Instructor
    ensures route == DashboardRoute || route == HomeRoute
  {
    if user.Some? && user.value.role == Instructor then DashboardRoute else HomeRoute
  }

  /** Signing up from the page with all four fields filled and a fresh address
      lands an instructor on the dashboard and a student at home, as the role
      switch showed when the form was sent. */
  lemma SignupRoute(s: Store, fs: Forms, hashed: string)
    requires var b := SignupPayload(fs);
      Truthy(b.name) && Truthy(b.email) && Truthy(b.password) && Truthy(b.role)
    requires forall u :: 0 <= u < |s.users| ==> s.users[u].email != fs.signup["email"]
    ensures var b := SignupPayload(fs);
      var reg := Accounts.Register(s, b.name, b.email, b.password, b.role, hashed);
      && reg.status == Created
      && (PostAuthRoute(reg.user) == DashboardRoute <==> fs.signup["role"] == Instructor)
  {
    var b := SignupPayload(fs);
    var reg := Accounts.Register(s, b.name, b.email, b.password, b.role, hashed);
    assert !(exists u :: 0 <= u < |s.users| && s.users[u].email == b.email.value);
    assert reg.store.users[|s.users|].role == b.role.value;
  }
}
