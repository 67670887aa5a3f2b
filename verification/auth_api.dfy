/** Registration and login (AuthController.php). Password hashing and
    verification belong to the framework's hasher and are parameters here:
    `hash` produces the stored value, `verify(stored, plain)` checks one.
 */
module AuthApi {
  import opened Outcome
  import opened Collections
  import opened Text
  import opened Entities
  import opened Roles

  /** The payload both endpoints answer with on success. */
  datatype Account = Account(id: Id, email: string, role: string)

  /** `findOneBy(['email' => ...])`: the lowest-numbered user with that email. */
  function FindByEmail(s: Store, email: string): (r: Option<Id>)
    requires Bounded(s)
    ensures r.Some? ==> r.value in s.users && s.users[r.value].email == email
    ensures r.None? <==> !EmailTaken(s, email)
  {
    var found := FirstKey(s.users, (u: User) => u.email == email, 0, s.nextId);
    if found.None? then
      assert forall u :: u in s.users ==> s.users[u].email != email by {
        forall u | u in s.users ensures s.users[u].email != email {
          assert 0 <= u < s.nextId;
        }
      }
      None
    else found
  }

  /** With unique emails the lookup finds the one user that has it. */
  lemma FindByEmailUnique(s: Store, u: Id)
    requires Bounded(s) && UniqueEmails(s) && u in s.users
    ensures FindByEmail(s, s.users[u].email) == Some(u)
  {
  }

  /** The accepted spellings of the requested role, after lower-casing. */
  predicate AllowedRole(role: string) {
    ToLower(role) == "tutor" || ToLower(role) == "student"
  }

  /** The stored role for an accepted request. */
  function StoredRole(role: string): (r: string)
    ensures r == RoleTutor <==> ToLower(role) == "tutor"
    ensures r == RoleTutor || r == RoleStudent
  {
    if ToLower(role) == "tutor" then RoleTutor else RoleStudent
  }

  /** `register`: all three fields must be non-empty; a used email is a
      conflict whatever the role; then the role must be tutor or student in
      any letter case. */
  function Register(s: Store, email: Option<string>, password: Option<string>, role: Option<string>, hash: string -> string): (out: Step<Account>)
    requires Bounded(s)
    ensures Falsy(email) || Falsy(password) || Falsy(role) ==> out == Step(Err(Invalid), s)
    ensures !Falsy(email) && !Falsy(password) && !Falsy(role) && EmailTaken(s, email.value) ==> out == Step(Err(Conflict), s)
    ensures !Falsy(email) && !Falsy(password) && !Falsy(role) && !EmailTaken(s, email.value) && !AllowedRole(role.value) ==>
      out == Step(Err(Invalid), s)
    ensures out.result.Ok? <==>
      !Falsy(email) && !Falsy(password) && !Falsy(role) && !EmailTaken(s, email.value) && AllowedRole(role.value)
    ensures out.result.Ok? ==>
      var a := out.result.value;
      && a.id == s.nextId && a.id !in s.users
      && a.email == email.value
      && a.role == StoredRole(role.value)
      && out.store == s.(users := s.users[a.id := User(email.value, [a.role], hash(password.value), {})], nextId := s.nextId + 1)
  {
    if Falsy(email) || Falsy(password) || Falsy(role) then Step(Err(Invalid), s)
    else if FindByEmail(s, email.value).Some? then Step(Err(Conflict), s)
    else if !AllowedRole(role.value) then Step(Err(Invalid), s)
    else
      var id := s.nextId;
      assert id !in s.users;
      var r := StoredRole(role.value);
      Step(Ok(Account(id, email.value, r)),
        s.(users := s.users[id := User(email.value, [r], hash(password.value), {})], nextId := s.nextId + 1))
  }

  /** `login`: both fields must be non-empty, the email must be known, and the
      password must check against the stored hash; the reported role is
      `getRoles()[0]`. Nothing is written. */
  function Login(s: Store, email: Option<string>, password: Option<string>, verify: (string, string) -> bool): (r: Result<Account>)
    requires Bounded(s)
    ensures Falsy(email) || Falsy(password) ==> r == Err(Invalid)
    ensures !Falsy(email) && !Falsy(password) && !EmailTaken(s, email.value) ==> r == Err(NotFound)
    ensures r.Ok? || r == Err(Invalid) || r == Err(NotFound) || r == Err(Unauthorized)
    ensures r == Err(Invalid) <==> Falsy(email) || Falsy(password)
    ensures r == Err(NotFound) <==> !Falsy(email) && !Falsy(password) && !EmailTaken(s, email.value)
    ensures r == Err(Unauthorized) <==>
      && !Falsy(email) && !Falsy(password) && EmailTaken(s, email.value)
      && !verify(s.users[FindByEmail(s, email.value).value].password, password.value)
    ensures r.Ok? <==>
      && !Falsy(email) && !Falsy(password) && EmailTaken(s, email.value)
      && verify(s.users[FindByEmail(s, email.value).value].password, password.value)
    ensures r.Ok? ==>
      && !Falsy(email) && !Falsy(password)
      && Some(r.value.id) == FindByEmail(s, email.value)
      && r.value.id in s.users
      && s.users[r.value.id].email == email.value == r.value.email
      && verify(s.users[r.value.id].password, password.value)
      && r.value.role == PrimaryRole(s.users[r.value.id].roles)
  {
    if Falsy(email) || Falsy(password) then Err(Invalid)
    else match FindByEmail(s, email.value)
      case None => Err(NotFound)
      case Some(u) =>
        if !verify(s.users[u].password, password.value) then Err(Unauthorized)
        else Ok(Account(u, s.users[u].email, PrimaryRole(s.users[u].roles)))
  }

  /** Registration keeps the invariant; in particular the new email is
      unused, so emails stay unique. */
  lemma RegisterPreservesWf(s: Store, email: Option<string>, password: Option<string>, role: Option<string>, hash: string -> string)
    requires Wf(s)
    ensures Wf(Register(s, email, password, role, hash).store)
  {
    var out := Register(s, email, password, role, hash);
    if out.result.Ok? {
      NewUserKeepsWf(s, User(email.value, [out.result.value.role], hash(password.value), {}));
    }
  }

  /** The role answered by `register` is the one later logins report. */
  lemma RegisterThenLogin(s: Store, email: Option<string>, password: Option<string>, role: Option<string>,
                          hash: string -> string, verify: (string, string) -> bool)
    requires Wf(s)
    requires Register(s, email, password, role, hash).result.Ok?
    requires verify(hash(password.value), password.value)
    ensures var out := Register(s, email, password, role, hash);
      Login(out.store, email, password, verify) == Ok(out.result.value)
  {
    var out := Register(s, email, password, role, hash);
    var a := out.result.value;
    RegisterPreservesWf(s, email, password, role, hash);
    FindByEmailUnique(out.store, a.id);
    SingleRoleReported(a.role);
  }

  /** The role's letter case does not matter. */
  lemma RegisterIgnoresRoleCase(s: Store, email: Option<string>, password: Option<string>, r1: string, r2: string, hash: string -> string)
    requires Bounded(s) && ToLower(r1) == ToLower(r2) && r1 != "" && r2 != "" && r1 != "0" && r2 != "0"
    ensures Register(s, email, password, Some(r1), hash) == Register(s, email, password, Some(r2), hash)
  {
  }
}
