/** The administration endpoints (AdminUserController.php): user and subject
    add, edit and delete, and the user listing.

    The controller itself checks nothing beyond existence; what the database
    refuses at flush time is modelled as `ServerError` with the store left as
    it was: a second user with the same email (the unique constraint on
    `user.email`), and deleting a user or subject that a row still references
    (foreign keys without an ON DELETE rule). Deleting a user removes its
    group memberships, which the join table declares ON DELETE CASCADE.
 */
module AdminApi {
  import opened Outcome
  import opened Entities
  import opened Roles
  import opened AuthApi

  /** One entry of `getUsers`. */
  datatype UserRow = UserRow(email: string, role: string)

  /** `getUsers`: every user with `getRoles()[0]` as its role. */
  function GetUsers(s: Store): (r: map<Id, UserRow>)
    ensures r.Keys == s.users.Keys
    ensures forall u :: u in r ==> r[u].email == s.users[u].email
    ensures forall u :: u in r ==> (r[u].role == RoleUser <==> s.users[u].roles == [] || s.users[u].roles[0] == RoleUser)
    ensures forall u :: u in r && s.users[u].roles != [] ==> r[u].role == s.users[u].roles[0]
  {
    map u | u in s.users :: UserRow(s.users[u].email, PrimaryRole(s.users[u].roles))
  }

  /** `addUser`: the three fields must be set (an empty string passes
      `isset`); an existing email is rejected with the same status as the
      missing fields; the role is stored as given. */
  function AddUser(s: Store, email: Option<string>, password: Option<string>, role: Option<string>, hash: string -> string): (out: Step<Id>)
    requires Bounded(s)
    ensures email.None? || password.None? || role.None? ==> out == Step(Err(Invalid), s)
    ensures email.Some? && password.Some? && role.Some? && EmailTaken(s, email.value) ==> out == Step(Err(Invalid), s)
    ensures out.result.Ok? <==> email.Some? && password.Some? && role.Some? && !EmailTaken(s, email.value)
    ensures out.result.Ok? ==>
      var u := out.result.value;
      && u == s.nextId && u !in s.users
      && out.store == s.(users := s.users[u := User(email.value, [role.value], hash(password.value), {})], nextId := s.nextId + 1)
  {
    if email.None? || password.None? || role.None? then Step(Err(Invalid), s)
    else if FindByEmail(s, email.value).Some? then Step(Err(Invalid), s)
    else
      var u := s.nextId;
      assert u !in s.users;
      Step(Ok(u), s.(users := s.users[u := User(email.value, [role.value], hash(password.value), {})], nextId := s.nextId + 1))
  }

  /** Another user already has this email. */
  predicate EmailTakenByOther(s: Store, id: Id, email: string) {
    exists v :: v in s.users && v != id && s.users[v].email == email
  }

  /** `editUser`: only the fields present change; a role replaces the whole
      role list. The controller does not look for a duplicate email; the
      unique constraint makes the flush fail. */
  function EditUser(s: Store, id: Id, email: Option<string>, role: Option<string>, password: Option<string>, hash: string -> string): (out: Step<()>)
    ensures id !in s.users ==> out == Step(Err(NotFound), s)
    ensures id in s.users && email.Some? && EmailTakenByOther(s, id, email.value) ==> out == Step(Err(ServerError), s)
    ensures out.result.Ok? <==> id in s.users && !(email.Some? && EmailTakenByOther(s, id, email.value))
    ensures out.result.Ok? ==> id in out.store.users
    ensures out.result.Ok? ==>
      var u := s.users[id];
      var u' := out.store.users[id];
      && out.store == s.(users := s.users[id := u'])
      && u'.email == (if email.Some? then email.value else u.email)
      && u'.roles == (if role.Some? then [role.value] else u.roles)
      && u'.password == (if password.Some? then hash(password.value) else u.password)
      && u'.groups == u.groups
  {
    if id !in s.users then Step(Err(NotFound), s)
    else if email.Some? && EmailTakenByOther(s, id, email.value) then Step(Err(ServerError), s)
    else
      var u := s.users[id];
      var u1 := if email.Some? then u.(email := email.value) else u;
      var u2 := if role.Some? then u1.(roles := [role.value]) else u1;
      var u3 := if password.Some? then u2.(password := hash(password.value)) else u2;
      Step(Ok(()), s.(users := s.users[id := u3]))
  }

  /** Some test names the user as tutor or some attempt as student. */
  predicate UserReferenced(s: Store, id: Id) {
    || (exists t :: t in s.tests && s.tests[t].tutor == id)
    || (exists a :: a in s.studentTests && s.studentTests[a].student == id)
  }

  /** The groups with `id` taken out of every member set. */
  function WithoutMember(groups: map<Id, StudentGroup>, id: Id): (r: map<Id, StudentGroup>)
    ensures r.Keys == groups.Keys
    ensures forall g :: g in r ==> r[g] == groups[g].(students := groups[g].students - {id})
  {
    map g | g in groups :: groups[g].(students := groups[g].students - {id})
  }

  /** `deleteUser`: removes exactly that user and its memberships, unless a
      test or an attempt still refers to it. */
  function DeleteUser(s: Store, id: Id): (out: Step<()>)
    ensures id !in s.users ==> out == Step(Err(NotFound), s)
    ensures id in s.users && UserReferenced(s, id) ==> out == Step(Err(ServerError), s)
    ensures out.result.Ok? <==> id in s.users && !UserReferenced(s, id)
    ensures out.result.Ok? ==>
      && out.store.users == s.users - {id}
      && out.store.groups.Keys == s.groups.Keys
      && (forall g :: g in s.groups ==> out.store.groups[g].students == s.groups[g].students - {id})
      && out.store.tests == s.tests && out.store.questions == s.questions && out.store.studentTests == s.studentTests
      && out.store.subjects == s.subjects && out.store.courses == s.courses && out.store.nextId == s.nextId
  {
    if id !in s.users then Step(Err(NotFound), s)
    else if UserReferenced(s, id) then Step(Err(ServerError), s)
    else Step(Ok(()), WithoutUser(s, id))
  }

  /** `addSubject`: both fields must be set. The result is the new id. */
  function AddSubject(s: Store, name: Option<string>, imageUrl: Option<string>): (out: Step<Id>)
    requires Bounded(s)
    ensures name.None? || imageUrl.None? ==> out == Step(Err(Invalid), s)
    ensures out.result.Ok? <==> name.Some? && imageUrl.Some?
    ensures out.result.Ok? ==>
      && out.result.value == s.nextId && s.nextId !in s.subjects
      && out.store == s.(subjects := s.subjects[s.nextId := Subject(name.value, imageUrl.value)], nextId := s.nextId + 1)
  {
    if name.None? || imageUrl.None? then Step(Err(Invalid), s)
    else
      assert s.nextId !in s.subjects;
      Step(Ok(s.nextId), s.(subjects := s.subjects[s.nextId := Subject(name.value, imageUrl.value)], nextId := s.nextId + 1))
  }

  /** `updateSubject`: only the provided fields change. */
  function UpdateSubject(s: Store, id: Id, name: Option<string>, imageUrl: Option<string>): (out: Step<()>)
    ensures id !in s.subjects ==> out == Step(Err(NotFound), s)
    ensures out.result.Ok? <==> id in s.subjects
    ensures out.result.Ok? ==> id in out.store.subjects
    ensures out.result.Ok? ==>
      var b := s.subjects[id];
      var b' := out.store.subjects[id];
      && out.store == s.(subjects := s.subjects[id := b'])
      && b'.name == (if name.Some? then name.value else b.name)
      && b'.imageUrl == (if imageUrl.Some? then imageUrl.value else b.imageUrl)
  {
    if id !in s.subjects then Step(Err(NotFound), s)
    else
      var b := s.subjects[id];
      var b1 := if name.Some? then b.(name := name.value) else b;
      var b2 := if imageUrl.Some? then b1.(imageUrl := imageUrl.value) else b1;
      Step(Ok(()), s.(subjects := s.subjects[id := b2]))
  }

  /** Some test or group is about the subject. */
  predicate SubjectReferenced(s: Store, id: Id) {
    || (exists t :: t in s.tests && s.tests[t].subject == id)
    || (exists g :: g in s.groups && s.groups[g].subject == id)
  }

  /** `deleteSubject`: the controller removes the subject without looking at
      what refers to it; a referenced subject makes the flush fail. */
  function DeleteSubject(s: Store, id: Id): (out: Step<()>)
    ensures id !in s.subjects ==> out == Step(Err(NotFound), s)
    ensures id in s.subjects && SubjectReferenced(s, id) ==> out == Step(Err(ServerError), s)
    ensures out.result.Ok? <==> id in s.subjects && !SubjectReferenced(s, id)
    ensures out.result.Ok? ==> out.store == s.(subjects := s.subjects - {id})
  {
    if id !in s.subjects then Step(Err(NotFound), s)
    else if SubjectReferenced(s, id) then Step(Err(ServerError), s)
    else Step(Ok(()), s.(subjects := s.subjects - {id}))
  }

  lemma AddUserPreservesWf(s: Store, email: Option<string>, password: Option<string>, role: Option<string>, hash: string -> string)
    requires Wf(s)
    ensures Wf(AddUser(s, email, password, role, hash).store)
  {
    var out := AddUser(s, email, password, role, hash);
    if out.result.Ok? {
      NewUserKeepsWf(s, User(email.value, [role.value], hash(password.value), {}));
    }
  }

  lemma EditUserPreservesWf(s: Store, id: Id, email: Option<string>, role: Option<string>, password: Option<string>, hash: string -> string)
    requires Wf(s)
    ensures Wf(EditUser(s, id, email, role, password, hash).store)
  {
    var out := EditUser(s, id, email, role, password, hash);
    if out.result.Ok? {
      UserEditKeepsWf(s, id, out.store.users[id]);
    }
  }

  /** The store `deleteUser` leaves when it succeeds. */
  function WithoutUser(s: Store, id: Id): (s': Store)
    ensures s'.users == s.users - {id} && s'.groups == WithoutMember(s.groups, id)
    ensures s'.tests == s.tests && s'.questions == s.questions && s'.studentTests == s.studentTests
    ensures s'.subjects == s.subjects && s'.courses == s.courses && s'.nextId == s.nextId
  {
    s.(users := s.users - {id}, groups := WithoutMember(s.groups, id))
  }

  lemma DeleteUserKeepsResolved(s: Store, id: Id)
    requires Bounded(s) && Resolved(s) && id in s.users && !UserReferenced(s, id)
    ensures Bounded(WithoutUser(s, id)) && Resolved(WithoutUser(s, id))
  {
  }

  lemma DeleteUserKeepsMirror(s: Store, id: Id)
    requires Mirrored(s)
    ensures Mirrored(WithoutUser(s, id))
  {
  }

  lemma DeleteUserPreservesWf(s: Store, id: Id)
    requires Wf(s)
    ensures Wf(DeleteUser(s, id).store)
  {
    var out := DeleteUser(s, id);
    if out.result.Ok? {
      DeleteUserKeepsResolved(s, id);
      DeleteUserKeepsMirror(s, id);
    }
  }

  lemma AddSubjectPreservesWf(s: Store, name: Option<string>, imageUrl: Option<string>)
    requires Wf(s)
    ensures Wf(AddSubject(s, name, imageUrl).store)
  {
    var out := AddSubject(s, name, imageUrl);
    if out.result.Ok? {
      var s' := out.store;
      assert Bounded(s');
      assert TestsResolved(s');
      assert GroupsResolved(s');
    }
  }

  lemma UpdateSubjectPreservesWf(s: Store, id: Id, name: Option<string>, imageUrl: Option<string>)
    requires Wf(s)
    ensures Wf(UpdateSubject(s, id, name, imageUrl).store)
  {
  }

  lemma DeleteSubjectPreservesWf(s: Store, id: Id)
    requires Wf(s)
    ensures Wf(DeleteSubject(s, id).store)
  {
  }

  /** Deleting a user just added restores the store, up to the counter. */
  lemma DeleteUndoesAddUser(s: Store, email: Option<string>, password: Option<string>, role: Option<string>, hash: string -> string)
    requires Wf(s)
    requires AddUser(s, email, password, role, hash).result.Ok?
    ensures var out := AddUser(s, email, password, role, hash);
      DeleteUser(out.store, out.result.value).store == s.(nextId := s.nextId + 1)
  {
    var out := AddUser(s, email, password, role, hash);
    var u := out.result.value;
    assert !UserReferenced(out.store, u) by {
      forall t | t in s.tests ensures s.tests[t].tutor != u {
        assert s.tests[t].tutor in s.users;
      }
      forall a | a in s.studentTests ensures s.studentTests[a].student != u {
        assert s.studentTests[a].student in s.users;
      }
    }
    assert WithoutMember(s.groups, u) == s.groups by {
      forall g | g in s.groups ensures s.groups[g].students - {u} == s.groups[g].students {
        assert u !in s.groups[g].students;
      }
    }
    assert out.store.users - {u} == s.users;
  }
}
