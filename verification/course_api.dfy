/** Course material attached to a student group (CourseController.php),
    entity side only: the uploaded file is represented by the name it is
    stored under, which the caller chooses (the source draws it from
    `uniqid()` and the file's guessed extension).
 */
module CourseApi {
  import opened Outcome
  import opened Text
  import opened Entities

  /** One entry of `getCoursesByGroup`. */
  datatype CourseRow = CourseRow(title: string, kind: string, filePath: string, createdAt: Timestamp)

  /** Where an upload stored under `name` is served from. */
  function UploadPath(name: string): (p: string)
    ensures |p| == |name| + 9 && p[..9] == "/uploads/" && p[9..] == name
  {
    "/uploads/" + name
  }

  /** Distinct stored names give distinct paths. */
  lemma UploadPathInjective(a: string, b: string)
    requires UploadPath(a) == UploadPath(b)
    ensures a == b
  {
  }

  /** `getCoursesByGroup`: the courses whose group is `groupId`. */
  function CoursesByGroup(s: Store, groupId: Id): (r: Result<map<Id, CourseRow>>)
    ensures groupId !in s.groups ==> r == Err(NotFound)
    ensures groupId in s.groups ==> r.Ok?
    ensures r.Ok? ==>
      && (forall c :: c in r.value <==> c in s.courses && s.courses[c].group == groupId)
      && (forall c :: c in r.value ==>
            var k := s.courses[c];
            r.value[c] == CourseRow(k.title, k.kind, k.filePath, k.createdAt))
  {
    if groupId !in s.groups then Err(NotFound)
    else
      Ok(map c | c in s.courses && s.courses[c].group == groupId ::
        CourseRow(s.courses[c].title, s.courses[c].kind, s.courses[c].filePath, s.courses[c].createdAt))
  }

  /** `createCourse`: the group must exist, then title, type and file must
      all be present; the result is the new course's id. */
  function CreateCourse(s: Store, groupId: Id, title: Option<string>, kind: Option<string>, upload: Option<string>, now: Timestamp): (out: Step<Id>)
    requires Bounded(s)
    ensures groupId !in s.groups ==> out == Step(Err(NotFound), s)
    ensures groupId in s.groups && (Falsy(title) || Falsy(kind) || upload.None?) ==> out == Step(Err(Invalid), s)
    ensures out.result.Ok? <==> groupId in s.groups && !Falsy(title) && !Falsy(kind) && upload.Some?
    ensures out.result.Ok? ==>
      var c := out.result.value;
      var s' := out.store;
      && c == s.nextId && c !in s.courses
      && s'.courses == s.courses[c := Course(title.value, kind.value, UploadPath(upload.value), groupId, now)]
      && s'.nextId == s.nextId + 1
      && s'.users == s.users && s'.subjects == s.subjects && s'.tests == s.tests
      && s'.questions == s.questions && s'.studentTests == s.studentTests && s'.groups == s.groups
  {
    if groupId !in s.groups then Step(Err(NotFound), s)
    else if Falsy(title) || Falsy(kind) || upload.None? then Step(Err(Invalid), s)
    else
      var c := s.nextId;
      assert c !in s.courses;
      Step(Ok(c), s.(courses := s.courses[c := Course(title.value, kind.value, UploadPath(upload.value), groupId, now)], nextId := c + 1))
  }

  /** `updateCourse`: title and type change only when provided (and truthy),
      the path only when a file is uploaded; the group never changes. */
  function UpdateCourse(s: Store, id: Id, title: Option<string>, kind: Option<string>, upload: Option<string>): (out: Step<()>)
    ensures id !in s.courses ==> out == Step(Err(NotFound), s)
    ensures out.result.Ok? <==> id in s.courses
    ensures out.result.Ok? ==> id in out.store.courses
    ensures out.result.Ok? ==>
      var k := s.courses[id];
      var k' := out.store.courses[id];
      && out.store == s.(courses := s.courses[id := k'])
      && k'.title == (if Falsy(title) then k.title else title.value)
      && k'.kind == (if Falsy(kind) then k.kind else kind.value)
      && k'.filePath == (if upload.None? then k.filePath else UploadPath(upload.value))
      && k'.group == k.group && k'.createdAt == k.createdAt
  {
    if id !in s.courses then Step(Err(NotFound), s)
    else
      var k := s.courses[id];
      var k1 := if Falsy(title) then k else k.(title := title.value);
      var k2 := if Falsy(kind) then k1 else k1.(kind := kind.value);
      var k3 := if upload.None? then k2 else k2.(filePath := UploadPath(upload.value));
      Step(Ok(()), s.(courses := s.courses[id := k3]))
  }

  /** `deleteCourse`: exactly that course goes. */
  function DeleteCourse(s: Store, id: Id): (out: Step<()>)
    ensures id !in s.courses ==> out == Step(Err(NotFound), s)
    ensures out.result.Ok? <==> id in s.courses
    ensures out.result.Ok? ==> out.store == s.(courses := s.courses - {id})
  {
    if id !in s.courses then Step(Err(NotFound), s)
    else Step(Ok(()), s.(courses := s.courses - {id}))
  }

  /** Creating a course keeps the invariant. */
  lemma CreateCoursePreservesWf(s: Store, groupId: Id, title: Option<string>, kind: Option<string>, upload: Option<string>, now: Timestamp)
    requires Wf(s)
    ensures Wf(CreateCourse(s, groupId, title, kind, upload, now).store)
  {
    var s1 := CreateCourse(s, groupId, title, kind, upload, now).store;
    if s1 != s {
      CourseEditKeepsWf(s, s1.courses, s1.nextId);
    }
  }

  /** Updating a course keeps the invariant. */
  lemma UpdateCoursePreservesWf(s: Store, id: Id, title: Option<string>, kind: Option<string>, upload: Option<string>)
    requires Wf(s)
    ensures Wf(UpdateCourse(s, id, title, kind, upload).store)
  {
    var s2 := UpdateCourse(s, id, title, kind, upload).store;
    if id in s.courses {
      CourseEditKeepsWf(s, s2.courses, s2.nextId);
    }
  }

  /** Deleting a course keeps the invariant. */
  lemma DeleteCoursePreservesWf(s: Store, id: Id)
    requires Wf(s)
    ensures Wf(DeleteCourse(s, id).store)
  {
    var s3 := DeleteCourse(s, id).store;
    CourseEditKeepsWf(s, s3.courses, s3.nextId);
  }

  /** A created course is listed under its group with the submitted values. */
  lemma CreateThenListed(s: Store, groupId: Id, title: Option<string>, kind: Option<string>, upload: Option<string>, now: Timestamp)
    requires Bounded(s)
    requires CreateCourse(s, groupId, title, kind, upload, now).result.Ok?
    ensures var out := CreateCourse(s, groupId, title, kind, upload, now);
      var listed := CoursesByGroup(out.store, groupId);
      listed.Ok? && out.result.value in listed.value
      && listed.value[out.result.value] == CourseRow(title.value, kind.value, UploadPath(upload.value), now)
  {
  }

  /** An update that provides nothing changes nothing. */
  lemma EmptyUpdateIsNoOp(s: Store, id: Id)
    requires id in s.courses
    ensures UpdateCourse(s, id, None, None, None) == Step(Ok(()), s)
  {
  }

  /** Sending the same update twice. Each request with a file stores it
      under a fresh name (`uniqid()`), so the two calls get their own stored
      names. The repeat changes nothing but the file path, which becomes the
      second name; the store is unchanged exactly when no file is sent or
      the two names coincide. */
  lemma UpdateCourseIdempotent(s: Store, id: Id, title: Option<string>, kind: Option<string>, first: Option<string>, second: Option<string>)
    requires id in s.courses
    requires first.None? <==> second.None?
    ensures var s1 := UpdateCourse(s, id, title, kind, first).store;
      var s2 := UpdateCourse(s1, id, title, kind, second).store;
      && id in s1.courses
      && s2 == s1.(courses := s1.courses[id := s1.courses[id].(filePath :=
           if second.None? then s1.courses[id].filePath else UploadPath(second.value))])
      && (s2 == s1 <==> first == second)
  {
  }

  /** Deleting a course just created restores the store, up to the counter. */
  lemma DeleteUndoesCreate(s: Store, groupId: Id, title: Option<string>, kind: Option<string>, upload: Option<string>, now: Timestamp)
    requires Bounded(s)
    requires CreateCourse(s, groupId, title, kind, upload, now).result.Ok?
    ensures var out := CreateCourse(s, groupId, title, kind, upload, now);
      DeleteCourse(out.store, out.result.value).store == s.(nextId := s.nextId + 1)
  {
  }
}
