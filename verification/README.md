# Assessments and cohorts: a verified model

This project models the backend of a small e-learning platform (a Symfony
application) and the pure helpers of its student dashboard (a React page).

- Tutors write tests made of questions.
- Students pass tests.
- Each pass places the student in a cohort, a *student group*. The cohort's name is the subject name joined to a level (`Maths - Advanced`).
- Tutors attach course material to groups.
- Administrators manage users and subjects.

The database is an abstract `Store`: one map from row id to record per table,
plus one counter that stands for the auto-increment keys. Every endpoint is a
pure function from a store and the request's fields to a `Step`, which holds a
`Result` (the answer, or one of NotFound, Invalid, Conflict, Unauthorized and
ServerError) and the store it leaves behind.

The collections Doctrine keeps on the inverse side of a relation (a test's
questions and attempts, a user's groups) are stored explicitly. The invariant
`Entities.Wf` ties them to the owning side. It also states the schema's
foreign keys and the unique e-mail constraint. Every endpoint that writes
keeps `Wf`.

Modules, in dependency order:

- `Outcome`, `Collections`, `Text`: Option/Result, sequence and map helpers, lower-casing, and PHP's `empty()` test.
- `Entities`: the records, the store and the invariant.
- `Roles`, `Membership`, `TestEntity`: the entity methods of User.php, StudentGroup.php and Test.php.
- `Scoring`, `Cohort`: the scoring in `passTest`, and StudentGroupService.php.
- `StudentApi`, `TutorApi`, `CourseApi`, `AuthApi`, `AdminApi`: the controllers.
- `Dashboard`: the pure functions of PageStudent.js.
- `Scenarios`: properties of request sequences that cross controllers, and the dashboard's reading of the `passTest` answer.

Where the written requirements and the code disagree, the model follows the
code:

- A subject still used by a test or a group cannot be deleted. The controller does not check this; the foreign keys reject the flush. The model therefore answers ServerError, not Conflict.
- Deleting a user who tutors a test or has an attempt also fails on a foreign key, giving ServerError. Deleting a user drops their group memberships, because the join table cascades (symfony_backend/migrations/Version20260104162656.php:31).
- `editUser` does no duplicate check of its own. Changing an e-mail to one another user already has breaks the unique constraint (User.php:13), so the model answers ServerError.
- `addUser` answers an existing e-mail with 400, modelled as Invalid. `register` answers it with 409, modelled as Conflict.
- Cohorts are looked up by (name, subject, level). After a subject is renamed to a name that the database collation tells apart from the old one, the same subject and level get a second group. A rename that only changes letter case or accents does not split the cohort in the database; the model compares names exactly (see "## Left out").
- A `createTest` or `updateTest` request without `subject_id` reaches `find(null)`, which throws. The model answers ServerError, not NotFound.

## Model

| member | source | states |
|---|---|---|
| Roles.GetRoles | symfony_backend/src/Entity/User.php:44 | the reported roles contain ROLE_USER, have no duplicates, contain every stored role, hold nothing else, and start with the first stored role (ROLE_USER when none is stored) |
| Roles.PrimaryRole | symfony_backend/src/Entity/User.php:44 | `getRoles()[0]` is the first stored role, or ROLE_USER when none is stored |
| Roles.GetRolesKeepsCanonicalList | symfony_backend/src/Entity/User.php:44-45 | a stored list without duplicates that already holds ROLE_USER is reported unchanged, so `setRoles` followed by `getRoles` gives back what was set |
| Roles.SingleRoleReported | symfony_backend/src/Entity/User.php:44-45 | a single stored role, the only shape the endpoints write, is reported as the primary role and followed only by ROLE_USER |
| Membership.NewGroup | symfony_backend/src/Entity/StudentGroup.php:35-39 | a new group has no students, the given creation time, and the name, level and subject it was given |
| Membership.AddStudent | symfony_backend/src/Entity/StudentGroup.php:60-67 | the user joins the group's students; the group is mirrored into the user's groups; a member already present leaves the store unchanged; no other group or user changes |
| Membership.RemoveStudent | symfony_backend/src/Entity/StudentGroup.php:69-75 | the user leaves the students and the mirrored reference goes; a non-member leaves the store unchanged; no other group or user changes |
| Membership.AddStudentGroup | symfony_backend/src/Entity/User.php:58-65 | the group joins the user's groups and the user joins the group's students; a group already listed leaves the store unchanged |
| Membership.RemoveStudentGroup | symfony_backend/src/Entity/User.php:67-73 | the group leaves the user's groups and the user leaves the group; a group not listed leaves the store unchanged |
| Membership.AddStudentPreservesMirror | symfony_backend/src/Entity/StudentGroup.php:60-67 | adding keeps g in u.groups exactly when u in g.students |
| Membership.RemoveStudentPreservesMirror | symfony_backend/src/Entity/StudentGroup.php:69-75 | removing keeps g in u.groups exactly when u in g.students |
| Membership.UserSidePreservesMirror | symfony_backend/src/Entity/User.php:58-73 | the user-side add and remove keep the mirror too |
| Membership.AddStudentPreservesWf | symfony_backend/src/Entity/StudentGroup.php:60-67 | adding a student keeps the whole store invariant |
| Membership.RemoveStudentPreservesWf | symfony_backend/src/Entity/StudentGroup.php:69-75 | removing a student keeps the whole store invariant |
| Membership.AddSidesAgree | symfony_backend/src/Entity/User.php:58-65 | while the sides agree, an addition started from the user or from the group gives the same store |
| Membership.RemoveSidesAgree | symfony_backend/src/Entity/User.php:67-73 | the same for a removal |
| Membership.RemoveUndoesAdd | symfony_backend/src/Entity/StudentGroup.php:60-75 | removing a student just added restores the store |
| Membership.AddStudentIdempotent | symfony_backend/src/Entity/StudentGroup.php:62 | adding twice is adding once, so members never repeat |
| Entities.MembershipEditKeepsWf | symfony_backend/src/Entity/StudentGroup.php:28-30 | a change confined to the membership sets keeps the invariant when the new sets mirror each other and name existing rows |
| Entities.QuestionNotListed | symfony_backend/src/Entity/Test.php:72-79 | a question whose back-reference names another test is not in this test's list |
| Entities.AttemptNotListed | symfony_backend/src/Entity/Test.php:97-104 | the same for attempts |
| Entities.CourseEditKeepsWf | symfony_backend/migrations/Version20260106213914.php:24 | a change confined to the course table keeps the invariant when every course names an existing group |
| TestEntity.NewTest | symfony_backend/src/Entity/Test.php:31-35 | a new test has empty question and attempt lists and the required subject and tutor |
| TestEntity.AddQuestion | symfony_backend/src/Entity/Test.php:72-79 | the question is listed once, at the end if it was missing, and points at the test; a listed question changes nothing |
| TestEntity.RemoveQuestion | symfony_backend/src/Entity/Test.php:81-89 | the first occurrence leaves the list; the back-reference is cleared only when it named this test |
| TestEntity.AddStudentTest | symfony_backend/src/Entity/Test.php:97-104 | the attempt is listed once and points at the test |
| TestEntity.RemoveStudentTest | symfony_backend/src/Entity/Test.php:106-114 | the attempt leaves the list; its back-reference is cleared only when it named this test |
| TestEntity.QuestionEditsKeepLinks | symfony_backend/src/Entity/Test.php:72-89 | "every listed question points at this test" survives add and duplicate-free remove |
| TestEntity.StudentTestEditsKeepLinks | symfony_backend/src/Entity/Test.php:97-114 | the same invariant for attempts |
| TestEntity.RemoveQuestionNeedsNoDup | symfony_backend/src/Entity/Test.php:81-89 | with a repeated entry, removal leaves a listed question that no longer points back, so the invariant needs duplicate-freedom |
| TestEntity.AddQuestionLeavesStaleList | symfony_backend/src/Entity/Test.php:72-79 | adding a question another test lists moves its back-reference but leaves it in the other list |
| TestEntity.RemoveQuestionUndoesAdd | symfony_backend/src/Entity/Test.php:72-89 | removing a free question just added restores the store |
| Scoring.Percentage | symfony_backend/src/Controller/Api/StudentController.php:117-119 | 0 for an empty test; otherwise percentage times total is 100 times the score; between 0 and 100 when the score does not exceed the total |
| Scoring.PassPercentage | symfony_backend/src/Controller/Api/StudentController.php:117-119 | since the score is the question count, the percentage is 0 for an empty test and exactly 100 otherwise |
| Scoring.DetermineLevel | symfony_backend/src/Service/StudentGroupService.php:50-59 | Basic exactly when p <= 49, Intermediate exactly when 49 < p <= 75, Advanced exactly when p > 75 |
| Scoring.DetermineLevelMonotone | symfony_backend/src/Service/StudentGroupService.php:52-58 | a higher percentage never gives a lower level |
| Scoring.LevelName | symfony_backend/src/Service/StudentGroupService.php:52-58 | each of "Basic", "Intermediate" and "Advanced" is the stored string of exactly one level |
| Cohort.FindGroup | symfony_backend/src/Service/StudentGroupService.php:24-28 | the lookup returns a group with exactly that name, subject and level, and returns nothing only when no such group exists |
| Cohort.GroupName | symfony_backend/src/Service/StudentGroupService.php:20 | the group name starts with the subject name and ends with " - " and the level string |
| Cohort.GroupNameInjective | symfony_backend/src/Service/StudentGroupService.php:19-20 | for one level, two subject names give the same group name exactly when they are equal |
| Cohort.FindGroupFrame | symfony_backend/src/Service/StudentGroupService.php:24-28 | the lookup depends only on the groups' keys: stores that agree on them get the same answer |
| Cohort.CreateOrAssignGroup | symfony_backend/src/Service/StudentGroupService.php:14-48 | the student is a member of the returned group. Its key is the test's subject, `determineLevel(percentage)` and "subject - level". An existing group with the key is reused and nothing is created. Otherwise exactly one group with the key is created at the next id, with that student only. No other group, user or table changes |
| Cohort.JoinExisting | symfony_backend/src/Service/StudentGroupService.php:40-43 | joining a found group adds the student to it and the group to the student's groups; no group is created and no other group or user changes |
| Cohort.JoinNew | symfony_backend/src/Service/StudentGroupService.php:30-43 | the new group is persisted at the next id with the student as its only member; the existing groups are untouched |
| Cohort.UniqueKeysFrame | symfony_backend/src/Service/StudentGroupService.php:40-43 | edits that keep every group's name, subject and level keep the keys unique |
| Cohort.UniqueKeysExtend | symfony_backend/src/Service/StudentGroupService.php:30-38 | adding a group under a key no group had keeps the keys unique |
| Cohort.MembersGrowByAtMostOne | symfony_backend/src/Service/StudentGroupService.php:41-43 | the member count grows by at most one |
| Cohort.NewGroupKeepsWf | symfony_backend/src/Service/StudentGroupService.php:30-38 | adding the new empty group keeps the invariant |
| Cohort.ReuseKeepsWf | symfony_backend/src/Service/StudentGroupService.php:24-28 | joining an existing group keeps the invariant |
| Cohort.CreateKeepsWf | symfony_backend/src/Service/StudentGroupService.php:30-43 | creating a group and joining it keeps the invariant |
| Cohort.CreateOrAssignPreservesWf | symfony_backend/src/Service/StudentGroupService.php:14-48 | the service keeps the invariant |
| Cohort.FindGroupAfterAssign | symfony_backend/src/Service/StudentGroupService.php:24-45 | afterwards the lookup for the same key finds the returned group |
| Cohort.CreateOrAssignIdempotent | symfony_backend/src/Service/StudentGroupService.php:24-45 | a second call with the same student, test and percentage returns the same group and leaves the store unchanged |
| Cohort.CreateOrAssignKeepsUniqueKeys | symfony_backend/src/Service/StudentGroupService.php:24-45 | when no two groups shared a key before, none do afterwards |
| StudentApi.GetTest | symfony_backend/src/Controller/Api/StudentController.php:74-91 | NotFound for an unknown test; otherwise the test's id, subject name, and question ids and contents in list order |
| StudentApi.RecordAttempt | symfony_backend/src/Controller/Api/StudentController.php:122-128 | exactly one attempt (student, test, score) is added at the next id and appended to the test's list, even when the pair already has one; nothing else changes |
| StudentApi.RecordAttemptKeepsResolved | symfony_backend/src/Controller/Api/StudentController.php:122-128 | recording keeps every foreign key resolved |
| StudentApi.RecordAttemptKeepsQuestions | symfony_backend/src/Controller/Api/StudentController.php:122-128 | recording leaves question ownership intact |
| StudentApi.RecordAttemptKeepsOwnership | symfony_backend/src/Controller/Api/StudentController.php:122-128 | the new attempt is owned by its test and the lists stay duplicate-free |
| StudentApi.RecordAttemptKeepsWf | symfony_backend/src/Controller/Api/StudentController.php:122-128 | recording keeps the whole invariant |
| StudentApi.PassTest | symfony_backend/src/Controller/Api/StudentController.php:97-144 | a missing or zero id is Invalid and an unknown student or test is NotFound, both with the store unchanged, and only those fail. On success: the score is the question count, the percentage is 0 or 100, the level is Basic or Advanced, the group is "subject - level", one attempt is added, and the student belongs to the group |
| StudentApi.PassKnown | symfony_backend/src/Controller/Api/StudentController.php:117-143 | once student and test are found, the pass succeeds with a full score, one new attempt row, and the student in the group named in the answer |
| StudentApi.AssignAfterAttempt | symfony_backend/src/Controller/Api/StudentController.php:122-131 | the cohort step keeps the attempt row just written and puts the student in a group with the percentage's key |
| StudentApi.PassKnownStore | symfony_backend/src/Controller/Api/StudentController.php:122-131 | the success branch leaves the store of the cohort step and reports its group |
| StudentApi.PassTestStore | symfony_backend/src/Controller/Api/StudentController.php:122-131 | a pass records the attempt and then runs the cohort service on that store; its group is the service's group |
| StudentApi.PassTestPreservesWf | symfony_backend/src/Controller/Api/StudentController.php:97-144 | passing keeps the invariant |
| StudentApi.PassTestIgnoresAnswers | symfony_backend/src/Controller/Api/StudentController.php:117 | the submitted answers play no part in the outcome |
| StudentApi.CompletedTests | symfony_backend/src/Controller/Api/StudentController.php:150-172 | NotFound for an unknown student; otherwise exactly one entry per attempt of the student, with its test id, the test's subject name and its score |
| StudentApi.StudentGroups | symfony_backend/src/Controller/Api/StudentController.php:178-200 | NotFound for an unknown student; otherwise exactly the groups holding the student, each with its name, level, subject name and member count |
| StudentApi.PassThenCompleted | symfony_backend/src/Controller/Api/StudentController.php:122-172 | after a pass the new attempt is among the completed tests, with the test id and the question count as score |
| StudentApi.PassThenGroups | symfony_backend/src/Controller/Api/StudentController.php:131-200 | after a pass the assigned group, under its name, is among the student's groups |
| TutorApi.Tutor | symfony_backend/src/Controller/Api/TutorTestController.php:19-22 | the authenticated user when there is one, otherwise user 1; a failure when neither exists |
| TutorApi.Contents | symfony_backend/src/Controller/Api/TutorTestController.php:62-66 | one content per listed question, in list order |
| TutorApi.WithQuestions | symfony_backend/src/Controller/Api/TutorTestController.php:41-46 | one new question per content, with consecutive new ids, each pointing at the test, and listed by it in submission order |
| TutorApi.DropQuestions | symfony_backend/src/Controller/Api/TutorTestController.php:93-96 | exactly the questions not listed by the test remain |
| TutorApi.DropAttempts | symfony_backend/src/Entity/Test.php:28-29 | exactly the attempts not listed by the test remain |
| TutorApi.WithQuestionsRows | symfony_backend/src/Controller/Api/TutorTestController.php:41-46 | the question rows attached are fresh ids carrying the contents in order, pointing at the test; the rows already there are kept unchanged, no other row appears, and the counter moves past the new ids |
| TutorApi.CreateTestTests | symfony_backend/src/Controller/Api/TutorTestController.php:35-49 | the create step adds exactly one test, with the chosen subject and tutor, no attempts and one question per content; the other tests are unchanged |
| TutorApi.CreateTestQuestions | symfony_backend/src/Controller/Api/TutorTestController.php:41-46 | the create step adds one fresh question per content, pointing at the new test, keeps every existing question and adds no other row |
| TutorApi.CreateTestFacts | symfony_backend/src/Controller/Api/TutorTestController.php:35-49 | the create step adds exactly one test and exactly its questions, one per content in order; every other test and question row is unchanged |
| TutorApi.CreateTest | symfony_backend/src/Controller/Api/TutorTestController.php:26-52 | a missing subject id is a failure and an unknown subject is NotFound, both creating nothing. Otherwise one test for (subject, tutor) is created, with one question per content in order, each linked to it. The question table gains exactly those rows, and nothing else changes |
| TutorApi.AddTestRow | symfony_backend/src/Controller/Api/TutorTestController.php:35-39 | one test without questions or attempts is added at the next id |
| TutorApi.AddTestRowKeepsResolved | symfony_backend/src/Controller/Api/TutorTestController.php:35-39 | the new test's references resolve |
| TutorApi.AddTestRowKeepsOwnership | symfony_backend/src/Controller/Api/TutorTestController.php:35-39 | the empty lists keep ownership |
| TutorApi.NewTestKeepsWf | symfony_backend/src/Controller/Api/TutorTestController.php:35-39 | registering a test without questions keeps the invariant |
| TutorApi.WithQuestionsKeepsResolved | symfony_backend/src/Controller/Api/TutorTestController.php:41-46 | the new questions' back-references resolve |
| TutorApi.WithQuestionsKeepsOwnership | symfony_backend/src/Controller/Api/TutorTestController.php:41-46 | each new question is listed by its test exactly once |
| TutorApi.WithQuestionsKeepsWf | symfony_backend/src/Controller/Api/TutorTestController.php:41-46 | attaching fresh questions to a test without any keeps the invariant |
| TutorApi.CreateTestPreservesWf | symfony_backend/src/Controller/Api/TutorTestController.php:26-52 | creating a test keeps the invariant |
| TutorApi.ListTests | symfony_backend/src/Controller/Api/TutorTestController.php:56-75 | exactly the acting tutor's tests, with subject name, subject id and question contents in order |
| TutorApi.ListedContents | symfony_backend/src/Controller/Api/TutorTestController.php:58-74 | a listed test carries the contents of its questions |
| TutorApi.CreatedContents | symfony_backend/src/Controller/Api/TutorTestController.php:35-49 | the created test's questions hold the submitted contents, in order |
| TutorApi.CreateThenList | symfony_backend/src/Controller/Api/TutorTestController.php:26-75 | the listing returns the created test with the submitted contents |
| TutorApi.ClearQuestions | symfony_backend/src/Controller/Api/TutorTestController.php:93-96 | the subject is set, the old questions are deleted and the list is emptied |
| TutorApi.ClearQuestionsKeepsResolved | symfony_backend/src/Controller/Api/TutorTestController.php:93-96 | the removal step keeps references resolved |
| TutorApi.ClearQuestionsKeepsOwnership | symfony_backend/src/Controller/Api/TutorTestController.php:93-96 | the removal step keeps ownership |
| TutorApi.ReplaceQuestionsFacts | symfony_backend/src/Controller/Api/TutorTestController.php:93-106 | after the replace the question table is exactly the old one minus the test's questions plus one new question per content |
| TutorApi.UpdateTest | symfony_backend/src/Controller/Api/TutorTestController.php:79-109 | NotFound for an unknown test or subject and a failure for a missing subject id, all with the store unchanged. Otherwise the subject is set and the question list is replaced by the submitted contents. The question table is exactly the old one minus the test's old questions plus the new ones |
| TutorApi.UpdateTestPreservesWf | symfony_backend/src/Controller/Api/TutorTestController.php:79-109 | replacing keeps the invariant |
| TutorApi.UpdateThenContents | symfony_backend/src/Controller/Api/TutorTestController.php:93-106 | after a replace the test lists exactly the submitted contents |
| TutorApi.DeleteTest | symfony_backend/src/Controller/Api/TutorTestController.php:113-128 | NotFound for an unknown id; otherwise the test, its questions and its attempts go and nothing else changes |
| TutorApi.DeleteTestKeepsResolved | symfony_backend/src/Controller/Api/TutorTestController.php:115-125 | nothing left points at a removed row |
| TutorApi.DeleteTestKeepsOwnership | symfony_backend/src/Controller/Api/TutorTestController.php:115-125 | the remaining tests keep their lists |
| TutorApi.DeleteTestPreservesWf | symfony_backend/src/Controller/Api/TutorTestController.php:113-128 | deleting keeps the invariant |
| TutorApi.TutorGroups | symfony_backend/src/Controller/Api/TutorTestController.php:132-151 | exactly the groups whose subject is the subject of some test by the acting tutor, once each, with name, level and subject name |
| CourseApi.UploadPath | symfony_backend/src/Controller/Api/CourseController.php:74 | the path is "/uploads/" followed by the stored name |
| CourseApi.UploadPathInjective | symfony_backend/src/Controller/Api/CourseController.php:74 | distinct stored names give distinct paths |
| CourseApi.CoursesByGroup | symfony_backend/src/Controller/Api/CourseController.php:20-43 | NotFound for an unknown group; otherwise exactly the courses of that group |
| CourseApi.CreateCourse | symfony_backend/src/Controller/Api/CourseController.php:46-85 | NotFound for an unknown group, then Invalid for a missing title, type or file, both creating nothing. Otherwise one course with those values, that group and the upload path is created |
| CourseApi.UpdateCourse | symfony_backend/src/Controller/Api/CourseController.php:88-119 | NotFound for an unknown id; title and type change only when given, the path only with a file; the group never changes |
| CourseApi.DeleteCourse | symfony_backend/src/Controller/Api/CourseController.php:123-140 | NotFound for an unknown id; otherwise exactly that course goes |
| CourseApi.CreateCoursePreservesWf | symfony_backend/src/Controller/Api/CourseController.php:46-85 | creating keeps the invariant |
| CourseApi.UpdateCoursePreservesWf | symfony_backend/src/Controller/Api/CourseController.php:88-119 | updating keeps the invariant |
| CourseApi.DeleteCoursePreservesWf | symfony_backend/src/Controller/Api/CourseController.php:123-140 | deleting keeps the invariant |
| CourseApi.CreateThenListed | symfony_backend/src/Controller/Api/CourseController.php:20-85 | a created course is listed under its group with the submitted values |
| CourseApi.EmptyUpdateIsNoOp | symfony_backend/src/Controller/Api/CourseController.php:103-116 | an update providing nothing changes nothing |
| CourseApi.UpdateCourseIdempotent | symfony_backend/src/Controller/Api/CourseController.php:103-116 | sending the same update twice, each call with its own stored file name, changes nothing but the file path, which becomes the second name; the store is unchanged exactly when no file is sent or the two stored names coincide |
| CourseApi.DeleteUndoesCreate | symfony_backend/src/Controller/Api/CourseController.php:46-140 | deleting a course just created restores the store, up to the counter |
| Text.ToLower | symfony_backend/src/Controller/Api/AuthController.php:37 | lower-casing keeps the length and maps each character |
| Text.ToLowerIdempotent | symfony_backend/src/Controller/Api/AuthController.php:37-41 | lower-casing twice is lower-casing once |
| AuthApi.FindByEmail | symfony_backend/src/Controller/Api/AuthController.php:29-30 | a user with that e-mail, and nothing only when no user has it |
| AuthApi.FindByEmailUnique | symfony_backend/src/Entity/User.php:13 | with unique e-mails the lookup finds the one user that has it |
| AuthApi.StoredRole | symfony_backend/src/Controller/Api/AuthController.php:41 | ROLE_TUTOR exactly when the lower-cased role is "tutor", otherwise ROLE_STUDENT |
| AuthApi.Register | symfony_backend/src/Controller/Api/AuthController.php:18-59 | Invalid for an empty field, then Conflict for a used e-mail, then Invalid for a role other than tutor or student, all with the store unchanged. Otherwise exactly one user with the stored role and the hashed password, and the answer's role is the stored one |
| AuthApi.Login | symfony_backend/src/Controller/Api/AuthController.php:63-91 | each outcome holds exactly when its condition does. Invalid iff a field is empty. NotFound iff both fields are set and the e-mail is unknown. Unauthorized iff the e-mail is known and the password does not verify against that user's hash. Ok iff it does, answering that user's id, e-mail and `getRoles()[0]` |
| AuthApi.RegisterPreservesWf | symfony_backend/src/Controller/Api/AuthController.php:18-59 | registering keeps the invariant, in particular unique e-mails |
| AuthApi.RegisterThenLogin | symfony_backend/src/Controller/Api/AuthController.php:41-90 | a login after a registration succeeds and reports the registered role |
| AuthApi.RegisterIgnoresRoleCase | symfony_backend/src/Controller/Api/AuthController.php:36-41 | roles equal up to letter case give the same outcome |
| AdminApi.GetUsers | symfony_backend/src/Controller/Api/Admin/AdminUserController.php:21-29 | one row per user with its e-mail and `getRoles()[0]` |
| AdminApi.AddUser | symfony_backend/src/Controller/Api/Admin/AdminUserController.php:32-53 | Invalid when a field is absent or the e-mail is taken, with the store unchanged; otherwise one user with exactly [role], unvalidated |
| AdminApi.EditUser | symfony_backend/src/Controller/Api/Admin/AdminUserController.php:56-68 | NotFound for an unknown id; only the fields present change and the role list is replaced wholesale; an e-mail another user has fails with the store unchanged |
| AdminApi.WithoutMember | symfony_backend/migrations/Version20260104162656.php:31 | every group loses the user from its members and nothing else |
| AdminApi.DeleteUser | symfony_backend/src/Controller/Api/Admin/AdminUserController.php:71-78 | NotFound for an unknown id; a failure with the store unchanged while a test or attempt references the user; otherwise exactly that user and their memberships go |
| AdminApi.AddSubject | symfony_backend/src/Controller/Api/Admin/AdminUserController.php:93-107 | Invalid when name or image is absent; otherwise exactly one subject with those values at the next id |
| AdminApi.UpdateSubject | symfony_backend/src/Controller/Api/Admin/AdminUserController.php:110-120 | NotFound for an unknown id; otherwise only the given fields of that subject change |
| AdminApi.DeleteSubject | symfony_backend/src/Controller/Api/Admin/AdminUserController.php:123-130 | NotFound for an unknown id; a failure with the store unchanged while a test or group references the subject; otherwise exactly that subject goes |
| AdminApi.AddUserPreservesWf | symfony_backend/src/Controller/Api/Admin/AdminUserController.php:32-53 | adding a user keeps the invariant |
| AdminApi.EditUserPreservesWf | symfony_backend/src/Controller/Api/Admin/AdminUserController.php:56-68 | editing keeps the invariant, in particular unique e-mails |
| AdminApi.DeleteUserPreservesWf | symfony_backend/src/Controller/Api/Admin/AdminUserController.php:71-78 | deleting a user keeps the invariant |
| AdminApi.AddSubjectPreservesWf | symfony_backend/src/Controller/Api/Admin/AdminUserController.php:93-107 | adding a subject keeps the invariant |
| AdminApi.UpdateSubjectPreservesWf | symfony_backend/src/Controller/Api/Admin/AdminUserController.php:110-120 | updating a subject keeps the invariant |
| AdminApi.DeleteSubjectPreservesWf | symfony_backend/src/Controller/Api/Admin/AdminUserController.php:123-130 | deleting a subject keeps the invariant |
| AdminApi.DeleteUndoesAddUser | symfony_backend/src/Controller/Api/Admin/AdminUserController.php:32-78 | deleting a user just added restores the store, up to the counter |
| Dashboard.TierName | symfony_frontend/src/Pages/PageStudent.js:152-155 | each of "remedial", "beginner", "intermediate" and "advanced" names exactly one tier |
| Dashboard.DetermineLevelFromScore | symfony_frontend/src/Pages/PageStudent.js:152-157 | advanced exactly from 80, intermediate exactly on [60, 80), beginner exactly on [40, 60), remedial exactly below 40 |
| Dashboard.DetermineLevelFromScoreMonotone | symfony_frontend/src/Pages/PageStudent.js:152-157 | a higher score never gives a lower tier |
| Dashboard.TablesDisagree | symfony_frontend/src/Pages/PageStudent.js:152-157 | the server and client tables disagree: on [40, 49] Basic against beginner, on (75, 80) Advanced against intermediate |
| Dashboard.CalculateProgress | symfony_frontend/src/Pages/PageStudent.js:144-149 | 0 without questions; otherwise answered over total times 100, between 0 and 100 when no extra answers are given |
| Dashboard.ProgressFullIffAllAnswered | symfony_frontend/src/Pages/PageStudent.js:144-149 | the bar is full exactly when the answers number the questions |
| Dashboard.FilterBySubject | symfony_frontend/src/Pages/PageStudent.js:83-85 | the selected subject's tests, in order, or all tests when nothing is selected |
| Dashboard.FilterKeepsSingleSubject | symfony_frontend/src/Pages/PageStudent.js:83-85 | when every test has the selected subject, nothing is filtered out |
| Dashboard.FilterBySubjectSplits | symfony_frontend/src/Pages/PageStudent.js:83-85 | filtering a concatenation filters each part, so order is kept |
| Dashboard.FindCompleted | symfony_frontend/src/Pages/PageStudent.js:92 | the first index with the test's id, and nothing only when none has it |
| Dashboard.ScoreOrNull | symfony_frontend/src/Pages/PageStudent.js:96 | a missing or zero score reads as null, any other is kept |
| Dashboard.MergeStatus | symfony_frontend/src/Pages/PageStudent.js:91-98 | one status per test, in order; passed exactly when some completed entry has its id; the score from the first such entry, falsy scores as null |
| Dashboard.AddGroupIfAbsent | symfony_frontend/src/Pages/PageStudent.js:223-234 | an id already present leaves the list unchanged; otherwise the group is appended; unique ids stay unique |
| Dashboard.AddGroupIdempotent | symfony_frontend/src/Pages/PageStudent.js:223-234 | adding the same group twice is adding it once |
| Dashboard.SubmitEnabled | symfony_frontend/src/Pages/PageStudent.js:839-842 | an enabled button means no submission is running, and, with the questions loaded (the only state in which line 832 renders the button), that the answer count reaches the question count; the `None` case is the expression alone, with `undefined` making the comparison false |
| Dashboard.SubmitEnabledMeansComplete | symfony_frontend/src/Pages/PageStudent.js:839-842 | when answers only name the test's questions, an enabled submit button means every question is answered |
| Dashboard.AverageScore | symfony_frontend/src/Pages/PageStudent.js:349-352 | 0 with no passed test; otherwise the sum of passed scores over their number |
| Dashboard.AverageScoreBounded | symfony_frontend/src/Pages/PageStudent.js:349-352 | the average lies between the lowest and the highest passed score |
| Scenarios.PassLevel | symfony_backend/src/Controller/Api/StudentController.php:117-131 | the level a pass of this test is filed under is `determineLevel` of its percentage |
| Scenarios.PassLeavesGroupFindable | symfony_backend/src/Service/StudentGroupService.php:24-45 | after a pass the lookup for its key finds the assigned group, and the test and subjects are unchanged |
| Scenarios.PassJoinsFoundGroup | symfony_backend/src/Service/StudentGroupService.php:24-43 | a pass goes to the group the lookup finds and adds the student to it |
| Scenarios.PassAvoidsOtherName | symfony_backend/src/Service/StudentGroupService.php:19-28 | a pass never goes to a group whose name differs from the current "subject - level", under exact name comparison (the database collation would also match names differing only in case or accents) |
| Scenarios.SecondStudentJoinsSameGroup | symfony_backend/src/Service/StudentGroupService.php:24-43 | two students passing the same test share one cohort, which then holds both |
| Scenarios.RenameSplitsCohort | symfony_backend/src/Controller/Api/Admin/AdminUserController.php:115 | after a subject rename, a pass goes to a different group with the same level and the new name; this matches the database only for new names that its collation does not equate with the old one |
| Scenarios.PassThenTutorSees | symfony_backend/src/Controller/Api/TutorTestController.php:136-150 | the tutor owning a test sees the cohort a pass of it was assigned to, under its name |
| Scenarios.ClientLevelAsWritten | symfony_frontend/src/Pages/PageStudent.js:199-202 | as written, the dashboard shows advanced exactly when the test has at least 80 questions and remedial exactly when it has fewer than 40 |
| Scenarios.ClientLevelAsWrittenMisreports | symfony_frontend/src/Pages/PageStudent.js:198-202 | as written, a test of 1 to 39 questions puts the student in the server's Advanced cohort while the dashboard reports remedial |
| Scenarios.ClientLevel | symfony_frontend/src/Pages/PageStudent.js:199-202 | read from the percentage, advanced exactly from 80% and remedial exactly below 40% |
| Scenarios.ClientLevelAgrees | symfony_frontend/src/Pages/PageStudent.js:198-202 | read from the percentage, the dashboard says advanced exactly when the server says Advanced, and remedial for Basic |
| Scenarios.CreateThenGetTest | symfony_backend/src/Controller/Api/StudentController.php:74-91 | a test just created reads back through `getTest` with the submitted contents, in order, under the chosen subject |
| Scenarios.UpdateThenGetTest | symfony_backend/src/Controller/Api/StudentController.php:74-91 | a test just updated reads back through `getTest` with the new contents, in order, under the new subject |
| Scenarios.ReadBack | symfony_backend/src/Controller/Api/StudentController.php:80-88 | `getTest` answers the test's question contents in list order |

## Left out

- HTTP, routing and JSON: answers are `Result` values, not status codes or payloads. Request fields are `Option` values (absent or present).
- Password hashing and verification are parameters (`hash`, `verify`): the hasher is not part of this model.
- Files: moving, deleting and serving uploads, `uniqid()` and `guessExtension`. The stored file name is a parameter, and `getCourseFile` is not modelled.
- Timestamps are opaque parameters.
- Doctrine: flush semantics and transactions are not modelled. Each endpoint is one atomic step, although `passTest` flushes twice (the attempt, then the group) and a failure between the two would leave the attempt alone.
- Concurrency: the lookup-then-create race in `createOrAssignGroup` is not modelled. No lock or unique index on the group key prevents two concurrent passes from creating two groups.
- Floats: PHP floats and JavaScript numbers are exact reals. `passTest` only produces 0 and 100, which are exact.
- Auto-increment: one counter serves every table. Real databases keep one per table; the model never compares ids across tables.
- Listings are maps keyed by id: `ListTests`, `CompletedTests`, `StudentGroups`, `TutorGroups`, `CoursesByGroup` and `GetUsers` answer a set of rows, not a JSON array in some order. The queries behind them have no ORDER BY, so the order is not promised.
- E-mail comparison is exact. The database collation may compare case-insensitively.
- Cohort.FindGroup: compares group names exactly. The `student_group` table uses `utf8mb4_unicode_ci` (symfony_backend/migrations/Version20260103222609.php:23), so `findOneBy` also matches names that differ only in letter case or accents. Unicode collation is not modelled. Cohort.CreateOrAssignGroup, Scenarios.PassAvoidsOtherName and Scenarios.RenameSplitsCohort therefore hold for the database only when distinct names stay distinct under the collation.
- Column length limits are not checked, for example a title longer than 255 characters.
- Route ids are natural numbers. A request `studentId` is an integer: 0 is falsy and a negative value finds no user. PHP's looser `!$studentId` on strings is not modelled.
- `parseInt` of the selected subject is not modelled; the selection is an optional id.
- The dashboard's `getOrCreateGroup` calls an endpoint the backend does not define, so it is left out.
- The dashboard's fetching, React state and rendering are left out, and so is its commented-out sketch.
- `getTests` and `getSubjects` in StudentController.php and AdminUserController.php are left out. They are plain listings with no logic beyond `findAll`.
- symfony_backend/src/Controller/Api/TestController.php is left out: it calls `setStudent` and `setScore` (lines 38 and 40), which `Test` does not declare.
- SubjectRepository.php and TestRepository.php are left out: their queries join `s.students` (SubjectRepository.php:23) and filter on `t.student` (TestRepository.php:23), properties those entities do not have.
- StudentGroupRepository.php is left out because nothing calls it. Its `findBySubjectAndLevel` and `findAllBySubject` (lines 20-38) are valid queries on `subject` and `level`, but the service looks groups up with `findOneBy` (StudentGroupService.php:24-28).
- Migrations are used only as evidence for foreign keys, nullability and the join table's cascade.
- `findOneBy` returns an unspecified matching row. The model takes the lowest id; only `FindGroup` and `FindByEmail` depend on this, and with unique keys the choice does not matter.
- Scoring.Score has no contract of its own: it only returns the question count. `Scoring.PassPercentage` and `StudentApi.PassTestIgnoresAnswers` state its effect.

## Findings

| source | as written | input that shows it | evidently intended | confidence | as-written member | corrected member |
|---|---|---|---|---|---|---|
| symfony_frontend/src/Pages/PageStudent.js:198-202 | the dashboard classifies `data.score`, which `passTest` sets to the question count, as if it were a percentage | a test with 4 questions: the server files the student under "Subject - Advanced"; the dashboard shows "Your score: 4%" and "REMEDIAL" | classify `data.percentage`, which the same answer carries | not executed | Scenarios.ClientLevelAsWrittenMisreports | Scenarios.ClientLevelAgrees |
