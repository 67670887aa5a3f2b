/** The many-to-many membership between users and student groups
    (StudentGroup.php `addStudent` / `removeStudent`, User.php
    `addStudentGroup` / `removeStudentGroup`).

    Each side keeps its own set and, when it changes, calls the other side,
    whose own containment test stops the recursion. `Link*` / `Unlink*` are the
    one-sided edits; the four entity methods are compositions of them in the
    order the source performs them.
 */
module Membership {
  import opened Entities

  /** `new StudentGroup()` followed by the three setters. */
  function NewGroup(name: string, level: Level, subject: Id, now: Timestamp): (g: StudentGroup)
    ensures g.students == {}
    ensures g.createdAt == now
    ensures g.name == name && g.level == level && g.subject == subject
  {
    StudentGroup(name, level, subject, {}, now)
  }

  function LinkStudent(s: Store, g: Id, u: Id): Store
    requires g in s.groups
  {
    s.(groups := s.groups[g := s.groups[g].(students := s.groups[g].students + {u})])
  }

  function UnlinkStudent(s: Store, g: Id, u: Id): Store
    requires g in s.groups
  {
    s.(groups := s.groups[g := s.groups[g].(students := s.groups[g].students - {u})])
  }

  function LinkGroup(s: Store, u: Id, g: Id): Store
    requires u in s.users
  {
    s.(users := s.users[u := s.users[u].(groups := s.users[u].groups + {g})])
  }

  function UnlinkGroup(s: Store, u: Id, g: Id): Store
    requires u in s.users
  {
    s.(users := s.users[u := s.users[u].(groups := s.users[u].groups - {g})])
  }

  /** `StudentGroup::addStudent`: a no-op on a member; otherwise adds the
      user and mirrors the group into the user's groups. */
  function AddStudent(s: Store, g: Id, u: Id): (s': Store)
    requires g in s.groups && u in s.users
    ensures SameExceptMembership(s, s')
    ensures s'.groups.Keys == s.groups.Keys && s'.users.Keys == s.users.Keys
    ensures s'.groups[g] == s.groups[g].(students := s.groups[g].students + {u})
    ensures u in s.groups[g].students ==> s' == s
    ensures u !in s.groups[g].students ==> s'.users[u] == s.users[u].(groups := s.users[u].groups + {g})
    ensures forall h :: h in s.groups && h != g ==> s'.groups[h] == s.groups[h]
    ensures forall v :: v in s.users && v != u ==> s'.users[v] == s.users[v]
  {
    if u in s.groups[g].students then s
    else LinkGroup(LinkStudent(s, g, u), u, g)
  }

  /** `User::addStudentGroup`: a no-op when the group is already listed;
      otherwise lists it and calls `addStudent`, which adds the user unless
      already present. */
  function AddStudentGroup(s: Store, u: Id, g: Id): (s': Store)
    requires g in s.groups && u in s.users
    ensures SameExceptMembership(s, s')
    ensures s'.groups.Keys == s.groups.Keys && s'.users.Keys == s.users.Keys
    ensures s'.users[u] == s.users[u].(groups := s.users[u].groups + {g})
    ensures g in s.users[u].groups ==> s' == s
    ensures g !in s.users[u].groups ==> s'.groups[g] == s.groups[g].(students := s.groups[g].students + {u})
    ensures forall h :: h in s.groups && h != g ==> s'.groups[h] == s.groups[h]
    ensures forall v :: v in s.users && v != u ==> s'.users[v] == s.users[v]
  {
    if g in s.users[u].groups then s
    else
      var s1 := LinkGroup(s, u, g);
      if u in s1.groups[g].students then s1 else LinkGroup(LinkStudent(s1, g, u), u, g)
  }

  /** `StudentGroup::removeStudent`: a no-op on a non-member; otherwise
      removes the user and the mirrored reference. */
  function RemoveStudent(s: Store, g: Id, u: Id): (s': Store)
    requires g in s.groups && u in s.users
    ensures SameExceptMembership(s, s')
    ensures s'.groups.Keys == s.groups.Keys && s'.users.Keys == s.users.Keys
    ensures s'.groups[g] == s.groups[g].(students := s.groups[g].students - {u})
    ensures u !in s.groups[g].students ==> s' == s
    ensures u in s.groups[g].students ==> s'.users[u] == s.users[u].(groups := s.users[u].groups - {g})
    ensures forall h :: h in s.groups && h != g ==> s'.groups[h] == s.groups[h]
    ensures forall v :: v in s.users && v != u ==> s'.users[v] == s.users[v]
  {
    if u !in s.groups[g].students then s
    else UnlinkGroup(UnlinkStudent(s, g, u), u, g)
  }

  /** `User::removeStudentGroup`: the same from the user's side. */
  function RemoveStudentGroup(s: Store, u: Id, g: Id): (s': Store)
    requires g in s.groups && u in s.users
    ensures SameExceptMembership(s, s')
    ensures s'.groups.Keys == s.groups.Keys && s'.users.Keys == s.users.Keys
    ensures s'.users[u] == s.users[u].(groups := s.users[u].groups - {g})
    ensures g !in s.users[u].groups ==> s' == s
    ensures g in s.users[u].groups ==> s'.groups[g] == s.groups[g].(students := s.groups[g].students - {u})
    ensures forall h :: h in s.groups && h != g ==> s'.groups[h] == s.groups[h]
    ensures forall v :: v in s.users && v != u ==> s'.users[v] == s.users[v]
  {
    if g !in s.users[u].groups then s
    else
      var s1 := UnlinkGroup(s, u, g);
      if u !in s1.groups[g].students then s1 else UnlinkGroup(UnlinkStudent(s1, g, u), u, g)
  }

  /** Adding keeps g in u.studentGroups <==> u in g.students. */
  lemma AddStudentPreservesMirror(s: Store, g: Id, u: Id)
    requires g in s.groups && u in s.users
    requires Mirrored(s)
    ensures Mirrored(AddStudent(s, g, u))
  {
  }

  /** Removing keeps g in u.studentGroups <==> u in g.students. */
  lemma RemoveStudentPreservesMirror(s: Store, g: Id, u: Id)
    requires g in s.groups && u in s.users
    requires Mirrored(s)
    ensures Mirrored(RemoveStudent(s, g, u))
  {
  }

  /** The user-side entry points keep the mirror as well. */
  lemma UserSidePreservesMirror(s: Store, g: Id, u: Id)
    requires g in s.groups && u in s.users
    requires Mirrored(s)
    ensures Mirrored(AddStudentGroup(s, u, g))
    ensures Mirrored(RemoveStudentGroup(s, u, g))
  {
  }

  /** Adding a student keeps the whole store invariant. */
  lemma AddStudentPreservesWf(s: Store, g: Id, u: Id)
    requires g in s.groups && u in s.users
    requires Wf(s)
    ensures Wf(AddStudent(s, g, u))
  {
    AddStudentPreservesMirror(s, g, u);
    MembershipEditKeepsWf(s, AddStudent(s, g, u));
  }

  /** Removing a student keeps the whole store invariant. */
  lemma RemoveStudentPreservesWf(s: Store, g: Id, u: Id)
    requires g in s.groups && u in s.users
    requires Wf(s)
    ensures Wf(RemoveStudent(s, g, u))
  {
    RemoveStudentPreservesMirror(s, g, u);
    MembershipEditKeepsWf(s, RemoveStudent(s, g, u));
  }

  /** While the two sides agree it does not matter which side starts an
      addition. */
  lemma AddSidesAgree(s: Store, g: Id, u: Id)
    requires g in s.groups && u in s.users
    requires Mirrored(s)
    ensures AddStudentGroup(s, u, g) == AddStudent(s, g, u)
  {
  }

  /** The same for a removal. */
  lemma RemoveSidesAgree(s: Store, g: Id, u: Id)
    requires g in s.groups && u in s.users
    requires Mirrored(s)
    ensures RemoveStudentGroup(s, u, g) == RemoveStudent(s, g, u)
  {
  }

  /** Removing a student just added restores the store. */
  lemma RemoveUndoesAdd(s: Store, g: Id, u: Id)
    requires g in s.groups && u in s.users
    requires Mirrored(s) && u !in s.groups[g].students
    ensures RemoveStudent(AddStudent(s, g, u), g, u) == s
  {
  }

  /** Adding twice is adding once. */
  lemma AddStudentIdempotent(s: Store, g: Id, u: Id)
    requires g in s.groups && u in s.users
    ensures AddStudent(AddStudent(s, g, u), g, u) == AddStudent(s, g, u)
  {
  }
}
