/** User roles (User.php `getRoles`) and the single role the API reports.

    `getRoles` is `array_unique(array_merge($this->roles, ['ROLE_USER']))`:
    the stored roles followed by `ROLE_USER`, keeping the first occurrence of
    each. PHP's `array_unique` keeps keys, so index 0 always survives and
    `getRoles()[0]` is always defined.
 */
module Roles {
  import opened Collections

  const RoleUser := "ROLE_USER"
  const RoleTutor := "ROLE_TUTOR"
  const RoleStudent := "ROLE_STUDENT"

  function GetRoles(stored: seq<string>): (r: seq<string>)
    ensures RoleUser in r
    ensures NoDup(r)
    ensures forall i :: 0 <= i < |stored| ==> stored[i] in r
    ensures forall i :: 0 <= i < |r| ==> r[i] in stored || r[i] == RoleUser
    ensures r[0] == (if |stored| > 0 then stored[0] else RoleUser)
  {
    var merged := stored + [RoleUser];
    assert merged[|stored|] == RoleUser;
    Dedup(merged)
  }

  /** `getRoles()[0]`: the role login and the admin listing report. */
  function PrimaryRole(stored: seq<string>): (r: string)
    ensures |stored| > 0 ==> r == stored[0]
    ensures |stored| == 0 ==> r == RoleUser
  {
    GetRoles(stored)[0]
  }

  /** Stored roles without duplicates that already include `ROLE_USER` come
      back unchanged. */
  lemma {:induction false} GetRolesKeepsCanonicalList(stored: seq<string>)
    requires NoDup(stored) && RoleUser in stored
    ensures GetRoles(stored) == stored
  {
    var merged := stored + [RoleUser];
    var init := merged[..|merged| - 1];
    assert init == stored;
    DedupOfNoDup(stored);
    assert merged == init + [RoleUser];
  }

  /** A single stored role, as every endpoint writes, is reported as is. */
  lemma SingleRoleReported(role: string)
    ensures PrimaryRole([role]) == role
    ensures role != RoleUser ==> GetRoles([role]) == [role, RoleUser]
  {
  }
}
