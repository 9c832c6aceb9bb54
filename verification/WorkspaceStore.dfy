/** Workspaces, their members, roles and invitations, and the use cases that change them. */
module WorkspaceStore {
  import opened Options

  const OWNER: string := "Owner"
  const ADMIN: string := "Admin"
  const MEMBER: string := "Member"
  const ADMIN_WORKSPACE_SLUG: string := "__admin__"
  const INVITATION_TTL_MS: int := 7 * 24 * 60 * 60 * 1000

  datatype Workspace = Workspace(ownerId: string, slug: string, isPersonal: bool, deletedAt: Option<int>)
  datatype Member = Member(userId: string, workspaceId: string, roleId: string)
  datatype Role = Role(name: string, description: Option<string>, workspaceId: string, isSystem: bool)
  datatype Invitation = Invitation(email: string, workspaceId: string, roleId: string, tokenHash: string,
                                   expiresAt: int, acceptedAt: Option<int>)

  /** `cutoffs` holds, for a user, the moment before which access tokens are no longer accepted. */
  datatype Store = Store(
    workspaces: map<string, Workspace>,
    members: map<string, Member>,
    roles: map<string, Role>,
    invitations: map<string, Invitation>,
    cutoffs: map<string, int>)

  /** `StoreError` is a unique or foreign-key violation, or an update of a row that is not there. */
  datatype Outcome = Done | NotFound | Forbidden | BadRequest | Conflict | Unauthorized | StoreError

  datatype DefaultRole = DefaultRole(name: string, description: string, isSystem: bool)

  const DEFAULT_ROLES: seq<DefaultRole> := [
    DefaultRole(OWNER, "Full access to the workspace", true),
    DefaultRole(ADMIN, "Manage workspace without destructive actions", true),
    DefaultRole(MEMBER, "Standard member with read access", true)]

  // ---------- Lookups ----------

  function FindWorkspace(t: Store, ws: string): Option<Workspace> {
    if ws in t.workspaces && t.workspaces[ws].deletedAt == None then Some(t.workspaces[ws]) else None
  }

  /** A deleted workspace has no owner as far as the use cases can see. */
  predicate OwnedBy(t: Store, ws: string, user: string) {
    FindWorkspace(t, ws).Some? && FindWorkspace(t, ws).value.ownerId == user
  }

  predicate MemberIn(t: Store, m: string, ws: string) {
    m in t.members && t.members[m].workspaceId == ws
  }

  predicate IsMembership(t: Store, m: string, user: string, ws: string) {
    MemberIn(t, m, ws) && t.members[m].userId == user
  }

  predicate RoleIn(t: Store, r: string, ws: string) {
    r in t.roles && t.roles[r].workspaceId == ws
  }

  predicate IsRoleNamed(t: Store, r: string, ws: string, name: string) {
    RoleIn(t, r, ws) && t.roles[r].name == name
  }

  ghost function MembershipOf(t: Store, user: string, ws: string): (found: Option<string>)
    ensures found.Some? ==> IsMembership(t, found.value, user, ws)
    ensures found.None? ==> forall m :: !IsMembership(t, m, user, ws)
  {
    if exists m :: IsMembership(t, m, user, ws) then
      var m :| IsMembership(t, m, user, ws);
      Some(m)
    else None
  }

  ghost function RoleNamed(t: Store, ws: string, name: string): (found: Option<string>)
    ensures found.Some? ==> IsRoleNamed(t, found.value, ws, name)
    ensures found.None? ==> forall r :: !IsRoleNamed(t, r, ws, name)
  {
    if exists r :: IsRoleNamed(t, r, ws, name) then
      var r :| IsRoleNamed(t, r, ws, name);
      Some(r)
    else None
  }

  predicate Pending(t: Store, email: string, ws: string, now: int) {
    exists i | i in t.invitations ::
      t.invitations[i].email == email && t.invitations[i].workspaceId == ws
      && t.invitations[i].acceptedAt == None && t.invitations[i].expiresAt > now
  }

  predicate HashTaken(t: Store, tokenHash: string) {
    exists i | i in t.invitations :: t.invitations[i].tokenHash == tokenHash
  }

  /** The unique-index lookup on the token hash. */
  predicate FindsInvitation(t: Store, tokenHash: string, found: Option<string>) {
    match found
    case Some(i) => i in t.invitations && t.invitations[i].tokenHash == tokenHash
    case None => !HashTaken(t, tokenHash)
  }

  /** The unique index (userId, workspaceId). */
  ghost predicate UniqueMembers(members: map<string, Member>) {
    forall a, b | a in members && b in members
                  && members[a].userId == members[b].userId && members[a].workspaceId == members[b].workspaceId ::
      a == b
  }

  /** The unique index (workspaceId, name). */
  ghost predicate UniqueRoles(roles: map<string, Role>) {
    forall a, b | a in roles && b in roles
                  && roles[a].name == roles[b].name && roles[a].workspaceId == roles[b].workspaceId ::
      a == b
  }

  ghost predicate Unique(t: Store) {
    UniqueMembers(t.members) && UniqueRoles(t.roles)
  }

  // ---------- What each use case does to the store ----------

  predicate SlugTaken(t: Store, slug: string) {
    exists ws | ws in t.workspaces :: t.workspaces[ws].slug == slug
  }

  predicate DistinctNames(defaults: seq<DefaultRole>) {
    forall i, j | 0 <= i < j < |defaults| :: defaults[i].name != defaults[j].name
  }

  /** `roles` with one new row per default role, in order. */
  function Seeded(roles: map<string, Role>, ws: string, defaults: seq<DefaultRole>, ids: seq<string>): map<string, Role>
    requires |ids| == |defaults|
  {
    if defaults == [] then roles
    else
      var last := |defaults| - 1;
      Seeded(roles, ws, defaults[..last], ids[..last])
      [ids[last] := Role(defaults[last].name, Some(defaults[last].description), ws, defaults[last].isSystem)]
  }

  /** The last position with the name, or None. */
  function PositionOf(defaults: seq<DefaultRole>, name: string): (k: Option<nat>)
    ensures k.Some? ==> k.value < |defaults| && defaults[k.value].name == name
    ensures k.None? <==> forall i | 0 <= i < |defaults| :: defaults[i].name != name
  {
    if defaults == [] then None
    else if defaults[|defaults| - 1].name == name then Some(|defaults| - 1)
    else PositionOf(defaults[..|defaults| - 1], name)
  }

  lemma SeededOneMore(roles: map<string, Role>, ws: string, defaults: seq<DefaultRole>, ids: seq<string>, i: nat)
    requires i < |defaults| == |ids|
    ensures Seeded(roles, ws, defaults[..i + 1], ids[..i + 1]) ==
            Seeded(roles, ws, defaults[..i], ids[..i])[
              ids[i] := Role(defaults[i].name, Some(defaults[i].description), ws, defaults[i].isSystem)]
  {
    assert defaults[..i + 1][..i] == defaults[..i] && ids[..i + 1][..i] == ids[..i];
  }

  lemma NamedOneMore(defaults: seq<DefaultRole>, name: string, i: nat)
    requires i < |defaults|
    ensures PositionOf(defaults[..i + 1], name) ==
              if defaults[i].name == name then Some(i) else PositionOf(defaults[..i], name)
    ensures DistinctNames(defaults[..i + 1]) <==>
              DistinctNames(defaults[..i]) && forall k | 0 <= k < i :: defaults[k].name != defaults[i].name
  {
    assert defaults[..i + 1][..i] == defaults[..i];
    assert forall k | 0 <= k < i :: defaults[..i + 1][k] == defaults[..i][k] == defaults[k];
  }

  /** A clash inside a longer list stays a clash. */
  lemma ClashStays(defaults: seq<DefaultRole>, i: nat)
    requires i <= |defaults| && !DistinctNames(defaults[..i])
    ensures !DistinctNames(defaults)
  {
    assert forall k | 0 <= k < i :: defaults[..i][k] == defaults[k];
  }

  function CreatedWithDefaults(t: Store, ws: string, ownerId: string, slug: string, isPersonal: bool,
                               defaults: seq<DefaultRole>, ownerRoleName: string,
                               roleIds: seq<string>, memberId: string): (Store, Outcome)
    requires |roleIds| == |defaults|
  {
    var k := PositionOf(defaults, ownerRoleName);
    if SlugTaken(t, slug) || !DistinctNames(defaults) || k.None? then (t, StoreError)
    else
      (Store(t.workspaces[ws := Workspace(ownerId, slug, isPersonal, None)],
             t.members[memberId := Member(ownerId, ws, roleIds[k.value])],
             Seeded(t.roles, ws, defaults, roleIds),
             t.invitations, t.cutoffs),
       Done)
  }

  function Deleted(t: Store, ws: string, now: int): (Store, Outcome) {
    if FindWorkspace(t, ws).None? then (t, NotFound)
    else if t.workspaces[ws].slug == ADMIN_WORKSPACE_SLUG || t.workspaces[ws].isPersonal then (t, Forbidden)
    else (t.(workspaces := t.workspaces[ws := t.workspaces[ws].(deletedAt := Some(now))]), Done)
  }

  ghost function Transferred(t: Store, ws: string, caller: string, target: string, passwordOk: bool,
                             now: int): (Store, Outcome)
  {
    if FindWorkspace(t, ws).None? then (t, NotFound)
    else if t.workspaces[ws].ownerId != caller then (t, Forbidden)
    else if !passwordOk then (t, Unauthorized)
    else if !MemberIn(t, target, ws) then (t, NotFound)
    else if t.members[target].userId == caller then (t, BadRequest)
    else
      var ownerRole, adminRole := RoleNamed(t, ws, OWNER), RoleNamed(t, ws, ADMIN);
      var from := MembershipOf(t, caller, ws);
      if ownerRole.None? || adminRole.None? then (t, BadRequest)
      else if from.None? then (t, StoreError)
      else
        (t.(members := t.members[from.value := t.members[from.value].(roleId := adminRole.value)]
                                [target := t.members[target].(roleId := ownerRole.value)],
            workspaces := t.workspaces[ws := t.workspaces[ws].(ownerId := t.members[target].userId)],
            cutoffs := t.cutoffs[caller := now][t.members[target].userId := now]),
         Done)
  }

  function RoleAssigned(t: Store, ws: string, m: string, roleId: string, now: int): (Store, Outcome) {
    if !MemberIn(t, m, ws) then (t, NotFound)
    else if OwnedBy(t, ws, t.members[m].userId) then (t, Forbidden)
    else if !RoleIn(t, roleId, ws) then (t, BadRequest)
    else
      (t.(members := t.members[m := t.members[m].(roleId := roleId)], cutoffs := t.cutoffs[t.members[m].userId := now]),
       Done)
  }

  function MemberRemoved(t: Store, ws: string, m: string, caller: string, permitted: bool): (Store, Outcome) {
    if !MemberIn(t, m, ws) then (t, NotFound)
    else if OwnedBy(t, ws, t.members[m].userId) then (t, Forbidden)
    else if t.members[m].userId != caller && !permitted then (t, Forbidden)
    else (t.(members := t.members - {m}), Done)
  }

  ghost function RoleCreated(t: Store, ws: string, id: string, name: string, description: Option<string>,
                             keysKnown: bool): (Store, Outcome)
  {
    if RoleNamed(t, ws, name).Some? then (t, Conflict)
    else if !keysKnown then (t, BadRequest)
    else if ws !in t.workspaces then (t, StoreError)
    else (t.(roles := t.roles[id := Role(name, description, ws, false)]), Done)
  }

  /** An absent or empty name keeps the old one; unknown permission keys roll everything back. */
  ghost function RoleUpdated(t: Store, ws: string, id: string, name: Option<string>, description: Option<string>,
                             keysKnown: bool): (Store, Outcome)
  {
    if !RoleIn(t, id, ws) then (t, NotFound)
    else if t.roles[id].isSystem then (t, Forbidden)
    else if name.Some? && name.value != "" && name.value != t.roles[id].name && RoleNamed(t, ws, name.value).Some?
    then (t, Conflict)
    else if !keysKnown then (t, BadRequest)
    else
      var newName := if name.Some? && name.value != "" then name.value else t.roles[id].name;
      var newDescription := if description.Some? then description else t.roles[id].description;
      (t.(roles := t.roles[id := t.roles[id].(name := newName, description := newDescription)]), Done)
  }

  predicate RoleInUse(t: Store, id: string) {
    exists m | m in t.members :: t.members[m].roleId == id
  }

  function RoleDeleted(t: Store, ws: string, id: string): (Store, Outcome) {
    if !RoleIn(t, id, ws) then (t, NotFound)
    else if t.roles[id].isSystem then (t, Forbidden)
    else if RoleInUse(t, id) then (t, Conflict)
    else (t.(roles := t.roles - {id}), Done)
  }

  /** `existingUser` is the account with that email, if there is one. */
  ghost function Invited(t: Store, ws: string, id: string, email: string, roleId: string, tokenHash: string,
                         existingUser: Option<string>, now: int): (Store, Outcome)
  {
    if !RoleIn(t, roleId, ws) then (t, NotFound)
    else if existingUser.Some? && MembershipOf(t, existingUser.value, ws).Some? then (t, Conflict)
    else if Pending(t, email, ws, now) then (t, Conflict)
    else if HashTaken(t, tokenHash) then (t, StoreError)
    else
      var invitation := Invitation(email, ws, roleId, tokenHash, now + INVITATION_TTL_MS, None);
      (t.(invitations := t.invitations[id := invitation]), Done)
  }

  function InvitationRevoked(t: Store, ws: string, id: string): (Store, Outcome) {
    if id !in t.invitations || t.invitations[id].workspaceId != ws then (t, NotFound)
    else if t.invitations[id].acceptedAt.Some? then (t, BadRequest)
    else (t.(invitations := t.invitations - {id}), Done)
  }

  /** `found` is the invitation the token belongs to, `email` that of the accepting account, if they exist. */
  ghost function Accepted(t: Store, found: Option<string>, user: string, email: Option<string>, memberId: string,
                          now: int): (Store, Outcome)
  {
    if found.None? || found.value !in t.invitations then (t, NotFound)
    else
      var inv := t.invitations[found.value];
      if inv.acceptedAt.Some? || inv.expiresAt < now then (t, BadRequest)
      else if email.None? then (t, NotFound)
      else if email.value != inv.email then (t, Forbidden)
      else if MembershipOf(t, user, inv.workspaceId).Some? then (t, Conflict)
      else if inv.roleId !in t.roles then (t, StoreError)
      else
        (t.(members := t.members[memberId := Member(user, inv.workspaceId, inv.roleId)],
            invitations := t.invitations[found.value := inv.(acceptedAt := Some(now))]),
         Done)
  }

  /** Creating a user inside a workspace: the new account becomes a member with the given role. */
  ghost function UserAdded(t: Store, ws: string, user: string, emailTaken: bool, roleId: string,
                           memberId: string): (Store, Outcome)
  {
    if emailTaken then (t, Conflict)
    else if !RoleIn(t, roleId, ws) then (t, NotFound)
    else if MembershipOf(t, user, ws).Some? then (t, StoreError)
    else (t.(members := t.members[memberId := Member(user, ws, roleId)]), Done)
  }

  // ---------- The rules, read off the tables ----------

  /** The workspace is there and not deleted. */
  predicate Stands(t: Store, ws: string) {
    ws in t.workspaces && t.workspaces[ws].deletedAt == None
  }

  predicate NoMember(t: Store, user: string, ws: string) {
    forall m | m in t.members :: t.members[m].userId != user || t.members[m].workspaceId != ws
  }

  predicate NoRoleNamed(t: Store, ws: string, name: string) {
    forall r | r in t.roles :: t.roles[r].workspaceId != ws || t.roles[r].name != name
  }

  lemma LookupsMean(t: Store, user: string, ws: string, name: string)
    ensures MembershipOf(t, user, ws).None? <==> NoMember(t, user, ws)
    ensures RoleNamed(t, ws, name).None? <==> NoRoleNamed(t, ws, name)
  {
    if MembershipOf(t, user, ws).Some? {
      assert IsMembership(t, MembershipOf(t, user, ws).value, user, ws);
    } else {
      forall m | m in t.members ensures t.members[m].userId != user || t.members[m].workspaceId != ws {
        assert !IsMembership(t, m, user, ws);
      }
    }
    if RoleNamed(t, ws, name).Some? {
      assert IsRoleNamed(t, RoleNamed(t, ws, name).value, ws, name);
    } else {
      forall r | r in t.roles ensures t.roles[r].workspaceId != ws || t.roles[r].name != name {
        assert !IsRoleNamed(t, r, ws, name);
      }
    }
  }

  function RoleRow(d: DefaultRole, ws: string): Role {
    Role(d.name, Some(d.description), ws, d.isSystem)
  }

  predicate LastAt(ids: seq<string>, i: nat)
    requires i < |ids|
  {
    forall k | i < k < |ids| :: ids[k] != ids[i]
  }

  /** All default roles become rows of the workspace, under the given ids and with nothing else changed. */
  ghost predicate AddsRoles(roles: map<string, Role>, ws: string, defaults: seq<DefaultRole>, ids: seq<string>,
                            roles': map<string, Role>)
    requires |ids| == |defaults|
  {
    && (forall r :: r in roles' <==> r in roles || r in ids)
    && (forall r | r in roles && r !in ids :: roles'[r] == roles[r])
    && (forall i | 0 <= i < |ids| && LastAt(ids, i) ::
          roles'[ids[i]] == RoleRow(defaults[i], ws))
  }

  lemma AddsOneMore(roles: map<string, Role>, ws: string, ds: seq<DefaultRole>, ids: seq<string>, d: DefaultRole,
                    id: string, mid: map<string, Role>, ds': seq<DefaultRole>, ids': seq<string>)
    requires |ids| == |ds| && AddsRoles(roles, ws, ds, ids, mid) && ds' == ds + [d] && ids' == ids + [id]
    ensures AddsRoles(roles, ws, ds', ids', mid[id := RoleRow(d, ws)])
  {
    forall i: nat | i < |ids| && LastAt(ids', i) ensures ids'[i] != id && LastAt(ids, i) {
      assert ids'[|ids|] == id;
      assert forall k | i < k < |ids| :: ids'[k] == ids[k];
    }
  }

  lemma {:induction false} SeededAdds(roles: map<string, Role>, ws: string, defaults: seq<DefaultRole>,
                                      ids: seq<string>)
    requires |ids| == |defaults|
    ensures AddsRoles(roles, ws, defaults, ids, Seeded(roles, ws, defaults, ids))
  {
    if defaults != [] {
      var n := |ids| - 1;
      var mid := Seeded(roles, ws, defaults[..n], ids[..n]);
      SeededAdds(roles, ws, defaults[..n], ids[..n]);
      AddsOneMore(roles, ws, defaults[..n], ids[..n], defaults[n], ids[n], mid, defaults, ids);
      assert Seeded(roles, ws, defaults, ids) == mid[ids[n] := RoleRow(defaults[n], ws)];
    }
  }

  /** One transaction: the owner sits in the named role, every default role is there, or nothing happened. */
  ghost predicate CreationMeans(t: Store, ws: string, ownerId: string, slug: string, isPersonal: bool,
                                defaults: seq<DefaultRole>, ownerRoleName: string, roleIds: seq<string>,
                                memberId: string, t': Store, outcome: Outcome)
    requires |roleIds| == |defaults|
  {
    var free := forall w | w in t.workspaces :: t.workspaces[w].slug != slug;
    var distinct := forall i, j | 0 <= i < j < |defaults| :: defaults[i].name != defaults[j].name;
    && (outcome == Done <==> free && distinct && exists k | 0 <= k < |defaults| :: defaults[k].name == ownerRoleName)
    && (outcome != Done ==> outcome == StoreError && t' == t)
    && (outcome == Done ==>
          && t'.workspaces == t.workspaces[ws := Workspace(ownerId, slug, isPersonal, None)]
          && AddsRoles(t.roles, ws, defaults, roleIds, t'.roles)
          && (exists k | 0 <= k < |defaults| ::
                && defaults[k].name == ownerRoleName
                && t'.members == t.members[memberId := Member(ownerId, ws, roleIds[k])])
          && t'.invitations == t.invitations && t'.cutoffs == t.cutoffs)
  }

  lemma CreationByTables(t: Store, ws: string, ownerId: string, slug: string, isPersonal: bool,
                         defaults: seq<DefaultRole>, ownerRoleName: string, roleIds: seq<string>, memberId: string)
    requires |roleIds| == |defaults|
    ensures var (t', outcome) := CreatedWithDefaults(t, ws, ownerId, slug, isPersonal, defaults, ownerRoleName, roleIds,
                                                     memberId);
            CreationMeans(t, ws, ownerId, slug, isPersonal, defaults, ownerRoleName, roleIds, memberId, t', outcome)
  {
    SeededAdds(t.roles, ws, defaults, roleIds);
    if PositionOf(defaults, ownerRoleName).Some? {
      assert defaults[PositionOf(defaults, ownerRoleName).value].name == ownerRoleName;
    }
  }

  predicate DeletionMeans(t: Store, ws: string, now: int, t': Store, outcome: Outcome) {
    && (outcome == NotFound <==> !Stands(t, ws))
    && (outcome == Forbidden <==>
          Stands(t, ws) && (t.workspaces[ws].slug == "__admin__" || t.workspaces[ws].isPersonal))
    && (outcome == Done || outcome == NotFound || outcome == Forbidden)
    && t' == if outcome != Done then t
             else t.(workspaces := t.workspaces[ws := t.workspaces[ws].(deletedAt := Some(now))])
  }

  lemma DeletionByTables(t: Store, ws: string, now: int)
    ensures DeletionMeans(t, ws, now, Deleted(t, ws, now).0, Deleted(t, ws, now).1)
  {
  }

  /** The two memberships swap the roles Owner and Admin, and both users lose their old access tokens. */
  predicate HandsOver(t: Store, ws: string, from: string, target: string, owner: string, admin: string, now: int,
                      t': Store)
    requires ws in t.workspaces && from in t.members && target in t.members
  {
    var giver, taker := t.members[from].userId, t.members[target].userId;
    && owner in t.roles && t.roles[owner].workspaceId == ws && t.roles[owner].name == "Owner"
    && admin in t.roles && t.roles[admin].workspaceId == ws && t.roles[admin].name == "Admin"
    && t' == t.(members := t.members[from := Member(giver, t.members[from].workspaceId, admin)]
                                    [target := Member(taker, t.members[target].workspaceId, owner)],
                workspaces := t.workspaces[ws := t.workspaces[ws].(ownerId := taker)],
                cutoffs := t.cutoffs[giver := now][taker := now])
  }

  ghost predicate TransferMeans(t: Store, ws: string, caller: string, target: string, passwordOk: bool, now: int,
                                t': Store, outcome: Outcome)
  {
    var owns := Stands(t, ws) && t.workspaces[ws].ownerId == caller;
    var there := target in t.members && t.members[target].workspaceId == ws;
    var other := there && t.members[target].userId != caller;
    var roles := !NoRoleNamed(t, ws, "Owner") && !NoRoleNamed(t, ws, "Admin");
    && (outcome == NotFound <==> !Stands(t, ws) || (owns && passwordOk && !there))
    && (outcome == Forbidden <==> Stands(t, ws) && !owns)
    && (outcome == Unauthorized <==> owns && !passwordOk)
    && (outcome == BadRequest <==> owns && passwordOk && there && !(other && roles))
    && (outcome == Done <==> owns && passwordOk && other && roles && !NoMember(t, caller, ws))
    && (outcome != Done ==> t' == t)
    && (outcome == Done ==> exists from, owner, admin ::
          && from in t.members && t.members[from].workspaceId == ws && t.members[from].userId == caller
          && HandsOver(t, ws, from, target, owner, admin, now, t'))
  }

  lemma TransferByTables(t: Store, ws: string, caller: string, target: string, passwordOk: bool, now: int)
    ensures var (t', outcome) := Transferred(t, ws, caller, target, passwordOk, now);
            TransferMeans(t, ws, caller, target, passwordOk, now, t', outcome)
  {
    LookupsMean(t, caller, ws, OWNER);
    LookupsMean(t, caller, ws, ADMIN);
    var (t', outcome) := Transferred(t, ws, caller, target, passwordOk, now);
    if outcome == Done {
      var from, owner, admin := MembershipOf(t, caller, ws), RoleNamed(t, ws, OWNER), RoleNamed(t, ws, ADMIN);
      assert IsMembership(t, from.value, caller, ws);
      assert IsRoleNamed(t, owner.value, ws, OWNER) && IsRoleNamed(t, admin.value, ws, ADMIN);
      assert HandsOver(t, ws, from.value, target, owner.value, admin.value, now, t');
    }
  }

  predicate AssignmentMeans(t: Store, ws: string, m: string, roleId: string, now: int, t': Store, outcome: Outcome) {
    var there := m in t.members && t.members[m].workspaceId == ws;
    var owner := there && Stands(t, ws) && t.workspaces[ws].ownerId == t.members[m].userId;
    var placed := roleId in t.roles && t.roles[roleId].workspaceId == ws;
    && (outcome == NotFound <==> !there)
    && (outcome == Forbidden <==> owner)
    && (outcome == BadRequest <==> there && !owner && !placed)
    && (outcome == Done <==> there && !owner && placed)
    && t' == if outcome != Done then t
             else t.(members := t.members[m := Member(t.members[m].userId, ws, roleId)],
                     cutoffs := t.cutoffs[t.members[m].userId := now])
  }

  lemma AssignmentByTables(t: Store, ws: string, m: string, roleId: string, now: int)
    ensures AssignmentMeans(t, ws, m, roleId, now, RoleAssigned(t, ws, m, roleId, now).0,
                            RoleAssigned(t, ws, m, roleId, now).1)
  {
  }

  predicate RemovalMeans(t: Store, ws: string, m: string, caller: string, permitted: bool, t': Store, outcome: Outcome)
  {
    var there := m in t.members && t.members[m].workspaceId == ws;
    var owner := there && Stands(t, ws) && t.workspaces[ws].ownerId == t.members[m].userId;
    var mayRemove := there && !owner && (permitted || t.members[m].userId == caller);
    && (outcome == NotFound <==> !there)
    && (outcome == Forbidden <==> there && !mayRemove)
    && (outcome == Done <==> mayRemove)
    && t' == if outcome != Done then t else t.(members := t.members - {m})
  }

  lemma RemovalByTables(t: Store, ws: string, m: string, caller: string, permitted: bool)
    ensures RemovalMeans(t, ws, m, caller, permitted, MemberRemoved(t, ws, m, caller, permitted).0,
                         MemberRemoved(t, ws, m, caller, permitted).1)
  {
  }

  /** A created role is never a system role, and its name is new to the workspace. */
  predicate RoleCreationMeans(t: Store, ws: string, id: string, name: string, description: Option<string>,
                              keysKnown: bool, t': Store, outcome: Outcome)
  {
    var free := NoRoleNamed(t, ws, name);
    && (outcome == Conflict <==> !free)
    && (outcome == BadRequest <==> free && !keysKnown)
    && (outcome == StoreError <==> free && keysKnown && ws !in t.workspaces)
    && (outcome == Done <==> free && keysKnown && ws in t.workspaces)
    && t' == if outcome != Done then t else t.(roles := t.roles[id := Role(name, description, ws, false)])
  }

  lemma RoleCreationByTables(t: Store, ws: string, id: string, name: string, description: Option<string>,
                             keysKnown: bool)
    ensures var (t', outcome) := RoleCreated(t, ws, id, name, description, keysKnown);
            RoleCreationMeans(t, ws, id, name, description, keysKnown, t', outcome)
  {
    LookupsMean(t, "", ws, name);
  }

  /** Only a role's own name and description can change, and never to a name that another role has. */
  predicate RoleUpdateMeans(t: Store, ws: string, id: string, name: Option<string>, description: Option<string>,
                            keysKnown: bool, t': Store, outcome: Outcome)
  {
    var there := id in t.roles && t.roles[id].workspaceId == ws;
    var own := there && !t.roles[id].isSystem;
    var clash := own && name.Some? && name.value != "" && name.value != t.roles[id].name
                 && !NoRoleNamed(t, ws, name.value);
    && (outcome == NotFound <==> !there)
    && (outcome == Forbidden <==> there && t.roles[id].isSystem)
    && (outcome == Conflict <==> clash)
    && (outcome == BadRequest <==> own && !clash && !keysKnown)
    && (outcome == Done <==> own && !clash && keysKnown)
    && (outcome != Done ==> t' == t)
    && (outcome == Done ==>
          && t' == t.(roles := t'.roles) && t'.roles.Keys == t.roles.Keys && t'.roles - {id} == t.roles - {id}
          && t'.roles[id].workspaceId == ws && !t'.roles[id].isSystem
          && t'.roles[id].name == (if name == None || name == Some("") then t.roles[id].name else name.value)
          && t'.roles[id].description == (if description == None then t.roles[id].description else description))
  }

  lemma RoleUpdateByTables(t: Store, ws: string, id: string, name: Option<string>, description: Option<string>,
                           keysKnown: bool)
    ensures var (t', outcome) := RoleUpdated(t, ws, id, name, description, keysKnown);
            RoleUpdateMeans(t, ws, id, name, description, keysKnown, t', outcome)
  {
    if name.Some? {
      LookupsMean(t, "", ws, name.value);
    }
  }

  predicate RoleDeletionMeans(t: Store, ws: string, id: string, t': Store, outcome: Outcome) {
    var there := id in t.roles && t.roles[id].workspaceId == ws;
    var own := there && !t.roles[id].isSystem;
    var used := exists m | m in t.members :: t.members[m].roleId == id;
    && (outcome == NotFound <==> !there)
    && (outcome == Forbidden <==> there && t.roles[id].isSystem)
    && (outcome == Conflict <==> own && used)
    && (outcome == Done <==> own && !used)
    && t' == if outcome != Done then t else t.(roles := t.roles - {id})
  }

  lemma RoleDeletionByTables(t: Store, ws: string, id: string)
    ensures RoleDeletionMeans(t, ws, id, RoleDeleted(t, ws, id).0, RoleDeleted(t, ws, id).1)
  {
  }

  /** An invitation is open for seven days, and is sent to nobody who is a member or has an open one. */
  predicate InvitationMeans(t: Store, ws: string, id: string, email: string, roleId: string, tokenHash: string,
                            existingUser: Option<string>, now: int, t': Store, outcome: Outcome)
  {
    var placed := roleId in t.roles && t.roles[roleId].workspaceId == ws;
    var joined := existingUser.Some? && !NoMember(t, existingUser.value, ws);
    var open := exists i | i in t.invitations ::
                  && t.invitations[i].email == email && t.invitations[i].workspaceId == ws
                  && t.invitations[i].acceptedAt == None && now < t.invitations[i].expiresAt;
    var taken := exists i | i in t.invitations :: t.invitations[i].tokenHash == tokenHash;
    && (outcome == NotFound <==> !placed)
    && (outcome == Conflict <==> placed && (joined || open))
    && (outcome == StoreError <==> placed && !joined && !open && taken)
    && (outcome == Done <==> placed && !joined && !open && !taken)
    && (outcome != Done ==> t' == t)
    && (outcome == Done ==>
          var invitation := Invitation(email, ws, roleId, tokenHash, now + 604800000, None);
          t' == t.(invitations := t.invitations[id := invitation]))
  }

  lemma InvitationByTables(t: Store, ws: string, id: string, email: string, roleId: string, tokenHash: string,
                           existingUser: Option<string>, now: int)
    ensures var (t', outcome) := Invited(t, ws, id, email, roleId, tokenHash, existingUser, now);
            InvitationMeans(t, ws, id, email, roleId, tokenHash, existingUser, now, t', outcome)
  {
    if existingUser.Some? {
      LookupsMean(t, existingUser.value, ws, "");
    }
  }

  predicate RevocationMeans(t: Store, ws: string, id: string, t': Store, outcome: Outcome) {
    var own := id in t.invitations && t.invitations[id].workspaceId == ws;
    && (outcome == NotFound <==> !own)
    && (outcome == BadRequest <==> own && t.invitations[id].acceptedAt.Some?)
    && (outcome == Done <==> own && t.invitations[id].acceptedAt == None)
    && t' == if outcome != Done then t else t.(invitations := t.invitations - {id})
  }

  lemma RevocationByTables(t: Store, ws: string, id: string)
    ensures RevocationMeans(t, ws, id, InvitationRevoked(t, ws, id).0, InvitationRevoked(t, ws, id).1)
  {
  }

  /** Who may accept: an account with exactly the invited e-mail, while the invitation is open, that is no member
      yet; it joins the invitation's workspace with the invitation's role. */
  predicate AcceptanceMeans(t: Store, id: string, user: string, email: Option<string>, memberId: string, now: int,
                            t': Store, outcome: Outcome)
    requires id in t.invitations
  {
    var inv := t.invitations[id];
    var open := inv.acceptedAt == None && now <= inv.expiresAt;
    var invited := open && email == Some(inv.email);
    var joins := invited && NoMember(t, user, inv.workspaceId);
    && (outcome == BadRequest <==> !open)
    && (outcome == NotFound <==> open && email == None)
    && (outcome == Forbidden <==> open && email != None && !invited)
    && (outcome == Conflict <==> invited && !joins)
    && (outcome == StoreError <==> joins && inv.roleId !in t.roles)
    && (outcome == Done <==> joins && inv.roleId in t.roles)
    && t' == if outcome != Done then t
             else t.(members := t.members[memberId := Member(user, inv.workspaceId, inv.roleId)],
                     invitations := t.invitations[id := inv.(acceptedAt := Some(now))])
  }

  lemma AcceptanceByTables(t: Store, found: Option<string>, user: string, email: Option<string>, memberId: string,
                           now: int)
    ensures var (t', outcome) := Accepted(t, found, user, email, memberId, now);
            if found.None? || found.value !in t.invitations then outcome == NotFound && t' == t
            else AcceptanceMeans(t, found.value, user, email, memberId, now, t', outcome)
  {
    if found.Some? && found.value in t.invitations {
      LookupsMean(t, user, t.invitations[found.value].workspaceId, "");
    }
  }

  predicate JoiningMeans(t: Store, ws: string, user: string, emailTaken: bool, roleId: string, memberId: string,
                         t': Store, outcome: Outcome)
  {
    var placed := roleId in t.roles && t.roles[roleId].workspaceId == ws;
    && (outcome == Conflict <==> emailTaken)
    && (outcome == NotFound <==> !emailTaken && !placed)
    && (outcome == StoreError <==> !emailTaken && placed && !NoMember(t, user, ws))
    && (outcome == Done <==> !emailTaken && placed && NoMember(t, user, ws))
    && t' == if outcome != Done then t else t.(members := t.members[memberId := Member(user, ws, roleId)])
  }

  lemma JoiningByTables(t: Store, ws: string, user: string, emailTaken: bool, roleId: string, memberId: string)
    ensures var (t', outcome) := UserAdded(t, ws, user, emailTaken, roleId, memberId);
            JoiningMeans(t, ws, user, emailTaken, roleId, memberId, t', outcome)
  {
    LookupsMean(t, user, ws, "");
  }

  // ---------- The tables, updated in place ----------

  class Tables {
    var workspaces: map<string, Workspace>
    var members: map<string, Member>
    var roles: map<string, Role>
    var invitations: map<string, Invitation>
    var cutoffs: map<string, int>

    constructor (t: Store)
      ensures Snapshot() == t
    {
      workspaces, members, roles, invitations, cutoffs := t.workspaces, t.members, t.roles, t.invitations, t.cutoffs;
    }

    function Snapshot(): Store
      reads this
    {
      Store(workspaces, members, roles, invitations, cutoffs)
    }

    method FindByUserAndWorkspace(user: string, ws: string) returns (found: Option<string>)
      requires Unique(Snapshot())
      ensures found == MembershipOf(Snapshot(), user, ws)
    {
      var ids := members.Keys;
      while ids != {}
        invariant ids <= members.Keys
        invariant forall m | m in members && m !in ids :: !IsMembership(Snapshot(), m, user, ws)
        decreases ids
      {
        var m :| m in ids;
        if members[m].userId == user && members[m].workspaceId == ws {
          assert IsMembership(Snapshot(), m, user, ws);
          return Some(m);
        }
        ids := ids - {m};
      }
      found := None;
    }

    method FindByNameInWorkspace(name: string, ws: string) returns (found: Option<string>)
      requires Unique(Snapshot())
      ensures found == RoleNamed(Snapshot(), ws, name)
    {
      var ids := roles.Keys;
      while ids != {}
        invariant ids <= roles.Keys
        invariant forall r | r in roles && r !in ids :: !IsRoleNamed(Snapshot(), r, ws, name)
        decreases ids
      {
        var r :| r in ids;
        if roles[r].name == name && roles[r].workspaceId == ws {
          assert IsRoleNamed(Snapshot(), r, ws, name);
          return Some(r);
        }
        ids := ids - {r};
      }
      found := None;
    }

    method CountMembersUsingRole(roleId: string) returns (count: nat)
      ensures count == |set m | m in members && members[m].roleId == roleId|
      ensures count > 0 <==> RoleInUse(Snapshot(), roleId)
    {
      var using := set m | m in members && members[m].roleId == roleId;
      count := |using|;
      if RoleInUse(Snapshot(), roleId) {
        var m :| m in members && members[m].roleId == roleId;
        assert m in using;
      } else {
        assert using == {};
      }
    }

    /** One transaction: any failure leaves every table as it was. */
    method CreateWithDefaults(ws: string, ownerId: string, slug: string, isPersonal: bool,
                              defaults: seq<DefaultRole>, ownerRoleName: string,
                              roleIds: seq<string>, memberId: string) returns (outcome: Outcome)
      requires |roleIds| == |defaults|
      modifies this
      ensures (Snapshot(), outcome) ==
              CreatedWithDefaults(old(Snapshot()), ws, ownerId, slug, isPersonal, defaults, ownerRoleName, roleIds,
                                  memberId)
    {
      if SlugTaken(Snapshot(), slug) {
        return StoreError;
      }
      var ownerRoleId: Option<string> := None;
      var newRoles := roles;
      var names: set<string> := {};
      for i := 0 to |defaults|
        invariant Snapshot() == old(Snapshot())
        invariant newRoles == Seeded(roles, ws, defaults[..i], roleIds[..i])
        invariant names == set k | 0 <= k < i :: defaults[k].name
        invariant DistinctNames(defaults[..i])
        invariant ownerRoleId.Some? == PositionOf(defaults[..i], ownerRoleName).Some?
        invariant ownerRoleId.Some? ==> ownerRoleId.value == roleIds[PositionOf(defaults[..i], ownerRoleName).value]
      {
        SeededOneMore(roles, ws, defaults, roleIds, i);
        NamedOneMore(defaults, ownerRoleName, i);
        if defaults[i].name in names {
          ClashStays(defaults, i + 1);
          return StoreError;
        }
        newRoles :=
          newRoles[roleIds[i] := Role(defaults[i].name, Some(defaults[i].description), ws, defaults[i].isSystem)];
        names := names + {defaults[i].name};
        if defaults[i].name == ownerRoleName {
          ownerRoleId := Some(roleIds[i]);
        }
      }
      assert defaults[..|defaults|] == defaults && roleIds[..|defaults|] == roleIds;
      if ownerRoleId == None {
        return StoreError;
      }
      workspaces := workspaces[ws := Workspace(ownerId, slug, isPersonal, None)];
      roles := newRoles;
      members := members[memberId := Member(ownerId, ws, ownerRoleId.value)];
      outcome := Done;
    }

    method DeleteWorkspace(ws: string, now: int) returns (outcome: Outcome)
      modifies this`workspaces
      ensures (Snapshot(), outcome) == Deleted(old(Snapshot()), ws, now)
      ensures outcome != Done ==> workspaces == old(workspaces)
      ensures outcome == Done ==>
                && ws in old(workspaces) && old(workspaces)[ws].slug != ADMIN_WORKSPACE_SLUG
                && !old(workspaces)[ws].isPersonal
                && workspaces - {ws} == old(workspaces) - {ws}
                && FindWorkspace(Snapshot(), ws) == None && workspaces[ws].ownerId == old(workspaces)[ws].ownerId
      ensures DeletionMeans(old(Snapshot()), ws, now, Snapshot(), outcome)
    {
      DeletionByTables(Snapshot(), ws, now);
      if ws !in workspaces || workspaces[ws].deletedAt.Some? {
        return NotFound;
      }
      if workspaces[ws].slug == ADMIN_WORKSPACE_SLUG {
        return Forbidden;
      }
      if workspaces[ws].isPersonal {
        return Forbidden;
      }
      workspaces := workspaces[ws := workspaces[ws].(deletedAt := Some(now))];
      outcome := Done;
    }

    method TransferOwnership(ws: string, caller: string, target: string, passwordOk: bool, now: int)
      returns (outcome: Outcome)
      requires Unique(Snapshot())
      modifies this`members, this`workspaces, this`cutoffs
      ensures (Snapshot(), outcome) == Transferred(old(Snapshot()), ws, caller, target, passwordOk, now)
      ensures TransferMeans(old(Snapshot()), ws, caller, target, passwordOk, now, Snapshot(), outcome)
    {
      TransferByTables(Snapshot(), ws, caller, target, passwordOk, now);
      if ws !in workspaces || workspaces[ws].deletedAt.Some? {
        return NotFound;
      }
      if workspaces[ws].ownerId != caller {
        return Forbidden;
      }
      if !passwordOk {
        return Unauthorized;
      }
      if target !in members || members[target].workspaceId != ws {
        return NotFound;
      }
      if members[target].userId == caller {
        return BadRequest;
      }
      var ownerRole := FindByNameInWorkspace(OWNER, ws);
      var adminRole := FindByNameInWorkspace(ADMIN, ws);
      if ownerRole.None? || adminRole.None? {
        return BadRequest;
      }
      var from := FindByUserAndWorkspace(caller, ws);
      if from.None? {
        return StoreError;
      }
      members := members[from.value := members[from.value].(roleId := adminRole.value)];
      members := members[target := members[target].(roleId := ownerRole.value)];
      workspaces := workspaces[ws := workspaces[ws].(ownerId := members[target].userId)];
      cutoffs := cutoffs[caller := now];
      cutoffs := cutoffs[members[target].userId := now];
      outcome := Done;
    }

    method UpdateMemberRole(ws: string, m: string, roleId: string, now: int) returns (outcome: Outcome)
      modifies this`members, this`cutoffs
      ensures (Snapshot(), outcome) == RoleAssigned(old(Snapshot()), ws, m, roleId, now)
      ensures members.Keys == old(members).Keys && members - {m} == old(members) - {m}
      ensures outcome != Done ==> members == old(members) && cutoffs == old(cutoffs)
      ensures outcome == Done ==>
                && RoleIn(Snapshot(), members[m].roleId, ws) && members[m].roleId == roleId
                && members[m].userId == old(members)[m].userId && members[m].workspaceId == ws
                && !OwnedBy(Snapshot(), ws, members[m].userId)
                && members[m].userId in cutoffs && cutoffs[members[m].userId] == now
      ensures AssignmentMeans(old(Snapshot()), ws, m, roleId, now, Snapshot(), outcome)
    {
      AssignmentByTables(Snapshot(), ws, m, roleId, now);
      if m !in members || members[m].workspaceId != ws {
        return NotFound;
      }
      if OwnedBy(Snapshot(), ws, members[m].userId) {
        return Forbidden;
      }
      if roleId !in roles || roles[roleId].workspaceId != ws {
        return BadRequest;
      }
      members := members[m := members[m].(roleId := roleId)];
      cutoffs := cutoffs[members[m].userId := now];
      outcome := Done;
    }

    method RemoveMember(ws: string, m: string, caller: string, permitted: bool) returns (outcome: Outcome)
      modifies this`members
      ensures (Snapshot(), outcome) == MemberRemoved(old(Snapshot()), ws, m, caller, permitted)
      ensures outcome != Done ==> members == old(members)
      ensures outcome == Done ==>
                && m in old(members) && m !in members && members == old(members) - {m}
                && !OwnedBy(Snapshot(), ws, old(members)[m].userId)
                && (permitted || old(members)[m].userId == caller)
      ensures RemovalMeans(old(Snapshot()), ws, m, caller, permitted, Snapshot(), outcome)
    {
      RemovalByTables(Snapshot(), ws, m, caller, permitted);
      if m !in members || members[m].workspaceId != ws {
        return NotFound;
      }
      if OwnedBy(Snapshot(), ws, members[m].userId) {
        return Forbidden;
      }
      var isSelf := members[m].userId == caller;
      if !isSelf && !permitted {
        return Forbidden;
      }
      members := members - {m};
      outcome := Done;
    }

    method CreateRole(ws: string, id: string, name: string, description: Option<string>, keysKnown: bool)
      returns (outcome: Outcome)
      requires Unique(Snapshot())
      modifies this`roles
      ensures (Snapshot(), outcome) == RoleCreated(old(Snapshot()), ws, id, name, description, keysKnown)
      ensures RoleCreationMeans(old(Snapshot()), ws, id, name, description, keysKnown, Snapshot(), outcome)
    {
      RoleCreationByTables(Snapshot(), ws, id, name, description, keysKnown);
      var existing := FindByNameInWorkspace(name, ws);
      if existing.Some? {
        return Conflict;
      }
      if !keysKnown {
        return BadRequest;
      }
      if ws !in workspaces {
        return StoreError;
      }
      roles := roles[id := Role(name, description, ws, false)];
      outcome := Done;
    }

    method UpdateRole(ws: string, id: string, name: Option<string>, description: Option<string>, keysKnown: bool)
      returns (outcome: Outcome)
      requires Unique(Snapshot())
      modifies this`roles
      ensures (Snapshot(), outcome) == RoleUpdated(old(Snapshot()), ws, id, name, description, keysKnown)
      ensures RoleUpdateMeans(old(Snapshot()), ws, id, name, description, keysKnown, Snapshot(), outcome)
    {
      RoleUpdateByTables(Snapshot(), ws, id, name, description, keysKnown);
      if id !in roles || roles[id].workspaceId != ws {
        return NotFound;
      }
      if roles[id].isSystem {
        return Forbidden;
      }
      var renames := name.Some? && name.value != "";
      if renames && name.value != roles[id].name {
        var conflict := FindByNameInWorkspace(name.value, ws);
        if conflict.Some? {
          return Conflict;
        }
      }
      if !keysKnown {
        return BadRequest;
      }
      var role := roles[id];
      if renames {
        role := role.(name := name.value);
      }
      if description.Some? {
        role := role.(description := description);
      }
      roles := roles[id := role];
      outcome := Done;
    }

    method DeleteRole(ws: string, id: string) returns (outcome: Outcome)
      modifies this`roles
      ensures (Snapshot(), outcome) == RoleDeleted(old(Snapshot()), ws, id)
      ensures RoleDeletionMeans(old(Snapshot()), ws, id, Snapshot(), outcome)
    {
      RoleDeletionByTables(Snapshot(), ws, id);
      if id !in roles || roles[id].workspaceId != ws {
        return NotFound;
      }
      if roles[id].isSystem {
        return Forbidden;
      }
      var inUse := CountMembersUsingRole(id);
      if inUse > 0 {
        return Conflict;
      }
      roles := roles - {id};
      outcome := Done;
    }

    method FindByTokenHash(tokenHash: string) returns (found: Option<string>)
      ensures FindsInvitation(Snapshot(), tokenHash, found)
    {
      var ids := invitations.Keys;
      while ids != {}
        invariant ids <= invitations.Keys
        invariant forall i | i in invitations && i !in ids :: invitations[i].tokenHash != tokenHash
        decreases ids
      {
        var i :| i in ids;
        if invitations[i].tokenHash == tokenHash {
          return Some(i);
        }
        ids := ids - {i};
      }
      found := None;
    }

    method SendInvitation(ws: string, id: string, email: string, roleId: string, tokenHash: string,
                          existingUser: Option<string>, now: int)
      returns (outcome: Outcome)
      requires Unique(Snapshot())
      modifies this`invitations
      ensures (Snapshot(), outcome) == Invited(old(Snapshot()), ws, id, email, roleId, tokenHash, existingUser, now)
      ensures InvitationMeans(old(Snapshot()), ws, id, email, roleId, tokenHash, existingUser, now, Snapshot(), outcome)
    {
      InvitationByTables(Snapshot(), ws, id, email, roleId, tokenHash, existingUser, now);
      if roleId !in roles || roles[roleId].workspaceId != ws {
        return NotFound;
      }
      if existingUser.Some? {
        var membership := FindByUserAndWorkspace(existingUser.value, ws);
        if membership.Some? {
          return Conflict;
        }
      }
      if Pending(Snapshot(), email, ws, now) {
        return Conflict;
      }
      var clash := FindByTokenHash(tokenHash);
      if clash.Some? {
        return StoreError;
      }
      invitations := invitations[id := Invitation(email, ws, roleId, tokenHash, now + INVITATION_TTL_MS, None)];
      outcome := Done;
    }

    method RevokeInvitation(ws: string, id: string) returns (outcome: Outcome)
      modifies this`invitations
      ensures (Snapshot(), outcome) == InvitationRevoked(old(Snapshot()), ws, id)
      ensures forall i | i in old(invitations) && old(invitations)[i].acceptedAt.Some? ::
                i in invitations && invitations[i] == old(invitations)[i]
      ensures outcome != Done ==> invitations == old(invitations)
      ensures outcome == Done ==> id in old(invitations) && id !in invitations && invitations == old(invitations) - {id}
      ensures RevocationMeans(old(Snapshot()), ws, id, Snapshot(), outcome)
    {
      RevocationByTables(Snapshot(), ws, id);
      if id !in invitations || invitations[id].workspaceId != ws {
        return NotFound;
      }
      if invitations[id].acceptedAt.Some? {
        return BadRequest;
      }
      invitations := invitations - {id};
      outcome := Done;
    }

    method AcceptInvitation(tokenHash: string, user: string, email: Option<string>, memberId: string, now: int)
      returns (outcome: Outcome)
      requires Unique(Snapshot())
      modifies this`members, this`invitations
      ensures exists found | FindsInvitation(old(Snapshot()), tokenHash, found) ::
                (Snapshot(), outcome) == Accepted(old(Snapshot()), found, user, email, memberId, now)
      ensures (forall i | i in old(invitations) :: old(invitations)[i].tokenHash != tokenHash) ==>
                outcome == NotFound && Snapshot() == old(Snapshot())
      ensures (exists i :: i in old(invitations) && old(invitations)[i].tokenHash == tokenHash) ==>
                exists i | i in old(invitations) && old(invitations)[i].tokenHash == tokenHash ::
                  AcceptanceMeans(old(Snapshot()), i, user, email, memberId, now, Snapshot(), outcome)
    {
      var found := FindByTokenHash(tokenHash);
      AcceptanceByTables(Snapshot(), found, user, email, memberId, now);
      if found.None? {
        return NotFound;
      }
      var id := found.value;
      var invitation := invitations[id];
      if invitation.acceptedAt.Some? {
        return BadRequest;
      }
      if invitation.expiresAt < now {
        return BadRequest;
      }
      if email.None? {
        return NotFound;
      }
      if email.value != invitation.email {
        return Forbidden;
      }
      var existing := FindByUserAndWorkspace(user, invitation.workspaceId);
      if existing.Some? {
        return Conflict;
      }
      if invitation.roleId !in roles {
        return StoreError;
      }
      members := members[memberId := Member(user, invitation.workspaceId, invitation.roleId)];
      invitations := invitations[id := invitation.(acceptedAt := Some(now))];
      outcome := Done;
    }

    method CreateUser(ws: string, user: string, emailTaken: bool, roleId: string, memberId: string)
      returns (outcome: Outcome)
      requires Unique(Snapshot())
      modifies this`members
      ensures (Snapshot(), outcome) == UserAdded(old(Snapshot()), ws, user, emailTaken, roleId, memberId)
      ensures JoiningMeans(old(Snapshot()), ws, user, emailTaken, roleId, memberId, Snapshot(), outcome)
    {
      JoiningByTables(Snapshot(), ws, user, emailTaken, roleId, memberId);
      if emailTaken {
        return Conflict;
      }
      if roleId !in roles || roles[roleId].workspaceId != ws {
        return NotFound;
      }
      var clash := FindByUserAndWorkspace(user, ws);
      if clash.Some? {
        return StoreError;
      }
      members := members[memberId := Member(user, ws, roleId)];
      outcome := Done;
    }
  }
}
