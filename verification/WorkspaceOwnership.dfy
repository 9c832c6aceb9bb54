/** What every serial run of the workspace use cases keeps. */
module WorkspaceOwnership {
  import opened Options
  import opened WorkspaceStore

  /** The ids of the system roles a workspace was created with. */
  datatype Founding = Founding(ownerRole: string, adminRole: string, memberRole: string)

  /** `built` is a history variable: the workspaces made by the create-workspace use case. */
  datatype State = State(store: Store, built: map<string, Founding>)

  datatype Action =
    | CreateWorkspace(ws: string, ownerId: string, slug: string, isPersonal: bool, roleIds: Founding, memberId: string)
    | DeleteWorkspace(ws: string, now: int)
    | TransferOwnership(ws: string, caller: string, target: string, passwordOk: bool, now: int)
    | UpdateMemberRole(ws: string, member: string, roleId: string, now: int)
    | RemoveMember(ws: string, member: string, caller: string, permitted: bool)
    | CreateRole(ws: string, id: string, name: string, description: Option<string>, keysKnown: bool)
    | UpdateRole(ws: string, id: string, rename: Option<string>, description: Option<string>, keysKnown: bool)
    | DeleteRole(ws: string, id: string)
    | SendInvitation(ws: string, id: string, email: string, roleId: string, tokenHash: string,
                     existingUser: Option<string>, now: int)
    | RevokeInvitation(ws: string, id: string)
    | AcceptInvitation(found: Option<string>, user: string, account: Option<string>, memberId: string, now: int)
    | CreateUser(ws: string, user: string, emailTaken: bool, roleId: string, memberId: string)

  predicate FreshRole(t: Store, id: string) {
    id !in t.roles && forall i | i in t.invitations :: t.invitations[i].roleId != id
  }

  /** Generated ids are fresh. */
  predicate Enabled(s: State, a: Action) {
    match a
    case CreateWorkspace(ws, _, _, _, ids, memberId) =>
      && ws !in s.store.workspaces && memberId !in s.store.members
      && FreshRole(s.store, ids.ownerRole) && FreshRole(s.store, ids.adminRole) && FreshRole(s.store, ids.memberRole)
      && ids.ownerRole != ids.adminRole && ids.ownerRole != ids.memberRole && ids.adminRole != ids.memberRole
    case CreateRole(_, id, _, _, _) => FreshRole(s.store, id)
    case SendInvitation(_, id, _, _, _, _, _) => id !in s.store.invitations
    case AcceptInvitation(_, _, _, memberId, _) => memberId !in s.store.members
    case CreateUser(_, _, _, _, memberId) => memberId !in s.store.members
    case _ => true
  }

  ghost function Effect(t: Store, a: Action): (Store, Outcome) {
    match a
    case CreateWorkspace(ws, ownerId, slug, isPersonal, ids, memberId) =>
      CreatedWithDefaults(t, ws, ownerId, slug, isPersonal, DEFAULT_ROLES, OWNER,
                          [ids.ownerRole, ids.adminRole, ids.memberRole], memberId)
    case DeleteWorkspace(ws, now) => Deleted(t, ws, now)
    case TransferOwnership(ws, caller, target, passwordOk, now) => Transferred(t, ws, caller, target, passwordOk, now)
    case UpdateMemberRole(ws, m, roleId, now) => RoleAssigned(t, ws, m, roleId, now)
    case RemoveMember(ws, m, caller, permitted) => MemberRemoved(t, ws, m, caller, permitted)
    case CreateRole(ws, id, name, description, keysKnown) => RoleCreated(t, ws, id, name, description, keysKnown)
    case UpdateRole(ws, id, name, description, keysKnown) => RoleUpdated(t, ws, id, name, description, keysKnown)
    case DeleteRole(ws, id) => RoleDeleted(t, ws, id)
    case SendInvitation(ws, id, email, roleId, tokenHash, existingUser, now) =>
      Invited(t, ws, id, email, roleId, tokenHash, existingUser, now)
    case RevokeInvitation(ws, id) => InvitationRevoked(t, ws, id)
    case AcceptInvitation(found, user, email, memberId, now) => Accepted(t, found, user, email, memberId, now)
    case CreateUser(ws, user, emailTaken, roleId, memberId) => UserAdded(t, ws, user, emailTaken, roleId, memberId)
  }

  ghost function Next(s: State, a: Action): State {
    var (t, outcome) := Effect(s.store, a);
    State(t, if a.CreateWorkspace? && outcome == Done then s.built[a.ws := a.roleIds] else s.built)
  }

  // ---------- The invariant ----------

  /** Every member's role is a role of the member's own workspace, and so is an invitation's role while it exists. */
  ghost predicate Placed(t: Store) {
    && (forall m | m in t.members :: RoleIn(t, t.members[m].roleId, t.members[m].workspaceId))
    && (forall r | r in t.roles :: t.roles[r].workspaceId in t.workspaces)
    && (forall i | i in t.invitations && t.invitations[i].roleId in t.roles ::
          t.roles[t.invitations[i].roleId].workspaceId == t.invitations[i].workspaceId)
  }

  ghost predicate WellKeyed(t: Store) {
    Unique(t) && Placed(t)
  }

  predicate IsSystemRole(t: Store, ws: string, id: string, name: string) {
    IsRoleNamed(t, id, ws, name) && t.roles[id].isSystem
  }

  /** The owner's seat: a membership of the owner holding the role. */
  predicate OwnerHolds(t: Store, ws: string, m: string, role: string)
    requires ws in t.workspaces
  {
    IsMembership(t, m, t.workspaces[ws].ownerId, ws) && t.members[m].roleId == role
  }

  /** The workspace has its three system roles, and while not deleted its owner is a member with the Owner role. */
  ghost predicate Sound(t: Store, ws: string, f: Founding) {
    && ws in t.workspaces
    && IsSystemRole(t, ws, f.ownerRole, OWNER) && IsSystemRole(t, ws, f.adminRole, ADMIN)
    && IsSystemRole(t, ws, f.memberRole, MEMBER)
    && (t.workspaces[ws].deletedAt == None ==> exists m :: OwnerHolds(t, ws, m, f.ownerRole))
  }

  ghost predicate Inv(s: State) {
    WellKeyed(s.store) && forall ws | ws in s.built :: Sound(s.store, ws, s.built[ws])
  }

  ghost predicate OwnersStay(t: Store, t': Store) {
    forall w | w in t.workspaces ::
      w in t'.workspaces && t'.workspaces[w].ownerId == t.workspaces[w].ownerId
      && (t.workspaces[w].deletedAt.Some? ==> t'.workspaces[w].deletedAt.Some?)
  }

  ghost predicate SystemRolesStay(t: Store, t': Store) {
    forall r | r in t.roles && t.roles[r].isSystem :: r in t'.roles && t'.roles[r] == t.roles[r]
  }

  ghost predicate OwnersMembershipsStay(t: Store, t': Store) {
    forall m | m in t.members && OwnedBy(t, t.members[m].workspaceId, t.members[m].userId) ::
      m in t'.members && t'.members[m] == t.members[m]
  }

  /** Owners, deletions, system roles and owners' memberships only ever stay. */
  ghost predicate Steady(t: Store, t': Store) {
    OwnersStay(t, t') && SystemRolesStay(t, t') && OwnersMembershipsStay(t, t')
  }

  lemma SteadyKeepsSound(t: Store, t': Store, ws: string, f: Founding)
    requires Steady(t, t') && Sound(t, ws, f)
    ensures Sound(t', ws, f)
  {
    if t'.workspaces[ws].deletedAt == None {
      var m :| OwnerHolds(t, ws, m, f.ownerRole);
      assert OwnedBy(t, ws, t.members[m].userId);
      assert OwnerHolds(t', ws, m, f.ownerRole);
    }
  }

  lemma MembersOnly(t: Store, t': Store)
    requires t'.workspaces == t.workspaces && t'.roles == t.roles && OwnersMembershipsStay(t, t')
    ensures Steady(t, t')
  {
  }

  lemma RolesOnly(t: Store, t': Store)
    requires t'.workspaces == t.workspaces && t'.members == t.members && SystemRolesStay(t, t')
    ensures Steady(t, t')
  {
  }

  function NewRole(ws: string, k: nat): Role
    requires k < |DEFAULT_ROLES|
  {
    Role(DEFAULT_ROLES[k].name, Some(DEFAULT_ROLES[k].description), ws, DEFAULT_ROLES[k].isSystem)
  }

  lemma SeededWith(roles: map<string, Role>, ws: string, ids: Founding)
    ensures Seeded(roles, ws, DEFAULT_ROLES, [ids.ownerRole, ids.adminRole, ids.memberRole]) ==
            roles[ids.ownerRole := NewRole(ws, 0)][ids.adminRole := NewRole(ws, 1)][ids.memberRole := NewRole(ws, 2)]
  {
    var roleIds := [ids.ownerRole, ids.adminRole, ids.memberRole];
    assert DEFAULT_ROLES[..2][..1][..0] == [] && roleIds[..2][..1][..0] == [];
    assert DEFAULT_ROLES[..2][..1][0] == DEFAULT_ROLES[0] && DEFAULT_ROLES[..2][1] == DEFAULT_ROLES[1];
    assert Seeded(roles, ws, DEFAULT_ROLES[..2][..1], roleIds[..2][..1]) == roles[ids.ownerRole := NewRole(ws, 0)];
    assert Seeded(roles, ws, DEFAULT_ROLES[..2], roleIds[..2]) ==
           roles[ids.ownerRole := NewRole(ws, 0)][ids.adminRole := NewRole(ws, 1)];
  }

  predicate TouchesMembersOnly(a: Action) {
    a.UpdateMemberRole? || a.RemoveMember? || a.CreateUser?
  }

  lemma MemberStepIsSteady(s: State, a: Action)
    requires Enabled(s, a) && TouchesMembersOnly(a)
    ensures Steady(s.store, Effect(s.store, a).0)
  {
    MembersOnly(s.store, Effect(s.store, a).0);
  }

  predicate TouchesRolesOnly(a: Action) {
    a.CreateRole? || a.UpdateRole? || a.DeleteRole?
  }

  lemma RoleStepIsSteady(s: State, a: Action)
    requires Enabled(s, a) && TouchesRolesOnly(a)
    ensures Steady(s.store, Effect(s.store, a).0)
  {
    RolesOnly(s.store, Effect(s.store, a).0);
  }

  lemma CreationIsSteady(s: State, a: Action)
    requires Enabled(s, a) && a.CreateWorkspace?
    ensures Steady(s.store, Effect(s.store, a).0)
  {
    SeededWith(s.store.roles, a.ws, a.roleIds);
  }

  lemma InvitationsOnly(t: Store, t': Store)
    requires t'.workspaces == t.workspaces && t'.members == t.members && t'.roles == t.roles
    ensures Steady(t, t')
  {
  }

  lemma InvitationStepIsSteady(s: State, a: Action)
    requires a.SendInvitation? || a.RevokeInvitation?
    ensures Steady(s.store, Effect(s.store, a).0)
  {
    InvitationsOnly(s.store, Effect(s.store, a).0);
  }

  lemma AcceptanceIsSteady(t: Store, found: Option<string>, user: string, email: Option<string>, memberId: string,
                           now: int)
    requires memberId !in t.members
    ensures Steady(t, Accepted(t, found, user, email, memberId, now).0)
  {
    MembersOnly(t, Accepted(t, found, user, email, memberId, now).0);
  }

  lemma WorkspacesOnly(t: Store, t': Store)
    requires t'.members == t.members && t'.roles == t.roles && OwnersStay(t, t')
    ensures Steady(t, t')
  {
  }

  lemma DeletionIsSteady(t: Store, ws: string, now: int)
    ensures Steady(t, Deleted(t, ws, now).0)
  {
    WorkspacesOnly(t, Deleted(t, ws, now).0);
  }

  /** Every use case but a transfer is steady, whatever the tables hold. */
  lemma StepIsSteady(s: State, a: Action)
    requires Enabled(s, a) && !a.TransferOwnership?
    ensures Steady(s.store, Effect(s.store, a).0)
  {
    match a
    case CreateWorkspace(_, _, _, _, _, _) => CreationIsSteady(s, a);
    case DeleteWorkspace(ws, now) => DeletionIsSteady(s.store, ws, now);
    case AcceptInvitation(found, user, email, memberId, now) =>
      AcceptanceIsSteady(s.store, found, user, email, memberId, now);
    case SendInvitation(_, _, _, _, _, _, _) => InvitationStepIsSteady(s, a);
    case RevokeInvitation(_, _) => InvitationStepIsSteady(s, a);
    case CreateRole(_, _, _, _, _) => RoleStepIsSteady(s, a);
    case UpdateRole(_, _, _, _, _) => RoleStepIsSteady(s, a);
    case DeleteRole(_, _) => RoleStepIsSteady(s, a);
    case _ => MemberStepIsSteady(s, a);
  }

  // ---------- Keys and references ----------

  function NewRoles(t: Store, ws: string, ids: Founding): map<string, Role> {
    t.roles[ids.ownerRole := NewRole(ws, 0)][ids.adminRole := NewRole(ws, 1)][ids.memberRole := NewRole(ws, 2)]
  }

  lemma NewRolesAreUnique(t: Store, ws: string, ids: Founding)
    requires UniqueRoles(t.roles) && forall r | r in t.roles :: t.roles[r].workspaceId != ws
    ensures UniqueRoles(NewRoles(t, ws, ids))
  {
    var one := t.roles[ids.ownerRole := NewRole(ws, 0)];
    var two := one[ids.adminRole := NewRole(ws, 1)];
    assert NewRole(ws, 0).name[0] == 'O' && NewRole(ws, 1).name[0] == 'A' && NewRole(ws, 2).name[0] == 'M';
    assert UniqueRoles(one);
    assert UniqueRoles(two);
  }

  /** Adding a workspace with fresh roles of its own, and one member holding one of them. */
  lemma FoundingKeepsPlaced(t: Store, ws: string, w: Workspace, ids: Founding, memberId: string, member: Member,
                            roles: map<string, Role>)
    requires Placed(t) && ws !in t.workspaces && memberId !in t.members
    requires FreshRole(t, ids.ownerRole) && FreshRole(t, ids.adminRole) && FreshRole(t, ids.memberRole)
    requires roles.Keys == t.roles.Keys + {ids.ownerRole, ids.adminRole, ids.memberRole}
    requires forall r | r in roles :: if r in t.roles then roles[r] == t.roles[r] else roles[r].workspaceId == ws
    requires member.workspaceId == ws && member.roleId == ids.ownerRole
    ensures Placed(Store(t.workspaces[ws := w], t.members[memberId := member], roles, t.invitations, t.cutoffs))
  {
  }

  lemma DefaultNames()
    ensures DistinctNames(DEFAULT_ROLES) && PositionOf(DEFAULT_ROLES, OWNER) == Some(0)
  {
    assert DEFAULT_ROLES[0].name[0] == 'O' && DEFAULT_ROLES[1].name[0] == 'A' && DEFAULT_ROLES[2].name[0] == 'M';
  }

  /** The workspace, its three roles and the owner's membership, or nothing when the slug is taken. */
  lemma CreationEffect(t: Store, a: Action)
    requires a.CreateWorkspace?
    ensures Effect(t, a).1 == if SlugTaken(t, a.slug) then StoreError else Done
    ensures Effect(t, a).0 ==
            if SlugTaken(t, a.slug) then t
            else Store(t.workspaces[a.ws := Workspace(a.ownerId, a.slug, a.isPersonal, None)],
                       t.members[a.memberId := Member(a.ownerId, a.ws, a.roleIds.ownerRole)],
                       NewRoles(t, a.ws, a.roleIds),
                       t.invitations, t.cutoffs)
  {
    SeededWith(t.roles, a.ws, a.roleIds);
    DefaultNames();
  }

  lemma CreationKeepsUnique(t: Store, ws: string, ids: Founding, memberId: string, owner: string)
    requires WellKeyed(t) && ws !in t.workspaces && memberId !in t.members
    ensures UniqueMembers(t.members[memberId := Member(owner, ws, ids.ownerRole)]) && UniqueRoles(NewRoles(t, ws, ids))
  {
    NewRolesAreUnique(t, ws, ids);
    assert forall m | m in t.members :: t.members[m].workspaceId != ws;
  }

  lemma NewRolesAre(t: Store, ws: string, ids: Founding)
    requires FreshRole(t, ids.ownerRole) && FreshRole(t, ids.adminRole) && FreshRole(t, ids.memberRole)
    ensures NewRoles(t, ws, ids).Keys == t.roles.Keys + {ids.ownerRole, ids.adminRole, ids.memberRole}
    ensures forall r | r in NewRoles(t, ws, ids) ::
              if r in t.roles then NewRoles(t, ws, ids)[r] == t.roles[r] else NewRoles(t, ws, ids)[r].workspaceId == ws
  {
  }

  lemma CreationKeepsKeys(s: State, a: Action)
    requires WellKeyed(s.store) && Enabled(s, a) && a.CreateWorkspace?
    ensures WellKeyed(Effect(s.store, a).0)
  {
    var t, ws, ids, memberId := s.store, a.ws, a.roleIds, a.memberId;
    CreationEffect(t, a);
    CreationKeepsUnique(t, ws, ids, memberId, a.ownerId);
    NewRolesAre(t, ws, ids);
    FoundingKeepsPlaced(t, ws, Workspace(a.ownerId, a.slug, a.isPersonal, None), ids, memberId,
                        Member(a.ownerId, ws, ids.ownerRole), NewRoles(t, ws, ids));
  }

  lemma JoiningKeepsUnique(t: Store, id: string, user: string, ws: string, roleId: string)
    requires UniqueMembers(t.members) && MembershipOf(t, user, ws).None?
    ensures UniqueMembers(t.members[id := Member(user, ws, roleId)])
  {
    assert forall m | m in t.members :: !IsMembership(t, m, user, ws);
  }

  lemma MemberStepKeepsKeys(s: State, a: Action)
    requires WellKeyed(s.store) && Enabled(s, a) && TouchesMembersOnly(a)
    ensures WellKeyed(Effect(s.store, a).0)
  {
    if a.CreateUser? && Effect(s.store, a).1 == Done {
      JoiningKeepsUnique(s.store, a.memberId, a.user, a.ws, a.roleId);
    }
  }

  lemma NamingKeepsUnique(t: Store, id: string, ws: string, role: Role)
    requires UniqueRoles(t.roles) && role.workspaceId == ws
    requires RoleNamed(t, ws, role.name).None?
             || (id in t.roles && t.roles[id].name == role.name && t.roles[id].workspaceId == ws)
    ensures UniqueRoles(t.roles[id := role])
  {
    if RoleNamed(t, ws, role.name).None? {
      assert forall r | r in t.roles :: !IsRoleNamed(t, r, ws, role.name);
    }
  }

  lemma RoleStepKeepsKeys(s: State, a: Action)
    requires WellKeyed(s.store) && Enabled(s, a) && TouchesRolesOnly(a)
    ensures WellKeyed(Effect(s.store, a).0)
  {
    var (t', outcome) := Effect(s.store, a);
    if outcome == Done && !a.DeleteRole? {
      NamingKeepsUnique(s.store, a.id, a.ws, t'.roles[a.id]);
    }
  }

  lemma OtherStepKeepsKeys(s: State, a: Action)
    requires WellKeyed(s.store) && Enabled(s, a)
    requires a.DeleteWorkspace? || a.SendInvitation? || a.RevokeInvitation? || a.AcceptInvitation?
    ensures WellKeyed(Effect(s.store, a).0)
  {
    if a.AcceptInvitation? && Effect(s.store, a).1 == Done {
      var invitation := s.store.invitations[a.found.value];
      JoiningKeepsUnique(s.store, a.memberId, a.user, invitation.workspaceId, invitation.roleId);
    }
  }

  /** Giving two members of a workspace other roles of that workspace. */
  lemma SwapKeepsKeys(t: Store, ws: string, m1: string, r1: string, m2: string, r2: string)
    requires WellKeyed(t) && MemberIn(t, m1, ws) && MemberIn(t, m2, ws) && RoleIn(t, r1, ws) && RoleIn(t, r2, ws)
    ensures WellKeyed(t.(members := t.members[m1 := t.members[m1].(roleId := r1)][m2 := t.members[m2].(roleId := r2)]))
  {
  }

  lemma TransferKeepsKeys(t: Store, ws: string, caller: string, target: string, passwordOk: bool, now: int)
    requires WellKeyed(t)
    ensures WellKeyed(Transferred(t, ws, caller, target, passwordOk, now).0)
  {
    var (t', outcome) := Transferred(t, ws, caller, target, passwordOk, now);
    if outcome == Done {
      var from := MembershipOf(t, caller, ws).value;
      SwapKeepsKeys(t, ws, from, RoleNamed(t, ws, ADMIN).value, target, RoleNamed(t, ws, OWNER).value);
      assert t'.workspaces.Keys == t.workspaces.Keys;
    }
  }

  lemma StepKeepsKeys(s: State, a: Action)
    requires WellKeyed(s.store) && Enabled(s, a)
    ensures WellKeyed(Effect(s.store, a).0)
  {
    if a.CreateWorkspace? {
      CreationKeepsKeys(s, a);
    } else if a.TransferOwnership? {
      TransferKeepsKeys(s.store, a.ws, a.caller, a.target, a.passwordOk, a.now);
    } else if TouchesMembersOnly(a) {
      MemberStepKeepsKeys(s, a);
    } else if TouchesRolesOnly(a) {
      RoleStepKeepsKeys(s, a);
    } else {
      OtherStepKeepsKeys(s, a);
    }
  }

  // ---------- Ownership transfer ----------

  predicate CanTransfer(t: Store, ws: string, caller: string, target: string, passwordOk: bool) {
    OwnedBy(t, ws, caller) && passwordOk && MemberIn(t, target, ws) && t.members[target].userId != caller
  }

  /** For a created workspace the missing-role and store-error branches are never taken. */
  lemma TransferSucceedsIff(t: Store, ws: string, f: Founding, caller: string, target: string, passwordOk: bool,
                            now: int)
    requires WellKeyed(t) && Sound(t, ws, f)
    ensures Transferred(t, ws, caller, target, passwordOk, now).1 == Done <==>
              CanTransfer(t, ws, caller, target, passwordOk)
    ensures CanTransfer(t, ws, caller, target, passwordOk) ==>
              && RoleNamed(t, ws, OWNER) == Some(f.ownerRole) && RoleNamed(t, ws, ADMIN) == Some(f.adminRole)
              && MembershipOf(t, caller, ws).Some? && t.members[MembershipOf(t, caller, ws).value].roleId == f.ownerRole
  {
    if CanTransfer(t, ws, caller, target, passwordOk) {
      assert IsRoleNamed(t, f.ownerRole, ws, OWNER) && IsRoleNamed(t, f.adminRole, ws, ADMIN);
      var m :| OwnerHolds(t, ws, m, f.ownerRole);
      assert IsMembership(t, m, caller, ws);
    }
  }

  function HandedOver(t: Store, ws: string, from: string, adminRole: string, target: string, ownerRole: string,
                      now: int): Store
    requires from in t.members && target in t.members && ws in t.workspaces
  {
    t.(members := t.members[from := t.members[from].(roleId := adminRole)]
                           [target := t.members[target].(roleId := ownerRole)],
       workspaces := t.workspaces[ws := t.workspaces[ws].(ownerId := t.members[target].userId)],
       cutoffs := t.cutoffs[t.members[from].userId := now][t.members[target].userId := now])
  }

  /** A transfer makes the target the owner with the Owner role and the caller an admin, cuts off the access
      tokens of both, and touches nothing else. */
  lemma TransferEffect(t: Store, ws: string, f: Founding, caller: string, from: string, target: string, now: int)
    requires WellKeyed(t) && Sound(t, ws, f) && CanTransfer(t, ws, caller, target, true)
             && IsMembership(t, from, caller, ws)
    ensures Transferred(t, ws, caller, target, true, now) ==
              (HandedOver(t, ws, from, f.adminRole, target, f.ownerRole, now), Done)
    ensures t.members[from].roleId == f.ownerRole
  {
    TransferSucceedsIff(t, ws, f, caller, target, true, now);
    assert MembershipOf(t, caller, ws) == Some(from);
  }

  lemma TransferKeepsSound(t: Store, ws: string, f: Founding, caller: string, target: string, passwordOk: bool,
                           now: int)
    requires WellKeyed(t) && Sound(t, ws, f)
    ensures Sound(Transferred(t, ws, caller, target, passwordOk, now).0, ws, f)
  {
    TransferSucceedsIff(t, ws, f, caller, target, passwordOk, now);
    var (t', outcome) := Transferred(t, ws, caller, target, passwordOk, now);
    if outcome == Done {
      assert OwnerHolds(t', ws, target, f.ownerRole);
    }
  }

  lemma SoundElsewhere(t: Store, t': Store, other: string, f: Founding)
    requires Sound(t, other, f) && t'.roles == t.roles
    requires other in t'.workspaces && t'.workspaces[other] == t.workspaces[other]
    requires forall m | MemberIn(t, m, other) :: m in t'.members && t'.members[m] == t.members[m]
    ensures Sound(t', other, f)
  {
    if t.workspaces[other].deletedAt == None {
      var m :| OwnerHolds(t, other, m, f.ownerRole);
      assert OwnerHolds(t', other, m, f.ownerRole);
    }
  }

  lemma TransferLeavesOthersSound(t: Store, ws: string, caller: string, target: string, passwordOk: bool, now: int,
                                  other: string, f: Founding)
    requires Sound(t, other, f) && other != ws
    ensures Sound(Transferred(t, ws, caller, target, passwordOk, now).0, other, f)
  {
    SoundElsewhere(t, Transferred(t, ws, caller, target, passwordOk, now).0, other, f);
  }

  lemma HandingBack(t: Store, ws: string, from: string, adminRole: string, target: string, ownerRole: string, now: int,
                    later: int)
    requires ws in t.workspaces && from in t.members && target in t.members && from != target
    requires t.workspaces[ws].ownerId == t.members[from].userId && t.members[from].roleId == ownerRole
    ensures HandedOver(HandedOver(t, ws, from, adminRole, target, ownerRole, now), ws, target, adminRole, from,
                       ownerRole, later)
            .(cutoffs := t.cutoffs) == t.(members := t.members[target := t.members[target].(roleId := adminRole)])
  {
    var back := HandedOver(HandedOver(t, ws, from, adminRole, target, ownerRole, now), ws, target, adminRole, from,
                           ownerRole, later);
    assert back.members == t.members[target := t.members[target].(roleId := adminRole)];
    assert back.workspaces == t.workspaces;
  }

  lemma RolesReversed(t: Store, ws: string, caller: string, from: string, adminRole: string, target: string,
                      ownerRole: string, now: int)
    requires CanTransfer(t, ws, caller, target, true) && IsMembership(t, from, caller, ws)
    ensures var handed := HandedOver(t, ws, from, adminRole, target, ownerRole, now);
            && CanTransfer(handed, ws, t.members[target].userId, from, true)
            && IsMembership(handed, target, t.members[target].userId, ws)
  {
  }

  lemma HandedIsTransferable(t: Store, ws: string, f: Founding, caller: string, from: string, target: string, now: int)
    requires WellKeyed(t) && Sound(t, ws, f) && CanTransfer(t, ws, caller, target, true)
             && IsMembership(t, from, caller, ws)
    ensures var handed := HandedOver(t, ws, from, f.adminRole, target, f.ownerRole, now);
            && WellKeyed(handed) && Sound(handed, ws, f)
            && CanTransfer(handed, ws, t.members[target].userId, from, true)
            && IsMembership(handed, target, t.members[target].userId, ws)
  {
    TransferEffect(t, ws, f, caller, from, target, now);
    TransferKeepsKeys(t, ws, caller, target, true, now);
    TransferKeepsSound(t, ws, f, caller, target, true, now);
    RolesReversed(t, ws, caller, from, f.adminRole, target, f.ownerRole, now);
  }

  lemma SameRoleSameMembers(members: map<string, Member>, m: string, role: string)
    requires m in members
    ensures members[m := members[m].(roleId := role)] == members <==> members[m].roleId == role
  {
    assert members[m := members[m].(roleId := role)][m].roleId == role;
    assert members[m].roleId == role ==> members[m := members[m].(roleId := role)] == members;
  }

  /** Handing the workspace back always succeeds, and restores every table but the token cut-offs exactly
      when the new owner had been an admin. */
  lemma TransferBackRestoresIff(t: Store, ws: string, f: Founding, caller: string, from: string, target: string,
                                now: int, later: int)
    requires WellKeyed(t) && Sound(t, ws, f) && CanTransfer(t, ws, caller, target, true)
             && IsMembership(t, from, caller, ws)
    ensures var handed := Transferred(t, ws, caller, target, true, now).0;
            var back := Transferred(handed, ws, t.members[target].userId, from, true, later);
            back.1 == Done && (back.0.(cutoffs := t.cutoffs) == t <==> t.members[target].roleId == f.adminRole)
  {
    var handed := HandedOver(t, ws, from, f.adminRole, target, f.ownerRole, now);
    TransferEffect(t, ws, f, caller, from, target, now);
    HandedIsTransferable(t, ws, f, caller, from, target, now);
    TransferEffect(handed, ws, f, t.members[target].userId, target, from, later);
    HandingBack(t, ws, from, f.adminRole, target, f.ownerRole, now, later);
    SameRoleSameMembers(t.members, target, f.adminRole);
  }

  // ---------- Whole runs ----------

  lemma NewRolesAreSystemRoles(t: Store, ws: string, ids: Founding)
    requires ids.ownerRole != ids.adminRole && ids.ownerRole != ids.memberRole && ids.adminRole != ids.memberRole
    ensures var roles := NewRoles(t, ws, ids);
            && ids.ownerRole in roles && roles[ids.ownerRole] == NewRole(ws, 0)
            && ids.adminRole in roles && roles[ids.adminRole] == NewRole(ws, 1)
            && ids.memberRole in roles && roles[ids.memberRole] == NewRole(ws, 2)
    ensures NewRole(ws, 0).name == OWNER && NewRole(ws, 1).name == ADMIN && NewRole(ws, 2).name == MEMBER
    ensures forall k: nat | k < 3 :: NewRole(ws, k).isSystem && NewRole(ws, k).workspaceId == ws
  {
  }

  lemma CreationIsSound(s: State, a: Action)
    requires Enabled(s, a) && a.CreateWorkspace? && Effect(s.store, a).1 == Done
    ensures Sound(Effect(s.store, a).0, a.ws, a.roleIds)
  {
    CreationEffect(s.store, a);
    NewRolesAreSystemRoles(s.store, a.ws, a.roleIds);
    assert OwnerHolds(Effect(s.store, a).0, a.ws, a.memberId, a.roleIds.ownerRole);
  }

  lemma StepKeepsInv(s: State, a: Action)
    requires Inv(s) && Enabled(s, a)
    ensures Inv(Next(s, a))
  {
    var s' := Next(s, a);
    StepKeepsKeys(s, a);
    forall ws | ws in s'.built ensures Sound(s'.store, ws, s'.built[ws]) {
      if a.CreateWorkspace? && a.ws == ws && Effect(s.store, a).1 == Done {
        CreationIsSound(s, a);
      } else if a.TransferOwnership? {
        if a.ws == ws {
          TransferKeepsSound(s.store, ws, s.built[ws], a.caller, a.target, a.passwordOk, a.now);
        } else {
          TransferLeavesOthersSound(s.store, a.ws, a.caller, a.target, a.passwordOk, a.now, ws, s.built[ws]);
        }
      } else {
        StepIsSteady(s, a);
        SteadyKeepsSound(s.store, s'.store, ws, s.built[ws]);
      }
    }
  }

  ghost predicate IsRun(run: seq<State>, acts: seq<Action>) {
    && |run| == |acts| + 1
    && WellKeyed(run[0].store) && run[0].built == map[]
    && forall i {:trigger acts[i]} | 0 <= i < |acts| :: Enabled(run[i], acts[i]) && run[i + 1] == Next(run[i], acts[i])
  }

  lemma {:induction false} RunKeepsInv(run: seq<State>, acts: seq<Action>, i: nat)
    requires IsRun(run, acts) && i < |run|
    ensures Inv(run[i])
  {
    if i > 0 {
      RunKeepsInv(run, acts, i - 1);
      assert run[i - 1 + 1] == Next(run[i - 1], acts[i - 1]);
      StepKeepsInv(run[i - 1], acts[i - 1]);
    }
  }

  /** In every serial run a created workspace that is not deleted has an owner who is a member holding its
      system role Owner. */
  lemma OwnerHoldsOwnerRole(run: seq<State>, acts: seq<Action>, i: nat, ws: string)
    requires IsRun(run, acts) && i < |run| && ws in run[i].built
    ensures var t := run[i].store;
            ws in t.workspaces && (t.workspaces[ws].deletedAt == None ==>
              exists m :: IsMembership(t, m, t.workspaces[ws].ownerId, ws)
                          && t.members[m].roleId == run[i].built[ws].ownerRole
                          && IsSystemRole(t, ws, t.members[m].roleId, OWNER))
  {
    RunKeepsInv(run, acts, i);
    var t, f := run[i].store, run[i].built[ws];
    assert Sound(t, ws, f);
    if t.workspaces[ws].deletedAt == None {
      var m :| OwnerHolds(t, ws, m, f.ownerRole);
      assert IsMembership(t, m, t.workspaces[ws].ownerId, ws) && IsSystemRole(t, ws, t.members[m].roleId, OWNER);
    }
  }

  /** And every member, whatever the workspace, holds a role of that very workspace. */
  lemma MembersHoldRolesOfTheirWorkspace(run: seq<State>, acts: seq<Action>, i: nat, m: string)
    requires IsRun(run, acts) && i < |run| && m in run[i].store.members
    ensures RoleIn(run[i].store, run[i].store.members[m].roleId, run[i].store.members[m].workspaceId)
  {
    RunKeepsInv(run, acts, i);
  }

  predicate IsTransferOf(a: Action, ws: string) {
    a.TransferOwnership? && a.ws == ws
  }

  lemma TransferElsewhereKeepsSeat(t: Store, other: string, caller: string, target: string, passwordOk: bool, now: int,
                                   ws: string, m: string)
    requires other != ws && MemberIn(t, m, ws) && OwnedBy(t, ws, t.members[m].userId)
    ensures var t' := Transferred(t, other, caller, target, passwordOk, now).0;
            MemberIn(t', m, ws) && t'.members[m] == t.members[m] && OwnedBy(t', ws, t.members[m].userId)
  {
  }

  lemma SteadyKeepsSeat(t: Store, t': Store, ws: string, m: string)
    requires Steady(t, t') && MemberIn(t, m, ws) && OwnedBy(t, ws, t.members[m].userId) && FindWorkspace(t', ws).Some?
    ensures MemberIn(t', m, ws) && t'.members[m] == t.members[m] && OwnedBy(t', ws, t.members[m].userId)
  {
  }

  lemma StepKeepsOwnerSeat(s: State, a: Action, ws: string, m: string)
    requires Enabled(s, a) && !IsTransferOf(a, ws)
    requires MemberIn(s.store, m, ws) && OwnedBy(s.store, ws, s.store.members[m].userId)
    requires FindWorkspace(Next(s, a).store, ws).Some?
    ensures MemberIn(Next(s, a).store, m, ws) && Next(s, a).store.members[m] == s.store.members[m]
    ensures OwnedBy(Next(s, a).store, ws, s.store.members[m].userId)
  {
    if a.TransferOwnership? {
      TransferElsewhereKeepsSeat(s.store, a.ws, a.caller, a.target, a.passwordOk, a.now, ws, m);
    } else {
      StepIsSteady(s, a);
      SteadyKeepsSeat(s.store, Effect(s.store, a).0, ws, m);
    }
  }

  /** Until somebody transfers or deletes the workspace, its owner and the owner's membership stay as they are. */
  lemma {:induction false} OwnerStaysUntilTransfer(run: seq<State>, acts: seq<Action>, i: nat, j: nat, ws: string,
                                                   m: string)
    requires IsRun(run, acts) && i <= j < |run|
    requires MemberIn(run[i].store, m, ws) && OwnedBy(run[i].store, ws, run[i].store.members[m].userId)
    requires forall k | i <= k < j :: !IsTransferOf(acts[k], ws)
    requires forall k | i <= k <= j :: FindWorkspace(run[k].store, ws).Some?
    ensures MemberIn(run[j].store, m, ws) && run[j].store.members[m] == run[i].store.members[m]
    ensures OwnedBy(run[j].store, ws, run[i].store.members[m].userId)
  {
    if i < j {
      OwnerStaysUntilTransfer(run, acts, i, j - 1, ws, m);
      RunKeepsInv(run, acts, j - 1);
      assert run[j - 1 + 1] == Next(run[j - 1], acts[j - 1]);
      StepKeepsOwnerSeat(run[j - 1], acts[j - 1], ws, m);
    }
  }

  /** A system role is never renamed, redescribed or deleted. */
  lemma {:induction false} SystemRolesAreFixed(run: seq<State>, acts: seq<Action>, i: nat, j: nat, r: string)
    requires IsRun(run, acts) && i <= j < |run|
    requires r in run[i].store.roles && run[i].store.roles[r].isSystem
    ensures r in run[j].store.roles && run[j].store.roles[r] == run[i].store.roles[r]
  {
    if i < j {
      SystemRolesAreFixed(run, acts, i, j - 1, r);
      assert run[j - 1 + 1] == Next(run[j - 1], acts[j - 1]);
      if !acts[j - 1].TransferOwnership? {
        StepIsSteady(run[j - 1], acts[j - 1]);
      }
    }
  }

  // ---------- Exact conditions ----------

  /** The owner can be removed by an admin, or lose the Owner role, exactly when the workspace is already deleted. */
  lemma OwnerUnprotectedIffDeleted(t: Store, ws: string, f: Founding, m: string)
    requires Sound(t, ws, f) && IsMembership(t, m, t.workspaces[ws].ownerId, ws)
    ensures MemberRemoved(t, ws, m, t.workspaces[ws].ownerId, false).1 == Done <==> t.workspaces[ws].deletedAt.Some?
    ensures forall caller :: MemberRemoved(t, ws, m, caller, true).1 == Done <==> t.workspaces[ws].deletedAt.Some?
    ensures forall r, now | RoleIn(t, r, ws) :: RoleAssigned(t, ws, m, r, now).1 == Done <==>
              t.workspaces[ws].deletedAt.Some?
  {
  }

  // ---------- Invitations over time ----------

  predicate AcceptedIn(t: Store, id: string) {
    id in t.invitations && t.invitations[id].acceptedAt.Some?
  }

  lemma StepKeepsAccepted(s: State, a: Action, id: string)
    requires Enabled(s, a) && AcceptedIn(s.store, id)
    ensures AcceptedIn(Next(s, a).store, id)
  {
  }

  /** An invitation is accepted at most once in a run, since an accepted one is never revoked or replaced. */
  lemma {:induction false} AcceptedAtMostOnce(run: seq<State>, acts: seq<Action>, i: nat, j: nat, id: string)
    requires IsRun(run, acts) && i < j < |run| && acts[i].AcceptInvitation? && acts[i].found == Some(id)
    requires Effect(run[i].store, acts[i]).1 == Done
    ensures AcceptedIn(run[j].store, id)
    ensures forall user, email, memberId, now ::
              Accepted(run[j].store, Some(id), user, email, memberId, now).1 == BadRequest
    decreases j
  {
    assert Enabled(run[j - 1], acts[j - 1]) && run[j - 1 + 1] == Next(run[j - 1], acts[j - 1]);
    if j > i + 1 {
      AcceptedAtMostOnce(run, acts, i, j - 1, id);
      StepKeepsAccepted(run[j - 1], acts[j - 1], id);
    }
  }

  predicate Orphaned(t: Store, id: string, r: string) {
    r !in t.roles && id in t.invitations && t.invitations[id].roleId == r
  }

  lemma StepKeepsOrphaned(s: State, a: Action, id: string, r: string)
    requires Enabled(s, a) && Orphaned(s.store, id, r) && id in Next(s, a).store.invitations
    ensures Orphaned(Next(s, a).store, id, r)
  {
    if a.CreateWorkspace? {
      SeededWith(s.store.roles, a.ws, a.roleIds);
    }
  }

  /** An open invitation outlives the deletion of its role, and while it is stored nobody ever joins by it. */
  lemma {:induction false} OrphanedIsNeverAccepted(run: seq<State>, acts: seq<Action>, i: nat, j: nat, id: string,
                                                   r: string)
    requires IsRun(run, acts) && i < j < |run| && acts[i].DeleteRole? && acts[i].id == r
    requires Effect(run[i].store, acts[i]).1 == Done && id in run[i].store.invitations
             && run[i].store.invitations[id].roleId == r
    requires forall k | i < k <= j :: id in run[k].store.invitations
    ensures Orphaned(run[j].store, id, r)
    ensures forall user, email, memberId, now :: Accepted(run[j].store, Some(id), user, email, memberId, now).1 != Done
    decreases j
  {
    assert Enabled(run[j - 1], acts[j - 1]) && run[j - 1 + 1] == Next(run[j - 1], acts[j - 1]);
    if j > i + 1 {
      OrphanedIsNeverAccepted(run, acts, i, j - 1, id, r);
      StepKeepsOrphaned(run[j - 1], acts[j - 1], id, r);
    }
  }
}
