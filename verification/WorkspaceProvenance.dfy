/** Where memberships, invitations and system roles come from, in every serial run. */
module WorkspaceProvenance {
  import opened Options
  import opened WorkspaceStore
  import opened WorkspaceOwnership

  /** Whatever a use case refuses, it leaves every table as it was. */
  lemma RefusedChangesNothing(t: Store, a: Action)
    requires Effect(t, a).1 != Done
    ensures Effect(t, a).0 == t
  {
    match a {
      case TransferOwnership(ws, caller, target, passwordOk, now) =>
        TransferByTables(t, ws, caller, target, passwordOk, now);
      case _ =>
    }
  }

  // ---------- Memberships ----------

  /** The action makes the membership m of the user: as owner of a new workspace, by an open invitation sent to
      the very e-mail of the account, or as a new account in a workspace. */
  ghost predicate Joins(t: Store, a: Action, m: string, user: string, ws: string) {
    match a
    case CreateWorkspace(w, owner, _, _, _, memberId) => memberId == m && owner == user && w == ws
    case AcceptInvitation(found, u, account, memberId, now) =>
      && memberId == m && u == user
      && found.Some? && found.value in t.invitations
      && t.invitations[found.value].workspaceId == ws
      && account == Some(t.invitations[found.value].email)
      && t.invitations[found.value].acceptedAt == None && now <= t.invitations[found.value].expiresAt
    case CreateUser(w, u, emailTaken, _, memberId) => memberId == m && u == user && w == ws && !emailTaken
    case _ => false
  }

  ghost predicate Belongs(t: Store, m: string, user: string, ws: string) {
    m in t.members && t.members[m].userId == user && t.members[m].workspaceId == ws
  }

  lemma TransferKeepsMemberships(t: Store, ws: string, caller: string, target: string, passwordOk: bool, now: int,
                                 m: string)
    ensures var t' := Transferred(t, ws, caller, target, passwordOk, now).0;
            t'.members.Keys == t.members.Keys
            && (m in t.members ==> t'.members[m].(roleId := "") == t.members[m].(roleId := ""))
  {
    TransferByTables(t, ws, caller, target, passwordOk, now);
  }

  lemma AcceptanceJoins(t: Store, a: Action, m: string)
    requires a.AcceptInvitation? && m in Effect(t, a).0.members
    ensures var member := Effect(t, a).0.members[m];
            Belongs(t, m, member.userId, member.workspaceId) || Joins(t, a, m, member.userId, member.workspaceId)
  {
    AcceptanceByTables(t, a.found, a.user, a.account, a.memberId, a.now);
  }

  /** A membership after a step was there before, of the same user in the same workspace, or the step made it. */
  lemma StepJoins(t: Store, a: Action, m: string)
    requires m in Effect(t, a).0.members
    ensures var member := Effect(t, a).0.members[m];
            Belongs(t, m, member.userId, member.workspaceId) || Joins(t, a, m, member.userId, member.workspaceId)
  {
    match a {
      case TransferOwnership(ws, caller, target, passwordOk, now) =>
        TransferKeepsMemberships(t, ws, caller, target, passwordOk, now, m);
      case AcceptInvitation(_, _, _, _, _) => AcceptanceJoins(t, a, m);
      case _ =>
    }
  }

  lemma At(run: seq<State>, acts: seq<Action>, k: nat)
    requires IsRun(run, acts) && k < |acts|
    ensures Enabled(run[k], acts[k]) && run[k + 1].store == Effect(run[k].store, acts[k]).0
  {
    assert run[k + 1] == Next(run[k], acts[k]);
  }

  /** In every run a membership was there at the start, or was made by one of the three ways to join; in
      particular nobody ever joins by an invitation sent to another e-mail. */
  lemma {:induction false} MembershipOrigin(run: seq<State>, acts: seq<Action>, j: nat, m: string)
    requires IsRun(run, acts) && j < |run| && m in run[j].store.members
    ensures var member := run[j].store.members[m];
            || Belongs(run[0].store, m, member.userId, member.workspaceId)
            || exists i | 0 <= i < j :: Joins(run[i].store, acts[i], m, member.userId, member.workspaceId)
    decreases j
  {
    if j > 0 {
      At(run, acts, j - 1);
      StepJoins(run[j - 1].store, acts[j - 1], m);
      var member := run[j].store.members[m];
      if Belongs(run[j - 1].store, m, member.userId, member.workspaceId) {
        MembershipOrigin(run, acts, j - 1, m);
      }
    }
  }

  /** Only the removal of exactly this member takes a membership away. */
  lemma StepKeepsMembership(t: Store, a: Action, m: string, user: string, ws: string)
    requires Belongs(t, m, user, ws) && !(a.RemoveMember? && a.member == m)
    requires (a.AcceptInvitation? || a.CreateUser? || a.CreateWorkspace?) ==> a.memberId != m
    ensures Belongs(Effect(t, a).0, m, user, ws)
  {
    match a {
      case TransferOwnership(w, caller, target, passwordOk, now) =>
        TransferKeepsMemberships(t, w, caller, target, passwordOk, now, m);
      case _ =>
    }
  }

  /** In every run a membership stays until it is itself removed. */
  lemma {:induction false} MembershipStays(run: seq<State>, acts: seq<Action>, i: nat, j: nat, m: string,
                                           user: string, ws: string)
    requires IsRun(run, acts) && i <= j < |run| && Belongs(run[i].store, m, user, ws)
    requires forall k | i <= k < j :: !(acts[k].RemoveMember? && acts[k].member == m)
    ensures Belongs(run[j].store, m, user, ws)
    decreases j
  {
    if i < j {
      MembershipStays(run, acts, i, j - 1, m, user, ws);
      At(run, acts, j - 1);
      StepKeepsMembership(run[j - 1].store, acts[j - 1], m, user, ws);
    }
  }

  // ---------- Invitations ----------

  /** The action sends exactly this invitation, for seven days, whether or not it has been accepted since. */
  ghost predicate Sends(t: Store, a: Action, id: string, inv: Invitation) {
    && a.SendInvitation? && a.id == id && a.email == inv.email && a.ws == inv.workspaceId
    && a.roleId == inv.roleId && a.tokenHash == inv.tokenHash && inv.expiresAt == a.now + 604800000
    && a.roleId in t.roles && t.roles[a.roleId].workspaceId == a.ws
    && (a.existingUser.Some? ==> NoMember(t, a.existingUser.value, a.ws))
  }

  /** The same invitation, accepted or not. */
  predicate SameOffer(inv: Invitation, other: Invitation) {
    inv.(acceptedAt := None) == other.(acceptedAt := None)
  }

  lemma StepOffers(t: Store, a: Action, id: string)
    requires id in Effect(t, a).0.invitations
    ensures var inv := Effect(t, a).0.invitations[id];
            (id in t.invitations && SameOffer(t.invitations[id], inv)) || Sends(t, a, id, inv)
  {
    match a {
      case SendInvitation(ws, _, email, roleId, tokenHash, existingUser, now) =>
        InvitationByTables(t, ws, a.id, email, roleId, tokenHash, existingUser, now);
      case AcceptInvitation(found, user, account, memberId, now) =>
        AcceptanceByTables(t, found, user, account, memberId, now);
      case TransferOwnership(ws, caller, target, passwordOk, now) =>
        TransferByTables(t, ws, caller, target, passwordOk, now);
      case _ =>
    }
  }

  /** In every run an invitation was there at the start or was sent as it is: e-mail, workspace, role and expiry
      never change. */
  lemma {:induction false} InvitationOrigin(run: seq<State>, acts: seq<Action>, j: nat, id: string)
    requires IsRun(run, acts) && j < |run| && id in run[j].store.invitations
    ensures var inv := run[j].store.invitations[id];
            || (id in run[0].store.invitations && SameOffer(run[0].store.invitations[id], inv))
            || exists i | 0 <= i < j :: Sends(run[i].store, acts[i], id, inv)
    decreases j
  {
    if j > 0 {
      At(run, acts, j - 1);
      StepOffers(run[j - 1].store, acts[j - 1], id);
      var before, inv := run[j - 1].store.invitations, run[j].store.invitations[id];
      if id in before && SameOffer(before[id], inv) {
        InvitationOrigin(run, acts, j - 1, id);
        if i: nat :| i < j - 1 && Sends(run[i].store, acts[i], id, before[id]) {
          assert Sends(run[i].store, acts[i], id, inv);
        }
      }
    }
  }

  // ---------- System roles ----------

  /** The action founds a workspace of which r is one of the three roles. */
  predicate Founds(a: Action, r: string, ws: string) {
    a.CreateWorkspace? && a.ws == ws && r in {a.roleIds.ownerRole, a.roleIds.adminRole, a.roleIds.memberRole}
  }

  lemma StepFounds(t: Store, a: Action, r: string)
    requires r in Effect(t, a).0.roles && Effect(t, a).0.roles[r].isSystem
    ensures || (r in t.roles && t.roles[r] == Effect(t, a).0.roles[r])
            || Founds(a, r, Effect(t, a).0.roles[r].workspaceId)
  {
    match a {
      case CreateWorkspace(ws, _, _, _, ids, _) => SeededWith(t.roles, ws, ids);
      case TransferOwnership(ws, caller, target, passwordOk, now) =>
        TransferByTables(t, ws, caller, target, passwordOk, now);
      case _ =>
    }
  }

  /** In every run the system roles are those of the start and the three of each workspace created: no role
      made or changed by hand is ever one. */
  lemma {:induction false} SystemRoleOrigin(run: seq<State>, acts: seq<Action>, j: nat, r: string)
    requires IsRun(run, acts) && j < |run| && r in run[j].store.roles && run[j].store.roles[r].isSystem
    ensures || (r in run[0].store.roles && run[0].store.roles[r] == run[j].store.roles[r])
            || exists i | 0 <= i < j :: Founds(acts[i], r, run[j].store.roles[r].workspaceId)
    decreases j
  {
    if j > 0 {
      At(run, acts, j - 1);
      StepFounds(run[j - 1].store, acts[j - 1], r);
      if r in run[j - 1].store.roles && run[j - 1].store.roles[r] == run[j].store.roles[r] {
        SystemRoleOrigin(run, acts, j - 1, r);
      }
    }
  }
}
