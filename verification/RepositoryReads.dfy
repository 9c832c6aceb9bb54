/** The repositories' own cached reads and the writes that do, or do not, refresh them. */
module RepositoryReads {
  import opened Options
  import opened CacheStore
  import opened CacheProtocol
  import opened CacheFreshness
  import opened CacheBumps

  /** The rows the lookups below query: role of each membership, permission keys of each role, names of
      the users that are not deleted. */
  datatype Tables = Tables(
    adminWorkspace: Option<string>,
    memberships: map<(string, string), string>,
    grants: map<string, set<string>>,
    users: map<string, string>)

  datatype Found = Membership(role: string, permissions: set<string>) | User(name: string)

  const MEMBERS_NS: string := "workspace_members"
  const USERS_NS: string := "users"

  function MembershipSuffix(user: string, ws: string): string {
    user + ":" + ws
  }

  function SuperAdminSuffix(user: string): string {
    "superadmin:" + user
  }

  function UserSuffix(user: string, ws: string): string {
    "id:" + user + ":ws:" + ws
  }

  function Grants(t: Tables, role: string): set<string> {
    if role in t.grants then t.grants[role] else {}
  }

  /** `findByUserAndWorkspace`: the membership with its role's permission keys. */
  function MembershipPlan(user: string, ws: string, t: Tables): Plan<Found> {
    Direct(if (user, ws) in t.memberships
           then Some(Membership(t.memberships[(user, ws)], Grants(t, t.memberships[(user, ws)])))
           else None)
  }

  /** `findSuperAdminMembership`: null without an admin workspace, else that workspace's cached membership. */
  function SuperAdminPlan(user: string, t: Tables): Plan<Found> {
    match t.adminWorkspace
    case None => Direct(None)
    case Some(ws) => Nested(MembershipSuffix(user, ws))
  }

  /** `findByIdInWorkspace`: the user, if a member of the workspace. */
  function UserPlan(user: string, ws: string, t: Tables): Plan<Found> {
    Direct(if (user, ws) in t.memberships && user in t.users then Some(User(t.users[user])) else None)
  }

  ghost predicate ReadsMembership(body: Body<Tables, Found>, user: string, ws: string) {
    forall t :: body(MEMBERS_NS, MembershipSuffix(user, ws), t) == MembershipPlan(user, ws, t)
  }

  ghost predicate ReadsSuperAdmin(body: Body<Tables, Found>, user: string) {
    forall t :: body(MEMBERS_NS, SuperAdminSuffix(user), t) == SuperAdminPlan(user, t)
  }

  ghost predicate ReadsUser(body: Body<Tables, Found>, user: string, ws: string) {
    forall t :: body(USERS_NS, UserSuffix(user, ws), t) == UserPlan(user, ws, t)
  }

  // ---------- The writes ----------

  /** `WorkspaceMembersRepository.delete` bumps `workspace_members`. */
  const REMOVAL_BUMPS: set<string> := {MEMBERS_NS}

  function MemberRemoved(t: Tables, user: string, ws: string): Tables {
    t.(memberships := t.memberships - {(user, ws)})
  }

  /** `PermissionsRepository.delete` bumps nothing; the grants of the permission cascade away. */
  const PERMISSION_DELETION_BUMPS: set<string> := {}

  function PermissionDeleted(t: Tables, key: string): Tables {
    t.(grants := map role | role in t.grants :: t.grants[role] - {key})
  }

  // ---------- Reads they leave stale ----------

  /** A single-query method whose value differs. */
  lemma PlainStale(body: Body<Tables, Found>, bumps: set<string>, ns: string, sx: string, d0: Tables, d1: Tables,
                   v: Found)
    requires PlainName(ns) && ns !in bumps && body(ns, sx, d0) == Direct(Some(v))
    requires body(ns, sx, d1).Direct? && body(ns, sx, d1) != Direct(Some(v))
    ensures StaleAfter(body, bumps, ns, sx, d0, d1)
  {
    assert Derives(body, [d0], ns, sx, Some(v), [0]);
    forall trail: seq<nat> | AllAtLeast(trail, 1) ensures !Derives(body, [d0, d1], ns, sx, Some(v), trail) {
      if trail != [] && trail[0] < 2 {
        assert trail[0] == 1;
      }
    }
    StaleWithoutBump(body, bumps, ns, sx, d0, d1, v, [0]);
  }

  /** After a member was removed, the user lookup in that workspace can still find the user. */
  lemma RemovedMemberStillFound(body: Body<Tables, Found>, user: string, ws: string, t: Tables)
    requires ReadsUser(body, user, ws) && (user, ws) in t.memberships && user in t.users
    ensures StaleAfter(body, REMOVAL_BUMPS, USERS_NS, UserSuffix(user, ws), t, MemberRemoved(t, user, ws))
  {
    assert USERS_NS[0] == 'u' && MEMBERS_NS[0] == 'w';
    PlainStale(body, REMOVAL_BUMPS, USERS_NS, UserSuffix(user, ws), t, MemberRemoved(t, user, ws), User(t.users[user]));
  }

  /** After a permission was deleted, the membership lookup can still report it. */
  lemma DeletedPermissionStillGranted(body: Body<Tables, Found>, user: string, ws: string, key: string, t: Tables)
    requires ReadsMembership(body, user, ws) && (user, ws) in t.memberships
             && key in Grants(t, t.memberships[(user, ws)])
    ensures StaleAfter(body, PERMISSION_DELETION_BUMPS, MEMBERS_NS, MembershipSuffix(user, ws), t,
                       PermissionDeleted(t, key))
  {
    var role := t.memberships[(user, ws)];
    assert key !in Grants(PermissionDeleted(t, key), role);
    PlainStale(body, PERMISSION_DELETION_BUMPS, MEMBERS_NS, MembershipSuffix(user, ws), t, PermissionDeleted(t, key),
               Membership(role, Grants(t, role)));
  }

  /** A value of the super-admin lookup is that of the membership lookup at its second query. */
  lemma NestedOrigin(body: Body<Tables, Found>, user: string, ws: string, history: seq<Tables>, value: Option<Found>,
                     trail: seq<nat>)
    requires ReadsMembership(body, user, ws) && ReadsSuperAdmin(body, user)
    requires Derives(body, history, MEMBERS_NS, SuperAdminSuffix(user), value, trail)
             && history[trail[0]].adminWorkspace == Some(ws)
    ensures |trail| == 2 && trail[1] < |history| && MembershipPlan(user, ws, history[trail[1]]) == Direct(value)
  {
    assert Derives(body, history, MEMBERS_NS, MembershipSuffix(user, ws), value, trail[1..]);
    assert trail[1..][0] == trail[1];
  }

  /** The super-admin lookup computes v from t alone, and nothing from t' alone computes it. */
  lemma SuperAdminValue(body: Body<Tables, Found>, user: string, ws: string, t: Tables, t': Tables, v: Found)
    requires ReadsMembership(body, user, ws) && ReadsSuperAdmin(body, user)
    requires t.adminWorkspace == t'.adminWorkspace == Some(ws)
    requires MembershipPlan(user, ws, t) == Direct(Some(v)) && MembershipPlan(user, ws, t') != Direct(Some(v))
    ensures Derives(body, [t], MEMBERS_NS, SuperAdminSuffix(user), Some(v), [0, 0])
    ensures Unexplained(body, [t, t'], MEMBERS_NS, SuperAdminSuffix(user), Some(v), 1)
  {
    assert [0, 0][1..] == [0];
    assert Derives(body, [t], MEMBERS_NS, MembershipSuffix(user, ws), Some(v), [0]);
    forall trail: seq<nat> | AllAtLeast(trail, 1)
                             && Derives(body, [t, t'], MEMBERS_NS, SuperAdminSuffix(user), Some(v), trail)
      ensures false
    {
      NestedOrigin(body, user, ws, [t, t'], Some(v), trail);
    }
  }

  /** And so can the super-admin lookup, a cached read inside a cached read. */
  lemma DeletedPermissionStillSuper(body: Body<Tables, Found>, user: string, ws: string, key: string, t: Tables)
    requires ReadsMembership(body, user, ws) && ReadsSuperAdmin(body, user) && t.adminWorkspace == Some(ws)
    requires (user, ws) in t.memberships && key in Grants(t, t.memberships[(user, ws)])
    ensures StaleAfter(body, PERMISSION_DELETION_BUMPS, MEMBERS_NS, SuperAdminSuffix(user), t,
                       PermissionDeleted(t, key))
  {
    var role := t.memberships[(user, ws)];
    var v := Membership(role, Grants(t, role));
    assert key !in Grants(PermissionDeleted(t, key), role);
    SuperAdminValue(body, user, ws, t, PermissionDeleted(t, key), v);
    StaleWithoutBump(body, PERMISSION_DELETION_BUMPS, MEMBERS_NS, SuperAdminSuffix(user), t, PermissionDeleted(t, key),
                     v, [0, 0]);
  }

  /** For a membership write that changes the admin's membership, all later super-admin lookups are fresh
      in every run exactly when it bumps `workspace_members`. */
  lemma SuperAdminFreshIffBumped(body: Body<Tables, Found>, bumps: set<string>, user: string, ws: string, t: Tables,
                                 t': Tables, v: Found)
    requires ReadsMembership(body, user, ws) && ReadsSuperAdmin(body, user)
    requires t.adminWorkspace == t'.adminWorkspace == Some(ws)
    requires MembershipPlan(user, ws, t) == Direct(Some(v)) && MembershipPlan(user, ws, t') != Direct(Some(v))
    ensures MEMBERS_NS in bumps <==>
            !exists ss: seq<State<Tables, Found>>, acts: seq<Action<Tables>>, h: nat, j: nat ::
              StaleRun(body, bumps, MEMBERS_NS, SuperAdminSuffix(user), ss, acts, h, j)
  {
    SuperAdminValue(body, user, ws, t, t', v);
    FreshIffBumped(body, bumps, MEMBERS_NS, SuperAdminSuffix(user), t, t', v, [0, 0]);
  }

  // ---------- What the bump gives the nested lookup ----------

  /** After a membership write has bumped, the super-admin lookup returns the membership, at one moment
      no earlier than the write, of the workspace that was the admin workspace at another such moment. */
  lemma SuperAdminReadIsFresh(body: Body<Tables, Found>, user: string, ss: seq<State<Tables, Found>>,
                              acts: seq<Action<Tables>>, h: nat, i: nat, j: nat, k: nat)
    requires IsRun(body, ss, acts) && h < i < j < |acts| && Finished(ss, acts, j, k)
    requires acts[h].Mutate? && acts[i] == Bump(acts[h].w, acts[j].ns)
    requires acts[j].ns == MEMBERS_NS && acts[j].suffix == SuperAdminSuffix(user)
    requires ReadsSuperAdmin(body, user) && forall ws :: ReadsMembership(body, user, ws)
    ensures var value := ss[k].readers[acts[j].r].value;
            var lo := |ss[h].history|;
            var hist := ss[k].history;
            exists a | lo <= a < |hist| ::
              if hist[a].adminWorkspace.None? then value == None
              else exists b | lo <= b < |hist| ::
                     MembershipPlan(user, hist[a].adminWorkspace.value, hist[b]) == Direct(value)
  {
    ReadAfterBumpIsFresh(body, ss, acts, h, i, j, k);
    var done := ss[k].readers[acts[j].r];
    var hist := ss[k].history;
    var a := done.trail[0];
    assert a >= |ss[h].history|;
    match hist[a].adminWorkspace
    case None =>
    case Some(ws) =>
      assert ReadsMembership(body, user, ws);
      NestedOrigin(body, user, ws, hist, done.value, done.trail);
      var b := done.trail[1];
      assert b >= |ss[h].history|;
      assert MembershipPlan(user, ws, hist[b]) == Direct(done.value);
  }
}
