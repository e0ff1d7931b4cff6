/** Migration 0053 going up: exactly which roles and grants there are afterwards, read off the rows. */
module RoleExact {
  import opened Collections
  import opened Wrappers
  import opened RoleCatalogue
  import opened RoleRoundTrip
  import opened RoleUpgrade

  // ------------------------------------------------------------------------- roles

  ghost predicate HasManager(roles: map<RoleId, Role>, org: Org) {
    exists r :: r in roles && roles[r].org == org && roles[r].code == "project-manager"
                && roles[r].system
  }

  /** A role once its organization has had its turn. */
  function Upgraded(role: Role, id: RoleId): Role {
    if role.code == "project-manager" && !role.system
    then Role(role.org, "project-manager-custom-" + id, role.name, false) else role
  }

  function NewManager(org: Org): Role { Role(org, "project-manager", "Project Manager", true) }

  /** One turn: custom managers of the organization are renamed, and it gets a system manager under
      the identifier drawn if it had none. */
  ghost predicate RolesTurned(before: map<RoleId, Role>, after: map<RoleId, Role>, org: Org, id: RoleId) {
    && (forall r :: r in before ==>
          r in after
          && after[r] == if before[r].org == org then Upgraded(before[r], r) else before[r])
    && (forall r :: r in after ==> r in before || r == id)
    && (id in after <==> !HasManager(before, org))
    && (id in after ==> after[id] == NewManager(org))
  }

  lemma GrantsLeaveRoles(db: Db, org: Org)
    requires GrantAll(db, org).Ok?
    ensures GrantAll(db, org).value.roles == db.roles
    ensures GrantAll(db, org).value.members == db.members
    ensures GrantAll(db, org).value.permissions == db.permissions
  {
  }

  lemma RenamedRoles(db: Db, org: Org, r: RoleId)
    requires RenameCustom(db, org).Ok? && r in db.roles
    ensures var roles := RenameCustom(db, org).value.roles;
            && r in roles
            && roles[r] == if db.roles[r].org == org then Upgraded(db.roles[r], r) else db.roles[r]
  {
  }

  /** Among the renamed roles, only a system manager still has the manager's code. */
  lemma ManagerLeft(db: Db, org: Org)
    requires RenameCustom(db, org).Ok?
    ensures var roles := RenameCustom(db, org).value.roles;
            (exists r :: r in roles && roles[r].org == org && roles[r].code == MANAGER)
            <==> HasManager(db.roles, org)
  {
    var roles := RenameCustom(db, org).value.roles;
    if r :| r in roles && roles[r].org == org && roles[r].code == MANAGER {
      RenamedIsNew(r, r);
      assert db.roles[r].system && db.roles[r].code == "project-manager";
    }
    if r :| r in db.roles && db.roles[r].org == org && db.roles[r].code == "project-manager"
            && db.roles[r].system {
      assert r in roles && roles[r].code == MANAGER;
    }
  }

  /** Renamed roles and, if the code is free, the new one. */
  lemma ManagerTurns(before: map<RoleId, Role>, db1: Db, org: Org, id: RoleId)
    requires id !in before && db1.roles.Keys == before.Keys
    requires forall r :: r in before ==>
               db1.roles[r] == if before[r].org == org then Upgraded(before[r], r) else before[r]
    requires (exists r :: r in db1.roles && db1.roles[r].org == org && db1.roles[r].code == MANAGER)
             <==> HasManager(before, org)
    ensures RolesTurned(before, AddManager(DropRetired(db1), org, id).roles, org, id)
    ensures AddManager(DropRetired(db1), org, id).members == db1.members
  {
    var after := AddManager(DropRetired(db1), org, id).roles;
    assert after == db1.roles || after == db1.roles[id := NewManager(org)];
    assert HasManager(before, org) <==> after == db1.roles;
  }

  lemma TurnRoles(db: Db, org: Org, id: RoleId)
    requires UpgradeOrg(db, org, id).Ok? && id !in db.roles
    ensures RolesTurned(db.roles, UpgradeOrg(db, org, id).value.roles, org, id)
    ensures UpgradeOrg(db, org, id).value.members == db.members
  {
    var db1 := RenameCustom(db, org).value;
    ManagerLeft(db, org);
    forall r | r in db.roles
      ensures db1.roles[r] == if db.roles[r].org == org then Upgraded(db.roles[r], r) else db.roles[r]
    {
      RenamedRoles(db, org, r);
    }
    ManagerTurns(db.roles, db1, org, id);
    GrantsLeaveRoles(AddManager(DropRetired(db1), org, id), org);
  }

  /** All turns: what one turn says, for every organization. */
  ghost predicate RolesUpgraded(before: map<RoleId, Role>, after: map<RoleId, Role>,
                                orgs: seq<Org>, ids: seq<RoleId>)
    requires |ids| == |orgs|
  {
    && (forall r :: r in before ==>
          r in after
          && after[r] == if before[r].org in orgs then Upgraded(before[r], r) else before[r])
    && (forall r :: r in after ==> r in before || r in ids)
    && (forall i :: 0 <= i < |orgs| ==> (ids[i] in after <==> !HasManager(before, orgs[i])))
    && (forall i :: 0 <= i < |orgs| && ids[i] in after ==> after[ids[i]] == NewManager(orgs[i]))
  }

  /** A turn of one organization changes nothing about the managers of another. */
  lemma OtherManagers(before: map<RoleId, Role>, after: map<RoleId, Role>, org: Org, id: RoleId,
                      other: Org)
    requires RolesTurned(before, after, org, id) && id !in before && other != org
    ensures HasManager(after, other) <==> HasManager(before, other)
  {
    if r :| r in before && before[r].org == other && before[r].code == "project-manager"
            && before[r].system {
      assert r in after;
    }
  }

  /** A first turn and the turns after it, for a role that was there. */
  lemma OldRole(before: map<RoleId, Role>, mid: map<RoleId, Role>, after: map<RoleId, Role>,
                orgs: seq<Org>, ids: seq<RoleId>, r: RoleId)
    requires |ids| == |orgs| && orgs != [] && orgs[0] !in orgs[1..]
    requires RolesTurned(before, mid, orgs[0], ids[0])
    requires RolesUpgraded(mid, after, orgs[1..], ids[1..])
    requires r in before
    ensures r in after
    ensures after[r] == if before[r].org in orgs then Upgraded(before[r], r) else before[r]
  {
    assert mid[r].org == before[r].org;
    assert before[r].org in orgs <==> before[r].org == orgs[0] || before[r].org in orgs[1..] by {
      assert orgs == [orgs[0]] + orgs[1..];
    }
  }

  /** A first turn and the turns after it, for the `i`th identifier drawn. */
  lemma DrawnRole(before: map<RoleId, Role>, mid: map<RoleId, Role>, after: map<RoleId, Role>,
                  orgs: seq<Org>, ids: seq<RoleId>, i: nat)
    requires |ids| == |orgs| && i < |orgs|
    requires Distinct(orgs) && Distinct(ids) && ids[0] !in before
    requires RolesTurned(before, mid, orgs[0], ids[0])
    requires RolesUpgraded(mid, after, orgs[1..], ids[1..])
    ensures ids[i] in after <==> !HasManager(before, orgs[i])
    ensures ids[i] in after ==> after[ids[i]] == NewManager(orgs[i])
  {
    if i > 0 {
      assert ids[i] == ids[1..][i - 1] && orgs[i] == orgs[1..][i - 1];
      OtherManagers(before, mid, orgs[0], ids[0], orgs[i]);
    } else {
      FirstManager(mid, after, orgs, ids);
    }
  }

  lemma TurnsCompose(before: map<RoleId, Role>, mid: map<RoleId, Role>, after: map<RoleId, Role>,
                     orgs: seq<Org>, ids: seq<RoleId>)
    requires |ids| == |orgs| && orgs != [] && Distinct(orgs) && Fresh(ids, before)
    requires RolesTurned(before, mid, orgs[0], ids[0])
    requires RolesUpgraded(mid, after, orgs[1..], ids[1..])
    ensures RolesUpgraded(before, after, orgs, ids)
  {
    forall r | r in before
      ensures r in after
      ensures after[r] == if before[r].org in orgs then Upgraded(before[r], r) else before[r]
    {
      assert forall i :: 0 <= i < |orgs[1..]| ==> orgs[1..][i] == orgs[i + 1];
      OldRole(before, mid, after, orgs, ids, r);
    }
    forall i | 0 <= i < |orgs|
      ensures ids[i] in after <==> !HasManager(before, orgs[i])
      ensures ids[i] in after ==> after[ids[i]] == NewManager(orgs[i])
    {
      DrawnRole(before, mid, after, orgs, ids, i);
    }
    NoOtherRoles(before, mid, after, orgs, ids);
  }

  lemma NoOtherRoles(before: map<RoleId, Role>, mid: map<RoleId, Role>, after: map<RoleId, Role>,
                     orgs: seq<Org>, ids: seq<RoleId>)
    requires |ids| == |orgs| && orgs != []
    requires RolesTurned(before, mid, orgs[0], ids[0])
    requires RolesUpgraded(mid, after, orgs[1..], ids[1..])
    ensures forall r :: r in after ==> r in before || r in ids
  {
    assert forall i :: 0 <= i < |ids[1..]| ==> ids[1..][i] == ids[i + 1];
  }

  lemma FirstManager(mid: map<RoleId, Role>, after: map<RoleId, Role>,
                     orgs: seq<Org>, ids: seq<RoleId>)
    requires |ids| == |orgs| && orgs != [] && Distinct(orgs) && Distinct(ids)
    requires ids[0] in mid ==> mid[ids[0]] == NewManager(orgs[0])
    requires RolesUpgraded(mid, after, orgs[1..], ids[1..])
    ensures ids[0] in after <==> ids[0] in mid
    ensures ids[0] in mid ==> after[ids[0]] == NewManager(orgs[0])
  {
    forall i | 0 <= i < |ids[1..]| ensures ids[1..][i] != ids[0] {
      assert ids[1..][i] == ids[i + 1];
    }
    assert ids[0] !in ids[1..];
  }

  lemma {:induction false} TurnsRoles(
    db0: Db, db: Db, done: set<Org>, orgs: seq<Org>, ids: seq<RoleId>)
    requires |ids| == |orgs| && Tracked(db0, db, done) && UpgradeOrgs(db, orgs, ids).Ok?
    requires Distinct(orgs) && (forall o :: o in orgs ==> o !in done) && Fresh(ids, db.roles)
    ensures RolesUpgraded(db.roles, UpgradeOrgs(db, orgs, ids).value.roles, orgs, ids)
    ensures UpgradeOrgs(db, orgs, ids).value.members == db.members
    decreases |orgs|
  {
    if orgs != [] {
      var next := UpgradeOrg(db, orgs[0], ids[0]).value;
      TurnRoles(db, orgs[0], ids[0]);
      TrackOrg(db0, db, done, orgs[0], ids[0]);
      TailFacts(orgs, ids, done, db.roles, next.roles);
      TurnsRoles(db0, next, done + {orgs[0]}, orgs[1..], ids[1..]);
      TurnsCompose(db.roles, next.roles, UpgradeOrgs(db, orgs, ids).value.roles, orgs, ids);
    }
  }

  // ------------------------------------------------------------------------- grants

  /** What the migration means the role of a grant to have: the administrator every code of the
      catalogue but the retired ones, a system role the codes paired with it. */
  predicate Deserved(roles: map<RoleId, Role>, permissions: set<Code>, g: Grant) {
    && g.role in roles && roles[g.role].org == g.org && roles[g.role].system
    && ((roles[g.role].code == "organization-administrator" && g.code in permissions
         && g.code != "project.view" && g.code != "project.edit")
        || Pair(roles[g.role].code, g.code) in PAIRS)
  }

  lemma GrantAllExact(db: Db, org: Org, g: Grant)
    requires GrantAll(db, org).Ok?
    ensures g in GrantAll(db, org).value.grants <==>
              g in db.grants || (g.org == org && Deserved(db.roles, db.permissions, g))
  {
    var db1 := AddGrants(db, AdministratorGrants(db, org)).value;
    assert g in AdministratorGrants(db, org) <==>
      g.org == org && g.role in db.roles && db.roles[g.role].org == org && db.roles[g.role].system
      && db.roles[g.role].code == "organization-administrator" && g.code in db.permissions
      && g.code != "project.view" && g.code != "project.edit" by { AdministratorExact(db, org, g); }
    BaselineGrantsExact(db1, org, g);
  }

  lemma AdministratorExact(db: Db, org: Org, g: Grant)
    ensures g in AdministratorGrants(db, org) <==>
      g.org == org && g.role in db.roles && db.roles[g.role].org == org && db.roles[g.role].system
      && db.roles[g.role].code == "organization-administrator" && g.code in db.permissions
      && g.code != "project.view" && g.code != "project.edit"
  {
    assert g == Grant(g.org, g.role, g.code);
  }

  lemma BaselineGrantsExact(db: Db, org: Org, g: Grant)
    ensures g in BaselineGrants(db, org) <==>
      g.org == org && g.role in db.roles && db.roles[g.role].org == org && db.roles[g.role].system
      && Pair(db.roles[g.role].code, g.code) in PAIRS
  {
    if g in BaselineGrants(db, org) {
      var r, p :| r in db.roles && p in PAIRS && db.roles[r].org == org && db.roles[r].system
                  && p.role == db.roles[r].code && g == Grant(org, r, p.code);
      assert p == Pair(db.roles[r].code, g.code);
    }
    if g.org == org && g.role in db.roles && db.roles[g.role].org == org
       && db.roles[g.role].system && Pair(db.roles[g.role].code, g.code) in PAIRS {
      var p := Pair(db.roles[g.role].code, g.code);
      assert g == Grant(org, g.role, p.code);
    }
  }

  /** One turn: the grants of retired codes go, and the organization's roles get what they deserve. */
  lemma TurnGrants(db: Db, org: Org, id: RoleId, g: Grant)
    requires UpgradeOrg(db, org, id).Ok?
    ensures var up := UpgradeOrg(db, org, id).value;
            && up.permissions == db.permissions
            && (g in up.grants <==>
                  (g in db.grants && g.code !in RETIRED)
                  || (g.org == org && Deserved(up.roles, db.permissions, g)))
  {
    var db2 := AddManager(DropRetired(RenameCustom(db, org).value), org, id);
    GrantAllExact(db2, org, g);
    GrantsLeaveRoles(db2, org);
  }

  lemma NothingRetiredDeserved(roles: map<RoleId, Role>, permissions: set<Code>, g: Grant)
    requires Deserved(roles, permissions, g)
    ensures g.code !in RETIRED
  {
    NothingRetiredIsGranted();
  }

  /** Later turns do not change what an organization's roles deserve. */
  lemma DeservedLater(mid: map<RoleId, Role>, after: map<RoleId, Role>, permissions: set<Code>,
                      orgs: seq<Org>, ids: seq<RoleId>, g: Grant)
    requires |ids| == |orgs| && RolesUpgraded(mid, after, orgs, ids) && Fresh(ids, mid)
    requires g.org !in orgs
    ensures Deserved(after, permissions, g) <==> Deserved(mid, permissions, g)
  {
    if g.role in after && g.role !in mid {
      var i :| 0 <= i < |ids| && ids[i] == g.role;
      assert after[g.role].org == orgs[i];
    }
  }

  lemma {:induction false} TurnsGrants(
    db0: Db, db: Db, done: set<Org>, orgs: seq<Org>, ids: seq<RoleId>, g: Grant)
    requires |ids| == |orgs| && Tracked(db0, db, done) && UpgradeOrgs(db, orgs, ids).Ok?
    requires Distinct(orgs) && (forall o :: o in orgs ==> o !in done) && Fresh(ids, db.roles)
    requires orgs != []
    ensures var up := UpgradeOrgs(db, orgs, ids).value;
            g in up.grants <==>
              (g in db.grants && g.code !in RETIRED)
              || (g.org in orgs && Deserved(up.roles, db.permissions, g))
    decreases |orgs|
  {
    var org, next := orgs[0], UpgradeOrg(db, orgs[0], ids[0]).value;
    TurnGrants(db, org, ids[0], g);
    if orgs[1..] == [] {
      assert orgs == [org];
    } else {
      TurnRoles(db, org, ids[0]);
      TrackOrg(db0, db, done, org, ids[0]);
      TailFacts(orgs, ids, done, db.roles, next.roles);
      TurnsGrants(db0, next, done + {org}, orgs[1..], ids[1..], g);
      TurnsRoles(db0, next, done + {org}, orgs[1..], ids[1..]);
      GrantsCompose(db, next, UpgradeOrgs(db, orgs, ids).value, orgs, ids, g);
    }
  }

  lemma GrantsCompose(db: Db, next: Db, up: Db, orgs: seq<Org>, ids: seq<RoleId>, g: Grant)
    requires |ids| == |orgs| && orgs != [] && Distinct(orgs) && Fresh(ids[1..], next.roles)
    requires RolesUpgraded(next.roles, up.roles, orgs[1..], ids[1..])
    requires g in next.grants <==>
               (g in db.grants && g.code !in RETIRED)
               || (g.org == orgs[0] && Deserved(next.roles, db.permissions, g))
    requires g in up.grants <==>
               (g in next.grants && g.code !in RETIRED)
               || (g.org in orgs[1..] && Deserved(up.roles, db.permissions, g))
    ensures g in up.grants <==>
              (g in db.grants && g.code !in RETIRED)
              || (g.org in orgs && Deserved(up.roles, db.permissions, g))
  {
    assert g.org in orgs <==> g.org == orgs[0] || g.org in orgs[1..] by {
      assert orgs == [orgs[0]] + orgs[1..];
    }
    if g.org == orgs[0] {
      assert forall i :: 0 <= i < |orgs[1..]| ==> orgs[1..][i] == orgs[i + 1];
      DeservedLater(next.roles, up.roles, db.permissions, orgs[1..], ids[1..], g);
      if Deserved(next.roles, db.permissions, g) {
        NothingRetiredDeserved(next.roles, db.permissions, g);
      }
    }
  }

  // ------------------------------------------------------------------------- the whole upgrade

  /** The roles after the upgrade, exactly: a custom Project Manager role has its new code and is
      otherwise as it was, as is every other role; an organization that had no system Project Manager
      role has one, under the identifier drawn for it; there are no other roles, and nobody's
      membership has changed. */
  lemma UpgradeRolesExact(db0: Db, orgs: seq<Org>, ids: seq<RoleId>)
    requires Consistent(db0) && |ids| == |orgs| && Enumerates(orgs, db0.roles) && Fresh(ids, db0.roles)
    requires Upgrade(db0, orgs, ids).Ok?
    ensures var up := Upgrade(db0, orgs, ids).value;
            && up.members == db0.members
            && up.permissions == db0.permissions + CODES - {"project.view", "project.edit"}
            && (forall r :: r in db0.roles ==> r in up.roles && up.roles[r] == Upgraded(db0.roles[r], r))
            && (forall r :: r in up.roles ==> r in db0.roles || r in ids)
            && (forall i :: 0 <= i < |orgs| ==> (ids[i] in up.roles <==> !HasManager(db0.roles, orgs[i])))
            && (forall i :: 0 <= i < |orgs| && ids[i] in up.roles ==>
                  up.roles[ids[i]] == NewManager(orgs[i]))
  {
    var db1 := AddPermissions(db0.(log := EMPTY));
    TrackAddPermissions(db0);
    TurnsRoles(db0, db1, {}, orgs, ids);
    PermissionsKept(db1, orgs, ids);
    forall r | r in db0.roles ensures db0.roles[r].org in orgs {
    }
  }

  /** The grants after the upgrade, exactly: nobody holds a retired code; of the others, a grant is
      there if and only if it was before, or its role is a system role of its organization that is
      the administrator or has a baseline pair with its code. */
  lemma UpgradeGrantsExact(db0: Db, orgs: seq<Org>, ids: seq<RoleId>, g: Grant)
    requires Consistent(db0) && |ids| == |orgs| && Enumerates(orgs, db0.roles) && Fresh(ids, db0.roles)
    requires Upgrade(db0, orgs, ids).Ok?
    ensures var up := Upgrade(db0, orgs, ids).value;
            g in up.grants <==>
              && g.code != "project.view" && g.code != "project.edit"
              && (|| g in db0.grants
                  || (&& g.role in up.roles && up.roles[g.role].org == g.org
                      && up.roles[g.role].system
                      && (|| (up.roles[g.role].code == "organization-administrator"
                              && g.code in up.permissions)
                          || Pair(up.roles[g.role].code, g.code) in PAIRS)))
  {
    var db1 := AddPermissions(db0.(log := EMPTY));
    var up := Upgrade(db0, orgs, ids).value;
    TrackAddPermissions(db0);
    PermissionsKept(db1, orgs, ids);
    UpgradeRolesExact(db0, orgs, ids);
    if orgs == [] {
      NoRolesNoGrants(db0, orgs);
      assert up.grants == db0.grants;
      assert g.role !in db0.roles by {
        assert g.role in db0.roles ==> db0.roles[g.role].org in orgs;
      }
    } else {
      TurnsGrants(db0, db1, {}, orgs, ids, g);
      if g.role in up.roles && up.roles[g.role].org == g.org { RoleOrgs(db0, orgs, ids, g.role); }
      if Deserved(up.roles, db1.permissions, g) {
        NothingRetiredDeserved(up.roles, db1.permissions, g);
      }
    }
  }

  lemma RoleOrgs(db0: Db, orgs: seq<Org>, ids: seq<RoleId>, r: RoleId)
    requires Consistent(db0) && |ids| == |orgs| && Enumerates(orgs, db0.roles) && Fresh(ids, db0.roles)
    requires Upgrade(db0, orgs, ids).Ok? && r in Upgrade(db0, orgs, ids).value.roles
    ensures Upgrade(db0, orgs, ids).value.roles[r].org in orgs
  {
    UpgradeRolesExact(db0, orgs, ids);
    if r !in db0.roles {
      var i :| 0 <= i < |ids| && ids[i] == r;
    }
  }
}
