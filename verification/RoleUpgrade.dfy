/** Migration 0053 going up: exactly when it succeeds, and the migration as it runs. */
module RoleUpgrade {
  import opened Collections
  import opened Wrappers
  import opened RoleCatalogue
  import opened RoleRoundTrip

  /** No role already has the name that a custom Project Manager role of this organization gets. */
  ghost predicate NamesFree(db: Db, org: Org) {
    forall id, other ::
      && id in db.roles && db.roles[id].org == org && db.roles[id].code == "project-manager"
      && !db.roles[id].system && other in db.roles && db.roles[other].org == org
      ==> db.roles[other].code != "project-manager-custom-" + id
  }

  /** The organization has, or will have, a system role with this code. */
  ghost predicate HasSystemRole(db: Db, org: Org, code: string) {
    code == "project-manager"
    || exists r :: r in db.roles && db.roles[r].org == org && db.roles[r].system
                   && db.roles[r].code == code
  }

  /** Every code that the baseline grants to a role of this organization is in the catalogue. */
  ghost predicate CodesKnown(db: Db, org: Org) {
    forall p :: p in PAIRS && HasSystemRole(db, org, p.role) ==> p.code in db.permissions + CODES
  }

  ghost predicate Upgradable(db: Db, org: Org) { NamesFree(db, org) && CodesKnown(db, org) }

  lemma SameRolesBefore(db0: Db, db: Db, done: set<Org>, org: Org, id: RoleId)
    requires Tracked(db0, db, done) && org !in done
    ensures id in db.roles && db.roles[id].org == org
            <==> id in db0.roles && db0.roles[id].org == org
    ensures id in db.roles && db.roles[id].org == org ==> db.roles[id] == db0.roles[id]
  {
  }

  /** Renaming succeeds exactly when the new names are free. */
  lemma RenameExact(db0: Db, db: Db, done: set<Org>, org: Org)
    requires Tracked(db0, db, done) && org !in done
    ensures RenameCustom(db, org).Ok? <==> NamesFree(db0, org)
  {
    forall id ensures id in CustomManagers(db, org) <==> id in CustomManagers(db0, org) {
      SameRolesBefore(db0, db, done, org, id);
    }
    var roles := WithRenamed(db, org);
    if NamesFree(db0, org) {
      forall a, b | a in roles && b in roles && a != b && roles[a].org == roles[b].org
        ensures roles[a].code != roles[b].code
      {
        RenamedIsNew(a, b);
        SameRolesBefore(db0, db, done, org, a);
        SameRolesBefore(db0, db, done, org, b);
      }
    } else {
      var id, other :|
        && id in db0.roles && db0.roles[id].org == org && db0.roles[id].code == "project-manager"
        && !db0.roles[id].system && other in db0.roles && db0.roles[other].org == org
        && db0.roles[other].code == "project-manager-custom-" + id;
      assert id in CustomManagers(db0, org);
      RenamedIsNew(id, other);
      SameRolesBefore(db0, db, done, org, id);
      SameRolesBefore(db0, db, done, org, other);
      assert roles[id].code == Renamed(id) == roles[other].code;
    }
  }

  /** Granting fails exactly on a baseline code that the catalogue lacks. */
  lemma GrantExact(db: Db, org: Org)
    requires Consistent(db)
    ensures GrantAll(db, org).Ok? <==>
              forall r, p :: r in db.roles && p in PAIRS && db.roles[r].org == org
                             && db.roles[r].system && p.role == db.roles[r].code
                ==> p.code in db.permissions
  {
    AdministratorGrantsPass(db, org);
    BaselineExact(AddGrants(db, AdministratorGrants(db, org)).value, org);
  }

  lemma BaselineExact(db: Db, org: Org)
    requires forall g :: g in db.grants ==> g.code in db.permissions
    ensures AddGrants(db, BaselineGrants(db, org)).Ok? <==>
              forall r, p :: r in db.roles && p in PAIRS && db.roles[r].org == org
                             && db.roles[r].system && p.role == db.roles[r].code
                ==> p.code in db.permissions
  {
    if r, p :| r in db.roles && p in PAIRS && db.roles[r].org == org
               && db.roles[r].system && p.role == db.roles[r].code && p.code !in db.permissions {
      var g := Grant(org, r, p.code);
      assert g in BaselineGrants(db, org) && g !in db.grants;
    }
  }

  /** What the administrator is granted is in the catalogue. */
  lemma AdministratorGrantsPass(db: Db, org: Org)
    requires Consistent(db)
    ensures var first := AddGrants(db, AdministratorGrants(db, org));
            && first.Ok? && first.value.roles == db.roles && first.value.permissions == db.permissions
            && forall g :: g in first.value.grants ==> g.code in db.permissions
  {
  }

  /** After renaming and adding, the organization's system roles are those it had, and a Project
      Manager role. */
  lemma SystemRolesAfter(db0: Db, db: Db, done: set<Org>, org: Org, id: RoleId, code: string)
    requires Tracked(db0, db, done) && org !in done && id !in db.roles && RenameCustom(db, org).Ok?
    ensures var db' := AddManager(DropRetired(RenameCustom(db, org).value), org, id);
            (exists r :: r in db'.roles && db'.roles[r].org == org && db'.roles[r].system
                         && db'.roles[r].code == code)
            <==> HasSystemRole(db0, org, code)
  {
    var db1 := DropRetired(RenameCustom(db, org).value);
    var db' := AddManager(db1, org, id);
    forall r | r in db.roles ensures r in db1.roles && r in db'.roles && db'.roles[r] == db1.roles[r]
    {
    }
    if code == MANAGER {
      if r :| r in db1.roles && db1.roles[r].org == org && db1.roles[r].code == MANAGER {
        RenamedIsNew(r, r);
        assert db'.roles[r].system;
      } else {
        assert db'.roles[id] == Role(org, MANAGER, MANAGER_NAME, true);
      }
    } else {
      forall r ensures (r in db'.roles && db'.roles[r].org == org && db'.roles[r].system
                        && db'.roles[r].code == code)
                   <==> (r in db0.roles && db0.roles[r].org == org && db0.roles[r].system
                        && db0.roles[r].code == code)
      {
        SameRolesBefore(db0, db, done, org, r);
      }
    }
  }

  /** Once renamed, an organization can be granted its roles exactly when the codes are known. */
  lemma CodesExact(db0: Db, db: Db, done: set<Org>, org: Org, id: RoleId, db2: Db)
    requires Tracked(db0, db, done) && org !in done && id !in db.roles && RenameCustom(db, org).Ok?
    requires db2 == AddManager(DropRetired(RenameCustom(db, org).value), org, id)
    requires db.permissions == db0.permissions + CODES && Consistent(db2)
    ensures db2.permissions == db.permissions
    ensures GrantAll(db2, org).Ok? <==> CodesKnown(db0, org)
  {
    GrantExact(db2, org);
    forall p | p in PAIRS ensures HasSystemRole(db0, org, p.role) <==>
      exists r :: r in db2.roles && db2.roles[r].org == org && db2.roles[r].system
                  && db2.roles[r].code == p.role
    {
      SystemRolesAfter(db0, db, done, org, id, p.role);
    }
  }

  lemma OrgExact(db0: Db, db: Db, done: set<Org>, org: Org, id: RoleId)
    requires Tracked(db0, db, done) && org !in done && id !in db.roles
    requires db.permissions == db0.permissions + CODES
    ensures UpgradeOrg(db, org, id).Ok? <==> Upgradable(db0, org)
    ensures UpgradeOrg(db, org, id).Ok? ==>
              UpgradeOrg(db, org, id).value.permissions == db.permissions
  {
    RenameExact(db0, db, done, org);
    if RenameCustom(db, org).Ok? {
      TrackRename(db0, db, done, org);
      var db1 := RenameCustom(db, org).value;
      TrackDropRetired(db0, db1, done + {org});
      TrackAddManager(db0, DropRetired(db1), done + {org}, org, id);
      CodesExact(db0, db, done, org, id, AddManager(DropRetired(db1), org, id));
    }
  }

  lemma {:induction false} OrgsExact(db0: Db, db: Db, done: set<Org>, orgs: seq<Org>, ids: seq<RoleId>)
    requires |ids| == |orgs| && Tracked(db0, db, done)
    requires db.permissions == db0.permissions + CODES
    requires Distinct(orgs) && (forall o :: o in orgs ==> o !in done) && Fresh(ids, db.roles)
    ensures UpgradeOrgs(db, orgs, ids).Ok? <==> forall o :: o in orgs ==> Upgradable(db0, o)
    decreases |orgs|
  {
    if orgs != [] {
      OrgExact(db0, db, done, orgs[0], ids[0]);
      assert forall o :: o in orgs <==> o == orgs[0] || o in orgs[1..];
      if UpgradeOrg(db, orgs[0], ids[0]).Ok? {
        TrackOrg(db0, db, done, orgs[0], ids[0]);
        var db' := UpgradeOrg(db, orgs[0], ids[0]).value;
        TailFacts(orgs, ids, done, db.roles, db'.roles);
        OrgsExact(db0, db', done + {orgs[0]}, orgs[1..], ids[1..]);
      }
    }
  }

  /** The upgrade succeeds exactly when, in every organization, the new name of a custom Project
      Manager role is free and the codes to be granted are known. */
  lemma UpgradeExact(db0: Db, orgs: seq<Org>, ids: seq<RoleId>)
    requires Consistent(db0) && |ids| == |orgs| && Enumerates(orgs, db0.roles) && Fresh(ids, db0.roles)
    ensures Upgrade(db0, orgs, ids).Ok? <==> forall o :: o in orgs ==> Upgradable(db0, o)
  {
    TrackAddPermissions(db0);
    OrgsExact(db0, AddPermissions(db0.(log := EMPTY)), {}, orgs, ids);
    if UpgradeOrgs(AddPermissions(db0.(log := EMPTY)), orgs, ids).Ok? {
      TrackUpgrade(db0, orgs, ids);
    }
  }

  // ------------------------------------------------------------------------- what it delivers

  /** The code is the system Project Manager role's, and no other role's. */
  ghost predicate ManagerDelivered(db: Db, org: Org) {
    && (exists r :: r in db.roles && db.roles[r].org == org && db.roles[r].code == MANAGER)
    && (forall r :: r in db.roles && db.roles[r].org == org && db.roles[r].code == MANAGER ==>
          db.roles[r].system)
  }

  /** The administrator holds every code that is not retired, every system role its baseline. */
  ghost predicate GrantsDelivered(db: Db, org: Org) {
    forall r :: r in db.roles && db.roles[r].org == org && db.roles[r].system ==>
      && (db.roles[r].code == ADMINISTRATOR ==>
            forall p :: p in db.permissions && p !in RETIRED ==> Grant(org, r, p) in db.grants)
      && (forall p :: p in PAIRS && p.role == db.roles[r].code ==> Grant(org, r, p.code) in db.grants)
  }

  ghost predicate Delivered(db: Db, org: Org) {
    ManagerDelivered(db, org) && GrantsDelivered(db, org)
  }

  lemma GrantAllDelivers(db: Db, org: Org)
    requires GrantAll(db, org).Ok?
    ensures var db' := GrantAll(db, org).value;
            && GrantsDelivered(db', org)
            && db'.roles == db.roles && db'.permissions == db.permissions && db.grants <= db'.grants
  {
    var db1 := AddGrants(db, AdministratorGrants(db, org)).value;
    var db' := AddGrants(db1, BaselineGrants(db1, org)).value;
    forall r, p | r in db.roles && db.roles[r].org == org && db.roles[r].system && p in PAIRS
                  && p.role == db.roles[r].code
      ensures Grant(org, r, p.code) in db'.grants
    {
      assert Grant(org, r, p.code) in BaselineGrants(db1, org);
    }
    forall r, p | r in db.roles && db.roles[r].org == org && db.roles[r].system && p in db.permissions
                  && db.roles[r].code == ADMINISTRATOR && p !in RETIRED
      ensures Grant(org, r, p) in db'.grants
    {
      assert Grant(org, r, p) in AdministratorGrants(db, org);
    }
  }

  lemma ManagerAdded(db: Db, org: Org, id: RoleId)
    requires RenameCustom(db, org).Ok? && id !in db.roles
    ensures ManagerDelivered(AddManager(DropRetired(RenameCustom(db, org).value), org, id), org)
  {
    var db1 := RenameCustom(db, org).value;
    forall r | r in db1.roles && db1.roles[r].org == org && db1.roles[r].code == MANAGER
      ensures db1.roles[r].system
    {
      RenamedIsNew(r, r);
    }
    var db2 := AddManager(DropRetired(db1), org, id);
    if r :| r in db1.roles && db1.roles[r].org == org && db1.roles[r].code == MANAGER {
      assert r in db2.roles;
    } else {
      assert id in db2.roles;
    }
  }

  lemma OrgDelivers(db: Db, org: Org, id: RoleId)
    requires UpgradeOrg(db, org, id).Ok? && id !in db.roles
    ensures Delivered(UpgradeOrg(db, org, id).value, org)
    ensures UpgradeOrg(db, org, id).value.permissions == db.permissions
  {
    ManagerAdded(db, org, id);
    var db2 := AddManager(DropRetired(RenameCustom(db, org).value), org, id);
    GrantAllDelivers(db2, org);
    ManagerSame(db2, UpgradeOrg(db, org, id).value, org);
  }

  lemma ManagerSame(a: Db, b: Db, org: Org)
    requires a.roles == b.roles && ManagerDelivered(a, org)
    ensures ManagerDelivered(b, org)
  {
    var r :| r in a.roles && a.roles[r].org == org && a.roles[r].code == MANAGER;
    assert r in b.roles;
  }

  /** One organization's turn leaves the roles of another alone, and its grants but for retired codes. */
  lemma OthersUntouched(db: Db, org: Org, id: RoleId, other: Org)
    requires UpgradeOrg(db, org, id).Ok? && id !in db.roles && other != org
    ensures var up := UpgradeOrg(db, org, id).value;
            && up.permissions == db.permissions
            && (forall g :: g in db.grants && g.code !in RETIRED ==> g in up.grants)
            && (forall r :: r in up.roles && up.roles[r].org == other ==>
                  r in db.roles && up.roles[r] == db.roles[r])
            && (forall r :: r in db.roles && db.roles[r].org == other ==>
                  r in up.roles && up.roles[r] == db.roles[r])
  {
    GrantAllDelivers(AddManager(DropRetired(RenameCustom(db, org).value), org, id), org);
    OtherRoles(db, org, id, other);
  }

  lemma OtherRoles(db: Db, org: Org, id: RoleId, other: Org)
    requires RenameCustom(db, org).Ok? && id !in db.roles && other != org
    ensures var next := AddManager(DropRetired(RenameCustom(db, org).value), org, id);
            && next.permissions == db.permissions
            && (forall g :: g in db.grants && g.code !in RETIRED ==> g in next.grants)
            && (forall r :: r in next.roles && next.roles[r].org == other ==>
                  r in db.roles && next.roles[r] == db.roles[r])
            && (forall r :: r in db.roles && db.roles[r].org == other ==>
                  r in next.roles && next.roles[r] == db.roles[r])
  {
  }

  /** What one organization has been given is not disturbed by the next one's turn. */
  lemma OthersKeep(db: Db, org: Org, id: RoleId, other: Org)
    requires UpgradeOrg(db, org, id).Ok? && id !in db.roles && other != org && Delivered(db, other)
    ensures Delivered(UpgradeOrg(db, org, id).value, other)
  {
    OthersUntouched(db, org, id, other);
    StillDelivered(db, UpgradeOrg(db, org, id).value, other);
  }

  lemma StillDelivered(db: Db, up: Db, other: Org)
    requires Delivered(db, other) && up.permissions == db.permissions
    requires forall g :: g in db.grants && g.code !in RETIRED ==> g in up.grants
    requires forall r :: r in up.roles && up.roles[r].org == other ==>
               r in db.roles && up.roles[r] == db.roles[r]
    requires forall r :: r in db.roles && db.roles[r].org == other ==>
               r in up.roles && up.roles[r] == db.roles[r]
    ensures Delivered(up, other)
  {
    NothingRetiredIsGranted();
    var r :| r in db.roles && db.roles[r].org == other && db.roles[r].code == MANAGER;
    assert r in up.roles;
  }

  lemma {:induction false} OrgsDeliver(
    db0: Db, db: Db, done: set<Org>, orgs: seq<Org>, ids: seq<RoleId>, org: Org)
    requires |ids| == |orgs| && Tracked(db0, db, done) && UpgradeOrgs(db, orgs, ids).Ok?
    requires Distinct(orgs) && (forall o :: o in orgs ==> o !in done) && Fresh(ids, db.roles)
    requires org in orgs || (org in done && Delivered(db, org))
    ensures Delivered(UpgradeOrgs(db, orgs, ids).value, org)
    ensures UpgradeOrgs(db, orgs, ids).value.permissions == db.permissions
    decreases |orgs|
  {
    if orgs != [] {
      OrgDelivers(db, orgs[0], ids[0]);
      TrackOrg(db0, db, done, orgs[0], ids[0]);
      var db' := UpgradeOrg(db, orgs[0], ids[0]).value;
      TailFacts(orgs, ids, done, db.roles, db'.roles);
      if org !in orgs { OthersKeep(db, orgs[0], ids[0], org); }
      assert org in orgs <==> org == orgs[0] || org in orgs[1..];
      OrgsDeliver(db0, db', done + {orgs[0]}, orgs[1..], ids[1..], org);
    }
  }

  /** What the upgrade is for: the catalogue gains the codes and loses the retired ones, nobody holds
      a retired code, and every organization has its Project Manager role and its baseline grants. */
  lemma UpgradeDelivers(db0: Db, orgs: seq<Org>, ids: seq<RoleId>)
    requires Consistent(db0) && |ids| == |orgs| && Enumerates(orgs, db0.roles) && Fresh(ids, db0.roles)
    requires Upgrade(db0, orgs, ids).Ok?
    ensures var up := Upgrade(db0, orgs, ids).value;
            && up.permissions == db0.permissions + CODES - RETIRED
            && (forall g :: g in up.grants ==> g.code !in RETIRED)
            && forall org :: org in orgs ==> Delivered(up, org)
  {
    TrackUpgrade(db0, orgs, ids);
    TrackAddPermissions(db0);
    var db1 := AddPermissions(db0.(log := EMPTY));
    var db2 := UpgradeOrgs(db1, orgs, ids).value;
    PermissionsKept(db1, orgs, ids);
    forall org | org in orgs ensures Delivered(RemoveRetired(db2).value, org) {
      OrgsDeliver(db0, db1, {}, orgs, ids, org);
    }
  }

  lemma {:induction false} PermissionsKept(
    db: Db, orgs: seq<Org>, ids: seq<RoleId>)
    requires |ids| == |orgs| && UpgradeOrgs(db, orgs, ids).Ok?
    ensures UpgradeOrgs(db, orgs, ids).value.permissions == db.permissions
    decreases |orgs|
  {
    if orgs != [] {
      PermissionsKept(UpgradeOrg(db, orgs[0], ids[0]).value, orgs[1..], ids[1..]);
    }
  }

  // ------------------------------------------------------------------------- the migration, running

  /** The tables. A migration runs in one transaction: if a statement fails, nothing has changed. */
  class Catalogue {
    var db: Db

    constructor (db: Db)
      ensures this.db == db
    {
      this.db := db;
    }

    method RunUpgrade(orgs: seq<Org>, ids: seq<RoleId>) returns (failure: Option<Violation>)
      requires |ids| == |orgs|
      modifies this
      ensures match Upgrade(old(db), orgs, ids)
              case Ok(up) => failure == None && db == up
              case Err(e) => failure == Some(e) && db == old(db)
    {
      var before := db;
      db := AddPermissions(db.(log := EMPTY));
      ghost var start := db;
      for i := 0 to |orgs|
        invariant UpgradeOrgs(start, orgs, ids) == UpgradeOrgs(db, orgs[i..], ids[i..])
      {
        assert orgs[i..][1..] == orgs[i + 1..] && ids[i..][1..] == ids[i + 1..];
        failure := UpgradeOne(orgs[i], ids[i]);
        if failure.Some? { db := before; return; }
      }
      var last := RemoveRetired(db);
      if last.Err? { db := before; return Some(last.error); }
      db := last.value;
      failure := None;
    }

    method UpgradeOne(org: Org, id: RoleId) returns (failure: Option<Violation>)
      modifies this
      ensures match UpgradeOrg(old(db), org, id)
              case Ok(db') => failure == None && db == db'
              case Err(e) => failure == Some(e)
    {
      var renamed := RenameCustom(db, org);
      if renamed.Err? { return Some(renamed.error); }
      db := renamed.value;
      db := DropRetired(db);
      db := AddManager(db, org, id);
      var granted := AddGrants(db, AdministratorGrants(db, org));
      if granted.Err? { return Some(granted.error); }
      db := granted.value;
      granted := AddGrants(db, BaselineGrants(db, org));
      if granted.Err? { return Some(granted.error); }
      db := granted.value;
      failure := None;
    }

    method RunDowngrade(orgs: seq<Org>) returns (failure: Option<Violation>)
      modifies this
      ensures match Downgrade(old(db), orgs)
              case Ok(down) => failure == None && db == down
              case Err(e) => failure == Some(e) && db == old(db)
    {
      var before := db;
      db := RestorePermissions(db);
      ghost var start := db;
      for i := 0 to |orgs|
        invariant DowngradeOrgs(start, orgs) == DowngradeOrgs(db, orgs[i..])
      {
        assert orgs[i..][1..] == orgs[i + 1..];
        failure := DowngradeOne(orgs[i]);
        if failure.Some? { db := before; return; }
      }
      var last := RemoveAddedPermissions(db);
      if last.Err? { db := before; return Some(last.error); }
      db := last.value;
      failure := None;
    }

    method DowngradeOne(org: Org) returns (failure: Option<Violation>)
      modifies this
      ensures match DowngradeOrg(old(db), org)
              case Ok(db') => failure == None && db == db'
              case Err(e) => failure == Some(e)
    {
      var added := AddedRoles(db.log, org);
      db := DropAddedGrants(db, org);
      db := DropGrantsOf(db, added);
      db := DropMembersOf(db, added);
      db := DropRoles(db, added);
      var restored := RestoreCodes(db, org);
      if restored.Err? { return Some(restored.error); }
      db := restored.value;
      var granted := RestoreGrants(db, org);
      if granted.Err? { return Some(granted.error); }
      db := granted.value;
      db := DropGrantsOfAddedCodes(db);
      failure := None;
    }
  }
}
