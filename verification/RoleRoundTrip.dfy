/** Migration 0053 undone: what every statement keeps, and the round trip. */
module RoleRoundTrip {
  import opened Collections
  import opened Wrappers
  import opened RoleCatalogue

  // ------------------------------------------------------------------------- the log tells all

  ghost predicate PermissionsTracked(db0: Db, db: Db) {
    && db.log.permissionAdded !! db0.permissions
    && db.log.permissionAdded !! RETIRED
    && db.log.permissionRemoved <= db0.permissions * RETIRED
    && db.permissions == db0.permissions + db.log.permissionAdded - db.log.permissionRemoved
  }

  /** A role of the original database as it is now. */
  function Current(db0: Db, log: Log, id: RoleId): Role
    requires id in db0.roles
  {
    if id in log.roleRenamed then db0.roles[id].(code := Renamed(id)) else db0.roles[id]
  }

  ghost predicate RolesTracked(db0: Db, db: Db, done: set<Org>) {
    && db.log.roleAdded.Keys !! db0.roles.Keys
    && db.log.roleRenamed.Keys <= db0.roles.Keys
    && db.roles.Keys == db0.roles.Keys + db.log.roleAdded.Keys
    && (forall id :: id in db.log.roleAdded ==>
          db.roles[id] == Role(db.log.roleAdded[id], MANAGER, MANAGER_NAME, true))
    && (forall id :: id in db.log.roleRenamed ==>
          db.log.roleRenamed[id] == Renaming(db0.roles[id].org, db0.roles[id].code))
    && (forall id :: id in db0.roles ==> db.roles[id] == Current(db0, db.log, id))
    && (forall id :: id in db.log.roleAdded ==> db.log.roleAdded[id] in done)
    && (forall id :: id in db.log.roleRenamed ==> db.log.roleRenamed[id].org in done)
  }

  ghost predicate GrantsTracked(db0: Db, db: Db) {
    && db.log.grantRemoved <= db0.grants
    && db.log.grantAdded !! db0.grants
    && (forall g :: g in db.log.grantRemoved ==> g.code in RETIRED)
    && (forall g :: g in db.log.grantAdded ==> g.code !in RETIRED)
    && db.grants == db0.grants - db.log.grantRemoved + db.log.grantAdded
  }

  /** The change log accounts for every difference from the original database; changes of roles are
      confined to the organizations done. */
  ghost predicate Tracked(db0: Db, db: Db, done: set<Org>) {
    && Consistent(db)
    && PermissionsTracked(db0, db)
    && RolesTracked(db0, db, done)
    && GrantsTracked(db0, db)
    && db.members == db0.members
  }

  lemma TrackAddPermissions(db0: Db)
    requires Consistent(db0)
    ensures Tracked(db0, AddPermissions(db0.(log := EMPTY)), {})
  {
    NothingRetiredIsAdded();
  }

  /** Rows that refer to roles do not notice a change of codes. */
  lemma RecodedConsistent(db: Db, roles: map<RoleId, Role>)
    requires Consistent(db) && UniqueCodes(roles) && roles.Keys == db.roles.Keys
    requires forall id :: id in roles ==> roles[id].org == db.roles[id].org
    ensures Consistent(db.(roles := roles))
  {
  }

  lemma RenameKeepsRoles(db0: Db, db: Db, done: set<Org>, org: Org)
    requires RolesTracked(db0, db, done) && org !in done && RenameCustom(db, org).Ok?
    ensures RolesTracked(db0, RenameCustom(db, org).value, done + {org})
  {
    var db' := RenameCustom(db, org).value;
    forall id | id in CustomManagers(db, org)
      ensures id in db0.roles && id !in db.log.roleRenamed
      ensures db'.roles[id] == Current(db0, db'.log, id)
    {
      RenamedIsNew(id, id);
    }
    forall id | id in db0.roles && id !in CustomManagers(db, org)
      ensures db'.roles[id] == Current(db0, db'.log, id)
    {
    }
  }

  lemma TrackRename(db0: Db, db: Db, done: set<Org>, org: Org)
    requires Tracked(db0, db, done) && org !in done && RenameCustom(db, org).Ok?
    ensures Tracked(db0, RenameCustom(db, org).value, done + {org})
  {
    RenameKeepsRoles(db0, db, done, org);
    RenameConsistent(db, org);
  }

  lemma RenameConsistent(db: Db, org: Org)
    requires Consistent(db) && RenameCustom(db, org).Ok?
    ensures Consistent(RenameCustom(db, org).value)
  {
    RecodedConsistent(db, WithRenamed(db, org));
  }

  lemma TrackDropRetired(db0: Db, db: Db, done: set<Org>)
    requires Tracked(db0, db, done)
    ensures Tracked(db0, DropRetired(db), done)
    ensures forall g :: g in DropRetired(db).grants ==> g.code !in RETIRED
  {
  }

  lemma AddManagerConsistent(db: Db, org: Org, id: RoleId)
    requires Consistent(db) && id !in db.roles
    ensures Consistent(AddManager(db, org, id))
  {
  }

  lemma AddManagerKeepsRoles(db0: Db, db: Db, done: set<Org>, org: Org, id: RoleId)
    requires RolesTracked(db0, db, done) && org in done && id !in db.roles
    ensures RolesTracked(db0, AddManager(db, org, id), done)
  {
  }

  lemma TrackAddManager(db0: Db, db: Db, done: set<Org>, org: Org, id: RoleId)
    requires Tracked(db0, db, done) && org in done && id !in db.roles
    ensures Tracked(db0, AddManager(db, org, id), done)
    ensures AddManager(db, org, id).grants == db.grants
    ensures AddManager(db, org, id).roles.Keys <= db.roles.Keys + {id}
  {
    AddManagerConsistent(db, org, id);
    AddManagerKeepsRoles(db0, db, done, org, id);
  }

  ghost predicate Grantable(db: Db, grants: set<Grant>) {
    forall g :: g in grants ==>
      g.role in db.roles && db.roles[g.role].org == g.org && g.code !in RETIRED
  }

  lemma TrackAddGrants(db0: Db, db: Db, done: set<Org>, grants: set<Grant>)
    requires Tracked(db0, db, done) && Grantable(db, grants) && AddGrants(db, grants).Ok?
    requires forall g :: g in db.grants ==> g.code !in RETIRED
    ensures var db' := AddGrants(db, grants).value;
            && Tracked(db0, db', done) && db'.roles == db.roles && db'.permissions == db.permissions
            && forall g :: g in db'.grants ==> g.code !in RETIRED
  {
  }

  lemma TrackGrantAll(db0: Db, db: Db, done: set<Org>, org: Org)
    requires Tracked(db0, db, done) && GrantAll(db, org).Ok?
    requires forall g :: g in db.grants ==> g.code !in RETIRED
    ensures Tracked(db0, GrantAll(db, org).value, done)
    ensures GrantAll(db, org).value.roles == db.roles
    ensures forall g :: g in GrantAll(db, org).value.grants ==> g.code !in RETIRED
  {
    NothingRetiredIsGranted();
    TrackAddGrants(db0, db, done, AdministratorGrants(db, org));
    var db' := AddGrants(db, AdministratorGrants(db, org)).value;
    TrackAddGrants(db0, db', done, BaselineGrants(db', org));
  }

  lemma TrackOrg(db0: Db, db: Db, done: set<Org>, org: Org, id: RoleId)
    requires Tracked(db0, db, done) && org !in done && id !in db.roles
    requires UpgradeOrg(db, org, id).Ok?
    ensures var db' := UpgradeOrg(db, org, id).value;
            && Tracked(db0, db', done + {org})
            && db'.roles.Keys <= db.roles.Keys + {id}
            && forall g :: g in db'.grants ==> g.code !in RETIRED
  {
    TrackRename(db0, db, done, org);
    var db1 := RenameCustom(db, org).value;
    TrackDropRetired(db0, db1, done + {org});
    TrackAddManager(db0, DropRetired(db1), done + {org}, org, id);
    TrackGrantAll(db0, AddManager(DropRetired(db1), org, id), done + {org}, org);
  }

  ghost predicate NoneRetired(db: Db) { forall g :: g in db.grants ==> g.code !in RETIRED }

  /** What the query for the organizations yields: each organization that has a role, once. */
  ghost predicate Enumerates(orgs: seq<Org>, roles: map<RoleId, Role>) {
    Distinct(orgs) && forall o :: o in orgs <==> exists id :: id in roles && roles[id].org == o
  }

  /** Identifiers drawn for new roles: different from each other and from those in use. */
  ghost predicate Fresh(ids: seq<RoleId>, roles: map<RoleId, Role>) {
    Distinct(ids) && forall id :: id in ids ==> id !in roles
  }

  lemma TailFacts(orgs: seq<Org>, ids: seq<RoleId>, done: set<Org>,
                  roles: map<RoleId, Role>, roles': map<RoleId, Role>)
    requires |ids| == |orgs| && orgs != [] && Distinct(orgs) && Fresh(ids, roles)
    requires forall o :: o in orgs ==> o !in done
    requires roles'.Keys <= roles.Keys + {ids[0]}
    ensures Distinct(orgs[1..]) && Fresh(ids[1..], roles')
    ensures forall o :: o in orgs[1..] ==> o !in done + {orgs[0]}
    ensures done + Members(orgs) == done + {orgs[0]} + Members(orgs[1..])
  {
    assert orgs == [orgs[0]] + orgs[1..];
  }

  lemma {:induction false} TrackOrgs(db0: Db, db: Db, done: set<Org>, orgs: seq<Org>, ids: seq<RoleId>)
    requires |ids| == |orgs| && Tracked(db0, db, done) && UpgradeOrgs(db, orgs, ids).Ok?
    requires Distinct(orgs) && (forall o :: o in orgs ==> o !in done) && Fresh(ids, db.roles)
    ensures Tracked(db0, UpgradeOrgs(db, orgs, ids).value, done + Members(orgs))
    ensures NoneRetired(db) || orgs != [] ==> NoneRetired(UpgradeOrgs(db, orgs, ids).value)
    decreases |orgs|
  {
    if orgs == [] {
      assert done + Members(orgs) == done;
    } else {
      TrackOrg(db0, db, done, orgs[0], ids[0]);
      var db' := UpgradeOrg(db, orgs[0], ids[0]).value;
      TailFacts(orgs, ids, done, db.roles, db'.roles);
      TrackOrgs(db0, db', done + {orgs[0]}, orgs[1..], ids[1..]);
    }
  }

  lemma TrackRemoveRetired(db0: Db, db: Db, done: set<Org>)
    requires Tracked(db0, db, done) && NoneRetired(db)
    ensures RemoveRetired(db).Ok? && Tracked(db0, RemoveRetired(db).value, done)
  {
  }

  /** After a successful upgrade the log accounts for every difference it made. */
  lemma TrackUpgrade(db0: Db, orgs: seq<Org>, ids: seq<RoleId>)
    requires Consistent(db0) && |ids| == |orgs| && Enumerates(orgs, db0.roles) && Fresh(ids, db0.roles)
    requires UpgradeOrgs(AddPermissions(db0.(log := EMPTY)), orgs, ids).Ok?
    ensures Upgrade(db0, orgs, ids).Ok?
    ensures Tracked(db0, Upgrade(db0, orgs, ids).value, Members(orgs))
  {
    TrackAddPermissions(db0);
    var db1 := AddPermissions(db0.(log := EMPTY));
    TrackOrgs(db0, db1, {}, orgs, ids);
    assert {} + Members(orgs) == Members(orgs);
    NoRolesNoGrants(db0, orgs);
    TrackRemoveRetired(db0, UpgradeOrgs(db1, orgs, ids).value, Members(orgs));
  }

  lemma NoRolesNoGrants(db: Db, orgs: seq<Org>)
    requires Consistent(db) && Enumerates(orgs, db.roles)
    ensures orgs == [] ==> db.grants == {} && db.members == {}
  {
    if orgs == [] {
      assert forall id :: id in db.roles ==> db.roles[id].org in orgs;
    }
  }

  // ------------------------------------------------------------------------- undoing

  /** A database after the upgrade to which grants and memberships have been added since. */
  ghost predicate Extends(up: Db, now: Db) {
    && Consistent(now)
    && now.permissions == up.permissions && now.roles == up.roles && now.log == up.log
    && up.grants <= now.grants && up.members <= now.members
  }

  predicate RoleGone(log: Log, done: set<Org>, role: RoleId) {
    role in log.roleAdded && log.roleAdded[role] in done
  }

  /** Whether a grant is there once the organizations in `done` have been undone. */
  predicate GrantNow(now: Db, done: set<Org>, g: Grant) {
    if done == {} then g in now.grants
    else
      && g.code !in now.log.permissionAdded
      && if g.org in done && g in now.log.grantRemoved then true
         else && g in now.grants
              && !(g.org in done && g in now.log.grantAdded)
              && !RoleGone(now.log, done, g.role)
  }

  ghost predicate RolesUndone(db0: Db, now: Db, done: set<Org>, db: Db) {
    && (forall id :: id in db.roles <==> id in now.roles && !RoleGone(now.log, done, id))
    && (forall id :: id in db.roles ==>
          db.roles[id] == if id in db0.roles && db0.roles[id].org in done then db0.roles[id]
                          else now.roles[id])
  }

  /** The database while it is being undone, with the organizations in `done` behind. */
  ghost predicate Undone(db0: Db, now: Db, done: set<Org>, db: Db) {
    && db.log == now.log
    && db.permissions == now.permissions + now.log.permissionRemoved
    && RolesUndone(db0, now, done, db)
    && (forall g :: g in db.grants <==> GrantNow(now, done, g))
    && (forall m :: m in db.members <==> m in now.members && !RoleGone(now.log, done, m.role))
  }

  /** The starting point of the round trip. */
  ghost predicate Setting(db0: Db, up: Db, now: Db, all: set<Org>) {
    Consistent(db0) && Tracked(db0, up, all) && Extends(up, now)
  }

  lemma UndoneStart(db0: Db, up: Db, now: Db, all: set<Org>)
    requires Setting(db0, up, now, all)
    ensures Undone(db0, now, {}, RestorePermissions(now))
  {
  }

  /** Within one organization all codes are the original ones or all are the upgraded ones, so no
      two of them meet: the added role is gone before the renamed one takes its code back. */
  lemma UndoneUnique(db0: Db, up: Db, now: Db, all: set<Org>, done: set<Org>, db: Db)
    requires Setting(db0, up, now, all) && RolesUndone(db0, now, done, db)
    ensures UniqueCodes(db.roles)
  {
    forall a, b | a in db.roles && b in db.roles && a != b && db.roles[a].org == db.roles[b].org
      ensures db.roles[a].code != db.roles[b].code
    {
      InOneForm(db0, up, now, all, done, db, a);
      InOneForm(db0, up, now, all, done, db, b);
    }
  }

  lemma InOneForm(db0: Db, up: Db, now: Db, all: set<Org>, done: set<Org>, db: Db, id: RoleId)
    requires Setting(db0, up, now, all) && RolesUndone(db0, now, done, db) && id in db.roles
    ensures id in now.roles && db.roles[id].org == now.roles[id].org
    ensures db.roles[id].org in done ==> id in db0.roles && db.roles[id] == db0.roles[id]
    ensures db.roles[id].org !in done ==> db.roles[id] == now.roles[id]
  {
  }

  /** The roles after an organization's added role is dropped and its renamed one restored. */
  function RolesAfter(db: Db, org: Org): map<RoleId, Role> {
    WithRestored(db.(roles := db.roles - AddedRoles(db.log, org)), org)
  }

  lemma UndoRoles(db0: Db, up: Db, now: Db, all: set<Org>, done: set<Org>, db: Db, org: Org)
    requires Setting(db0, up, now, all) && Undone(db0, now, done, db)
    ensures RolesUndone(db0, now, done + {org}, db.(roles := RolesAfter(db, org)))
    ensures UniqueCodes(RolesAfter(db, org))
  {
    var db' := db.(roles := RolesAfter(db, org));
    assert db'.roles.Keys == db.roles.Keys - AddedRoles(db.log, org);
    forall id | id in db'.roles
      ensures db'.roles[id] == if id in db0.roles && db0.roles[id].org in done + {org}
                               then db0.roles[id] else now.roles[id]
    {
      RoleAfter(db0, up, now, all, done, db, org, id);
    }
    UndoneUnique(db0, up, now, all, done + {org}, db');
  }

  lemma RoleAfter(db0: Db, up: Db, now: Db, all: set<Org>, done: set<Org>, db: Db, org: Org, id: RoleId)
    requires Setting(db0, up, now, all) && Undone(db0, now, done, db)
    requires id in db.roles && id !in AddedRoles(db.log, org)
    ensures RolesAfter(db, org)[id] ==
              if id in db0.roles && db0.roles[id].org in done + {org} then db0.roles[id]
              else now.roles[id]
  {
    InOneForm(db0, up, now, all, done, db, id);
  }

  /** The grants of the original database as the log knows them. */
  lemma OriginalGrants(db0: Db, up: Db, now: Db, all: set<Org>, g: Grant)
    requires Setting(db0, up, now, all) && g in db0.grants
    ensures g.role in db0.roles && g.role in now.roles && now.roles[g.role].org == g.org
    ensures g.role !in now.log.roleAdded
    ensures g.code in db0.permissions && g.code !in now.log.permissionAdded
    ensures g !in now.log.grantAdded
    ensures g in now.grants || g in now.log.grantRemoved
  {
  }

  /** One organization's grants: what the five statements on grants leave, one grant at a time. */
  lemma UndoGrant(db0: Db, up: Db, now: Db, all: set<Org>, done: set<Org>, db: Db, org: Org, g: Grant)
    requires Setting(db0, up, now, all) && Undone(db0, now, done, db)
    ensures GrantNow(now, done + {org}, g) <==>
              && g.code !in db.log.permissionAdded
              && ((g in db.log.grantRemoved && g.org == org)
                  || (g in db.grants && !(g in db.log.grantAdded && g.org == org)
                      && g.role !in AddedRoles(db.log, org)))
  {
    if g in now.log.grantRemoved { OriginalGrants(db0, up, now, all, g); }
  }

  /** Undoing one organization succeeds and moves it behind. */
  lemma UndoOrg(db0: Db, up: Db, now: Db, all: set<Org>, done: set<Org>, db: Db, org: Org)
    requires Setting(db0, up, now, all) && Undone(db0, now, done, db)
    ensures DowngradeOrg(db, org).Ok? && Undone(db0, now, done + {org}, DowngradeOrg(db, org).value)
  {
    UndoRoles(db0, up, now, all, done, db, org);
    RestorableGrants(db0, up, now, all, done, db, org);
    var db' := DowngradeOrg(db, org).value;
    forall g ensures g in db'.grants <==> GrantNow(now, done + {org}, g) {
      UndoGrant(db0, up, now, all, done, db, org, g);
    }
  }

  /** The database before the removed grants come back. */
  function BeforeGrants(db: Db, org: Org): Db {
    var added := AddedRoles(db.log, org);
    DropRoles(DropMembersOf(DropGrantsOf(DropAddedGrants(db, org), added), added), added)
      .(roles := RolesAfter(db, org))
  }

  lemma RestorableGrants(db0: Db, up: Db, now: Db, all: set<Org>, done: set<Org>, db: Db, org: Org)
    requires Setting(db0, up, now, all) && Undone(db0, now, done, db)
    requires UniqueCodes(RolesAfter(db, org))
    ensures RestoreGrants(BeforeGrants(db, org), org).Ok?
    ensures DowngradeOrg(db, org).Ok?
    ensures DowngradeOrg(db, org).value
         == DropGrantsOfAddedCodes(RestoreGrants(BeforeGrants(db, org), org).value)
  {
    forall g | g in db.log.grantRemoved
      ensures g.code in db.permissions && g.role in RolesAfter(db, org)
    {
      OriginalGrants(db0, up, now, all, g);
    }
  }

  lemma {:induction false} UndoOrgs(
    db0: Db, up: Db, now: Db, all: set<Org>, done: set<Org>, db: Db, orgs: seq<Org>)
    requires Setting(db0, up, now, all) && Undone(db0, now, done, db)
    ensures DowngradeOrgs(db, orgs).Ok?
    ensures Undone(db0, now, done + Members(orgs), DowngradeOrgs(db, orgs).value)
    decreases |orgs|
  {
    if orgs == [] {
      assert done + Members(orgs) == done;
    } else {
      UndoOrg(db0, up, now, all, done, db, orgs[0]);
      assert done + Members(orgs) == done + {orgs[0]} + Members(orgs[1..]);
      UndoOrgs(db0, up, now, all, done + {orgs[0]}, DowngradeOrg(db, orgs[0]).value, orgs[1..]);
    }
  }

  /** What has been added since the upgrade and depends on nothing that the upgrade added. */
  function LaterGrants(up: Db, now: Db): set<Grant> {
    set g | g in now.grants && g !in up.grants && g.role !in up.log.roleAdded
            && g.code !in up.log.permissionAdded
  }

  function LaterMembers(up: Db, now: Db): set<Member> {
    set m | m in now.members && m !in up.members && m.role !in up.log.roleAdded
  }

  /** The tables are the original ones with the later additions, and the log is gone. */
  ghost predicate Restored(db0: Db, up: Db, now: Db, r: Db) {
    && r.permissions == db0.permissions
    && r.roles == db0.roles
    && r.grants == db0.grants + LaterGrants(up, now)
    && r.members == db0.members + LaterMembers(up, now)
    && r.log == EMPTY
  }

  lemma AllDone(db0: Db, up: Db, now: Db, all: set<Org>, orgs: seq<Org>, db: Db)
    requires Setting(db0, up, now, all) && Undone(db0, now, Members(orgs), db)
    requires Enumerates(orgs, now.roles)
    ensures db.permissions - db.log.permissionAdded == db0.permissions
    ensures db.roles == db0.roles
    ensures db.members == db0.members + LaterMembers(up, now)
    ensures db.grants == db0.grants + LaterGrants(up, now)
    ensures forall g :: g in db.grants ==> g.code !in db.log.permissionAdded
  {
    AllRolesDone(db0, up, now, all, orgs, db);
    AllGrantsBack(db0, up, now, all, orgs, db);
    forall g | g in db.grants ensures g.code !in db.log.permissionAdded {
      AllGrantsDone(db0, up, now, all, orgs, db, g);
      if g in db0.grants { OriginalGrants(db0, up, now, all, g); }
    }
  }

  lemma AllGrantsBack(db0: Db, up: Db, now: Db, all: set<Org>, orgs: seq<Org>, db: Db)
    requires Setting(db0, up, now, all) && Undone(db0, now, Members(orgs), db)
    requires Enumerates(orgs, now.roles)
    ensures db.grants == db0.grants + LaterGrants(up, now)
  {
    forall g ensures g in db.grants <==> g in db0.grants + LaterGrants(up, now) {
      AllGrantsDone(db0, up, now, all, orgs, db, g);
    }
  }

  lemma AllRolesDone(db0: Db, up: Db, now: Db, all: set<Org>, orgs: seq<Org>, db: Db)
    requires Setting(db0, up, now, all) && Undone(db0, now, Members(orgs), db)
    requires Enumerates(orgs, now.roles)
    ensures db.roles == db0.roles
  {
    forall id ensures id in db.roles <==> id in db0.roles {
      RoleDone(db0, up, now, all, orgs, db, id);
    }
    forall id | id in db.roles ensures db.roles[id] == db0.roles[id] {
      RoleDone(db0, up, now, all, orgs, db, id);
    }
    assert db.roles.Keys == db0.roles.Keys;
  }

  lemma RoleDone(db0: Db, up: Db, now: Db, all: set<Org>, orgs: seq<Org>, db: Db, id: RoleId)
    requires Setting(db0, up, now, all) && Undone(db0, now, Members(orgs), db)
    requires Enumerates(orgs, now.roles)
    ensures id in db.roles <==> id in db0.roles
    ensures id in db.roles ==> db.roles[id] == db0.roles[id]
  {
    assert id in now.roles <==> id in db0.roles || id in now.log.roleAdded;
    if id in now.roles {
      assert now.roles[id].org in orgs;
    }
    if id in db.roles { InOneForm(db0, up, now, all, Members(orgs), db, id); }
  }

  lemma AllGrantsDone(db0: Db, up: Db, now: Db, all: set<Org>, orgs: seq<Org>, db: Db, g: Grant)
    requires Setting(db0, up, now, all) && Undone(db0, now, Members(orgs), db)
    requires Enumerates(orgs, now.roles)
    ensures g in db.grants <==> g in db0.grants + LaterGrants(up, now)
  {
    if g in db0.grants {
      OriginalGrants(db0, up, now, all, g);
      assert g.org in orgs;
    } else if g in now.grants {
      assert now.roles[g.role].org in orgs;
    }
  }

  /** Self-undoing: whatever the permissions, roles and grants over any number of organizations, and
      whatever grants and memberships were added in between, the downgrade succeeds and restores the
      three relations exactly, keeping of the additions all that does not depend on what the upgrade
      added. */
  lemma DowngradeRestores(
    db0: Db, orgs: seq<Org>, ids: seq<RoleId>, now: Db, orgsNow: seq<Org>)
    requires Consistent(db0) && |ids| == |orgs| && Enumerates(orgs, db0.roles) && Fresh(ids, db0.roles)
    requires Upgrade(db0, orgs, ids).Ok? && Extends(Upgrade(db0, orgs, ids).value, now)
    requires Enumerates(orgsNow, now.roles)
    ensures Downgrade(now, orgsNow).Ok?
    ensures Restored(db0, Upgrade(db0, orgs, ids).value, now, Downgrade(now, orgsNow).value)
  {
    TrackUpgrade(db0, orgs, ids);
    var up, all := Upgrade(db0, orgs, ids).value, Members(orgs);
    UndoneStart(db0, up, now, all);
    UndoOrgs(db0, up, now, all, {}, RestorePermissions(now), orgsNow);
    var db := DowngradeOrgs(RestorePermissions(now), orgsNow).value;
    assert {} + Members(orgsNow) == Members(orgsNow);
    AllDone(db0, up, now, all, orgsNow, db);
  }

  /** The plain round trip. */
  lemma RoundTrip(db0: Db, orgs: seq<Org>, ids: seq<RoleId>, orgsUp: seq<Org>)
    requires Consistent(db0) && |ids| == |orgs| && Enumerates(orgs, db0.roles) && Fresh(ids, db0.roles)
    requires Upgrade(db0, orgs, ids).Ok? && Enumerates(orgsUp, Upgrade(db0, orgs, ids).value.roles)
    ensures Downgrade(Upgrade(db0, orgs, ids).value, orgsUp) == Ok(db0.(log := EMPTY))
  {
    var up := Upgrade(db0, orgs, ids).value;
    TrackUpgrade(db0, orgs, ids);
    DowngradeRestores(db0, orgs, ids, up, orgsUp);
    var down := Downgrade(up, orgsUp).value;
    assert LaterGrants(up, up) == {} && LaterMembers(up, up) == {};
    assert down.grants == db0.grants && down.members == db0.members;
    assert down == db0.(log := EMPTY);
  }
}
