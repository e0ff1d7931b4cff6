/**
  Migration 0053: catalogue codes, the Project Manager role and the baseline grants. Every row it
  inserts, renames or deletes goes to a change log, and the downgrade undoes exactly the logged rows.
  Rows are sets and maps; a constraint that a statement would violate makes it fail.
 */
module RoleCatalogue {
  import opened Wrappers

  type Org = string
  type Code = string
  type RoleId = string  // the identifier's hexadecimal text, without hyphens

  datatype Role = Role(org: Org, code: string, name: string, system: bool)

  datatype Grant = Grant(org: Org, role: RoleId, code: Code)

  datatype Member = Member(org: Org, user: string, role: RoleId)

  datatype Renaming = Renaming(org: Org, code: string)

  /** The change log, one field for each kind of row. */
  datatype Log = Log(
    permissionAdded: set<Code>,
    permissionRemoved: set<Code>,
    roleAdded: map<RoleId, Org>,
    roleRenamed: map<RoleId, Renaming>,
    grantAdded: set<Grant>,
    grantRemoved: set<Grant>)

  datatype Db = Db(
    permissions: set<Code>,
    roles: map<RoleId, Role>,
    grants: set<Grant>,
    members: set<Member>,
    log: Log)

  const EMPTY: Log := Log({}, {}, map[], map[], {}, {})

  const MANAGER: string := "project-manager"
  const MANAGER_NAME: string := "Project Manager"
  const ADMINISTRATOR: string := "organization-administrator"

  const RETIRED: set<Code> := {"project.view", "project.edit"}

  const CODES: set<Code> := {
    "budget.adjust", "budget.allocate", "fiscal.close", "fiscal.manage", "fiscal.read",
    "fiscal.reopen", "fx.read", "import.read", "import.run", "ledger.read", "master.manage",
    "master.read", "org.setting.manage", "org.unit.manage", "org.unit.read",
    "project.close.override", "project.complete", "project.read", "project.submit",
    "project.update", "project_request.create", "master_code.substitute"}

  datatype Pair = Pair(role: string, code: Code)

  function PairsOf(role: string, codes: set<Code>): set<Pair> {
    set c | c in codes :: Pair(role, c)
  }

  const PROJECT_ADMINISTRATOR_CODES: set<Code> := {
    "project.read", "project.update", "project.submit", "project.complete",
    "project.close.override", "budget.allocate", "ledger.read", "master.read"}

  const MANAGER_CODES: set<Code> := {
    "project.read", "project.create", "project.update", "project.submit", "project.complete",
    "requisition.view", "requisition.create", "requisition.edit", "requisition.submit",
    "requisition.withdraw", "project_request.create", "master_code.substitute", "budget.view",
    "ledger.read", "master.read", "record.read", "report.view"}

  const FINANCE_CODES: set<Code> := {
    "budget.allocate", "budget.adjust", "ledger.read", "fiscal.read", "fx.read"}

  const AUDITOR_CODES: set<Code> := {
    "ledger.read", "fiscal.read", "master.read", "import.read", "fx.read", "project.read",
    "org.unit.read"}

  const READER_CODES: set<Code> := {"project.read"}

  /** The baseline grants of the system roles other than the administrator. */
  const PAIRS: set<Pair> :=
    PairsOf("project-administrator", PROJECT_ADMINISTRATOR_CODES) +
    PairsOf(MANAGER, MANAGER_CODES) +
    PairsOf("budget-finance-user", FINANCE_CODES) +
    PairsOf("requestor", READER_CODES) +
    PairsOf("approver", READER_CODES) +
    PairsOf("auditor", AUDITOR_CODES)

  lemma NothingRetiredIsAdded()
    ensures CODES !! RETIRED
  {
  }

  lemma NothingRetiredInBaseline()
    ensures PROJECT_ADMINISTRATOR_CODES !! RETIRED && MANAGER_CODES !! RETIRED
    ensures FINANCE_CODES !! RETIRED && AUDITOR_CODES !! RETIRED && READER_CODES !! RETIRED
  {
  }

  lemma NothingRetiredIsGranted()
    ensures forall p :: p in PAIRS ==> p.code !in RETIRED
  {
    NothingRetiredInBaseline();
    forall p | p in PAIRS ensures p.code !in RETIRED { PairCode(p); }
  }

  lemma PairCode(p: Pair)
    requires p in PAIRS
    ensures p.code in PROJECT_ADMINISTRATOR_CODES || p.code in MANAGER_CODES || p.code in FINANCE_CODES
            || p.code in READER_CODES || p.code in AUDITOR_CODES
  {
  }

  function Renamed(id: RoleId): string { "project-manager-custom-" + id }

  lemma RenamedIsNew(a: RoleId, b: RoleId)
    ensures Renamed(a) != MANAGER
    ensures Renamed(a) == Renamed(b) ==> a == b
  {
    assert Renamed(a)[23..] == a && Renamed(b)[23..] == b;
  }

  // ------------------------------------------------------------------------- constraints

  predicate UniqueCodes(roles: map<RoleId, Role>) {
    forall a, b :: a in roles && b in roles && a != b ==>
      roles[a].org != roles[b].org || roles[a].code != roles[b].code
  }

  /** Keys, unique codes and foreign keys hold. */
  ghost predicate Consistent(db: Db) {
    && UniqueCodes(db.roles)
    && (forall g :: g in db.grants ==>
          g.role in db.roles && db.roles[g.role].org == g.org && g.code in db.permissions)
    && (forall m :: m in db.members ==> m.role in db.roles && db.roles[m.role].org == m.org)
  }

  datatype Violation = DuplicateCode | UnknownPermission | PermissionInUse

  // ------------------------------------------------------------------------- upgrade statements

  function AddPermissions(db: Db): Db {
    var inserted := CODES - db.permissions;
    db.(permissions := db.permissions + inserted,
        log := db.log.(permissionAdded := db.log.permissionAdded + inserted))
  }

  function CustomManagers(db: Db, org: Org): set<RoleId> {
    set id | id in db.roles && db.roles[id].org == org && db.roles[id].code == MANAGER
             && !db.roles[id].system
  }

  function WithRenamed(db: Db, org: Org): map<RoleId, Role> {
    var ids := CustomManagers(db, org);
    map id | id in db.roles ::
      if id in ids then db.roles[id].(code := Renamed(id)) else db.roles[id]
  }

  function RenameCustom(db: Db, org: Org): Result<Db, Violation> {
    if !UniqueCodes(WithRenamed(db, org)) then Err(DuplicateCode)
    else
      var changes := map id | id in CustomManagers(db, org) :: Renaming(org, db.roles[id].code);
      Ok(db.(roles := WithRenamed(db, org),
             log := db.log.(roleRenamed := db.log.roleRenamed + changes)))
  }

  function DropRetired(db: Db): Db {
    var gone := set g | g in db.grants && g.code in RETIRED;
    db.(grants := db.grants - gone,
        log := db.log.(grantRemoved := db.log.grantRemoved + gone))
  }

  function AddManager(db: Db, org: Org, id: RoleId): Db {
    if exists r :: r in db.roles && db.roles[r].org == org && db.roles[r].code == MANAGER then db
    else
      db.(roles := db.roles[id := Role(org, MANAGER, MANAGER_NAME, true)],
          log := db.log.(roleAdded := db.log.roleAdded[id := org]))
  }

  function AddGrants(db: Db, grants: set<Grant>): Result<Db, Violation> {
    var inserted := grants - db.grants;
    if exists g :: g in inserted && g.code !in db.permissions then Err(UnknownPermission)
    else
      Ok(db.(grants := db.grants + inserted,
             log := db.log.(grantAdded := db.log.grantAdded + inserted)))
  }

  function AdministratorGrants(db: Db, org: Org): set<Grant> {
    set r, p | r in db.roles && p in db.permissions && db.roles[r].org == org &&
               db.roles[r].system && db.roles[r].code == ADMINISTRATOR && p !in RETIRED
      :: Grant(org, r, p)
  }

  function BaselineGrants(db: Db, org: Org): set<Grant> {
    set r, p | r in db.roles && p in PAIRS && db.roles[r].org == org && db.roles[r].system &&
               p.role == db.roles[r].code
      :: Grant(org, r, p.code)
  }

  function RemoveRetired(db: Db): Result<Db, Violation> {
    var gone := db.permissions * RETIRED;
    if exists g :: g in db.grants && g.code in gone then Err(PermissionInUse)
    else
      Ok(db.(permissions := db.permissions - gone,
             log := db.log.(permissionRemoved := db.log.permissionRemoved + gone)))
  }

  function GrantAll(db: Db, org: Org): Result<Db, Violation> {
    match AddGrants(db, AdministratorGrants(db, org))
    case Err(e) => Err(e)
    case Ok(db') => AddGrants(db', BaselineGrants(db', org))
  }

  function UpgradeOrg(db: Db, org: Org, id: RoleId): Result<Db, Violation> {
    match RenameCustom(db, org)
    case Err(e) => Err(e)
    case Ok(db') => GrantAll(AddManager(DropRetired(db'), org, id), org)
  }

  function UpgradeOrgs(db: Db, orgs: seq<Org>, ids: seq<RoleId>): Result<Db, Violation>
    requires |ids| == |orgs|
    decreases |orgs|
  {
    if orgs == [] then Ok(db)
    else
      match UpgradeOrg(db, orgs[0], ids[0])
      case Err(e) => Err(e)
      case Ok(db') => UpgradeOrgs(db', orgs[1..], ids[1..])
  }

  /** The upgrade, over the organizations in any order, with the identifiers it draws for new roles. */
  function Upgrade(db: Db, orgs: seq<Org>, ids: seq<RoleId>): Result<Db, Violation>
    requires |ids| == |orgs|
  {
    match UpgradeOrgs(AddPermissions(db.(log := EMPTY)), orgs, ids)
    case Err(e) => Err(e)
    case Ok(db') => RemoveRetired(db')
  }

  // ------------------------------------------------------------------------- downgrade statements

  function RestorePermissions(db: Db): Db {
    db.(permissions := db.permissions + db.log.permissionRemoved)
  }

  function DropAddedGrants(db: Db, org: Org): Db {
    db.(grants := set g | g in db.grants && !(g in db.log.grantAdded && g.org == org))
  }

  function AddedRoles(log: Log, org: Org): set<RoleId> {
    set id | id in log.roleAdded && log.roleAdded[id] == org
  }

  function DropGrantsOf(db: Db, roles: set<RoleId>): Db {
    db.(grants := set g | g in db.grants && g.role !in roles)
  }

  function DropMembersOf(db: Db, roles: set<RoleId>): Db {
    db.(members := set m | m in db.members && m.role !in roles)
  }

  /** Deleting roles takes the grants and memberships that refer to them along. */
  function DropRoles(db: Db, roles: set<RoleId>): Db {
    DropMembersOf(DropGrantsOf(db.(roles := db.roles - roles), roles), roles)
  }

  function WithRestored(db: Db, org: Org): map<RoleId, Role> {
    map id | id in db.roles ::
      if id in db.log.roleRenamed && db.log.roleRenamed[id].org == org
      then db.roles[id].(code := db.log.roleRenamed[id].code) else db.roles[id]
  }

  function RestoreCodes(db: Db, org: Org): Result<Db, Violation> {
    if UniqueCodes(WithRestored(db, org)) then Ok(db.(roles := WithRestored(db, org)))
    else Err(DuplicateCode)
  }

  function RestoreGrants(db: Db, org: Org): Result<Db, Violation> {
    var back := (set g | g in db.log.grantRemoved && g.org == org) - db.grants;
    if exists g :: g in back && (g.code !in db.permissions || g.role !in db.roles) then
      Err(UnknownPermission)
    else Ok(db.(grants := db.grants + back))
  }

  function DropGrantsOfAddedCodes(db: Db): Db {
    db.(grants := set g | g in db.grants && g.code !in db.log.permissionAdded)
  }

  function DowngradeOrg(db: Db, org: Org): Result<Db, Violation> {
    var added := AddedRoles(db.log, org);
    var db1 := DropRoles(DropMembersOf(DropGrantsOf(DropAddedGrants(db, org), added), added), added);
    match RestoreCodes(db1, org)
    case Err(e) => Err(e)
    case Ok(db2) =>
      match RestoreGrants(db2, org)
      case Err(e) => Err(e)
      case Ok(db3) => Ok(DropGrantsOfAddedCodes(db3))
  }

  function DowngradeOrgs(db: Db, orgs: seq<Org>): Result<Db, Violation>
    decreases |orgs|
  {
    if orgs == [] then Ok(db)
    else
      match DowngradeOrg(db, orgs[0])
      case Err(e) => Err(e)
      case Ok(db') => DowngradeOrgs(db', orgs[1..])
  }

  function RemoveAddedPermissions(db: Db): Result<Db, Violation> {
    if exists g :: g in db.grants && g.code in db.log.permissionAdded then Err(PermissionInUse)
    else Ok(db.(permissions := db.permissions - db.log.permissionAdded, log := EMPTY))
  }

  function Downgrade(db: Db, orgs: seq<Org>): Result<Db, Violation> {
    match DowngradeOrgs(RestorePermissions(db), orgs)
    case Err(e) => Err(e)
    case Ok(db') => RemoveAddedPermissions(db')
  }
}
