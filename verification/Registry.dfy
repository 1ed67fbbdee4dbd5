// The code-owned registry of backend/rbac/registry.py and its projection into the
// database by backend/tools/sync_registry.py.
module Registry {
  import opened Common
  import opened AccountTypes
  import opened AccountSpec
  import opened SuperAdmins

  datatype Area = Crew | Maintenance | Stores | AdminArea

  datatype Readiness =
    | Available
    | Pilot
    | UnderValidation
    | RequiresConfiguration
    | UnderDevelopment
    | NotMigrated
    | DiscoveryRequired

  // The fields that decide anything; names, routes and descriptions are display text.
  datatype Definition = Definition(
    key: string,
    area: Area,
    readiness: Readiness,
    view: string,
    actions: seq<string>,
    sortOrder: nat)

  datatype PermissionDefinition = PermissionDefinition(key: string, area: Area)

  // A stored module: its definition's fields, under an `enabled` flag of its own.
  datatype Module = Module(enabled: bool, projection: Definition)

  const ADMIN_DEFINITIONS := [
    PermissionDefinition("admin.users.view", AdminArea),
    PermissionDefinition("admin.users.manage", AdminArea),
    PermissionDefinition("admin.roles.manage", AdminArea),
    PermissionDefinition("admin.roles.manage_super_admin", AdminArea),
    PermissionDefinition("admin.modules.manage", AdminArea),
    PermissionDefinition("admin.audit.view", AdminArea)]

  function Keys(definitions: seq<PermissionDefinition>): set<string> {
    set d | d in definitions :: d.key
  }

  // ------------------------------------------------------------- the key sets

  function ViewKeys(modules: seq<Definition>): set<string> {
    set m | m in modules && m.area != AdminArea :: m.view
  }

  function ActionKeys(modules: seq<Definition>): set<string> {
    set m, a | m in modules && m.area != AdminArea && a in m.actions :: a
  }

  function ModuleKeys(modules: seq<Definition>): set<string> {
    ViewKeys(modules) + ActionKeys(modules)
  }

  function PermissionKeys(modules: seq<Definition>): set<string> {
    ModuleKeys(modules) + Keys(ADMIN_DEFINITIONS)
  }

  function ActionRows(actions: seq<string>, area: Area): (rows: seq<PermissionDefinition>)
    ensures |rows| == |actions| && forall i | 0 <= i < |rows| :: rows[i] == PermissionDefinition(actions[i], area)
  {
    if actions == [] then []
    else ActionRows(actions[..|actions| - 1], area) + [PermissionDefinition(actions[|actions| - 1], area)]
  }

  function ModuleRows(m: Definition): seq<PermissionDefinition> {
    if m.area == AdminArea then [] else [PermissionDefinition(m.view, m.area)] + ActionRows(m.actions, m.area)
  }

  lemma KeysAppend(a: seq<PermissionDefinition>, b: seq<PermissionDefinition>)
    ensures Keys(a + b) == Keys(a) + Keys(b)
  {
  }

  lemma KeysOfOne(d: PermissionDefinition)
    ensures Keys([d]) == {d.key}
  {
    assert d in [d];
  }

  lemma {:induction false} ActionRowKeys(actions: seq<string>, area: Area)
    ensures Keys(ActionRows(actions, area)) == Elements(actions)
    decreases |actions|
  {
    if actions != [] {
      var front, last := actions[..|actions| - 1], actions[|actions| - 1];
      assert actions == front + [last];
      ActionRowKeys(front, area);
      KeysAppend(ActionRows(front, area), [PermissionDefinition(last, area)]);
      KeysOfOne(PermissionDefinition(last, area));
    }
  }

  lemma KeysOfOneModule(m: Definition)
    ensures ModuleKeys([m]) == if m.area == AdminArea then {} else {m.view} + Elements(m.actions)
  {
    assert m in [m];
  }

  lemma ModuleRowKeys(m: Definition)
    ensures Keys(ModuleRows(m)) == ModuleKeys([m])
  {
    KeysOfOneModule(m);
    if m.area != AdminArea {
      KeysOfOne(PermissionDefinition(m.view, m.area));
      KeysAppend([PermissionDefinition(m.view, m.area)], ActionRows(m.actions, m.area));
      ActionRowKeys(m.actions, m.area);
    }
  }

  lemma ModuleKeysAppend(a: seq<Definition>, b: seq<Definition>)
    ensures ModuleKeys(a + b) == ModuleKeys(a) + ModuleKeys(b)
  {
    assert ViewKeys(a + b) == ViewKeys(a) + ViewKeys(b);
    assert ActionKeys(a + b) == ActionKeys(a) + ActionKeys(b);
  }

  // PERMISSION_CATALOGUE: the module entries in registry order, then the admin ones.
  function ModuleCatalogue(modules: seq<Definition>): seq<PermissionDefinition> {
    if modules == [] then []
    else ModuleCatalogue(modules[..|modules| - 1]) + ModuleRows(modules[|modules| - 1])
  }

  function Catalogue(modules: seq<Definition>): seq<PermissionDefinition> {
    ModuleCatalogue(modules) + ADMIN_DEFINITIONS
  }

  lemma {:induction false} ModuleCatalogueKeys(modules: seq<Definition>)
    ensures Keys(ModuleCatalogue(modules)) == ModuleKeys(modules)
    decreases |modules|
  {
    if modules != [] {
      var front, last := modules[..|modules| - 1], modules[|modules| - 1];
      assert modules == front + [last];
      ModuleCatalogueKeys(front);
      ModuleKeysAppend(front, [last]);
      ModuleRowKeys(last);
      KeysAppend(ModuleCatalogue(front), ModuleRows(last));
    }
  }

  lemma CatalogueKeys(modules: seq<Definition>)
    ensures Keys(ModuleCatalogue(modules)) == ModuleKeys(modules)
    ensures Keys(Catalogue(modules)) == PermissionKeys(modules)
  {
    ModuleCatalogueKeys(modules);
    KeysAppend(ModuleCatalogue(modules), ADMIN_DEFINITIONS);
  }

  method AppendRows(before: seq<PermissionDefinition>, m: Definition) returns (definitions: seq<PermissionDefinition>)
    requires m.area != AdminArea
    ensures definitions == before + ModuleRows(m)
  {
    definitions := before + [PermissionDefinition(m.view, m.area)];
    for j := 0 to |m.actions|
      invariant definitions == before + ([PermissionDefinition(m.view, m.area)] + ActionRows(m.actions[..j], m.area))
    {
      assert m.actions[..j + 1][..j] == m.actions[..j];
      definitions := definitions + [PermissionDefinition(m.actions[j], m.area)];
    }
    assert m.actions[..|m.actions|] == m.actions;
  }

  // The loops of _module_permissions.
  method BuildCatalogue(modules: seq<Definition>) returns (definitions: seq<PermissionDefinition>)
    ensures definitions == Catalogue(modules)
  {
    definitions := [];
    for i := 0 to |modules|
      invariant definitions == ModuleCatalogue(modules[..i])
    {
      assert modules[..i + 1][..i] == modules[..i];
      if modules[i].area != AdminArea {
        definitions := AppendRows(definitions, modules[i]);
      }
    }
    assert modules[..|modules|] == modules;
    definitions := definitions + ADMIN_DEFINITIONS;
  }

  // What the definitions say of each key; the last one wins.
  function Overlay(definitions: seq<PermissionDefinition>): (m: map<string, Area>)
    ensures m.Keys == Keys(definitions)
  {
    if definitions == [] then map[]
    else
      var last := definitions[|definitions| - 1];
      assert definitions == definitions[..|definitions| - 1] + [last];
      Overlay(definitions[..|definitions| - 1])[last.key := last.area]
  }

  lemma OverlayNext(definitions: seq<PermissionDefinition>, i: nat, base: map<string, Area>)
    requires i < |definitions|
    ensures base + Overlay(definitions[..i + 1]) ==
              (base + Overlay(definitions[..i]))[definitions[i].key := definitions[i].area]
  {
    assert definitions[..i + 1][..i] == definitions[..i];
  }

  // ------------------------------------------------------ what a registry must be

  predicate DistinctKeys(rows: seq<PermissionDefinition>) {
    forall i, j | 0 <= i < j < |rows| :: rows[i].key != rows[j].key
  }

  predicate Owns(m: Definition, key: string) {
    m.key + "." <= key
  }

  // Every permission of a module is named after it.
  predicate Namespaced(m: Definition) {
    && '.' !in m.key && m.key != "admin"
    && (m.area != AdminArea ==>
          && Owns(m, m.view) && m.view !in m.actions
          && (forall a | a in m.actions :: Owns(m, a))
          && Distinct(m.actions))
  }

  predicate DistinctModules(registry: seq<Definition>) {
    forall i, j | 0 <= i < j < |registry| :: registry[i].key != registry[j].key
  }

  predicate WellFormed(registry: seq<Definition>) {
    DistinctModules(registry) && forall m | m in registry :: Namespaced(m)
  }

  lemma PrefixesDecide(a: string, b: string, key: string)
    requires '.' !in a && '.' !in b && a + "." <= key && b + "." <= key
    ensures a == b
  {
    assert key[|a|] == (a + ".")[|a|] == '.' && key[|b|] == (b + ".")[|b|] == '.';
    if |a| == |b| {
      assert a == (a + ".")[..|a|] == (b + ".")[..|a|] == b;
    }
  }

  lemma ModuleRowsAreOwned(m: Definition)
    requires Namespaced(m)
    ensures DistinctKeys(ModuleRows(m))
    ensures forall i | 0 <= i < |ModuleRows(m)| :: Owns(m, ModuleRows(m)[i].key)
  {
    if m.area != AdminArea {
      var rows := ModuleRows(m);
      assert rows[0].key == m.view;
      assert forall i | 1 <= i < |rows| :: rows[i].key == m.actions[i - 1] && m.actions[i - 1] in m.actions;
    }
  }

  ghost predicate OwnedBySome(modules: seq<Definition>, key: string) {
    exists m | m in modules :: Owns(m, key)
  }

  lemma {:induction false} CatalogueIsOwned(modules: seq<Definition>, i: nat)
    requires forall m | m in modules :: Namespaced(m)
    requires i < |ModuleCatalogue(modules)|
    ensures OwnedBySome(modules, ModuleCatalogue(modules)[i].key)
    decreases |modules|
  {
    var front, last := modules[..|modules| - 1], modules[|modules| - 1];
    assert last in modules;
    if i < |ModuleCatalogue(front)| {
      CatalogueIsOwned(front, i);
      var m :| m in front && Owns(m, ModuleCatalogue(front)[i].key);
      assert m in modules;
    } else {
      ModuleRowsAreOwned(last);
      assert Owns(last, ModuleRows(last)[i - |ModuleCatalogue(front)|].key);
    }
  }

  lemma OwnersAreApart(front: seq<Definition>, last: Definition, key: string)
    requires WellFormed(front + [last]) && OwnedBySome(front, key)
    ensures !Owns(last, key)
  {
    var m :| m in front && Owns(m, key);
    var i :| 0 <= i < |front| && front[i] == m;
    assert (front + [last])[i] == m && (front + [last])[|front|] == last;
    assert m in front + [last] && last in front + [last];
    if Owns(last, key) {
      PrefixesDecide(m.key, last.key, key);
    }
  }

  lemma {:induction false} ModuleCatalogueIsDistinct(modules: seq<Definition>)
    requires WellFormed(modules)
    ensures DistinctKeys(ModuleCatalogue(modules))
    decreases |modules|
  {
    if modules != [] {
      var front, last := modules[..|modules| - 1], modules[|modules| - 1];
      assert modules == front + [last];
      assert WellFormed(front) by {
        assert forall m | m in front :: m in modules;
      }
      ModuleCatalogueIsDistinct(front);
      var a, b := ModuleCatalogue(front), ModuleRows(last);
      assert last in modules;
      ModuleRowsAreOwned(last);
      forall i, j | 0 <= i < |a| && 0 <= j < |b| ensures a[i].key != b[j].key {
        CatalogueIsOwned(front, i);
        OwnersAreApart(front, last, a[i].key);
      }
    }
  }

  predicate UnderAdmin(key: string) {
    "admin" + "." <= key
  }

  lemma AdminRowsAreDistinct()
    ensures DistinctKeys(ADMIN_DEFINITIONS)
  {
    forall i, j | 0 <= i < j < |ADMIN_DEFINITIONS| ensures ADMIN_DEFINITIONS[i].key != ADMIN_DEFINITIONS[j].key {
      var a, b := ADMIN_DEFINITIONS[i].key, ADMIN_DEFINITIONS[j].key;
      assert |a| != |b| || a[6] != b[6];
    }
  }

  lemma AdminRowsAreOwned()
    ensures forall i | 0 <= i < |ADMIN_DEFINITIONS| :: UnderAdmin(ADMIN_DEFINITIONS[i].key)
  {
  }

  lemma NoModuleOwnsAdmin(modules: seq<Definition>, key: string)
    requires WellFormed(modules) && OwnedBySome(modules, key)
    ensures key != "" && !UnderAdmin(key)
  {
    var m :| m in modules && Owns(m, key);
    if UnderAdmin(key) {
      PrefixesDecide(m.key, "admin", key);
    }
  }

  lemma ModuleCatalogueIsNotAdmin(registry: seq<Definition>, i: nat)
    requires WellFormed(registry) && i < |ModuleCatalogue(registry)|
    ensures var key := ModuleCatalogue(registry)[i].key; key != "" && !UnderAdmin(key)
  {
    CatalogueIsOwned(registry, i);
    NoModuleOwnsAdmin(registry, ModuleCatalogue(registry)[i].key);
  }

  lemma DistinctAppend(a: seq<PermissionDefinition>, b: seq<PermissionDefinition>)
    requires DistinctKeys(a) && DistinctKeys(b)
    requires forall i, j | 0 <= i < |a| && 0 <= j < |b| :: a[i].key != b[j].key
    ensures DistinctKeys(a + b)
  {
  }

  // No two entries of PERMISSION_CATALOGUE share a key, so no flush of it clashes.
  lemma CatalogueIsDistinct(registry: seq<Definition>)
    requires WellFormed(registry)
    ensures DistinctKeys(Catalogue(registry))
  {
    ModuleCatalogueIsDistinct(registry);
    AdminRowsAreOwned();
    AdminRowsAreDistinct();
    var a, b := ModuleCatalogue(registry), ADMIN_DEFINITIONS;
    forall i, j | 0 <= i < |a| && 0 <= j < |b| ensures a[i].key != b[j].key {
      ModuleCatalogueIsNotAdmin(registry, i);
    }
    DistinctAppend(a, b);
  }

  lemma RowsAreHarmless(rows: seq<PermissionDefinition>)
    requires forall i | 0 <= i < |rows| :: rows[i].key != "" && !UnderAdmin(rows[i].key)
    ensures forall key | key in Keys(rows) :: key != "" && !UnderAdmin(key)
  {
  }

  lemma GuardedKeyIsUnderAdmin()
    ensures UnderAdmin(MANAGE_SUPER_ADMIN)
  {
  }

  // No module key is empty or is the guarded one.
  lemma ModuleKeysAreHarmless(registry: seq<Definition>)
    requires WellFormed(registry)
    ensures "" !in ModuleKeys(registry) && MANAGE_SUPER_ADMIN !in ModuleKeys(registry)
  {
    CatalogueKeys(registry);
    GuardedKeyIsUnderAdmin();
    var rows := ModuleCatalogue(registry);
    forall i | 0 <= i < |rows| ensures rows[i].key != "" && !UnderAdmin(rows[i].key) {
      ModuleCatalogueIsNotAdmin(registry, i);
    }
    RowsAreHarmless(rows);
  }

  lemma AdminKeysAreNotEmpty()
    ensures "" !in Keys(ADMIN_DEFINITIONS)
  {
    forall d | d in ADMIN_DEFINITIONS ensures d.key != "" {
      var i :| 0 <= i < |ADMIN_DEFINITIONS| && ADMIN_DEFINITIONS[i] == d;
    }
  }

  // ------------------------------------------------------- the stored modules

  function Upserted(modules: map<string, Module>, m: Definition): map<string, Module> {
    modules[m.key := Module(if m.key in modules then modules[m.key].enabled else true, m)]
  }

  function Projected(modules: map<string, Module>, registry: seq<Definition>): map<string, Module> {
    if registry == [] then modules
    else Upserted(Projected(modules, registry[..|registry| - 1]), registry[|registry| - 1])
  }

  predicate InRegistry(registry: seq<Definition>, key: string) {
    exists i | 0 <= i < |registry| :: registry[i].key == key
  }

  lemma InRegistryAppend(front: seq<Definition>, last: Definition, key: string)
    ensures InRegistry(front + [last], key) <==> InRegistry(front, key) || key == last.key
  {
    var all := front + [last];
    assert all[|front|] == last;
    if InRegistry(front, key) {
      var i :| 0 <= i < |front| && front[i].key == key;
      assert all[i].key == key;
    }
  }

  // One key under a projection: a registry row is rewritten under its own enabled
  // flag, and any other row is kept.
  predicate KeepsFlag(modules: map<string, Module>, registry: seq<Definition>, key: string) {
    var next := Projected(modules, registry);
    if InRegistry(registry, key) then
      && key in next
      && next[key].enabled == (key in modules ==> modules[key].enabled)
      && next[key].projection in registry && next[key].projection.key == key
    else (key in next <==> key in modules) && (key in modules ==> next[key] == modules[key])
  }

  lemma {:induction false} ProjectionKeepsFlags(modules: map<string, Module>, registry: seq<Definition>, key: string)
    requires DistinctModules(registry)
    ensures KeepsFlag(modules, registry, key)
    decreases |registry|
  {
    if registry != [] {
      var front, last := registry[..|registry| - 1], registry[|registry| - 1];
      ProjectionKeepsFlags(modules, front, key);
      assert registry == front + [last];
      InRegistryAppend(front, last, key);
      if key == last.key {
        assert !InRegistry(front, key);
      } else if InRegistry(front, key) {
        assert Projected(modules, front)[key].projection in registry;
      }
    }
  }

  predicate Reflects(modules: map<string, Module>, registry: seq<Definition>) {
    forall i | 0 <= i < |registry| :: registry[i].key in modules && modules[registry[i].key].projection == registry[i]
  }

  // With one entry for each key, the projection reflects every entry.
  lemma ProjectionReflects(modules: map<string, Module>, registry: seq<Definition>)
    requires DistinctModules(registry)
    ensures Reflects(Projected(modules, registry), registry)
  {
    forall i | 0 <= i < |registry|
      ensures registry[i].key in Projected(modules, registry)
      ensures Projected(modules, registry)[registry[i].key].projection == registry[i]
    {
      ProjectionKeepsFlags(modules, registry, registry[i].key);
      assert InRegistry(registry, registry[i].key);
      var j :| 0 <= j < |registry| && registry[j] == Projected(modules, registry)[registry[i].key].projection;
    }
  }

  lemma {:induction false} ProjectionIsIdempotent(modules: map<string, Module>, registry: seq<Definition>)
    requires Reflects(modules, registry)
    ensures Projected(modules, registry) == modules
    decreases |registry|
  {
    if registry != [] {
      ProjectionIsIdempotent(modules, registry[..|registry| - 1]);
    }
  }

  // ROLE_PERMISSION_DEFAULTS, with super_admin computed from the existing rows.
  function Expected(modules: seq<Definition>, existing: set<string>, role: Role): set<string> {
    match role
    case SuperAdmin => existing
    case Admin => (Keys(ADMIN_DEFINITIONS) - {MANAGE_SUPER_ADMIN}) + ModuleKeys(modules)
    case Engineer => ModuleKeys(modules)
    case Viewer => ViewKeys(modules)
    case Guest => {}
  }

  function GrantedTo(grants: set<(Role, string)>, role: Role): set<string> {
    set p | p in grants && p.0 == role :: p.1
  }

  lemma GrantsAreTheirSlices(a: set<(Role, string)>, b: set<(Role, string)>)
    requires forall role: Role :: GrantedTo(a, role) == GrantedTo(b, role)
    ensures a == b
  {
    forall p ensures p in a <==> p in b {
      assert p in a <==> p.1 in GrantedTo(a, p.0);
      assert p in b <==> p.1 in GrantedTo(b, p.0);
    }
  }

  // ---------------------------------------------------------------- the tables

  // modules.key, permissions.key and (role, permission_key) are unique, so the
  // tables are maps and a relation.
  class Database {
    var modules: map<string, Module>
    var permissions: map<string, Area>
    var grants: set<(Role, string)>

    function Existing(): set<string>
      reads this
    {
      set key | key in permissions && key != ""
    }

    // The state a sync leaves behind.
    ghost predicate Synced(registry: seq<Definition>)
      reads this
    {
      && Reflects(modules, registry)
      && permissions + Overlay(Catalogue(registry)) == permissions
      && forall role: Role :: GrantedTo(grants, role) == Expected(registry, Existing(), role)
    }

    constructor (modules: map<string, Module>, permissions: map<string, Area>, grants: set<(Role, string)>)
      ensures this.modules == modules && this.permissions == permissions && this.grants == grants
    {
      this.modules := modules;
      this.permissions := permissions;
      this.grants := grants;
    }

    method ProjectModules(registry: seq<Definition>)
      modifies this`modules
      ensures modules == Projected(old(modules), registry)
    {
      for i := 0 to |registry|
        invariant modules == Projected(old(modules), registry[..i])
      {
        var m := registry[i];
        assert registry[..i + 1][..i] == registry[..i];
        var enabled := if m.key in modules then modules[m.key].enabled else true;
        modules := modules[m.key := Module(enabled, m)];
      }
      assert registry[..|registry|] == registry;
    }

    method ProjectPermissions(definitions: seq<PermissionDefinition>)
      modifies this`permissions
      ensures permissions == old(permissions) + Overlay(definitions)
    {
      for i := 0 to |definitions|
        invariant permissions == old(permissions) + Overlay(definitions[..i])
      {
        OverlayNext(definitions, i, old(permissions));
        permissions := permissions[definitions[i].key := definitions[i].area];
      }
      assert definitions[..|definitions|] == definitions;
    }

    // Deletes one role's stale rows, then adds its missing ones in any order.
    method SyncRole(role: Role, desired: set<string>)
      modifies this`grants
      ensures GrantedTo(grants, role) == desired
      ensures forall other: Role | other != role :: GrantedTo(grants, other) == GrantedTo(old(grants), other)
    {
      var rows := set p | p in grants && p.0 == role;
      var present := set p | p in rows :: p.1;
      var stale := set p | p in rows && p.1 !in desired;
      grants := grants - stale;
      var missing := desired - present;
      while missing != {}
        invariant missing <= desired
        invariant forall key :: (role, key) in grants <==> key in desired && key !in missing
        invariant forall p: (Role, string) | p.0 != role :: p in grants <==> p in old(grants)
      {
        var key :| key in missing;
        grants := grants + {(role, key)};
        missing := missing - {key};
      }
      forall key ensures key in GrantedTo(grants, role) <==> key in desired {
        assert key in desired ==> (role, key) in grants;
      }
      forall other: Role, key | other != role
        ensures key in GrantedTo(grants, other) <==> key in GrantedTo(old(grants), other)
      {
        assert (other, key) in grants <==> (other, key) in old(grants);
      }
    }

    // The role loop, over the permission keys that exist by now.
    method SyncGrants(registry: seq<Definition>)
      modifies this`grants
      ensures forall role: Role :: GrantedTo(grants, role) == Expected(registry, Existing(), role)
    {
      var existing := Existing();
      SyncRole(SuperAdmin, Expected(registry, existing, SuperAdmin));
      SyncRole(Admin, Expected(registry, existing, Admin));
      SyncRole(Engineer, Expected(registry, existing, Engineer));
      SyncRole(Viewer, Expected(registry, existing, Viewer));
      SyncRole(Guest, Expected(registry, existing, Guest));
      forall role: Role ensures GrantedTo(grants, role) == Expected(registry, existing, role) {
        match role case SuperAdmin => case Admin => case Engineer => case Viewer => case Guest =>
      }
    }

    // sync_registry: from any stored state, the same projection.
    method SyncRegistry(registry: seq<Definition>)
      requires WellFormed(registry)
      modifies this
      ensures Synced(registry)
      ensures modules == Projected(old(modules), registry)
      ensures permissions == old(permissions) + Overlay(Catalogue(registry))
      ensures old(Synced(registry)) ==>
                modules == old(modules) && permissions == old(permissions) && grants == old(grants)
    {
      ProjectionReflects(modules, registry);
      ProjectModules(registry);
      var catalogue := BuildCatalogue(registry);
      ProjectPermissions(catalogue);
      SyncGrants(registry);
      if old(Synced(registry)) {
        ProjectionIsIdempotent(old(modules), registry);
        GrantsAreTheirSlices(grants, old(grants));
      }
    }
  }

  // ----------------------------------------------------------- consequences

  // The role hierarchy, whatever stale permission rows the database still holds.
  lemma RolesFormAChain(registry: seq<Definition>, existing: set<string>)
    requires PermissionKeys(registry) <= existing
    ensures Expected(registry, existing, Guest) <= Expected(registry, existing, Viewer)
              <= Expected(registry, existing, Engineer) <= Expected(registry, existing, Admin)
              <= Expected(registry, existing, SuperAdmin)
  {
  }

  // The hierarchy on stored grants, and the premise of the super-admin guards.
  lemma SyncedGrantsAreOrdered(db: Database, registry: seq<Definition>)
    requires db.Synced(registry) && WellFormed(registry)
    ensures GrantedTo(db.grants, Guest) <= GrantedTo(db.grants, Viewer) <= GrantedTo(db.grants, Engineer)
              <= GrantedTo(db.grants, Admin) <= GrantedTo(db.grants, SuperAdmin)
    ensures OnlySuperAdminManages(db.grants)
  {
    ModuleKeysAreHarmless(registry);
    AdminKeysAreNotEmpty();
    CatalogueKeys(registry);
    assert db.permissions.Keys + Overlay(Catalogue(registry)).Keys == db.permissions.Keys;
    assert PermissionKeys(registry) <= db.Existing();
    RolesFormAChain(registry, db.Existing());
    forall r: Role | (r, MANAGE_SUPER_ADMIN) in db.grants ensures r == SuperAdmin {
      assert MANAGE_SUPER_ADMIN in GrantedTo(db.grants, r);
      assert MANAGE_SUPER_ADMIN in Expected(registry, db.Existing(), r);
    }
  }

  // The rights of each role on stored grants, one by one.
  ghost predicate HoldsExactly(grants: set<(Role, string)>, role: Role, keys: set<string>) {
    forall key :: (role, key) in grants <==> key in keys
  }

  lemma SyncedRolesHold(db: Database, registry: seq<Definition>, role: Role)
    requires db.Synced(registry)
    ensures HoldsExactly(db.grants, role, Expected(registry, db.Existing(), role))
  {
    forall key ensures (role, key) in db.grants <==> key in Expected(registry, db.Existing(), role) {
      assert key in GrantedTo(db.grants, role) <==> key in Expected(registry, db.Existing(), role);
    }
  }

  // After a sync admin holds every admin key but the guarded one, ...
  lemma AdminsAdminister(db: Database, registry: seq<Definition>, d: PermissionDefinition)
    requires db.Synced(registry) && WellFormed(registry) && d in ADMIN_DEFINITIONS
    ensures (Admin, d.key) in db.grants <==> d.key != "admin.roles.manage_super_admin"
  {
    SyncedRolesHold(db, registry, Admin);
    ModuleKeysAreHarmless(registry);
    assert d.key in Keys(ADMIN_DEFINITIONS);
  }

  // every module can be viewed from viewer upwards and acted in from engineer upwards, ...
  lemma ModulesAreOpen(db: Database, registry: seq<Definition>, m: Definition)
    requires db.Synced(registry) && m in registry && m.area != AdminArea
    ensures forall role | role in {Viewer, Engineer, Admin} :: (role, m.view) in db.grants
    ensures forall role, a | role in {Engineer, Admin} && a in m.actions :: (role, a) in db.grants
  {
    SyncedRolesHold(db, registry, Viewer);
    SyncedRolesHold(db, registry, Engineer);
    SyncedRolesHold(db, registry, Admin);
  }

  ghost predicate IsView(registry: seq<Definition>, key: string) {
    exists m | m in registry :: m.area != AdminArea && m.view == key
  }

  ghost predicate IsAction(registry: seq<Definition>, key: string) {
    exists m | m in registry :: m.area != AdminArea && key in m.actions
  }

  // and nobody below super_admin holds anything else; super_admin holds every stored key.
  lemma NothingElseIsGranted(db: Database, registry: seq<Definition>, key: string)
    requires db.Synced(registry)
    ensures (Guest, key) !in db.grants
    ensures (Viewer, key) in db.grants ==> IsView(registry, key)
    ensures (Engineer, key) in db.grants ==> IsView(registry, key) || IsAction(registry, key)
    ensures (Admin, key) in db.grants ==>
              IsView(registry, key) || IsAction(registry, key) || exists d :: d in ADMIN_DEFINITIONS && d.key == key
    ensures (SuperAdmin, key) in db.grants <==> key in db.permissions && key != ""
  {
    SyncedRolesHold(db, registry, Guest);
    SyncedRolesHold(db, registry, Viewer);
    SyncedRolesHold(db, registry, Engineer);
    SyncedRolesHold(db, registry, Admin);
    SyncedRolesHold(db, registry, SuperAdmin);
  }

  lemma {:induction false} OverlayHolds(definitions: seq<PermissionDefinition>, i: nat)
    requires DistinctKeys(definitions) && i < |definitions|
    ensures definitions[i].key in Overlay(definitions)
    ensures Overlay(definitions)[definitions[i].key] == definitions[i].area
    decreases |definitions|
  {
    var front := definitions[..|definitions| - 1];
    if i < |front| {
      OverlayHolds(front, i);
      assert front[i] == definitions[i] && definitions[|front|].key != definitions[i].key;
    } else {
      assert definitions[i].key in Keys(definitions);
    }
  }

  // Every catalogue entry has its permission row, in its business area.
  lemma CatalogueIsStored(db: Database, registry: seq<Definition>, i: nat)
    requires db.Synced(registry) && WellFormed(registry) && i < |Catalogue(registry)|
    ensures var d := Catalogue(registry)[i]; d.key in db.permissions && db.permissions[d.key] == d.area
  {
    var d := Catalogue(registry)[i];
    CatalogueIsDistinct(registry);
    OverlayHolds(Catalogue(registry), i);
    assert (db.permissions + Overlay(Catalogue(registry)))[d.key] == d.area;
  }

  // ------------------------------------------------------ the shipped registry

  function Entry(key: string, area: Area, readiness: Readiness, exports: bool, sortOrder: nat): Definition {
    Definition(key, area, readiness, key + ".view", if exports then [key + ".export"] else [], sortOrder)
  }

  const SHIPPED := [
    Entry("task_extractor", Maintenance, UnderValidation, false, 1),
    Entry("task_stamping", Maintenance, UnderValidation, false, 2),
    Entry("effectivity", Maintenance, DiscoveryRequired, false, 3),
    Entry("check_control", Maintenance, UnderValidation, true, 4),
    Entry("utilization", Maintenance, DiscoveryRequired, true, 5),
    Entry("cmp_tcm", Maintenance, UnderValidation, false, 6),
    Entry("cover_merge", Maintenance, UnderDevelopment, false, 7),
    Entry("mail_merge", Maintenance, UnderValidation, false, 8),
    Entry("crew_hours", Crew, Available, true, 9),
    Entry("tcm_indexing", Maintenance, NotMigrated, false, 10),
    Definition("admin_users", AdminArea, Available, "admin.users.view", [], 11),
    Definition("admin_audit", AdminArea, Available, "admin.audit.view", [], 12),
    Definition("admin_settings", AdminArea, Available, "admin.modules.manage", [], 13)]

  lemma EntryIsNamespaced(key: string, area: Area, readiness: Readiness, exports: bool, sortOrder: nat)
    requires '.' !in key && key != "admin"
    ensures Namespaced(Entry(key, area, readiness, exports, sortOrder))
  {
    assert key + "." <= key + ".view" && key + "." <= key + ".export";
    assert (key + ".view")[|key| + 1] == 'v' && (key + ".export")[|key| + 1] == 'e';
  }

  lemma ShippedModulesAreDistinct()
    ensures DistinctModules(SHIPPED)
  {
    forall i, j | 0 <= i < j < |SHIPPED| ensures SHIPPED[i].key != SHIPPED[j].key {
      var a, b := SHIPPED[i].key, SHIPPED[j].key;
      assert |a| != |b| || a[0] != b[0] || a[6] != b[6];
    }
  }

  lemma ShippedKeysAreBare(i: nat)
    requires i < |SHIPPED|
    ensures '.' !in SHIPPED[i].key && |SHIPPED[i].key| > 5
  {
    var key := SHIPPED[i].key;
    assert |key| <= 14;
    forall k | 0 <= k < |key| ensures key[k] != '.' {
      assert k < 14;
    }
  }

  lemma ShippedEntriesAreEntries(i: nat)
    requires i < |SHIPPED|
    ensures var m := SHIPPED[i];
            m.area != AdminArea ==> m == Entry(m.key, m.area, m.readiness, m.actions != [], m.sortOrder)
  {
  }

  lemma ShippedModulesAreNamespaced()
    ensures forall m | m in SHIPPED :: Namespaced(m)
  {
    forall i | 0 <= i < |SHIPPED| ensures Namespaced(SHIPPED[i]) {
      var m := SHIPPED[i];
      ShippedKeysAreBare(i);
      ShippedEntriesAreEntries(i);
      if m.area != AdminArea {
        EntryIsNamespaced(m.key, m.area, m.readiness, m.actions != [], m.sortOrder);
      }
    }
  }

  // A sync of the shipped registry establishes the premise of the guards.
  lemma ShippedSyncGuardsSuperAdmins(db: Database)
    requires db.Synced(SHIPPED)
    ensures OnlySuperAdminManages(db.grants)
  {
    ShippedModulesAreDistinct();
    ShippedModulesAreNamespaced();
    SyncedGrantsAreOrdered(db, SHIPPED);
  }

  lemma AdminKeysAreNoModules(registry: seq<Definition>, key: string)
    requires WellFormed(registry) && UnderAdmin(key)
    ensures !IsView(registry, key) && !IsAction(registry, key)
  {
    if IsView(registry, key) || IsAction(registry, key) {
      var m :| m in registry && m.area != AdminArea && (m.view == key || key in m.actions);
      assert Owns(m, key);
      NoModuleOwnsAdmin(registry, key);
    }
  }

  lemma AdminEntriesAreStored(db: Database, registry: seq<Definition>, i: nat)
    requires db.Synced(registry) && WellFormed(registry) && i < |ADMIN_DEFINITIONS|
    ensures ADMIN_DEFINITIONS[i].key in db.permissions
  {
    var n := |ModuleCatalogue(registry)|;
    assert Catalogue(registry)[n + i] == ADMIN_DEFINITIONS[i];
    CatalogueIsStored(db, registry, n + i);
  }

  predicate HeldByName(grants: set<(Role, string)>, key: string, role: Role) {
    (role, key) in grants <==> role == SuperAdmin || (role == Admin && key != "admin.roles.manage_super_admin")
  }

  // Who holds an admin key after a sync of any such registry.
  lemma AdminKeysAreHeld(db: Database, registry: seq<Definition>, i: nat, role: Role)
    requires db.Synced(registry) && WellFormed(registry) && i < |ADMIN_DEFINITIONS|
    ensures HeldByName(db.grants, ADMIN_DEFINITIONS[i].key, role)
  {
    var d := ADMIN_DEFINITIONS[i];
    AdminRowsAreOwned();
    AdminKeysAreNoModules(registry, d.key);
    AdminEntriesAreStored(db, registry, i);
    AdminsAdminister(db, registry, d);
    NothingElseIsGranted(db, registry, d.key);
  }

  // Every admin key by name, after any such sync: the super-admin role is managed by
  // super_admin alone, everything else by admin, too.
  lemma AdminKeysByName(db: Database, registry: seq<Definition>, role: Role)
    requires db.Synced(registry) && WellFormed(registry)
    ensures (role, "admin.users.view") in db.grants <==> role in {SuperAdmin, Admin}
    ensures (role, "admin.users.manage") in db.grants <==> role in {SuperAdmin, Admin}
    ensures (role, "admin.roles.manage") in db.grants <==> role in {SuperAdmin, Admin}
    ensures (role, "admin.roles.manage_super_admin") in db.grants <==> role == SuperAdmin
    ensures (role, "admin.modules.manage") in db.grants <==> role in {SuperAdmin, Admin}
    ensures (role, "admin.audit.view") in db.grants <==> role in {SuperAdmin, Admin}
  {
    for i := 0 to 6
      invariant forall j | 0 <= j < i :: HeldByName(db.grants, ADMIN_DEFINITIONS[j].key, role)
    {
      AdminKeysAreHeld(db, registry, i, role);
    }
    assert HeldByName(db.grants, ADMIN_DEFINITIONS[0].key, role);
    assert HeldByName(db.grants, ADMIN_DEFINITIONS[1].key, role);
    assert HeldByName(db.grants, ADMIN_DEFINITIONS[2].key, role);
    assert HeldByName(db.grants, ADMIN_DEFINITIONS[3].key, role);
    assert HeldByName(db.grants, ADMIN_DEFINITIONS[4].key, role);
    assert HeldByName(db.grants, ADMIN_DEFINITIONS[5].key, role);
    assert |"admin.users.view"| == 16 && |"admin.users.manage"| == 18 && |"admin.roles.manage"| == 18;
    assert |"admin.modules.manage"| == 20 && |"admin.audit.view"| == 16 && |"admin.roles.manage_super_admin"| == 30;
  }

  // The shipped modules with an export: engineers and admins may use it, viewers not.
  lemma ShippedExports(db: Database, i: nat)
    requires db.Synced(SHIPPED) && i in {3, 4, 8}
    ensures var key := ["check_control", "utilization", "crew_hours"][if i == 3 then 0 else if i == 4 then 1 else 2];
            && SHIPPED[i].key == key
            && (Viewer, key + ".view") in db.grants
            && (Engineer, key + ".export") in db.grants && (Admin, key + ".export") in db.grants
  {
    var m := SHIPPED[i];
    assert m in SHIPPED && m.actions == [m.key + ".export"] && m.view == m.key + ".view";
    assert m.actions[0] in m.actions;
    ModulesAreOpen(db, SHIPPED, m);
  }
}
