// The de-duplication of alembic/versions/c9d0e1f2a3b4_integrity_indexes.py, which
// runs before the unique indexes are created.
module Migration {
  import opened AccountTypes
  import opened Common

  // A table: rows under their primary key, ordered as the database orders the keys.
  type Table<T> = map<nat, T>

  datatype RoleRow = RoleRow(user: UserId, role: Role)

  datatype AccessRow = AccessRow(user: UserId, mod: nat, enabled: bool)

  function RoleKey(row: RoleRow): (UserId, Role) {
    (row.user, row.role)
  }

  function AccessKey(row: AccessRow): (UserId, nat) {
    (row.user, row.mod)
  }

  // id = MIN(id) over the rows of its group.
  ghost predicate Lowest<T, K>(table: Table<T>, key: T -> K, id: nat) {
    id in table && forall other | other in table && key(table[other]) == key(table[id]) :: id <= other
  }

  // DELETE ... WHERE id NOT IN (SELECT MIN(id) ... GROUP BY key).
  ghost function Deduplicated<T, K>(table: Table<T>, key: T -> K): Table<T> {
    map id | id in table && Lowest(table, key, id) :: table[id]
  }

  ghost predicate UniqueOn<T, K>(table: Table<T>, key: T -> K) {
    forall a, b | a in table && b in table && key(table[a]) == key(table[b]) :: a == b
  }

  lemma {:induction false} LowestExists<T, K>(table: Table<T>, key: T -> K, id: nat) returns (low: nat)
    requires id in table
    ensures Lowest(table, key, low) && key(table[low]) == key(table[id]) && low <= id
    decreases id
  {
    if Lowest(table, key, id) {
      low := id;
    } else {
      var other :| other in table && key(table[other]) == key(table[id]) && other < id;
      low := LowestExists(table, key, other);
    }
  }

  // The unique index can be built.
  lemma DeduplicationIsUnique<T, K>(table: Table<T>, key: T -> K)
    ensures UniqueOn(Deduplicated(table, key), key)
  {
    var kept := Deduplicated(table, key);
    forall a, b | a in kept && b in kept && key(kept[a]) == key(kept[b]) ensures a == b {
      assert Lowest(table, key, a) && Lowest(table, key, b);
    }
  }

  // No group is lost.
  lemma EveryGroupSurvives<T, K>(table: Table<T>, key: T -> K, id: nat) returns (low: nat)
    requires id in table
    ensures low in Deduplicated(table, key) && key(Deduplicated(table, key)[low]) == key(table[id])
  {
    low := LowestExists(table, key, id);
  }

  // A table is left alone exactly when its keys are already unique.
  lemma OnlyDuplicatesAreDeleted<T, K>(table: Table<T>, key: T -> K)
    ensures UniqueOn(table, key) <==> Deduplicated(table, key) == table
  {
    if Deduplicated(table, key) == table {
      DeduplicationIsUnique(table, key);
    }
  }

  // ---------------------------------------------------------------- user_roles

  ghost function RolesHeld(table: Table<RoleRow>, u: UserId): set<Role> {
    set r: Role | exists id | id in table :: table[id] == RoleRow(u, r)
  }

  ghost function Effective(table: Table<RoleRow>, grants: set<(Role, string)>, u: UserId): set<string> {
    set p | p in grants && p.0 in RolesHeld(table, u) :: p.1
  }

  // No user's roles or permissions change.
  lemma DeduplicationKeepsRoles(table: Table<RoleRow>, grants: set<(Role, string)>, u: UserId)
    ensures RolesHeld(Deduplicated(table, RoleKey), u) == RolesHeld(table, u)
    ensures Effective(Deduplicated(table, RoleKey), grants, u) == Effective(table, grants, u)
  {
    var kept := Deduplicated(table, RoleKey);
    forall r: Role ensures r in RolesHeld(kept, u) <==> r in RolesHeld(table, u) {
      if r in RolesHeld(table, u) {
        var id :| id in table && table[id] == RoleRow(u, r);
        var low := LowestExists(table, RoleKey, id);
        assert kept[low] == RoleRow(u, r);
      }
    }
  }

  // ------------------------------------------------------------- module_access

  // The modules a user is shut out of: any disabled row counts.
  ghost function DisabledModules(table: Table<AccessRow>, u: UserId): set<nat> {
    set id | id in table && table[id].user == u && !table[id].enabled :: table[id].mod
  }

  // In every group with a disabled row, the row that survives is a disabled one.
  ghost predicate LowestRowsDecide(table: Table<AccessRow>) {
    forall id, low | id in table && !table[id].enabled && Lowest(table, AccessKey, low)
        && AccessKey(table[low]) == AccessKey(table[id]) :: !table[low].enabled
  }

  // Here the statement can change behaviour: the shut-out modules of every user are
  // kept exactly when the lowest row of each affected group is disabled too.
  lemma DeduplicationKeepsAccessExactly(table: Table<AccessRow>)
    ensures (forall u :: DisabledModules(Deduplicated(table, AccessKey), u) == DisabledModules(table, u))
              <==> LowestRowsDecide(table)
  {
    var kept := Deduplicated(table, AccessKey);
    if LowestRowsDecide(table) {
      forall u ensures DisabledModules(kept, u) == DisabledModules(table, u) {
        forall m | m in DisabledModules(table, u) ensures m in DisabledModules(kept, u) {
          var id :| id in table && table[id].user == u && !table[id].enabled && table[id].mod == m;
          var low := LowestExists(table, AccessKey, id);
          assert low in kept && !kept[low].enabled;
        }
      }
    }
    if forall u :: DisabledModules(kept, u) == DisabledModules(table, u) {
      forall id, low | id in table && !table[id].enabled && Lowest(table, AccessKey, low)
          && AccessKey(table[low]) == AccessKey(table[id])
        ensures !table[low].enabled
      {
        assert table[id].mod in DisabledModules(table, table[id].user);
        assert table[id].mod in DisabledModules(kept, table[id].user);
        var other :| other in kept && kept[other].user == table[id].user && !kept[other].enabled
          && kept[other].mod == table[id].mod;
        assert AccessKey(table[other]) == AccessKey(table[low]);
        assert other == low;
      }
    }
  }

  // User 1 with module 7 enabled under the lower id, and shut out of it by the other row.
  const ENABLED_FIRST: Table<AccessRow> := map[1 := AccessRow(1, 7, true), 2 := AccessRow(1, 7, false)]

  lemma AnEnabledDuplicateCanWin()
    ensures DisabledModules(ENABLED_FIRST, 1) == {7}
    ensures Deduplicated(ENABLED_FIRST, AccessKey) == map[1 := AccessRow(1, 7, true)]
    ensures DisabledModules(Deduplicated(ENABLED_FIRST, AccessKey), 1) == {}
  {
    assert Lowest(ENABLED_FIRST, AccessKey, 1);
    assert AccessKey(ENABLED_FIRST[1]) == AccessKey(ENABLED_FIRST[2]) && !ENABLED_FIRST[2].enabled;
  }

  // upgrade(): both tables in place, and then the indexes.
  class Tables {
    var userRoles: Table<RoleRow>
    var moduleAccess: Table<AccessRow>

    ghost predicate UniqueIndexesHold()
      reads this
    {
      UniqueOn(userRoles, RoleKey) && UniqueOn(moduleAccess, AccessKey)
    }

    constructor (userRoles: Table<RoleRow>, moduleAccess: Table<AccessRow>)
      ensures this.userRoles == userRoles && this.moduleAccess == moduleAccess
    {
      this.userRoles := userRoles;
      this.moduleAccess := moduleAccess;
    }

    method Upgrade()
      modifies this
      ensures UniqueIndexesHold()
      ensures userRoles == Deduplicated(old(userRoles), RoleKey)
      ensures moduleAccess == Deduplicated(old(moduleAccess), AccessKey)
      ensures forall u :: RolesHeld(userRoles, u) == RolesHeld(old(userRoles), u)
    {
      var roleRows := userRoles;
      userRoles := map id | id in roleRows
        && (forall other | other in roleRows.Keys && RoleKey(roleRows[other]) == RoleKey(roleRows[id]) :: id <= other)
        :: roleRows[id];
      var accessRows := moduleAccess;
      moduleAccess := map id | id in accessRows
        && (forall other | other in accessRows.Keys && AccessKey(accessRows[other]) == AccessKey(accessRows[id])
              :: id <= other)
        :: accessRows[id];
      assert userRoles == Deduplicated(old(userRoles), RoleKey);
      assert moduleAccess == Deduplicated(old(moduleAccess), AccessKey);
      DeduplicationIsUnique(old(userRoles), RoleKey);
      DeduplicationIsUnique(old(moduleAccess), AccessKey);
      forall u ensures RolesHeld(userRoles, u) == RolesHeld(old(userRoles), u) {
        DeduplicationKeepsRoles(old(userRoles), {}, u);
      }
    }
  }

  // --------------------------------------------------- what the endpoints start from

  // The rows of a table, listed by their keys.
  function Listed(table: Table<RoleRow>, ids: seq<nat>): seq<(UserId, Role)>
    requires forall i | 0 <= i < |ids| :: ids[i] in table
  {
    seq(|ids|, i requires 0 <= i < |ids| => (table[ids[i]].user, table[ids[i]].role))
  }

  // Once the key is unique, any listing of the table has one row for each assignment, as
  // the counts of the super-admin guards need, and holds every role of every user.
  lemma UniqueRowsAreDistinct(table: Table<RoleRow>, ids: seq<nat>, u: UserId, r: Role)
    requires UniqueOn(table, RoleKey) && Distinct(ids) && Elements(ids) == table.Keys
    requires forall i | 0 <= i < |ids| :: ids[i] in table
    ensures Distinct(Listed(table, ids))
    ensures (u, r) in Listed(table, ids) <==> r in RolesHeld(table, u)
  {
    var rows := Listed(table, ids);
    forall i, j | 0 <= i < j < |rows| ensures rows[i] != rows[j] {
      assert RoleKey(table[ids[i]]) == rows[i] && RoleKey(table[ids[j]]) == rows[j];
    }
    if r in RolesHeld(table, u) {
      var id :| id in table && table[id] == RoleRow(u, r);
      assert id in Elements(ids);
      var i :| 0 <= i < |ids| && ids[i] == id;
      assert rows[i] == (u, r);
    }
    if (u, r) in rows {
      var i :| 0 <= i < |rows| && rows[i] == (u, r);
      assert table[ids[i]] == RoleRow(u, r);
    }
  }
}
