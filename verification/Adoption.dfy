// The guarded adoption protocol of backend/tools/db_adopt.py.
module Adoption {
  import opened Common
  import opened SchemaParity

  // The content of a SQLite file, as far as the protocol looks: what the parity
  // checker reflects, the schema text, the rows, and alembic_version.
  datatype Database = Database(
    tables: map<string, Inspection>,
    ddl: set<(string, string)>,
    rows: map<string, seq<string>>,
    version: VersionTable)

  datatype Node = File(db: Database) | NotAFile

  datatype Status =
    | InspectionError
    | RefusedAdoption
    | AlreadyAdopted
    | BackupFailed
    | StampFailed
    | VerificationFailed
    | Adopted

  // What the outside does: copyfile may raise half-way or write something else, and
  // the stamp may raise or leave any content.
  datatype Copying = Copied(what: Database) | CopyRaised(partial: Option<Database>)
  datatype Stamping = Stamped(after: Database) | StampRaised(after: Database)

  // Whether the parity subprocess of each inspection gives structured output.
  datatype World = World(copying: Copying, stamping: Stamping, firstParity: bool, lastParity: bool, backupParent: bool)

  // The checker as a fresh process runs it on a file that nobody writes meanwhile; one
  // that ends in an exception prints no structured output.
  ghost function Parity(model: map<string, Table>, head: string, db: Database): Option<Decision> {
    ParityOf(model, Opened(db.tables, db.version), head, false)
  }

  // _revision: exactly one non-empty row, or no table at all.
  function Revision(db: Database): Result<Option<string>, ()> {
    match db.version
    case Absent => Ok(None)
    case UnreadableRows => Err(())
    case Rows(rows) => if |rows| == 1 && rows[0] != "" then Ok(Some(rows[0])) else Err(())
  }

  // None is recorded where there is no version table, and one where that table has this
  // one row.
  lemma RevisionsAreTheOneRow(db: Database, head: string)
    ensures Revision(db) == Ok(None) <==> db.version == Absent
    ensures Revision(db) == Ok(Some(head)) <==> head != "" && db.version == Rows([head])
  {
    if db.version.Rows? && |db.version.revisions| == 1 {
      assert db.version.revisions == [db.version.revisions[0]];
    }
  }

  datatype Snapshot = Snapshot(
    tables: set<string>,
    ddl: set<(string, string)>,
    counts: map<string, nat>,
    samples: map<string, seq<string>>)

  function AllTables(db: Database): set<string> {
    db.rows.Keys + if db.version.Absent? then {} else {VERSION_TABLE}
  }

  // _snapshot: table names, schema text, row counts and the first three rows.
  function SnapshotOf(db: Database): Snapshot {
    Snapshot(AllTables(db), db.ddl, map t | t in db.rows :: |db.rows[t]|,
             map t | t in db.rows :: if |db.rows[t]| <= 3 then db.rows[t] else db.rows[t][..3])
  }

  // What verification has to see after the stamp.
  ghost predicate Preserved(model: map<string, Table>, head: string, before: Database, after: Database) {
    && Revision(after) == Ok(Some(head))
    && Parity(model, head, after) == Some(SafeToStamp)
    && SnapshotOf(after).ddl == SnapshotOf(before).ddl
    && SnapshotOf(after).counts == SnapshotOf(before).counts
    && SnapshotOf(after).samples == SnapshotOf(before).samples
    && AllTables(after) == AllTables(before) + {VERSION_TABLE}
  }

  ghost predicate CollisionFree(hash: Database -> string) {
    forall a, b :: hash(a) == hash(b) ==> a == b
  }

  // What adopted preserves, table by table: the same tables and schema text, as many rows
  // in each and the same first three, and alembic_version besides, with the head in it.
  lemma PreservedTablesAreTheSame(model: map<string, Table>, head: string, before: Database, after: Database, t: string)
    requires Preserved(model, head, before, after) && head != ""
    ensures after.version == Rows([head]) && after.ddl == before.ddl
    ensures t in after.rows <==> t in before.rows
    ensures t in before.rows ==>
              && |after.rows[t]| == |before.rows[t]|
              && forall i | 0 <= i < |before.rows[t]| && i < 3 :: after.rows[t][i] == before.rows[t][i]
  {
    var was, now := SnapshotOf(before), SnapshotOf(after);
    assert t in after.rows <==> t in now.counts;
    assert t in before.rows <==> t in was.counts;
    if t in before.rows {
      assert |after.rows[t]| == now.counts[t] == was.counts[t];
      assert now.samples[t] == was.samples[t];
      forall i | 0 <= i < |before.rows[t]| && i < 3 ensures after.rows[t][i] == before.rows[t][i] {
        assert was.samples[t][i] == before.rows[t][i] && now.samples[t][i] == after.rows[t][i];
      }
    }
  }

  // After a passing parity check the recorded revision is none or the head, so the
  // branch for a conflicting revision is never taken.
  lemma NoConflictAfterParity(model: map<string, Table>, head: string, db: Database)
    requires head != "" && Parity(model, head, db) == Some(SafeToStamp)
    ensures Revision(db) == Ok(None) || Revision(db) == Ok(Some(head))
  {
    SafeToStampIsExact(model, Opened(db.tables, db.version), head, false);
  }

  // The revision check runs first: a version table that is not one non-empty row is
  // an error, and never gets as far as the parity decision.
  lemma BadVersionTablesAreNeverSafe(model: map<string, Table>, head: string, db: Database)
    requires Revision(db).Err?
    ensures head != "" ==> Parity(model, head, db) != Some(SafeToStamp)
  {
    SafeToStampIsExact(model, Opened(db.tables, db.version), head, false);
  }

  class FileSystem {
    var nodes: map<string, Node>

    constructor (nodes: map<string, Node>)
      ensures this.nodes == nodes
    {
      this.nodes := nodes;
    }

    ghost predicate IsDatabase(path: string)
      reads this
    {
      path in nodes && nodes[path].File?
    }

    // _run_parity.
    method RunParity(model: map<string, Table>, head: string, path: string, structured: bool)
      returns (decision: Option<Decision>)
      requires IsDatabase(path)
      ensures decision == if structured then Parity(model, head, nodes[path].db) else None
    {
      var db := nodes[path].db;
      var found := CheckSchema(model, Opened(db.tables, db.version), head, false);
      decision := if structured then found else None;
    }

    // _backup_path: given, elsewhere than the source, in an existing directory, and new.
    method BackupTarget(backup: Option<string>, source: string, parent: bool) returns (path: Option<string>)
      ensures path == if backup.Some? && backup.value != source && parent && backup.value !in nodes then backup
                      else None
    {
      if backup.None? || backup.value == source || !parent { return None; }
      path := if backup.value in nodes then None else backup;
    }

    // The copy and its verification, up to the point where stamping may begin.
    method MakeBackup(hash: Database -> string, source: string, target: string, copying: Copying)
      returns (verified: bool)
      requires IsDatabase(source) && target !in nodes
      modifies this
      ensures forall p | p in old(nodes) :: p in nodes && nodes[p] == old(nodes)[p]
      ensures nodes.Keys <= old(nodes).Keys + {target}
      ensures verified <==> copying.Copied? && hash(copying.what) == hash(old(nodes)[source].db)
      ensures verified ==> nodes == old(nodes)[target := File(copying.what)]
    {
      var before := hash(nodes[source].db);
      match copying
      case CopyRaised(partial) =>
        if partial.Some? {
          nodes := nodes[target := File(partial.value)];
        }
        verified := false;
      case Copied(what) =>
        nodes := nodes[target := File(what)];
        verified := hash(what) == before;
    }

    // The checks after the stamp, against the snapshot taken before it.
    method Verify(model: map<string, Table>, head: string, source: string, before: Snapshot, structured: bool)
      returns (status: Status)
      requires IsDatabase(source)
      ensures status in {VerificationFailed, Adopted}
      ensures status == Adopted <==>
                && structured && Revision(nodes[source].db) == Ok(Some(head))
                && Parity(model, head, nodes[source].db) == Some(SafeToStamp)
                && SnapshotOf(nodes[source].db)
                   == Snapshot(before.tables + {VERSION_TABLE}, before.ddl, before.counts, before.samples)
    {
      var revision := Revision(nodes[source].db);
      if revision.Err? { return VerificationFailed; }
      var after := SnapshotOf(nodes[source].db);
      var parity := RunParity(model, head, source, structured);
      if revision.value != Some(head) || parity != Some(SafeToStamp)
        || before.ddl != after.ddl || before.counts != after.counts || before.samples != after.samples
        || after.tables != before.tables + {VERSION_TABLE}
      {
        return VerificationFailed;
      }
      return Adopted;
    }

    // Everything that has to hold before the backup is made.
    ghost predicate MayStamp(model: map<string, Table>, head: string, source: string, backup: Option<string>,
                             confirm: Option<string>, world: World)
      reads this
    {
      && IsDatabase(source) && world.firstParity
      && Parity(model, head, nodes[source].db) == Some(SafeToStamp)
      && Revision(nodes[source].db) == Ok(None)
      && confirm == Some(head)
      && backup.Some? && world.backupParent && backup.value !in nodes
    }

    // The copy is finished and has the source's hash.
    ghost predicate BacksUp(hash: Database -> string, source: string, world: World)
      requires IsDatabase(source)
      reads this
    {
      world.copying.Copied? && hash(world.copying.what) == hash(nodes[source].db)
    }

    // The database can be inspected: one revision or none, and a decision.
    ghost predicate Inspectable(model: map<string, Table>, head: string, source: string, world: World)
      requires IsDatabase(source)
      reads this
    {
      Revision(nodes[source].db).Ok? && world.firstParity && Parity(model, head, nodes[source].db).Some?
    }

    // adopt_sqlite on an absolute, validated source path. Each outcome is returned under
    // exactly one condition; the one left is the refusal.
    method Adopt(model: map<string, Table>, head: string, hash: Database -> string, source: string,
                 backup: Option<string>, confirm: Option<string>, world: World) returns (status: Status)
      requires head != ""
      modifies this
      ensures status == InspectionError <==>
                old(IsDatabase(source)) && !old(Inspectable(model, head, source, world))
      ensures status == AlreadyAdopted <==>
                && old(IsDatabase(source)) && world.firstParity
                && Parity(model, head, old(nodes)[source].db) == Some(SafeToStamp)
                && Revision(old(nodes)[source].db) == Ok(Some(head))
      ensures status == BackupFailed <==>
                old(MayStamp(model, head, source, backup, confirm, world)) && !old(BacksUp(hash, source, world))
      ensures status == StampFailed <==>
                && old(MayStamp(model, head, source, backup, confirm, world)) && old(BacksUp(hash, source, world))
                && world.stamping.StampRaised?
      ensures status in {VerificationFailed, Adopted} <==>
                && old(MayStamp(model, head, source, backup, confirm, world)) && old(BacksUp(hash, source, world))
                && world.stamping.Stamped?
      ensures status == Adopted <==>
                && old(MayStamp(model, head, source, backup, confirm, world)) && old(BacksUp(hash, source, world))
                && world.stamping.Stamped? && world.lastParity
                && Preserved(model, head, old(nodes)[source].db, world.stamping.after)
      // What each outcome leaves on the disk.
      ensures status in {InspectionError, RefusedAdoption, AlreadyAdopted} ==> nodes == old(nodes)
      ensures status == BackupFailed ==>
                && (forall p | p in old(nodes) :: p in nodes && nodes[p] == old(nodes)[p])
                && nodes.Keys <= old(nodes).Keys + {backup.value}
      ensures status in {StampFailed, VerificationFailed, Adopted} ==>
                && nodes == old(nodes)[backup.value := File(world.copying.what)][source := File(world.stamping.after)]
                && (CollisionFree(hash) ==> nodes[backup.value] == old(nodes)[source])
    {
      if source !in nodes { return RefusedAdoption; }
      if nodes[source].NotAFile? { return RefusedAdoption; }
      ghost var original := nodes[source].db;

      var parity := RunParity(model, head, source, world.firstParity);
      var revision := Revision(nodes[source].db);
      if revision.Err? { return InspectionError; }
      if parity.None? { return InspectionError; }
      if parity.value != SafeToStamp { return RefusedAdoption; }
      if revision.value.Some? {
        if revision.value.value == head { return AlreadyAdopted; }
        return RefusedAdoption;
      }
      if confirm != Some(head) { return RefusedAdoption; }
      var target := BackupTarget(backup, source, world.backupParent);
      if target.None? { return RefusedAdoption; }

      var verified := MakeBackup(hash, source, target.value, world.copying);
      if !verified { return BackupFailed; }

      var before := SnapshotOf(nodes[source].db);
      match world.stamping
      case StampRaised(after) =>
        nodes := nodes[source := File(after)];
        status := StampFailed;
      case Stamped(after) =>
        nodes := nodes[source := File(after)];
        status := Verify(model, head, source, before, world.lastParity);
        assert before == SnapshotOf(original);
    }

    // A second run finds the first one's work and does nothing.
    method AdoptTwice(model: map<string, Table>, head: string, hash: Database -> string, source: string,
                      backup: Option<string>, confirm: Option<string>, world: World,
                      backup2: Option<string>, confirm2: Option<string>, world2: World)
      returns (first: Status, second: Status)
      requires head != "" && world2.firstParity
      modifies this
      ensures first in {Adopted, AlreadyAdopted} ==> second == AlreadyAdopted
      ensures first == AlreadyAdopted ==> nodes == old(nodes)
    {
      first := Adopt(model, head, hash, source, backup, confirm, world);
      second := Adopt(model, head, hash, source, backup2, confirm2, world2);
    }
  }
}
