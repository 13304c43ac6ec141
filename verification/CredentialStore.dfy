/**
  The credential store: sources with numbered versions, and sandbox bindings that pin a version.
  Each operation is one transaction over the tables and their keys: it commits as a whole or
  changes nothing. `fault` says what the database or the connection to it does to a transaction
  that would otherwise succeed, and `readFails` that it fails the metadata query PutSource makes
  after its commit.
 */
module CredentialStore {
  import opened Common

  type Spec = string  // the stored JSON

  datatype Source = Source(id: nat, resolverKind: string, currentVersion: nat, status: string)

  datatype Binding = Binding(ref: string, sourceRef: string, sourceID: nat, sourceVersion: nat, projection: string, cachePolicy: string)

  /** Sources by (team, name), versions by (source ID, version), bindings by (team, sandbox, ref). */
  datatype Database = Database(
    sources: Sources,
    versions: Versions,
    bindings: map<(string, string, string), Binding>,
    nextID: nat
  )

  datatype StoreError =
    | TeamRequired | SandboxRequired | RecordRequired | NameRequired | KindRequired
    | DuplicateVersion | DuplicateRef | UnknownVersion | SourceInUse | DatabaseError | ReadFailed

  /** Refused: rolled back. AnswerLost: committed, but the caller is told that it failed. */
  datatype Fault = NoFault | Refused | AnswerLost

  datatype Write = Write(name: string, resolverKind: string, spec: Spec)

  datatype Metadata = Metadata(name: string, resolverKind: string, currentVersion: nat, status: string)

  const ACTIVE := "active"

  // ---------- Reading ----------

  /** The source joined with its current version. */
  function SourceMetadata(db: Database, team: string, name: string): Option<Metadata> {
    if (team, name) !in db.sources then None
    else
      var s := db.sources[(team, name)];
      if (s.id, s.currentVersion) !in db.versions then None
      else Some(Metadata(name, s.resolverKind, s.currentVersion, s.status))
  }

  type Sources = map<(string, string), Source>
  type Versions = map<(nat, nat), Spec>

  predicate SourceExists(sources: Sources, id: nat) {
    exists k :: k in sources && sources[k].id == id
  }

  /** The spec of a version, joined with its source. */
  function SourceVersion(db: Database, id: nat, version: nat): Option<Spec> {
    if (id, version) in db.versions && SourceExists(db.sources, id) then Some(db.versions[(id, version)]) else None
  }

  function RowsOf(db: Database, team: string, sandbox: string): map<string, Binding> {
    map k | k in db.bindings && k.0 == team && k.1 == sandbox :: k.2 := db.bindings[k]
  }

  /** The bindings of a sandbox by ref; None when there is none. */
  function SandboxBindings(db: Database, team: string, sandbox: string): Option<map<string, Binding>> {
    var rows := RowsOf(db, team, sandbox);
    if rows == map[] then None else Some(rows)
  }

  // ---------- Writing sources ----------

  function PutError(team: string, record: Option<Write>): Option<StoreError> {
    if team == "" then Some(TeamRequired)
    else if record.None? then Some(RecordRequired)
    else if record.value.name == "" then Some(NameRequired)
    else if record.value.resolverKind == "" then Some(KindRequired)
    else None
  }

  /** Raises the version of an existing source or creates one at version 1, and stores the spec under that version. */
  function AfterPut(db: Database, team: string, record: Option<Write>): (Database, Option<StoreError>) {
    var e := PutError(team, record);
    if e.Some? then (db, e)
    else
      var w := record.value;
      var key := (team, w.name);
      var s := NextSource(db, key, w.resolverKind);
      if (s.id, s.currentVersion) in db.versions then (db, Some(DuplicateVersion))
      else
        (db.(sources := db.sources[key := s],
             versions := db.versions[(s.id, s.currentVersion) := w.spec],
             nextID := if key in db.sources then db.nextID else db.nextID + 1), None)
  }

  /** What a caller gets: the new state and error of `done`, the transaction from `db`, under a fault. */
  function WithFault(db: Database, done: (Database, Option<StoreError>), fault: Fault): (Database, Option<StoreError>) {
    if done.1.Some? then done
    else
      match fault
      case NoFault => done
      case Refused => (db, Some(DatabaseError))
      case AnswerLost => (done.0, Some(DatabaseError))
  }

  /** A whole put: the transaction, then, once it has committed, the query for the metadata. */
  function PutCall(db: Database, team: string, record: Option<Write>, fault: Fault, readFails: bool): (Database, Option<StoreError>) {
    var (db', e) := WithFault(db, AfterPut(db, team, record), fault);
    (db', if e.None? && readFails then Some(ReadFailed) else e)
  }

  /** The source row a put writes: the next version of an existing source, or version 1 of a new one. */
  function NextSource(db: Database, key: (string, string), kind: string): Source {
    if key in db.sources then Source(db.sources[key].id, kind, db.sources[key].currentVersion + 1, ACTIVE)
    else Source(db.nextID, kind, 1, ACTIVE)
  }

  predicate Bound(db: Database, id: nat) {
    exists k :: k in db.bindings && db.bindings[k].sourceID == id
  }

  /** Deletes a source and, by cascade, its versions; refused while a binding refers to it. */
  function AfterDeleteSource(db: Database, team: string, name: string): (Database, Option<StoreError>) {
    if team == "" then (db, Some(TeamRequired))
    else if name == "" then (db, Some(NameRequired))
    else if (team, name) !in db.sources then (db, None)
    else
      var id := db.sources[(team, name)].id;
      if Bound(db, id) then (db, Some(SourceInUse))
      else
        (db.(sources := db.sources - {(team, name)},
             versions := map k | k in db.versions && k.0 != id :: db.versions[k]), None)
  }

  // ---------- Writing bindings ----------

  function WithoutSandbox(bindings: map<(string, string, string), Binding>, team: string, sandbox: string)
    : map<(string, string, string), Binding>
  {
    map k | k in bindings && !(k.0 == team && k.1 == sandbox) :: bindings[k]
  }

  /** Inserts in order; fails at the first duplicate ref or unknown version. */
  function InsertAll(db: Database, team: string, sandbox: string, bs: seq<Binding>): Result<Database, StoreError> {
    if bs == [] then Ok(db)
    else
      match InsertAll(db, team, sandbox, bs[..|bs| - 1])
      case Err(e) => Err(e)
      case Ok(tx) =>
        var b := bs[|bs| - 1];
        if (team, sandbox, b.ref) in tx.bindings then Err(DuplicateRef)
        else if (b.sourceID, b.sourceVersion) !in tx.versions then Err(UnknownVersion)
        else Ok(tx.(bindings := tx.bindings[(team, sandbox, b.ref) := b]))
  }

  function AfterUpsertBindings(db: Database, team: string, sandbox: string, bs: seq<Binding>)
    : (Database, Option<StoreError>)
  {
    if team == "" then (db, Some(TeamRequired))
    else if sandbox == "" then (db, Some(SandboxRequired))
    else
      match InsertAll(db.(bindings := WithoutSandbox(db.bindings, team, sandbox)), team, sandbox, bs)
      case Err(e) => (db, Some(e))
      case Ok(tx) => (tx, None)
  }

  function AfterDeleteBindings(db: Database, team: string, sandbox: string): (Database, Option<StoreError>) {
    if team == "" then (db, Some(TeamRequired))
    else if sandbox == "" then (db, Some(SandboxRequired))
    else (db.(bindings := WithoutSandbox(db.bindings, team, sandbox)), None)
  }

  // ---------- The store ----------

  class Repository {
    var db: Database

    constructor ()
      ensures db == EMPTY
    {
      db := EMPTY;
    }

    method PutSource(team: string, record: Option<Write>, fault: Fault, readFails: bool)
      returns (r: Result<Option<Metadata>, StoreError>)
      modifies this
      ensures db == PutCall(old(db), team, record, fault, readFails).0
      ensures r == match PutCall(old(db), team, record, fault, readFails).1
                   case Some(e) => Err(e)
                   case None => Ok(SourceMetadata(db, team, record.value.name))
    {
      if team == "" {
        return Err(TeamRequired);
      }
      if record.None? {
        return Err(RecordRequired);
      }
      var w := record.value;
      if w.name == "" {
        return Err(NameRequired);
      }
      if w.resolverKind == "" {
        return Err(KindRequired);
      }
      var key, tx := (team, w.name), db;
      var sourceID: nat, currentVersion: nat;
      if key in tx.sources {
        sourceID, currentVersion := tx.sources[key].id, tx.sources[key].currentVersion + 1;
      } else {
        sourceID, currentVersion := tx.nextID, 1;
        tx := tx.(nextID := tx.nextID + 1);
      }
      tx := tx.(sources := tx.sources[key := Source(sourceID, w.resolverKind, currentVersion, ACTIVE)]);
      if (sourceID, currentVersion) in tx.versions {
        return Err(DuplicateVersion);
      }
      tx := tx.(versions := tx.versions[(sourceID, currentVersion) := w.spec]);
      if fault.Refused? {
        return Err(DatabaseError);
      }
      db := tx;
      if fault.AnswerLost? {
        return Err(DatabaseError);
      }
      if readFails {
        return Err(ReadFailed);
      }
      r := Ok(SourceMetadata(db, team, w.name));
    }

    /** Replaces a sandbox's bindings: deletes the old rows, inserts the new ones one by one, commits. */
    method UpsertBindings(team: string, sandbox: string, bs: seq<Binding>, fault: Fault) returns (err: Option<StoreError>)
      modifies this
      ensures (db, err) == WithFault(old(db), AfterUpsertBindings(old(db), team, sandbox, bs), fault)
    {
      if team == "" {
        return Some(TeamRequired);
      }
      if sandbox == "" {
        return Some(SandboxRequired);
      }
      var start := db.(bindings := WithoutSandbox(db.bindings, team, sandbox));
      var tx := start;
      assert bs[..0] == [] && bs[..|bs|] == bs;
      for i := 0 to |bs|
        invariant InsertAll(start, team, sandbox, bs[..i]) == Ok(tx)
        invariant db == old(db)
      {
        var b := bs[i];
        InsertStep(start, team, sandbox, bs, i, tx);
        if (team, sandbox, b.ref) in tx.bindings {
          return Some(DuplicateRef);
        }
        if (b.sourceID, b.sourceVersion) !in tx.versions {
          return Some(UnknownVersion);
        }
        tx := tx.(bindings := tx.bindings[(team, sandbox, b.ref) := b]);
      }
      if fault.Refused? {
        return Some(DatabaseError);
      }
      db := tx;
      err := if fault.AnswerLost? then Some(DatabaseError) else None;
    }
  }

  const EMPTY: Database := Database(map[], map[], map[], 1)

  /** One more binding: inserted, or the insertion of all of them fails with its error. */
  lemma InsertStep(db: Database, team: string, sandbox: string, bs: seq<Binding>, i: nat, tx: Database)
    requires i < |bs| && InsertAll(db, team, sandbox, bs[..i]) == Ok(tx)
    ensures var b := bs[i];
            if (team, sandbox, b.ref) in tx.bindings then InsertAll(db, team, sandbox, bs) == Err(DuplicateRef)
            else if (b.sourceID, b.sourceVersion) !in tx.versions then InsertAll(db, team, sandbox, bs) == Err(UnknownVersion)
            else InsertAll(db, team, sandbox, bs[..i + 1]) == Ok(tx.(bindings := tx.bindings[(team, sandbox, b.ref) := b]))
  {
    assert bs[..i + 1][..i] == bs[..i];
    if InsertAll(db, team, sandbox, bs[..i + 1]).Err? {
      InsertFails(db, team, sandbox, bs, i + 1);
    }
  }

  lemma {:induction false} InsertFails(db: Database, team: string, sandbox: string, bs: seq<Binding>, n: nat)
    requires n <= |bs| && InsertAll(db, team, sandbox, bs[..n]).Err?
    ensures InsertAll(db, team, sandbox, bs) == InsertAll(db, team, sandbox, bs[..n])
    decreases |bs|
  {
    if n == |bs| {
      assert bs[..n] == bs;
    } else {
      assert bs[..|bs| - 1][..n] == bs[..n];
      InsertFails(db, team, sandbox, bs[..|bs| - 1], n);
    }
  }

  // ---------- Reachable states ----------

  datatype Action =
    | Put(team: string, record: Option<Write>, fault: Fault, readFails: bool)
    | DeleteSource(team: string, name: string, fault: Fault)
    | UpsertBindings(team: string, sandbox: string, bindings: seq<Binding>, fault: Fault)
    | DeleteBindings(team: string, sandbox: string, fault: Fault)

  /** The transaction of an operation, without faults. */
  function Attempt(db: Database, a: Action): (Database, Option<StoreError>) {
    match a
    case Put(team, record, _, _) => AfterPut(db, team, record)
    case DeleteSource(team, name, _) => AfterDeleteSource(db, team, name)
    case UpsertBindings(team, sandbox, bs, _) => AfterUpsertBindings(db, team, sandbox, bs)
    case DeleteBindings(team, sandbox, _) => AfterDeleteBindings(db, team, sandbox)
  }

  function Apply(db: Database, a: Action): (Database, Option<StoreError>) {
    if a.Put? then PutCall(db, a.team, a.record, a.fault, a.readFails) else WithFault(db, Attempt(db, a), a.fault)
  }

  /** Whatever the faults, an operation leaves the state it found or the one its transaction makes. */
  lemma ApplyIsAttempt(db: Database, a: Action)
    ensures Apply(db, a).0 == db || Apply(db, a).0 == Attempt(db, a).0
  {
    hide AfterPut, AfterDeleteSource, AfterUpsertBindings, AfterDeleteBindings;
  }

  function Run(acts: seq<Action>): Database {
    if acts == [] then EMPTY else Apply(Run(acts[..|acts| - 1]), acts[|acts| - 1]).0
  }

  /** Source IDs are unique and were handed out before; the stored versions are exactly 1 up to the current one of each source. */
  ghost predicate Numbered(sources: Sources, versions: Versions, nextID: nat) {
    && (forall k <- sources :: 0 < sources[k].id < nextID && sources[k].currentVersion >= 1)
    && (forall k, l :: k in sources && l in sources && sources[k].id == sources[l].id ==> k == l)
    && (forall k <- sources, v: nat :: (sources[k].id, v) in versions <==> 1 <= v <= sources[k].currentVersion)
    && (forall x <- versions :: SourceExists(sources, x.0))
  }

  /** Besides, every binding pins a stored version. */
  ghost predicate Inv(db: Database) {
    && Numbered(db.sources, db.versions, db.nextID)
    && forall k <- db.bindings :: (db.bindings[k].sourceID, db.bindings[k].sourceVersion) in db.versions
  }

  lemma RaiseVersion(sources: Sources, versions: Versions, nextID: nat, key: (string, string), s: Source, spec: Spec)
    requires Numbered(sources, versions, nextID)
    requires key in sources && s.id == sources[key].id && s.currentVersion == sources[key].currentVersion + 1
    ensures (s.id, s.currentVersion) !in versions
    ensures Numbered(sources[key := s], versions[(s.id, s.currentVersion) := spec], nextID)
  {
    var sources', versions' := sources[key := s], versions[(s.id, s.currentVersion) := spec];
    ExistsAfter(sources, sources', key, s);
  }

  lemma NewSource(sources: Sources, versions: Versions, nextID: nat, key: (string, string), s: Source, spec: Spec)
    requires Numbered(sources, versions, nextID) && nextID > 0
    requires key !in sources && s.id == nextID && s.currentVersion == 1
    ensures (s.id, s.currentVersion) !in versions
    ensures Numbered(sources[key := s], versions[(s.id, s.currentVersion) := spec], nextID + 1)
  {
    assert !SourceExists(sources, nextID);
    ExistsAfter(sources, sources[key := s], key, s);
  }

  /** Writing one row keeps every other ID, and its own. */
  lemma ExistsAfter(sources: Sources, sources': Sources, key: (string, string), s: Source)
    requires sources' == sources[key := s] && (key in sources ==> sources[key].id == s.id)
    ensures forall id: nat :: SourceExists(sources', id) <==> SourceExists(sources, id) || id == s.id
  {
    assert sources'[key].id == s.id;
    forall id: nat | SourceExists(sources, id) ensures SourceExists(sources', id) {
      var k :| k in sources && sources[k].id == id;
      assert k in sources' && sources'[k].id == id;
    }
    forall id: nat | SourceExists(sources', id) && id != s.id ensures SourceExists(sources, id) {
      var k :| k in sources' && sources'[k].id == id;
      assert k in sources && sources[k].id == id;
    }
  }

  lemma DropSource(sources: Sources, versions: Versions, nextID: nat, key: (string, string))
    requires Numbered(sources, versions, nextID) && key in sources
    ensures Numbered(sources - {key}, map x | x in versions && x.0 != sources[key].id :: versions[x], nextID)
    ensures forall id: nat :: SourceExists(sources - {key}, id) <==> SourceExists(sources, id) && id != sources[key].id
  {
    var sources' := sources - {key};
    forall id: nat | SourceExists(sources, id) && id != sources[key].id ensures SourceExists(sources', id) {
      var k :| k in sources && sources[k].id == id;
      assert k in sources' && sources'[k].id == id;
    }
    forall id: nat | SourceExists(sources', id) ensures SourceExists(sources, id) && id != sources[key].id {
      var k :| k in sources' && sources'[k].id == id;
      assert k in sources;
    }
  }

  lemma PutInv(db: Database, team: string, record: Option<Write>)
    requires Inv(db) && db.nextID > 0
    ensures Inv(AfterPut(db, team, record).0) && AfterPut(db, team, record).0.nextID > 0
    ensures AfterPut(db, team, record).1 != Some(DuplicateVersion)
  {
    hide Numbered;
    if PutError(team, record).None? {
      var key := (team, record.value.name);
      var s := NextSource(db, key, record.value.resolverKind);
      if key in db.sources {
        RaiseVersion(db.sources, db.versions, db.nextID, key, s, record.value.spec);
      } else {
        NewSource(db.sources, db.versions, db.nextID, key, s, record.value.spec);
      }
    }
  }

  lemma DeleteSourceInv(db: Database, team: string, name: string)
    requires Inv(db)
    ensures Inv(AfterDeleteSource(db, team, name).0)
  {
    hide Numbered;
    if AfterDeleteSource(db, team, name).0 != db {
      DropSource(db.sources, db.versions, db.nextID, (team, name));
    }
  }

  /** Inserting touches only the bindings, and every inserted binding pins a stored version. */
  lemma {:induction false} InsertAllKeeps(db: Database, team: string, sandbox: string, bs: seq<Binding>)
    requires Inv(db) && InsertAll(db, team, sandbox, bs).Ok?
    ensures Inv(InsertAll(db, team, sandbox, bs).value)
    ensures InsertAll(db, team, sandbox, bs).value == db.(bindings := InsertAll(db, team, sandbox, bs).value.bindings)
  {
    hide Numbered;
    if bs != [] {
      InsertAllKeeps(db, team, sandbox, bs[..|bs| - 1]);
    }
  }

  lemma FewerBindings(db: Database, team: string, sandbox: string)
    requires Inv(db)
    ensures Inv(db.(bindings := WithoutSandbox(db.bindings, team, sandbox)))
  {
    hide Numbered;
  }

  lemma AttemptInv(db: Database, a: Action)
    requires Inv(db) && db.nextID > 0
    ensures Inv(Attempt(db, a).0) && Attempt(db, a).0.nextID > 0
  {
    hide Inv, AfterPut, AfterDeleteSource, InsertAll, WithoutSandbox;
    match a
    case Put(team, record, _, _) => PutInv(db, team, record);
    case DeleteSource(team, name, _) =>
      DeleteSourceInv(db, team, name);
      DeleteKeepsCounter(db, team, name);
    case UpsertBindings(team, sandbox, bs, _) =>
      FewerBindings(db, team, sandbox);
      var start := db.(bindings := WithoutSandbox(db.bindings, team, sandbox));
      if InsertAll(start, team, sandbox, bs).Ok? {
        InsertAllKeeps(start, team, sandbox, bs);
      }
    case DeleteBindings(team, sandbox, _) => FewerBindings(db, team, sandbox);
  }

  lemma {:induction false} RunInv(acts: seq<Action>)
    ensures Inv(Run(acts)) && Run(acts).nextID > 0
  {
    hide Inv, Attempt, Apply;
    if acts == [] {
      EmptyInv();
    } else {
      RunInv(acts[..|acts| - 1]);
      AttemptInv(Run(acts[..|acts| - 1]), acts[|acts| - 1]);
      ApplyIsAttempt(Run(acts[..|acts| - 1]), acts[|acts| - 1]);
    }
  }

  lemma DeleteKeepsCounter(db: Database, team: string, name: string)
    ensures AfterDeleteSource(db, team, name).0.nextID == db.nextID
  {
  }

  lemma EmptyInv()
    ensures Inv(EMPTY)
  {
  }

  // ---------- Errors ----------

  /** The fault comes after the commit: the answer to it is lost, or a put's query fails. */
  predicate LateFault(a: Action) {
    a.fault.AnswerLost? || (a.Put? && a.fault.NoFault? && a.readFails)
  }

  /** The operation's transaction commits and changes something, and its caller is told of an error. */
  ghost predicate TookEffect(db: Database, a: Action) {
    LateFault(a) && Attempt(db, a).1.None? && Attempt(db, a).0 != db
  }

  /** Exactly which operations succeed, without faults, in a state the store can reach. */
  lemma AttemptExactly(db: Database, a: Action)
    requires Inv(db) && db.nextID > 0
    ensures Attempt(db, a).1.None? <==>
            match a
            case Put(team, record, _, _) => team != "" && record.Some? && record.value.name != "" && record.value.resolverKind != ""
            case DeleteSource(team, name, _) =>
              && team != "" && name != ""
              && ((team, name) in db.sources ==>
                    forall k <- db.bindings :: db.bindings[k].sourceID != db.sources[(team, name)].id)
            case UpsertBindings(team, sandbox, bs, _) => team != "" && sandbox != "" && Insertable(db.versions, bs)
            case DeleteBindings(team, sandbox, _) => team != "" && sandbox != ""
  {
    hide Inv, Numbered, InsertAll, Insertable;
    match a
    case Put(team, record, _, _) =>
      if PutError(team, record).None? {
        PutInv(db, team, record);
      }
    case UpsertBindings(team, sandbox, bs, _) =>
      InsertAllExact(db.(bindings := WithoutSandbox(db.bindings, team, sandbox)), team, sandbox, bs);
    case _ =>
  }

  lemma AttemptFails(db: Database, a: Action)
    ensures Attempt(db, a).1.Some? ==> Attempt(db, a).0 == db
  {
    hide InsertAll, WithoutSandbox, PutError;
  }

  /** An operation that reports an error has changed nothing if and only if no fault came after a commit that changed something. */
  lemma FailureExactly(db: Database, a: Action)
    requires Apply(db, a).1.Some?
    ensures Apply(db, a).0 == db <==> !TookEffect(db, a)
  {
    hide AfterPut, AfterDeleteSource, AfterUpsertBindings, AfterDeleteBindings;
    AttemptFails(db, a);
  }

  /** What a committed put leaves differs from what it found. */
  lemma PutChanges(db: Database, team: string, record: Option<Write>)
    requires Inv(db) && db.nextID > 0 && PutError(team, record).None?
    ensures AfterPut(db, team, record).1.None? && AfterPut(db, team, record).0 != db
  {
    hide Numbered, Inv;
    PutInv(db, team, record);
    var db', key := AfterPut(db, team, record).0, (team, record.value.name);
    assert key in db'.sources;
    assert key in db.sources ==> db'.sources[key].currentVersion == db.sources[key].currentVersion + 1;
  }

  /** For puts, in every reachable state: if and only if a field is missing or no fault came after the commit. */
  lemma PutFailureExactly(acts: seq<Action>, a: Action)
    requires a.Put? && Apply(Run(acts), a).1.Some?
    ensures Apply(Run(acts), a).0 == Run(acts) <==> PutError(a.team, a.record).Some? || !LateFault(a)
  {
    hide Run, Apply, AfterPut, PutError, Inv, LateFault;
    RunInv(acts);
    FailureExactly(Run(acts), a);
    if PutError(a.team, a.record).None? {
      PutChanges(Run(acts), a.team, a.record);
    } else {
      PutRefuses(Run(acts), a.team, a.record);
    }
  }

  lemma PutRefuses(db: Database, team: string, record: Option<Write>)
    requires PutError(team, record).Some?
    ensures AfterPut(db, team, record) == (db, PutError(team, record))
  {
    hide PutError;
  }

  /** So a caller that retries such a put raises the version twice. */
  lemma RetryRaisesTwice(acts: seq<Action>, team: string, w: Write)
    requires PutError(team, Some(w)).None?
    ensures var lost, again := Put(team, Some(w), NoFault, true), Put(team, Some(w), NoFault, false);
            var db, key := Run(acts), (team, w.name);
            var db' := Apply(Apply(db, lost).0, again).0;
            && Apply(db, lost).1 == Some(ReadFailed) && Apply(Apply(db, lost).0, again).1 == None
            && key in db'.sources
            && db'.sources[key].currentVersion == (if key in db.sources then db.sources[key].currentVersion else 0) + 2
  {
    hide Run, Numbered, Inv;
    RunInv(acts);
    PutInv(Run(acts), team, Some(w));
    PutChanges(Run(acts), team, Some(w));
    PutChanges(AfterPut(Run(acts), team, Some(w)).0, team, Some(w));
  }

  // ---------- What the invariant gives ----------

  /** In every reachable state the metadata join finds every source, and every binding resolves to a spec. */
  lemma EverythingResolves(acts: seq<Action>)
    ensures forall k <- Run(acts).sources :: SourceMetadata(Run(acts), k.0, k.1).Some?
    ensures forall k <- Run(acts).bindings ::
              SourceVersion(Run(acts), Run(acts).bindings[k].sourceID, Run(acts).bindings[k].sourceVersion).Some?
  {
    hide Run;
    RunInv(acts);
    forall k <- Run(acts).sources ensures SourceMetadata(Run(acts), k.0, k.1).Some? {
      assert (k.0, k.1) == k;
    }
  }

  /**
    In every reachable state the transaction of a put with all its fields succeeds. Then
    the source reads back with the new kind and the next version, that version reads back with the
    new spec, and no other source, no other stored version and no binding changes.
   */
  lemma PutReadsBack(acts: seq<Action>, team: string, w: Write)
    requires team != "" && w.name != "" && w.resolverKind != ""
    ensures var db, key := Run(acts), (team, w.name);
            var (db', err) := AfterPut(db, team, Some(w));
            var version := if key in db.sources then db.sources[key].currentVersion + 1 else 1;
            && err == None && key in db'.sources
            && SourceMetadata(db', team, w.name) == Some(Metadata(w.name, w.resolverKind, version, "active"))
            && SourceVersion(db', db'.sources[key].id, version) == Some(w.spec)
            && (key in db.sources ==> db'.sources[key].id == db.sources[key].id)
            && db'.bindings == db.bindings && db'.sources - {key} == db.sources - {key}
            && db'.versions - {(db'.sources[key].id, version)} == db.versions
  {
    hide Run, Numbered;
    var db, key := Run(acts), (team, w.name);
    RunInv(acts);
    PutInv(db, team, Some(w));
    var db' := AfterPut(db, team, Some(w)).0;
    OwnID(db'.sources, key);
  }

  /**
    A source deleted is gone: neither it nor any of its versions reads back. Every other source and
    version is as before, and so is every binding.
   */
  lemma DeleteReadsBack(acts: seq<Action>, team: string, name: string)
    requires AfterDeleteSource(Run(acts), team, name).1.None?
    ensures var db, db' := Run(acts), AfterDeleteSource(Run(acts), team, name).0;
            && SourceMetadata(db', team, name) == None && db'.sources == db.sources - {(team, name)} && db'.bindings == db.bindings
            && ((team, name) in db.sources ==> forall v: nat :: SourceVersion(db', db.sources[(team, name)].id, v) == None)
            && forall k <- db'.sources, v: nat :: SourceVersion(db', db'.sources[k].id, v) == SourceVersion(db, db'.sources[k].id, v)
  {
    hide Run;
    RunInv(acts);
    if (team, name) in Run(acts).sources {
      DeletedIsGone(Run(acts), team, name);
    } else {
      assert Run(acts).sources - {(team, name)} == Run(acts).sources;
    }
  }

  lemma DeletedIsGone(db: Database, team: string, name: string)
    requires Inv(db) && (team, name) in db.sources && AfterDeleteSource(db, team, name).1.None?
    ensures var db' := AfterDeleteSource(db, team, name).0;
            && (forall v: nat :: SourceVersion(db', db.sources[(team, name)].id, v) == None)
            && forall k <- db'.sources, v: nat :: SourceVersion(db', db'.sources[k].id, v) == SourceVersion(db, db'.sources[k].id, v)
  {
    hide Numbered, SourceExists;
    var db' := AfterDeleteSource(db, team, name).0;
    DropSource(db.sources, db.versions, db.nextID, (team, name));
    forall k <- db'.sources, v: nat ensures SourceVersion(db', db'.sources[k].id, v) == SourceVersion(db, db'.sources[k].id, v) {
      OwnID(db'.sources, k);
    }
  }

  /** Bindings deleted are gone, and only those. */
  lemma DeleteBindingsReadsBack(db: Database, team: string, sandbox: string)
    requires AfterDeleteBindings(db, team, sandbox).1.None?
    ensures var db' := AfterDeleteBindings(db, team, sandbox).0;
            && SandboxBindings(db', team, sandbox) == None && db' == db.(bindings := db'.bindings)
            && forall k: (string, string, string) :: k.0 != team || k.1 != sandbox ==>
                 (k in db'.bindings <==> k in db.bindings) && (k in db.bindings ==> db'.bindings[k] == db.bindings[k])
  {
    var db' := AfterDeleteBindings(db, team, sandbox).0;
    assert RowsOf(db', team, sandbox) == map[];
  }

  /** A step keeps the spec of every version whose source it leaves in place, and never brings an old ID back. */
  ghost predicate Pins(db: Database, db': Database, id: nat, v: nat) {
    && db.nextID <= db'.nextID
    && (id < db.nextID && !SourceExists(db.sources, id) ==> !SourceExists(db'.sources, id))
    && ((id, v) in db.versions && SourceExists(db'.sources, id) ==>
          (id, v) in db'.versions && db'.versions[(id, v)] == db.versions[(id, v)])
  }

  lemma StepPins(db: Database, a: Action, id: nat, v: nat)
    requires Inv(db) && db.nextID > 0
    ensures Pins(db, Apply(db, a).0, id, v)
  {
    hide InsertAll, WithoutSandbox, AfterPut, AfterDeleteSource, Numbered, SourceExists, Apply;
    ApplyIsAttempt(db, a);
    match a
    case Put(team, record, _, _) => PutPins(db, team, record, id, v);
    case DeleteSource(team, name, _) => DeletePins(db, team, name, id, v);
    case UpsertBindings(team, sandbox, bs, _) =>
      FewerBindings(db, team, sandbox);
      var start := db.(bindings := WithoutSandbox(db.bindings, team, sandbox));
      if InsertAll(start, team, sandbox, bs).Ok? {
        InsertAllKeeps(start, team, sandbox, bs);
      }
    case DeleteBindings(team, sandbox, _) =>
  }

  lemma PutPins(db: Database, team: string, record: Option<Write>, id: nat, v: nat)
    requires Inv(db) && db.nextID > 0
    ensures Pins(db, AfterPut(db, team, record).0, id, v)
  {
    hide Numbered, SourceExists;
    var db' := AfterPut(db, team, record).0;
    if db' != db {
      var key := (team, record.value.name);
      ExistsAfter(db.sources, db'.sources, key, db'.sources[key]);
      if key in db.sources {
        OwnID(db.sources, key);
      }
    }
  }

  lemma OwnID(sources: Sources, key: (string, string))
    requires key in sources
    ensures SourceExists(sources, sources[key].id)
  {
  }

  lemma DeletePins(db: Database, team: string, name: string, id: nat, v: nat)
    requires Inv(db)
    ensures Pins(db, AfterDeleteSource(db, team, name).0, id, v)
  {
    hide Numbered, SourceExists;
    if AfterDeleteSource(db, team, name).0 != db {
      DropSource(db.sources, db.versions, db.nextID, (team, name));
    }
  }

  /**
    A pinned version keeps its spec as long as its source exists: whatever happens after a
    version was stored, later puts included, it reads back the same.
   */
  lemma {:induction false} PinnedSpec(acts: seq<Action>, n: nat, id: nat, v: nat)
    requires n <= |acts| && (id, v) in Run(acts[..n]).versions
    requires SourceExists(Run(acts).sources, id)
    ensures SourceVersion(Run(acts), id, v) == Some(Run(acts[..n]).versions[(id, v)])
  {
    hide Inv, Apply, SourceExists;
    if n == |acts| {
      assert acts[..n] == acts;
    } else {
      var before := acts[..|acts| - 1];
      assert before[..n] == acts[..n];
      RunInv(before);
      StepPins(Run(before), acts[|acts| - 1], id, v);
      OldID(acts, n, id, v);
      assert SourceExists(Run(before).sources, id);
      PinnedSpec(before, n, id, v);
    }
  }

  /** An ID with a stored version was handed out before. */
  lemma {:induction false} OldID(acts: seq<Action>, n: nat, id: nat, v: nat)
    requires n < |acts| && (id, v) in Run(acts[..n]).versions
    ensures id < Run(acts[..|acts| - 1]).nextID
  {
    hide Apply, Inv;
    var before := acts[..|acts| - 1];
    if n == |before| {
      assert acts[..n] == before;
      RunInv(before);
      StoredIsOld(Run(before), id, v);
    } else {
      assert before[..n] == acts[..n];
      OldID(before, n, id, v);
      RunInv(before[..|before| - 1]);
      StepPins(Run(before[..|before| - 1]), before[|before| - 1], id, v);
    }
  }

  lemma StoredIsOld(db: Database, id: nat, v: nat)
    requires Inv(db) && (id, v) in db.versions
    ensures id < db.nextID
  {
    assert SourceExists(db.sources, (id, v).0);
  }

  // ---------- Bindings read back ----------

  /** No ref twice, and every binding pins a stored version. */
  ghost predicate Insertable(versions: Versions, bs: seq<Binding>) {
    && (forall i, j :: 0 <= i < j < |bs| ==> bs[i].ref != bs[j].ref)
    && forall i :: 0 <= i < |bs| ==> (bs[i].sourceID, bs[i].sourceVersion) in versions
  }

  ghost predicate HasRef(bs: seq<Binding>, ref: string) {
    exists i :: 0 <= i < |bs| && bs[i].ref == ref
  }

  /** `tx` is `db` with exactly the bindings `bs` added to the sandbox. */
  ghost predicate Placed(tx: Database, db: Database, team: string, sandbox: string, bs: seq<Binding>) {
    && tx == db.(bindings := tx.bindings)
    && (forall k :: k in tx.bindings <==> k in db.bindings || (k.0 == team && k.1 == sandbox && HasRef(bs, k.2)))
    && (forall k :: k in db.bindings ==> tx.bindings[k] == db.bindings[k])
    && (forall i :: 0 <= i < |bs| ==> (team, sandbox, bs[i].ref) in tx.bindings && tx.bindings[(team, sandbox, bs[i].ref)] == bs[i])
  }

  lemma PlacedSnoc(tx: Database, db: Database, team: string, sandbox: string, bs: seq<Binding>, b: Binding)
    requires Placed(tx, db, team, sandbox, bs) && (team, sandbox, b.ref) !in tx.bindings
    ensures Placed(tx.(bindings := tx.bindings[(team, sandbox, b.ref) := b]), db, team, sandbox, bs + [b])
  {
    hide HasRef;
    RefSnoc(bs, b);
  }

  lemma InsertableSnoc(versions: Versions, bs: seq<Binding>, b: Binding)
    ensures Insertable(versions, bs + [b]) <==>
              Insertable(versions, bs) && !HasRef(bs, b.ref) && (b.sourceID, b.sourceVersion) in versions
  {
    var s := bs + [b];
    assert forall i :: 0 <= i < |bs| ==> s[i] == bs[i];
    assert s[|bs|] == b;
  }

  /** Into a sandbox without bindings, insertion succeeds exactly on insertable bindings, and adds exactly those. */
  lemma {:induction false} InsertAllExact(db: Database, team: string, sandbox: string, bs: seq<Binding>)
    requires forall ref :: (team, sandbox, ref) !in db.bindings
    ensures InsertAll(db, team, sandbox, bs).Ok? <==> Insertable(db.versions, bs)
    ensures InsertAll(db, team, sandbox, bs).Ok? ==> Placed(InsertAll(db, team, sandbox, bs).value, db, team, sandbox, bs)
  {
    hide Insertable, Placed, HasRef;
    if bs == [] {
      NothingPlaced(db, team, sandbox);
    } else {
      var before, b := bs[..|bs| - 1], bs[|bs| - 1];
      InsertAllExact(db, team, sandbox, before);
      assert bs == before + [b];
      InsertableSnoc(db.versions, before, b);
      if InsertAll(db, team, sandbox, before).Ok? {
        var tx := InsertAll(db, team, sandbox, before).value;
        PlacedKey(tx, db, team, sandbox, before, b.ref);
        if (team, sandbox, b.ref) !in tx.bindings {
          PlacedSnoc(tx, db, team, sandbox, before, b);
        }
      }
    }
  }

  lemma NothingPlaced(db: Database, team: string, sandbox: string)
    ensures Placed(db, db, team, sandbox, []) && Insertable(db.versions, [])
  {
  }

  lemma PlacedKey(tx: Database, db: Database, team: string, sandbox: string, bs: seq<Binding>, ref: string)
    requires Placed(tx, db, team, sandbox, bs) && (team, sandbox, ref) !in db.bindings
    ensures (team, sandbox, ref) in tx.bindings <==> HasRef(bs, ref)
    ensures tx.versions == db.versions
  {
    var k := (team, sandbox, ref);
    assert k.0 == team && k.1 == sandbox && k.2 == ref;
  }

  lemma RefSnoc(bs: seq<Binding>, b: Binding)
    ensures forall ref :: HasRef(bs + [b], ref) <==> HasRef(bs, ref) || ref == b.ref
  {
    forall ref | HasRef(bs, ref) ensures HasRef(bs + [b], ref) {
      var i :| 0 <= i < |bs| && bs[i].ref == ref;
      assert (bs + [b])[i].ref == ref;
    }
    assert (bs + [b])[|bs|].ref == b.ref;
  }

  /** The bindings by ref. */
  ghost function ByRef(bs: seq<Binding>): map<string, Binding> {
    if bs == [] then map[] else ByRef(bs[..|bs| - 1])[bs[|bs| - 1].ref := bs[|bs| - 1]]
  }

  lemma {:induction false} ByRefExact(bs: seq<Binding>)
    requires forall i, j :: 0 <= i < j < |bs| ==> bs[i].ref != bs[j].ref
    ensures forall ref :: ref in ByRef(bs) <==> HasRef(bs, ref)
    ensures forall i :: 0 <= i < |bs| ==> bs[i].ref in ByRef(bs) && ByRef(bs)[bs[i].ref] == bs[i]
  {
    if bs != [] {
      var before, b := bs[..|bs| - 1], bs[|bs| - 1];
      assert forall i :: 0 <= i < |before| ==> before[i] == bs[i];
      ByRefExact(before);
      RefSnoc(before, b);
      assert bs == before + [b];
    }
  }

  /**
    Replacing a sandbox's bindings succeeds exactly when no ref repeats and every pinned version
    is stored; then reading them back gives exactly the new bindings, and no other sandbox changes.
   */
  lemma UpsertReadsBack(db: Database, team: string, sandbox: string, bs: seq<Binding>)
    requires team != "" && sandbox != ""
    ensures AfterUpsertBindings(db, team, sandbox, bs).1.None? <==> Insertable(db.versions, bs)
    ensures Insertable(db.versions, bs) ==>
              var db' := AfterUpsertBindings(db, team, sandbox, bs).0;
              && SandboxBindings(db', team, sandbox) == (if bs == [] then None else Some(ByRef(bs)))
              && db' == db.(bindings := db'.bindings)
              && forall k: (string, string, string) :: k.0 != team || k.1 != sandbox ==>
                   (k in db'.bindings <==> k in db.bindings) && (k in db.bindings ==> db'.bindings[k] == db.bindings[k])
  {
    hide InsertAll, ByRef, SandboxBindings, Insertable;
    var start := db.(bindings := WithoutSandbox(db.bindings, team, sandbox));
    InsertAllExact(start, team, sandbox, bs);
    if Insertable(db.versions, bs) {
      ReadBack(InsertAll(start, team, sandbox, bs).value, start, team, sandbox, bs);
    }
  }

  lemma ReadBack(tx: Database, start: Database, team: string, sandbox: string, bs: seq<Binding>)
    requires Placed(tx, start, team, sandbox, bs) && Insertable(start.versions, bs)
    requires forall ref :: (team, sandbox, ref) !in start.bindings
    ensures SandboxBindings(tx, team, sandbox) == if bs == [] then None else Some(ByRef(bs))
  {
    hide HasRef, ByRef, Placed, RowsOf;
    ByRefExact(bs);
    var found := RowsOf(tx, team, sandbox);
    forall ref ensures ref in found <==> HasRef(bs, ref) {
      PlacedKey(tx, start, team, sandbox, bs, ref);
      FoundAt(tx, team, sandbox, ref);
    }
    forall ref | ref in found ensures found[ref] == ByRef(bs)[ref] {
      FoundAt(tx, team, sandbox, ref);
      PlacedValue(tx, start, team, sandbox, bs, ref);
    }
    assert found == ByRef(bs);
    HasSome(bs);
  }

  lemma FoundAt(tx: Database, team: string, sandbox: string, ref: string)
    ensures var found := RowsOf(tx, team, sandbox);
            && (ref in found <==> (team, sandbox, ref) in tx.bindings)
            && (ref in found ==> found[ref] == tx.bindings[(team, sandbox, ref)])
  {
    var k := (team, sandbox, ref);
    assert k.0 == team && k.1 == sandbox && k.2 == ref;
  }

  lemma PlacedValue(tx: Database, start: Database, team: string, sandbox: string, bs: seq<Binding>, ref: string)
    requires Placed(tx, start, team, sandbox, bs) && HasRef(bs, ref) && Insertable(start.versions, bs)
    ensures (team, sandbox, ref) in tx.bindings && ref in ByRef(bs) && ByRef(bs)[ref] == tx.bindings[(team, sandbox, ref)]
  {
    hide ByRef;
    ByRefExact(bs);
    var i :| 0 <= i < |bs| && bs[i].ref == ref;
  }

  lemma HasSome(bs: seq<Binding>)
    ensures bs != [] ==> HasRef(bs, bs[0].ref)
    ensures bs == [] ==> ByRef(bs) == map[]
  {
  }
}
