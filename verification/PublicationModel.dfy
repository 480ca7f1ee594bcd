/** The durable values a publication touches, and what it means for them to agree. */
module PublicationModel {
  import opened Sequences
  import opened RevisionLedger
  import opened RevisionHistory

  /** A desired state is its content read at an effective time. */
  datatype State = State(desired: string, asOf: int)

  /** The uninterpreted parts: compiler, digest and snapshot codec. */
  datatype Env = Env(
    compile: State -> Option<string>,
    digest: string -> string,
    encode: State -> string,
    decode: string -> Option<State>,
    hasNodes: string -> bool,
    historyLimit: nat)

  ghost predicate Lawful(env: Env) {
    && env.historyLimit >= 1
    && forall s :: env.decode(env.encode(s)) == Some(s)
  }

  datatype Path =
    | Config
    | Candidate(id: nat) | Backup(id: nat) | Recovery(id: nat) | Reconciliation(id: nat)
    | RevisionYaml(id: nat) | RevisionState(id: nat)

  type Files = map<Path, string>

  datatype Health = Healthy | Degraded(byCutover: bool)

  datatype Database = Database(
    desired: string,
    restartPending: bool,
    cutoverPending: bool,
    health: Health,
    ledger: History)

  datatype Durable = Durable(db: Database, files: Files)

  /** What the process has loaded, and whether a health wait has passed since. */
  datatype Runtime = Runtime(active: bool, loaded: Option<string>, checked: bool)

  function Get(files: Files, p: Path): Option<string> {
    if p in files then Some(files[p]) else None
  }

  function ActiveOf(db: Database): Lookup {
    ActiveRevision(db.ledger.rows)
  }

  function DigestOf(env: Env, content: Option<string>): Option<string> {
    match content
    case None => None
    case Some(bytes) => Some(env.digest(bytes))
  }

  function CompiledDigest(env: Env, s: State): Option<string> {
    DigestOf(env, env.compile(s))
  }

  function Snapshot(env: Env, files: Files, id: nat): Option<State> {
    match Get(files, RevisionState(id))
    case None => None
    case Some(bytes) => env.decode(bytes)
  }

  /** Both archives of a revision exist and carry its digest. */
  predicate ArchivesMatch(env: Env, files: Files, r: Revision) {
    && DigestOf(env, Get(files, RevisionYaml(r.id))) == Some(r.digest)
    && Snapshot(env, files, r.id).Some?
    && CompiledDigest(env, Snapshot(env, files, r.id).value) == Some(r.digest)
  }

  /** The durable desired state, recompiled at the revision's own time, is the revision. */
  predicate DesiredMatches(env: Env, db: Database, files: Files, r: Revision) {
    && Snapshot(env, files, r.id).Some?
    && CompiledDigest(env, State(db.desired, Snapshot(env, files, r.id).value.asOf)) == Some(r.digest)
  }

  predicate ConfigMatches(env: Env, files: Files, r: Revision) {
    DigestOf(env, Get(files, Config)) == Some(r.digest)
  }

  /** Everything startup needs to rebuild the configuration from the active revision. */
  ghost predicate Recoverable(env: Env, d: Durable) {
    match ActiveOf(d.db)
    case NoneActive => true
    case OneActive(r) => ArchivesMatch(env, d.files, r) && DesiredMatches(env, d.db, d.files, r)
    case SeveralActive => false
  }

  /** Database, revision history, archives and configuration file all tell the same story. */
  ghost predicate Agreement(env: Env, d: Durable) {
    && ActiveOf(d.db).OneActive?
    && ArchivesMatch(env, d.files, ActiveOf(d.db).revision)
    && DesiredMatches(env, d.db, d.files, ActiveOf(d.db).revision)
    && ConfigMatches(env, d.files, ActiveOf(d.db).revision)
  }

  predicate IsArchive(p: Path, id: nat) {
    p == RevisionYaml(id) || p == RevisionState(id)
  }

  predicate ArchiveOfActive(db: Database, p: Path) {
    ActiveOf(db).OneActive? && IsArchive(p, ActiveOf(db).revision.id)
  }

  /** Equal everywhere except possibly at `p`. */
  ghost predicate SameBut(a: Files, b: Files, p: Path) {
    forall q :: q != p ==> Get(a, q) == Get(b, q)
  }

  ghost predicate SameArchive(a: Files, b: Files, id: nat) {
    Get(a, RevisionYaml(id)) == Get(b, RevisionYaml(id)) && Get(a, RevisionState(id)) == Get(b, RevisionState(id))
  }

  ghost predicate SameActiveArchive(db: Database, a: Files, b: Files) {
    ActiveOf(db).OneActive? ==> SameArchive(a, b, ActiveOf(db).revision.id)
  }

  /** The user-visible state: what is desired and which revision is active. */
  ghost predicate SameState(a: Database, b: Database) {
    && a.desired == b.desired && a.restartPending == b.restartPending && a.cutoverPending == b.cutoverPending
    && ActiveOf(a) == ActiveOf(b)
  }

  /** A draw that neither a row nor a file has used. */
  predicate Fresh(d: Durable, id: nat) {
    && (forall r :: r in d.db.ledger.rows ==> r.id != id)
    && (forall p :: p in d.files ==> p == Config || p.id != id)
  }

  lemma RecoverableFrame(env: Env, a: Durable, b: Durable)
    requires SameState(a.db, b.db)
    requires SameActiveArchive(a.db, a.files, b.files)
    ensures Recoverable(env, a) == Recoverable(env, b)
  {
  }

  lemma ArchiveFrame(db: Database, a: Files, b: Files, p: Path)
    requires SameBut(a, b, p)
    ensures !ArchiveOfActive(db, p) ==> SameActiveArchive(db, a, b)
  {
  }

  lemma HealthFrame(db: Database, health: Health)
    ensures SameState(db, db.(health := health))
  {
  }

  function Renamed(files: Files, candidate: Path): (r: Files)
    requires candidate in files
    ensures candidate != Config ==> Get(r, Config) == Get(files, candidate) && candidate !in r
    ensures forall q :: q != Config && q != candidate ==> Get(r, q) == Get(files, q)
  {
    (files - {candidate})[Config := files[candidate]]
  }

  lemma RenameFrame(db: Database, files: Files, candidate: Path)
    requires candidate in files
    ensures !ArchiveOfActive(db, candidate) ==> SameActiveArchive(db, files, Renamed(files, candidate))
  {
  }

  lemma ArchivePair(db: Database, id: nat)
    ensures ArchiveOfActive(db, RevisionYaml(id)) == ArchiveOfActive(db, RevisionState(id))
  {
  }

  lemma CutoverFrame(env: Env, db: Database, files: Files)
    ensures Recoverable(env, Durable(db, files))
         == Recoverable(env, Durable(db.(cutoverPending := false, health := Healthy), files))
  {
  }

  lemma RestartFrame(env: Env, db: Database, files: Files)
    ensures Recoverable(env, Durable(db, files))
         == Recoverable(env, Durable(db.(restartPending := false), files))
  {
  }
}
