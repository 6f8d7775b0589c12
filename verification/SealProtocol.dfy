/** The seal protocol as a state machine: any number of clients that ask the anchors, lock, read,
    write and commit; seals that reach the anchors late, in any order or never; and a writer who may
    replace any table between two steps. */
module SealProtocol {
  import opened Options
  import opened StateEncoding
  import opened Sealing

  /** A committed seal on its way to the anchors. */
  datatype Event = Event(user: UserId, version: int, digest: Digest)

  /** Why a digest was computed. */
  datatype Origin =
    | SignUp
    | AdministratorReseal
    | FirstSealOfUnsealed
    | LibraryChange(parent: nat, change: Change, draws: Draws)

  datatype Entry = Entry(digest: Digest, origin: Origin)

  /** Where one client stands. The lock is held in Holding and HoldingReseal. */
  datatype Client =
    | Idle
    | ToChange(user: UserId, reading: Reading, leaveUnsealed: bool)
    | Holding(read: Read, outcome: Outcome)
    | ToCheck(user: UserId, reading: Reading)
    | Resolving(read: Read, second: bool, at: nat)
    | ToReadAgain(user: UserId)
    | ToReseal(user: UserId, floor: nat)
    | HoldingReseal(read: Read, row: SealRow)

  /** What an observer of the database and the anchors would note down. */
  datatype Happening =
    | Committed(user: UserId, version: int, digest: Digest)
    | Recorded(anchor: nat, user: UserId, version: int)

  datatype World = World(
    mode: Mode, keys: Keys, tables: map<UserId, Account>, anchors: seq<map<UserId, Floor>>, emitted: set<Event>,
    log: seq<Entry>, clients: map<nat, Client>,
    trace: seq<Happening>, commits: map<(UserId, int), nat>, records: map<(nat, UserId), nat>,
    history: map<UserId, seq<CanonicalState>>)

  datatype Step =
    | AskForChange(client: nat, user: UserId, leaveUnsealed: bool, answered: bool)
    | LockAndSeal(client: nat, change: Change, draws: Draws)
    | CommitChange(client: nat, stored: CanonicalComponents)
    | Abort(client: nat)
    | AskForCheck(client: nat, user: UserId, answered: bool)
    | ReadForCheck(client: nat)
    | ReadForSession(client: nat, user: UserId)
    | AskForSession(client: nat, answered: bool)
    | ReadAgain(client: nat)
    | AskForReseal(client: nat, user: UserId, answered: bool)
    | LockAndReseal(client: nat, resealDraws: ResealDraws)
    | CommitReseal(client: nat)
    | CreateAccount(user: UserId, components: CanonicalComponents)
    | Record(event: Event, anchor: nat)
    | Rotate(keys: Keys)
    | Tamper(tables: map<UserId, Account>)

  // ---- what the steps read

  function ClientAt(w: World, p: nat): Client {
    if p in w.clients then w.clients[p] else Idle
  }

  function FloorsFor(w: World, u: UserId): (floors: seq<Option<Floor>>)
    ensures |floors| == |w.anchors|
    ensures forall a | 0 <= a < |w.anchors| ::
      floors[a] == if u in w.anchors[a] then Some(w.anchors[a][u]) else None
  {
    seq(|w.anchors|, a requires 0 <= a < |w.anchors| => if u in w.anchors[a] then Some(w.anchors[a][u]) else None)
  }

  function ReadingFor(w: World, u: UserId, answered: bool): Reading {
    if answered then Answered(FloorsFor(w, u)) else Unavailable
  }

  predicate HoldsLockOf(c: Client, u: UserId) {
    (c.Holding? || c.HoldingReseal?) && c.read.userId == u
  }

  predicate Locked(w: World, u: UserId) {
    exists p | p in w.clients :: HoldsLockOf(w.clients[p], u)
  }

  predicate Logged(log: seq<Entry>, d: Digest) {
    exists i | 0 <= i < |log| :: log[i].digest == d
  }

  /** checkAccount and a session check answer "usable". */
  predicate Usable(keys: Keys, mode: Mode, read: Read, reading: Reading) {
    && CheckSecurityState(keys, read, mode) in {Valid, Unsealed}
    && Passes(CompareWithFloors(read.seal, reading))
  }

  /** A check that found its seal ahead of an anchor records the seal it verified again. */
  function EmittedByCheck(keys: Keys, mode: Mode, read: Read, reading: Reading): set<Event> {
    if Usable(keys, mode, read, reading) && read.seal.Some? && CompareWithFloors(read.seal, reading).AheadOfAnchor?
    then {Event(read.userId, read.seal.value.version, read.seal.value.digest)}
    else {}
  }

  predicate Swaps(current: Option<SealRow>, read: Option<SealRow>) {
    if read.None? then current.None? else StillTheRow(current, read.value)
  }

  // ---- which steps can be taken

  ghost predicate Enabled(w: World, s: Step) {
    match s
    case AskForChange(p, _, _, _) => ClientAt(w, p).Idle?
    case LockAndSeal(p, change, draws) =>
      && ClientAt(w, p).ToChange? && !Locked(w, ClientAt(w, p).user)
      && (ClientAt(w, p).user in w.tables ==>
            var read := ReadOf(ClientAt(w, p).user, w.tables[ClientAt(w, p).user]);
            change(read).Plan? ==> IsDrawnFor(read, change(read), draws))
    case CommitChange(p, stored) =>
      && ClientAt(w, p).Holding? && !ClientAt(w, p).outcome.Refused?
      // where nobody wrote past the lock the tables hold what the change says it leaves
      && (var read := ClientAt(w, p).read;
          read.userId in w.tables && w.tables[read.userId].components == read.components ==>
            stored == ClientAt(w, p).outcome.after)
    case Abort(p) => true
    case AskForCheck(p, _, _) => ClientAt(w, p).Idle?
    case ReadForCheck(p) => ClientAt(w, p).ToCheck?
    case ReadForSession(p, u) => ClientAt(w, p).Idle? && u in w.tables
    case AskForSession(p, _) => ClientAt(w, p).Resolving?
    case ReadAgain(p) => ClientAt(w, p).ToReadAgain?
    case AskForReseal(p, _, _) => ClientAt(w, p).Idle?
    case LockAndReseal(p, draws) =>
      && ClientAt(w, p).ToReseal? && !Locked(w, ClientAt(w, p).user)
      && (ClientAt(w, p).user in w.tables ==>
            IsDrawnForReseal(ReadOf(ClientAt(w, p).user, w.tables[ClientAt(w, p).user]), draws))
    case CommitReseal(p) => ClientAt(w, p).HoldingReseal?
    case CreateAccount(u, _) => u !in w.tables && CanMac(w.keys)
    case Record(e, a) => e in w.emitted && a < |w.anchors|
    case Rotate(_) => true
    // the ideal MAC: a writer can copy a digest the library computed and cannot make one
    case Tamper(tables) =>
      forall u | u in tables && tables[u].seal.Some? && tables[u].seal.value.digest.Mac? ::
        Logged(w.log, tables[u].seal.value.digest)
  }

  // ---- what they do

  ghost function SetClient(w: World, p: nat, c: Client): World {
    w.(clients := w.clients[p := c])
  }

  /** A commit that moved an account to a new seal row. */
  ghost function WithCommit(w: World, u: UserId, row: SealRow, stored: CanonicalComponents): World {
    var before := if u in w.history then w.history[u] else [];
    w.(tables := w.tables[u := Account(Some(row), stored)],
       emitted := w.emitted + {Event(u, row.version, row.digest)},
       trace := w.trace + [Committed(u, row.version, row.digest)],
       commits := w.commits[(u, row.version) := |w.trace|],
       history := w.history[u := before + [StateOf(u, row, stored)]])
  }

  ghost function ApplyLockAndSeal(w: World, p: nat, change: Change, draws: Draws): World
    requires ClientAt(w, p).ToChange?
  {
    var c := ClientAt(w, p);
    if c.user !in w.tables then SetClient(w, p, Idle)
    else
      var read := ReadOf(c.user, w.tables[c.user]);
      var outcome := SealOutcome(w.keys, w.mode, c.leaveUnsealed, read, c.reading, change, draws);
      if outcome.Refused? then SetClient(w, p, Idle)
      else if outcome.Sealed? then
        var origin := if read.seal.None? then FirstSealOfUnsealed
                      else LibraryChange(IndexOf(w.log, read.seal.value.digest), change, draws);
        SetClient(w, p, Holding(read, outcome)).(log := w.log + [Entry(outcome.row.digest, origin)])
      else SetClient(w, p, Holding(read, outcome))
  }

  ghost function IndexOf(log: seq<Entry>, d: Digest): (i: nat)
    ensures Logged(log, d) ==> i < |log| && log[i].digest == d
  {
    if Logged(log, d) then var i :| 0 <= i < |log| && log[i].digest == d; i else 0
  }

  ghost function ApplyCommitChange(w: World, p: nat, stored: CanonicalComponents): World
    requires ClientAt(w, p).Holding?
  {
    var c := ClientAt(w, p);
    var u := c.read.userId;
    var done := SetClient(w, p, Idle);
    if u !in w.tables then done
    else match c.outcome
      case Refused(_) => done
      case LeftUnsealed(_) => done.(tables := w.tables[u := w.tables[u].(components := stored)])
      case Kept(row, _) =>
        done.(tables := w.tables[u := w.tables[u].(components := stored)],
              emitted := w.emitted + {Event(u, row.version, row.digest)})
      case Sealed(row, _) =>
        if Swaps(w.tables[u].seal, c.read.seal) then WithCommit(done, u, row, stored) else done
  }

  ghost function ApplyAskForSession(w: World, p: nat, answered: bool): World
    requires ClientAt(w, p).Resolving?
  {
    var c := ClientAt(w, p);
    var reading := ReadingFor(w, c.read.userId, answered);
    if !c.second && CompareWithFloors(c.read.seal, reading).VersionBelowAnchor?
    then SetClient(w, p, ToReadAgain(c.read.userId))
    else SetClient(w, p, Idle).(emitted := w.emitted + EmittedByCheck(w.keys, w.mode, c.read, reading))
  }

  ghost function ApplyLockAndReseal(w: World, p: nat, draws: ResealDraws): World
    requires ClientAt(w, p).ToReseal?
  {
    var c := ClientAt(w, p);
    if c.user !in w.tables then SetClient(w, p, Idle)
    else
      var read := ReadOf(c.user, w.tables[c.user]);
      match ResealOutcome(w.keys, read, c.floor, draws)
      case None => SetClient(w, p, Idle)
      case Some(row) => SetClient(w, p, HoldingReseal(read, row)).(log := w.log + [Entry(row.digest, AdministratorReseal)])
  }

  ghost function ApplyRecord(w: World, e: Event, a: nat): World
    requires a < |w.anchors|
  {
    if e.user in w.anchors[a] && w.anchors[a][e.user].version >= e.version then w
    else w.(anchors := w.anchors[a := w.anchors[a][e.user := Floor(e.version, e.digest)]],
            trace := w.trace + [Recorded(a, e.user, e.version)],
            records := w.records[(a, e.user) := |w.trace|])
  }

  ghost function Apply(w: World, s: Step): World
    requires Enabled(w, s)
  {
    match s
    case AskForChange(p, u, leave, answered) => SetClient(w, p, ToChange(u, ReadingFor(w, u, answered), leave))
    case LockAndSeal(p, change, draws) => ApplyLockAndSeal(w, p, change, draws)
    case CommitChange(p, stored) => ApplyCommitChange(w, p, stored)
    case Abort(p) => SetClient(w, p, Idle)
    case AskForCheck(p, u, answered) => SetClient(w, p, ToCheck(u, ReadingFor(w, u, answered)))
    case ReadForCheck(p) =>
      var c := ClientAt(w, p);
      if c.user !in w.tables then SetClient(w, p, Idle)
      else SetClient(w, p, Idle)
           .(emitted := w.emitted + EmittedByCheck(w.keys, w.mode, ReadOf(c.user, w.tables[c.user]), c.reading))
    case ReadForSession(p, u) => SetClient(w, p, Resolving(ReadOf(u, w.tables[u]), false, |w.trace|))
    case AskForSession(p, answered) => ApplyAskForSession(w, p, answered)
    case ReadAgain(p) =>
      var u := ClientAt(w, p).user;
      if u !in w.tables then SetClient(w, p, Idle)
      else SetClient(w, p, Resolving(ReadOf(u, w.tables[u]), true, |w.trace|))
    case AskForReseal(p, u, answered) =>
      if answered then SetClient(w, p, ToReseal(u, HighestFloor(FloorsFor(w, u)))) else w
    case LockAndReseal(p, draws) => ApplyLockAndReseal(w, p, draws)
    case CommitReseal(p) =>
      var c := ClientAt(w, p);
      var u := c.read.userId;
      if u in w.tables && Swaps(w.tables[u].seal, c.read.seal)
      then WithCommit(SetClient(w, p, Idle), u, c.row, w.tables[u].components)
      else SetClient(w, p, Idle)
    case CreateAccount(u, components) =>
      var row := CreatedRow(u, components, w.keys.current);
      WithCommit(w.(log := w.log + [Entry(row.digest, SignUp)]), u, row, components)
    case Record(e, a) => ApplyRecord(w, e, a)
    case Rotate(keys) => w.(keys := keys)
    case Tamper(tables) => w.(tables := tables)
  }

  /** An empty estate: accounts of an older version may be there, none of them sealed. */
  ghost predicate Init(w: World) {
    && (forall u | u in w.tables :: w.tables[u].seal.None?)
    && (forall a | 0 <= a < |w.anchors| :: w.anchors[a] == map[])
    && w.emitted == {} && w.log == [] && w.clients == map[]
    && w.trace == [] && w.commits == map[] && w.records == map[] && w.history == map[]
  }

  ghost predicate Run(worlds: seq<World>, steps: seq<Step>) {
    && |worlds| == |steps| + 1 && Init(worlds[0])
    && forall i | 0 <= i < |steps| :: Enabled(worlds[i], steps[i]) && worlds[i + 1] == Apply(worlds[i], steps[i])
  }
}
