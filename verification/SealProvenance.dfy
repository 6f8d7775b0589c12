/** What a writer who can rewrite every table cannot bring about. */
module SealProvenance {
  import opened Options
  import opened StateEncoding
  import opened Sealing
  import opened SealProtocol

  // ---- where digests come from

  /** The read a verified digest stands for. */
  function ReadBehind(d: Digest): Read
    requires d.Mac?
  {
    var s := d.state;
    Read(s.userId, Some(SealRow(s.version, d, d.keyVersion, s.sessionEpoch, s.generations)), s.components)
  }

  /** The child's state is what the change computes from the parent's state and from nothing else. */
  ghost predicate FollowsFrom(parent: Digest, child: Digest, change: Change, draws: Draws) {
    && parent.Mac? && child.Mac?
    && var read := ReadBehind(parent);
       && change(read).Plan? && IsDrawnFor(read, change(read), draws)
       && child == NextRow(read, change(read), draws, child.keyVersion).digest
  }

  /** Entry i was sealed at a sign-up or by an administrator, or follows by a library change from an
      earlier entry that did. */
  ghost predicate Legitimate(log: seq<Entry>, mode: Mode, i: nat)
    requires i < |log|
    decreases i
  {
    log[i].digest.Mac? &&
    match log[i].origin
    case SignUp => true
    case AdministratorReseal => true
    case FirstSealOfUnsealed => mode.Migrating?
    case LibraryChange(parent, change, draws) =>
      parent < i && Legitimate(log, mode, parent) && FollowsFrom(log[parent].digest, log[i].digest, change, draws)
  }

  /** A version and digest some seal of this account was committed or computed with. */
  predicate IsSealOf(log: seq<Entry>, u: UserId, version: int, d: Digest) {
    Logged(log, d) && d.Mac? && d.state.userId == u && d.state.version == version
  }

  ghost predicate ReadingIsSealed(log: seq<Entry>, u: UserId, r: Reading) {
    r.Answered? ==> forall f | f in r.floors && f.Some? :: IsSealOf(log, u, f.value.version, f.value.digest)
  }

  ghost predicate RowIsCopied(log: seq<Entry>, seal: Option<SealRow>) {
    seal.Some? && seal.value.digest.Mac? ==> Logged(log, seal.value.digest)
  }

  ghost predicate ClientIsSealed(log: seq<Entry>, c: Client) {
    match c
    case ToChange(u, reading, _) => ReadingIsSealed(log, u, reading)
    case ToCheck(u, reading) => ReadingIsSealed(log, u, reading)
    case Holding(read, outcome) =>
      (outcome.Kept? || outcome.Sealed?) ==> IsSealOf(log, read.userId, outcome.row.version, outcome.row.digest)
    case HoldingReseal(read, row) => IsSealOf(log, read.userId, row.version, row.digest)
    case Resolving(read, _, _) => RowIsCopied(log, read.seal)
    case _ => true
  }

  ghost predicate LogIsLegitimate(w: World) {
    forall i | 0 <= i < |w.log| :: Legitimate(w.log, w.mode, i)
  }

  ghost predicate RowsAreCopied(w: World) {
    forall u | u in w.tables :: RowIsCopied(w.log, w.tables[u].seal)
  }

  ghost predicate EventsAreSealed(w: World) {
    forall e | e in w.emitted :: IsSealOf(w.log, e.user, e.version, e.digest)
  }

  ghost predicate FloorsAreSealed(w: World) {
    forall a, u | 0 <= a < |w.anchors| && u in w.anchors[a] ::
      IsSealOf(w.log, u, w.anchors[a][u].version, w.anchors[a][u].digest)
  }

  ghost predicate ClientsAreSealed(w: World) {
    forall p | p in w.clients :: ClientIsSealed(w.log, w.clients[p])
  }

  ghost predicate Safe(w: World) {
    LogIsLegitimate(w) && RowsAreCopied(w) && EventsAreSealed(w) && FloorsAreSealed(w) && ClientsAreSealed(w)
  }

  // ---- the log only grows

  ghost predicate Extends(log: seq<Entry>, longer: seq<Entry>) {
    |log| <= |longer| && longer[..|log|] == log
  }

  lemma LoggedStays(log: seq<Entry>, longer: seq<Entry>, d: Digest)
    requires Extends(log, longer) && Logged(log, d)
    ensures Logged(longer, d)
  {
    var i :| 0 <= i < |log| && log[i].digest == d;
    assert longer[..|log|][i] == longer[i];
  }

  lemma {:induction false} LegitimateStays(log: seq<Entry>, longer: seq<Entry>, mode: Mode, i: nat)
    requires Extends(log, longer) && i < |log| && Legitimate(log, mode, i)
    ensures Legitimate(longer, mode, i)
    decreases i
  {
    assert longer[..|log|][i] == longer[i];
    if log[i].origin.LibraryChange? {
      LegitimateStays(log, longer, mode, log[i].origin.parent);
      assert longer[..|log|][log[i].origin.parent] == longer[log[i].origin.parent];
    }
  }

  lemma SealedStays(log: seq<Entry>, longer: seq<Entry>)
    requires Extends(log, longer)
    ensures forall d | Logged(log, d) :: Logged(longer, d)
    ensures forall c | ClientIsSealed(log, c) :: ClientIsSealed(longer, c)
  {
    forall d | Logged(log, d)
      ensures Logged(longer, d)
    {
      LoggedStays(log, longer, d);
    }
  }

  lemma LogGrows(w: World, e: Entry)
    requires LogIsLegitimate(w) && Legitimate(w.log + [e], w.mode, |w.log|)
    ensures LogIsLegitimate(w.(log := w.log + [e]))
  {
    var longer := w.log + [e];
    forall i | 0 <= i < |longer|
      ensures Legitimate(longer, w.mode, i)
    {
      if i < |w.log| {
        LegitimateStays(w.log, longer, w.mode, i);
      }
    }
  }

  /** Appending a legitimate digest keeps everything that was known. */
  lemma SafeWithEntry(w: World, e: Entry)
    requires Safe(w) && Legitimate(w.log + [e], w.mode, |w.log|)
    ensures Safe(w.(log := w.log + [e])) && Logged(w.log + [e], e.digest)
  {
    LogGrows(w, e);
    SealedStays(w.log, w.log + [e]);
    assert (w.log + [e])[|w.log|] == e;
  }

  lemma SafeWithClient(w: World, p: nat, c: Client)
    requires Safe(w) && ClientIsSealed(w.log, c)
    ensures Safe(SetClient(w, p, c))
  {
  }

  lemma SafeWithEvent(w: World, es: set<Event>)
    requires Safe(w) && forall e | e in es :: IsSealOf(w.log, e.user, e.version, e.digest)
    ensures Safe(w.(emitted := w.emitted + es))
  {
  }

  lemma SafeWithCommit(w: World, u: UserId, row: SealRow, stored: CanonicalComponents)
    requires Safe(w) && IsSealOf(w.log, u, row.version, row.digest)
    ensures Safe(WithCommit(w, u, row, stored))
  {
  }

  lemma ReadingsAreSealed(w: World, u: UserId, answered: bool)
    requires Safe(w)
    ensures ReadingIsSealed(w.log, u, ReadingFor(w, u, answered))
  {
    var floors := FloorsFor(w, u);
    forall f | f in floors && f.Some?
      ensures IsSealOf(w.log, u, f.value.version, f.value.digest)
    {
      var a :| 0 <= a < |floors| && floors[a] == f;
    }
  }

  /** A read that verifies is the state behind a logged digest. */
  lemma VerifiedIsLogged(w: World, read: Read)
    requires RowIsCopied(w.log, read.seal) && read.seal.Some?
    requires CheckSecurityState(w.keys, read, w.mode) == Valid
    ensures IsSealOf(w.log, read.userId, read.seal.value.version, read.seal.value.digest)
    ensures ReadBehind(read.seal.value.digest) == read
  {
  }

  lemma LockAndSealIsSafe(w: World, p: nat, change: Change, draws: Draws)
    requires Safe(w) && Enabled(w, LockAndSeal(p, change, draws))
    ensures Safe(ApplyLockAndSeal(w, p, change, draws))
  {
    hide Legitimate, IsSealOf;
    var c := ClientAt(w, p);
    if c.user in w.tables {
      var read := ReadOf(c.user, w.tables[c.user]);
      var outcome := SealOutcome(w.keys, w.mode, c.leaveUnsealed, read, c.reading, change, draws);
      if outcome.Sealed? {
        if read.seal.Some? {
          VerifiedIsLogged(w, read);
        }
        var origin := if read.seal.None? then FirstSealOfUnsealed
                      else LibraryChange(IndexOf(w.log, read.seal.value.digest), change, draws);
        var e := Entry(outcome.row.digest, origin);
        NewDigestIsLegitimate(w, read, change, draws, e);
        SafeWithEntry(w, e);
        SafeWithClient(w.(log := w.log + [e]), p, Holding(read, outcome));
      } else if outcome.Kept? {
        VerifiedIsLogged(w, read);
      }
    }
  }

  lemma NewDigestIsLegitimate(w: World, read: Read, change: Change, draws: Draws, e: Entry)
    requires LogIsLegitimate(w) && change(read).Plan? && IsDrawnFor(read, change(read), draws)
    requires read.seal.None? ==> w.mode.Migrating? && e.origin.FirstSealOfUnsealed?
    requires read.seal.Some? ==>
      && read.seal.value.digest.Mac? && ReadBehind(read.seal.value.digest) == read && Logged(w.log, read.seal.value.digest)
      && e.origin == LibraryChange(IndexOf(w.log, read.seal.value.digest), change, draws)
    requires e.digest == NextRow(read, change(read), draws, w.keys.current).digest
    ensures Legitimate(w.log + [e], w.mode, |w.log|)
  {
    var longer := w.log + [e];
    assert longer[|w.log|] == e;
    if read.seal.Some? {
      var parent := IndexOf(w.log, read.seal.value.digest);
      LegitimateStays(w.log, longer, w.mode, parent);
      assert FollowsFrom(longer[parent].digest, e.digest, change, draws);
    }
  }

  lemma CheckEmitsSealed(w: World, read: Read, reading: Reading)
    requires RowIsCopied(w.log, read.seal)
    ensures forall e | e in EmittedByCheck(w.keys, w.mode, read, reading) :: IsSealOf(w.log, e.user, e.version, e.digest)
  {
    if read.seal.Some? && CheckSecurityState(w.keys, read, w.mode) == Valid {
      VerifiedIsLogged(w, read);
    }
  }

  lemma CommitChangeIsSafe(w: World, p: nat, stored: CanonicalComponents)
    requires Safe(w) && Enabled(w, CommitChange(p, stored))
    ensures Safe(ApplyCommitChange(w, p, stored))
  {
    var c := ClientAt(w, p);
    SafeWithClient(w, p, Idle);
    assert ClientIsSealed(w.log, c);
    if c.outcome.Sealed? {
      SafeWithCommit(SetClient(w, p, Idle), c.read.userId, c.outcome.row, stored);
    }
  }

  lemma ResealIsSafe(w: World, p: nat, draws: ResealDraws)
    requires Safe(w) && Enabled(w, LockAndReseal(p, draws))
    ensures Safe(ApplyLockAndReseal(w, p, draws))
  {
    var c := ClientAt(w, p);
    if c.user in w.tables {
      var read := ReadOf(c.user, w.tables[c.user]);
      var outcome := ResealOutcome(w.keys, read, c.floor, draws);
      if outcome.Some? {
        var e := Entry(outcome.value.digest, AdministratorReseal);
        SafeWithEntry(w, e);
        SafeWithClient(w.(log := w.log + [e]), p, HoldingReseal(read, outcome.value));
      }
    }
  }

  lemma CreateIsSafe(w: World, u: UserId, c: CanonicalComponents)
    requires Safe(w)
    ensures var row := CreatedRow(u, c, w.keys.current);
            Safe(WithCommit(w.(log := w.log + [Entry(row.digest, SignUp)]), u, row, c))
  {
    var row := CreatedRow(u, c, w.keys.current);
    var e := Entry(row.digest, SignUp);
    SafeWithEntry(w, e);
    SafeWithCommit(w.(log := w.log + [e]), u, row, c);
  }

  lemma SessionIsSafe(w: World, p: nat, answered: bool)
    requires Safe(w) && ClientAt(w, p).Resolving?
    ensures Safe(ApplyAskForSession(w, p, answered))
  {
    var c := ClientAt(w, p);
    var reading := ReadingFor(w, c.read.userId, answered);
    assert ClientIsSealed(w.log, c);
    CheckEmitsSealed(w, c.read, reading);
    SafeWithClient(w, p, Idle);
    SafeWithEvent(SetClient(w, p, Idle), EmittedByCheck(w.keys, w.mode, c.read, reading));
  }

  lemma CheckIsSafe(w: World, p: nat)
    requires Safe(w) && ClientAt(w, p).ToCheck?
    ensures Safe(Apply(w, ReadForCheck(p)))
  {
    var c := ClientAt(w, p);
    SafeWithClient(w, p, Idle);
    if c.user in w.tables {
      var read := ReadOf(c.user, w.tables[c.user]);
      CheckEmitsSealed(w, read, c.reading);
      SafeWithEvent(SetClient(w, p, Idle), EmittedByCheck(w.keys, w.mode, read, c.reading));
    }
  }

  /** Every step, the writer's included, keeps the provenance of every digest. */
  lemma StepIsSafe(w: World, s: Step)
    requires Safe(w) && Enabled(w, s)
    ensures Safe(Apply(w, s)) && Apply(w, s).mode == w.mode
  {
    if s.LockAndSeal? || s.CommitChange? || s.LockAndReseal? || s.CommitReseal? || s.CreateAccount? {
      LockedStepIsSafe(w, s);
    } else {
      OtherStepIsSafe(w, s);
    }
  }

  lemma LockedStepIsSafe(w: World, s: Step)
    requires Safe(w) && Enabled(w, s)
    requires s.LockAndSeal? || s.CommitChange? || s.LockAndReseal? || s.CommitReseal? || s.CreateAccount?
    ensures Safe(Apply(w, s)) && Apply(w, s).mode == w.mode
  {
    match s
    case LockAndSeal(p, change, draws) => LockAndSealIsSafe(w, p, change, draws);
    case CommitChange(p, stored) => CommitChangeIsSafe(w, p, stored);
    case LockAndReseal(p, draws) => ResealIsSafe(w, p, draws);
    case CommitReseal(p) => CommitResealIsSafe(w, p);
    case CreateAccount(u, components) => CreateIsSafe(w, u, components);
  }

  lemma OtherStepIsSafe(w: World, s: Step)
    requires Safe(w) && Enabled(w, s)
    requires !(s.LockAndSeal? || s.CommitChange? || s.LockAndReseal? || s.CommitReseal? || s.CreateAccount?)
    ensures Safe(Apply(w, s)) && Apply(w, s).mode == w.mode
  {
    match s
    case AskForChange(p, u, leave, answered) => AskIsSafe(w, s, p, u, answered);
    case Abort(p) => SafeWithClient(w, p, Idle);
    case AskForCheck(p, u, answered) => AskIsSafe(w, s, p, u, answered);
    case ReadForCheck(p) => CheckIsSafe(w, p);
    case ReadForSession(p, u) => SafeWithClient(w, p, Resolving(ReadOf(u, w.tables[u]), false, |w.trace|));
    case AskForSession(p, answered) => SessionIsSafe(w, p, answered);
    case ReadAgain(p) => ReadAgainIsSafe(w, p);
    case AskForReseal(p, u, answered) => SafeWithClient(w, p, ToReseal(u, HighestFloor(FloorsFor(w, u))));
    case Record(e, a) => RecordIsSafe(w, e, a);
    case Rotate(_) =>
    case Tamper(_) =>
  }

  lemma AskIsSafe(w: World, s: Step, p: nat, u: UserId, answered: bool)
    requires Safe(w) && Enabled(w, s)
    requires (s.AskForChange? && s == AskForChange(p, u, s.leaveUnsealed, answered)) || s == AskForCheck(p, u, answered)
    ensures Safe(Apply(w, s))
  {
    ReadingsAreSealed(w, u, answered);
    if s.AskForChange? {
      SafeWithClient(w, p, ToChange(u, ReadingFor(w, u, answered), s.leaveUnsealed));
    } else {
      SafeWithClient(w, p, ToCheck(u, ReadingFor(w, u, answered)));
    }
  }

  lemma ReadAgainIsSafe(w: World, p: nat)
    requires Safe(w) && ClientAt(w, p).ToReadAgain?
    ensures Safe(Apply(w, ReadAgain(p)))
  {
    var u := ClientAt(w, p).user;
    if u in w.tables {
      SafeWithClient(w, p, Resolving(ReadOf(u, w.tables[u]), true, |w.trace|));
    } else {
      SafeWithClient(w, p, Idle);
    }
  }

  lemma CommitResealIsSafe(w: World, p: nat)
    requires Safe(w) && ClientAt(w, p).HoldingReseal?
    ensures Safe(Apply(w, CommitReseal(p)))
  {
    var c := ClientAt(w, p);
    SafeWithClient(w, p, Idle);
    assert ClientIsSealed(w.log, c);
    if c.read.userId in w.tables {
      SafeWithCommit(SetClient(w, p, Idle), c.read.userId, c.row, w.tables[c.read.userId].components);
    }
  }

  lemma RecordIsSafe(w: World, e: Event, a: nat)
    requires Safe(w) && e in w.emitted && a < |w.anchors|
    ensures Safe(ApplyRecord(w, e, a))
  {
  }

  lemma {:induction false} RunIsSafe(worlds: seq<World>, steps: seq<Step>, n: nat)
    requires Run(worlds, steps) && n < |worlds|
    ensures Safe(worlds[n]) && worlds[n].mode == worlds[0].mode
  {
    if n > 0 {
      RunIsSafe(worlds, steps, n - 1);
      StepIsSafe(worlds[n - 1], steps[n - 1]);
    }
  }

  // ---- the main results

  /** Link k of a chain: a library change computed it from the link before. */
  ghost predicate Linked(log: seq<Entry>, chain: seq<nat>, k: nat)
    requires 0 < k < |chain| && chain[k - 1] < |log| && chain[k] < |log|
  {
    var o := log[chain[k]].origin;
    o.LibraryChange? && FollowsFrom(log[chain[k - 1]].digest, log[chain[k]].digest, o.change, o.draws)
  }

  lemma LinksStay(log: seq<Entry>, chain: seq<nat>, i: nat)
    requires |chain| > 0 && i < |log| && forall k | 0 <= k < |chain| :: chain[k] < |log|
    requires forall k | 0 < k < |chain| :: Linked(log, chain, k)
    ensures forall k | 0 < k < |chain| :: Linked(log, chain + [i], k)
  {
    forall k | 0 < k < |chain|
      ensures Linked(log, chain + [i], k)
    {
      assert Linked(log, chain, k);
      assert (chain + [i])[k] == chain[k] && (chain + [i])[k - 1] == chain[k - 1];
    }
  }

  /** The chain of digests an entry descends from, its root first. */
  ghost function Ancestry(log: seq<Entry>, mode: Mode, i: nat): (chain: seq<nat>)
    requires i < |log| && Legitimate(log, mode, i)
    ensures |chain| > 0 && chain[|chain| - 1] == i
    ensures forall k | 0 <= k < |chain| :: chain[k] < |log|
    ensures !log[chain[0]].origin.LibraryChange?
    ensures forall k | 0 < k < |chain| :: Linked(log, chain, k)
    decreases i
  {
    if log[i].origin.LibraryChange? then
      var older := Ancestry(log, mode, log[i].origin.parent);
      var chain := older + [i];
      LinksStay(log, older, i);
      chain
    else [i]
  }

  /** Over every run in mode "required", whatever was written into the tables between the steps:
      each digest the library computed descends, by library changes alone, from a sign-up or an
      administrator's reseal. */
  lemma EveryDigestDescendsFromARoot(worlds: seq<World>, steps: seq<Step>, n: nat, i: nat)
      returns (chain: seq<nat>)
    requires Run(worlds, steps) && n < |worlds| && worlds[0].mode.Required? && i < |worlds[n].log|
    ensures |chain| > 0 && chain[|chain| - 1] == i && forall k | 0 <= k < |chain| :: chain[k] < |worlds[n].log|
    ensures worlds[n].log[chain[0]].origin in {SignUp, AdministratorReseal}
    ensures forall k | 0 < k < |chain| :: Linked(worlds[n].log, chain, k)
  {
    RunIsSafe(worlds, steps, n);
    chain := Ancestry(worlds[n].log, worlds[n].mode, i);
    assert Legitimate(worlds[n].log, worlds[n].mode, chain[0]);
  }

  /** What an accepted read is: a state the library sealed, at or above every floor, and at a
      floor's own version the very state that floor recorded. */
  ghost predicate AcceptedReadIsSealed(log: seq<Entry>, read: Read, reading: Reading) {
    && read.seal.Some?
    && Logged(log, Mac(read.seal.value.keyVersion, StateOf(read.userId, read.seal.value, read.components)))
    && reading.Answered?
    && forall f | f in reading.floors && f.Some? ::
         && f.value.version <= read.seal.value.version
         && (f.value.version == read.seal.value.version ==>
               && f.value.digest.Mac?
               && f.value.digest.state == StateOf(read.userId, read.seal.value, read.components))
  }

  /** The read and the floors a step decides on, where it decides on any. */
  ghost function Decides(w: World, s: Step): Option<(Read, Reading)>
    requires Enabled(w, s)
  {
    match s
    case ReadForCheck(p) =>
      var c := ClientAt(w, p);
      if c.user in w.tables then Some((ReadOf(c.user, w.tables[c.user]), c.reading)) else None
    case LockAndSeal(p, _, _) =>
      var c := ClientAt(w, p);
      if c.user in w.tables then Some((ReadOf(c.user, w.tables[c.user]), c.reading)) else None
    case AskForSession(p, answered) =>
      var c := ClientAt(w, p);
      Some((c.read, ReadingFor(w, c.read.userId, answered)))
    case _ => None
  }

  /** The step goes on: a check or a resolution answers usable, a change takes the lock and writes. */
  ghost predicate GoesOn(w: World, s: Step)
    requires Enabled(w, s) && Decides(w, s).Some?
  {
    if s.LockAndSeal? then ClientAt(Apply(w, s), s.client).Holding?
    else Usable(w.keys, w.mode, Decides(w, s).value.0, Decides(w, s).value.1)
  }

  ghost predicate AcceptsOnlySealed(w: World, s: Step)
    requires Enabled(w, s)
  {
    Decides(w, s).Some? && GoesOn(w, s) ==>
      AcceptedReadIsSealed(w.log, Decides(w, s).value.0, Decides(w, s).value.1)
  }

  lemma UsableIsSealed(w: World, read: Read, reading: Reading)
    requires Safe(w) && w.mode.Required? && RowIsCopied(w.log, read.seal)
    requires Usable(w.keys, w.mode, read, reading)
    ensures AcceptedReadIsSealed(w.log, read, reading)
  {
    VerifiedIsLogged(w, read);
    CompareMeaning(read.seal, reading);
  }

  /** Over every run in mode "required": a check that answers usable, a session resolution that
      does, and the read a change is computed from are all such reads. */
  lemma EveryAcceptedReadIsSealed(worlds: seq<World>, steps: seq<Step>, n: nat)
    requires Run(worlds, steps) && n < |steps| && worlds[0].mode.Required?
    ensures AcceptsOnlySealed(worlds[n], steps[n])
  {
    RunIsSafe(worlds, steps, n);
    var w := worlds[n];
    assert Enabled(w, steps[n]);
    if Decides(w, steps[n]).Some? && GoesOn(w, steps[n]) {
      var (read, reading) := Decides(w, steps[n]).value;
      if steps[n].AskForSession? {
        assert ClientIsSealed(w.log, ClientAt(w, steps[n].client));
      }
      assert RowIsCopied(w.log, read.seal);
      UsableIsSealed(w, read, reading);
    }
  }
}
