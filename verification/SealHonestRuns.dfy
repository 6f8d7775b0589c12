/** Runs in which every write goes through the library: no false alarm, every row verifies, and what
    an equal components version says about two moments of an account. */
module SealHonestRuns {
  import opened Options
  import opened StateEncoding
  import opened Sealing
  import opened SealProtocol

  ghost predicate HonestRun(worlds: seq<World>, steps: seq<Step>) {
    Run(worlds, steps) && forall i | 0 <= i < |steps| :: !steps[i].Tamper?
  }

  // ---- the invariant

  function SealAt(tables: map<UserId, Account>, u: UserId): Option<SealRow> {
    if u in tables then tables[u].seal else None
  }

  /** A seal of this version and digest is the stored one or an older one. */
  predicate Behind(version: int, d: Digest, seal: Option<SealRow>) {
    && seal.Some? && version <= seal.value.version
    && (version == seal.value.version ==> d == seal.value.digest)
  }

  predicate Verifies(u: UserId, row: SealRow, c: CanonicalComponents) {
    row.digest == Mac(row.keyVersion, StateOf(u, row, c))
  }

  ghost predicate RowsVerify(tables: map<UserId, Account>) {
    forall u | u in tables && tables[u].seal.Some? :: Verifies(u, tables[u].seal.value, tables[u].components)
  }

  ghost predicate EventsBehind(tables: map<UserId, Account>, emitted: set<Event>) {
    forall e | e in emitted :: Behind(e.version, e.digest, SealAt(tables, e.user))
  }

  ghost predicate FloorsBehind(tables: map<UserId, Account>, anchors: seq<map<UserId, Floor>>) {
    forall a, u | 0 <= a < |anchors| && u in anchors[a] ::
      Behind(anchors[a][u].version, anchors[a][u].digest, SealAt(tables, u))
  }

  ghost predicate ReadingBehind(tables: map<UserId, Account>, u: UserId, r: Reading) {
    r.Answered? ==> forall f | f in r.floors && f.Some? :: Behind(f.value.version, f.value.digest, SealAt(tables, u))
  }

  /** What the lock holder found is still what is stored. */
  predicate StillRead(tables: map<UserId, Account>, read: Read) {
    read.userId in tables && tables[read.userId] == Account(read.seal, read.components)
  }

  /** A row that may follow the one that was read: it verifies, its version is above, and it keeps
      the components version only where epoch and sign-in stay. */
  ghost predicate MayFollow(read: Read, row: SealRow, after: CanonicalComponents) {
    && Verifies(read.userId, row, after)
    && 1 <= row.generations.componentsVersion <= row.version
    && (read.seal.Some? ==>
          && row.version > read.seal.value.version
          && Follows(StateOf(read.userId, read.seal.value, read.components), StateOf(read.userId, row, after)))
  }

  ghost predicate OutcomeFits(read: Read, outcome: Outcome) {
    match outcome
    case Refused(_) => false
    case LeftUnsealed(_) => read.seal.None?
    case Kept(row, after) => read.seal == Some(row) && after == read.components
    case Sealed(row, after) => MayFollow(read, row, after) && row.version == VersionOf(read.seal) + 1
  }

  ghost predicate ClientBehind(tables: map<UserId, Account>, c: Client) {
    match c
    case ToChange(u, reading, _) => ReadingBehind(tables, u, reading)
    case ToCheck(u, reading) => ReadingBehind(tables, u, reading)
    case Holding(read, outcome) => StillRead(tables, read) && OutcomeFits(read, outcome)
    case HoldingReseal(read, row) => StillRead(tables, read) && MayFollow(read, row, read.components)
    case Resolving(read, _, _) =>
      read.seal.Some? ==> Behind(read.seal.value.version, read.seal.value.digest, SealAt(tables, read.userId))
    case _ => true
  }

  ghost predicate ClientsBehind(tables: map<UserId, Account>, clients: map<nat, Client>) {
    forall p | p in clients :: ClientBehind(tables, clients[p])
  }

  ghost predicate Exclusive(clients: map<nat, Client>) {
    forall p, q, u | p in clients && q in clients && HoldsLockOf(clients[p], u) && HoldsLockOf(clients[q], u) :: p == q
  }

  // ---- when things happened

  /** The one commit of this version of the account had this digest. */
  ghost predicate CommittedAs(w: World, u: UserId, v: int, d: Digest) {
    (u, v) in w.commits && w.commits[(u, v)] < |w.trace| && w.trace[w.commits[(u, v)]] == Committed(u, v, d)
  }

  ghost predicate CommitsAreTraced(w: World) {
    && (forall u, v | (u, v) in w.commits :: SealAt(w.tables, u).Some? && v <= SealAt(w.tables, u).value.version)
    && (forall u | u in w.tables && w.tables[u].seal.Some? ::
          CommittedAs(w, u, w.tables[u].seal.value.version, w.tables[u].seal.value.digest))
    && (forall e | e in w.emitted :: CommittedAs(w, e.user, e.version, e.digest))
  }

  ghost predicate FloorIsTraced(w: World, a: nat, u: UserId, f: Floor) {
    && (a, u) in w.records && CommittedAs(w, u, f.version, f.digest)
    && w.commits[(u, f.version)] < w.records[(a, u)] < |w.trace|
    && w.trace[w.records[(a, u)]] == Recorded(a, u, f.version)
  }

  ghost predicate RecordsAreTraced(w: World) {
    forall a, u | 0 <= a < |w.anchors| && u in w.anchors[a] :: FloorIsTraced(w, a, u, w.anchors[a][u])
  }

  /** Every seal above the one a resolution read was committed after that read. */
  ghost predicate ReadIsTimed(w: World, read: Read, at: nat) {
    && at <= |w.trace|
    && (read.seal.Some? ==> CommittedAs(w, read.userId, read.seal.value.version, read.seal.value.digest))
    && forall v | (read.userId, v) in w.commits && (read.seal.None? || v > read.seal.value.version) ::
         w.commits[(read.userId, v)] >= at
  }

  ghost predicate ReadsAreTimed(w: World) {
    forall p | p in w.clients && w.clients[p].Resolving? :: ReadIsTimed(w, w.clients[p].read, w.clients[p].at)
  }

  // ---- the seals of one account in the order they were committed

  /** One committed state after another. */
  predicate Follows(s: CanonicalState, t: CanonicalState) {
    && s.version < t.version && 1 <= t.generations.componentsVersion <= t.version
    && (t.generations.componentsVersion > s.version
        || (t.generations.componentsVersion == s.generations.componentsVersion
            && t.sessionEpoch == s.sessionEpoch && SignsInAsBefore(s.components, t.components)))
  }

  ghost predicate IsHistory(h: seq<CanonicalState>) {
    && (forall i | 0 <= i < |h| :: 1 <= h[i].generations.componentsVersion <= h[i].version)
    && (forall i, j | 0 <= i < j < |h| :: Follows(h[i], h[j]))
  }

  ghost predicate Histories(w: World) {
    && (forall u | u in w.history :: SealAt(w.tables, u).Some? && IsHistory(w.history[u]))
    && (forall u | u in w.tables && w.tables[u].seal.Some? ::
          && u in w.history && |w.history[u]| > 0
          && w.history[u][|w.history[u]| - 1] == StateOf(u, w.tables[u].seal.value, w.tables[u].components))
  }

  ghost predicate Good(w: World) {
    && RowsVerify(w.tables) && EventsBehind(w.tables, w.emitted) && FloorsBehind(w.tables, w.anchors)
    && ClientsBehind(w.tables, w.clients) && Exclusive(w.clients)
    && CommitsAreTraced(w) && RecordsAreTraced(w) && ReadsAreTimed(w) && Histories(w)
  }

  // ---- small steps

  lemma FollowsIsTransitive(r: CanonicalState, s: CanonicalState, t: CanonicalState)
    requires Follows(r, s) && Follows(s, t)
    ensures Follows(r, t)
  {
  }

  lemma HistoryGrows(h: seq<CanonicalState>, t: CanonicalState)
    requires IsHistory(h) && 1 <= t.generations.componentsVersion <= t.version
    requires |h| > 0 ==> Follows(h[|h| - 1], t)
    ensures IsHistory(h + [t])
  {
    forall i | 0 <= i < |h|
      ensures Follows(h[i], t)
    {
      if i < |h| - 1 {
        FollowsIsTransitive(h[i], h[|h| - 1], t);
      }
    }
  }

  lemma GoodWithIdle(w: World, p: nat)
    requires Good(w)
    ensures Good(SetClient(w, p, Idle))
    ensures ClientAt(w, p).Holding? || ClientAt(w, p).HoldingReseal? ==>
      !Locked(SetClient(w, p, Idle), ClientAt(w, p).read.userId)
  {
  }

  lemma GoodWithClient(w: World, p: nat, c: Client)
    requires Good(w) && ClientBehind(w.tables, c)
    requires c.Resolving? ==> ReadIsTimed(w, c.read, c.at)
    requires c.Holding? || c.HoldingReseal? ==> !Locked(w, c.read.userId)
    ensures Good(SetClient(w, p, c))
  {
    hide RowsVerify, EventsBehind, FloorsBehind, IsHistory, ClientBehind;
  }

  lemma GoodWithEvents(w: World, es: set<Event>)
    requires Good(w)
    requires forall e | e in es :: Behind(e.version, e.digest, SealAt(w.tables, e.user)) && CommittedAs(w, e.user, e.version, e.digest)
    ensures Good(w.(emitted := w.emitted + es))
  {
    hide Verifies, FloorsBehind, Exclusive, IsHistory, Follows;
  }

  // ---- a commit

  ghost predicate NewRow(w: World, u: UserId, row: SealRow, stored: CanonicalComponents) {
    && Verifies(u, row, stored) && 1 <= row.generations.componentsVersion <= row.version
    && (SealAt(w.tables, u).Some? ==>
          && row.version > w.tables[u].seal.value.version
          && Follows(StateOf(u, w.tables[u].seal.value, w.tables[u].components), StateOf(u, row, stored)))
  }

  lemma CommitLeavesOthersBehind(w: World, u: UserId, row: SealRow, stored: CanonicalComponents)
    requires Good(w) && NewRow(w, u, row, stored) && !Locked(w, u)
    ensures var v := WithCommit(w, u, row, stored);
            RowsVerify(v.tables) && EventsBehind(v.tables, v.emitted) && FloorsBehind(v.tables, v.anchors)
            && ClientsBehind(v.tables, v.clients) && Exclusive(v.clients)
  {
    hide NewRow, RowsVerify, ClientsBehind, EventsBehind, FloorsBehind;
    CommitLeavesFloorsBehind(w, u, row, stored);
    CommitLeavesClientsBehind(w, u, row, stored);
  }

  lemma CommitLeavesFloorsBehind(w: World, u: UserId, row: SealRow, stored: CanonicalComponents)
    requires RowsVerify(w.tables) && EventsBehind(w.tables, w.emitted) && FloorsBehind(w.tables, w.anchors)
    requires NewRow(w, u, row, stored)
    ensures var v := WithCommit(w, u, row, stored);
            RowsVerify(v.tables) && EventsBehind(v.tables, v.emitted) && FloorsBehind(v.tables, v.anchors)
  {
    var v := WithCommit(w, u, row, stored);
    forall version, d, x | Behind(version, d, SealAt(w.tables, x))
      ensures Behind(version, d, SealAt(v.tables, x))
    {
    }
  }

  lemma CommitLeavesClientsBehind(w: World, u: UserId, row: SealRow, stored: CanonicalComponents)
    requires ClientsBehind(w.tables, w.clients) && NewRow(w, u, row, stored) && !Locked(w, u)
    ensures var v := WithCommit(w, u, row, stored); ClientsBehind(v.tables, v.clients)
  {
    var v := WithCommit(w, u, row, stored);
    forall version, d, x | Behind(version, d, SealAt(w.tables, x))
      ensures Behind(version, d, SealAt(v.tables, x))
    {
    }
    forall p | p in v.clients
      ensures ClientBehind(v.tables, v.clients[p])
    {
      assert ClientBehind(w.tables, w.clients[p]);
      assert !HoldsLockOf(w.clients[p], u);
    }
  }

  lemma CommitIsTraced(w: World, u: UserId, row: SealRow, stored: CanonicalComponents)
    requires CommitsAreTraced(w) && NewRow(w, u, row, stored)
    ensures (u, row.version) !in w.commits && CommitsAreTraced(WithCommit(w, u, row, stored))
    ensures forall x, v, d | CommittedAs(w, x, v, d) :: CommittedAs(WithCommit(w, u, row, stored), x, v, d)
  {
  }

  lemma CommitKeepsRecords(w: World, u: UserId, row: SealRow, stored: CanonicalComponents)
    requires RecordsAreTraced(w) && (u, row.version) !in w.commits
    requires forall x, v, d | CommittedAs(w, x, v, d) :: CommittedAs(WithCommit(w, u, row, stored), x, v, d)
    ensures RecordsAreTraced(WithCommit(w, u, row, stored))
  {
    var v := WithCommit(w, u, row, stored);
    forall a, x | 0 <= a < |v.anchors| && x in v.anchors[a]
      ensures FloorIsTraced(v, a, x, v.anchors[a][x])
    {
      assert FloorIsTraced(w, a, x, w.anchors[a][x]);
    }
  }

  lemma CommitKeepsReads(w: World, u: UserId, row: SealRow, stored: CanonicalComponents)
    requires ReadsAreTimed(w) && (u, row.version) !in w.commits
    requires forall x, v, d | CommittedAs(w, x, v, d) :: CommittedAs(WithCommit(w, u, row, stored), x, v, d)
    ensures ReadsAreTimed(WithCommit(w, u, row, stored))
  {
    var v := WithCommit(w, u, row, stored);
    forall p | p in v.clients && v.clients[p].Resolving?
      ensures ReadIsTimed(v, v.clients[p].read, v.clients[p].at)
    {
      assert ReadIsTimed(w, w.clients[p].read, w.clients[p].at);
    }
  }

  lemma CommitExtendsHistory(w: World, u: UserId, row: SealRow, stored: CanonicalComponents)
    requires Histories(w) && NewRow(w, u, row, stored)
    ensures Histories(WithCommit(w, u, row, stored))
  {
    hide Follows, Verifies, SignsInAsBefore, IsHistory;
    var before := if u in w.history then w.history[u] else [];
    assert u in w.history ==> SealAt(w.tables, u).Some?;
    HistoryGrows(before, StateOf(u, row, stored));
    var after := before + [StateOf(u, row, stored)];
    assert after[|after| - 1] == StateOf(u, row, stored);
  }

  lemma CommitIsGood(w: World, u: UserId, row: SealRow, stored: CanonicalComponents)
    requires Good(w) && NewRow(w, u, row, stored) && !Locked(w, u)
    ensures Good(WithCommit(w, u, row, stored))
  {
    CommitLeavesOthersBehind(w, u, row, stored);
    CommitIsTraced(w, u, row, stored);
    CommitKeepsRecords(w, u, row, stored);
    CommitKeepsReads(w, u, row, stored);
    CommitExtendsHistory(w, u, row, stored);
  }

  // ---- each step

  /** A newly computed row may follow the one that was read. */
  lemma NextRowMayFollow(w: World, read: Read, plan: Plan, draws: Draws, keyVersion: int)
    requires Histories(w) && StillRead(w.tables, read) && plan.Plan?
    ensures MayFollow(read, NextRow(read, plan, draws, keyVersion), plan.after)
  {
    if read.seal.Some? {
      var h := w.history[read.userId];
      assert h[|h| - 1] == StateOf(read.userId, read.seal.value, read.components);
    }
  }

  lemma ResealedRowMayFollow(w: World, read: Read, floor: nat, d: ResealDraws, keyVersion: int)
    requires Histories(w) && StillRead(w.tables, read)
    ensures MayFollow(read, ResealedRow(read, floor, d, keyVersion), read.components)
  {
    if read.seal.Some? {
      var h := w.history[read.userId];
      assert h[|h| - 1] == StateOf(read.userId, read.seal.value, read.components);
    }
  }

  lemma OutcomeFitsTheRead(
      w: World, read: Read, leave: bool, reading: Reading, change: Change, draws: Draws, outcome: Outcome)
    requires Histories(w) && StillRead(w.tables, read) && !outcome.Refused?
    requires outcome == SealOutcome(w.keys, w.mode, leave, read, reading, change, draws)
    ensures OutcomeFits(read, outcome)
  {
    if change(read).Plan? {
      NextRowMayFollow(w, read, change(read), draws, w.keys.current);
    }
  }

  lemma LockAndSealIsGood(w: World, p: nat, change: Change, draws: Draws)
    requires Good(w) && Enabled(w, LockAndSeal(p, change, draws))
    ensures Good(ApplyLockAndSeal(w, p, change, draws))
  {
    var c := ClientAt(w, p);
    if c.user in w.tables {
      var read := ReadOf(c.user, w.tables[c.user]);
      var outcome := SealOutcome(w.keys, w.mode, c.leaveUnsealed, read, c.reading, change, draws);
      if outcome.Refused? {
        GoodWithIdle(w, p);
      } else {
        OutcomeFitsTheRead(w, read, c.leaveUnsealed, c.reading, change, draws, outcome);
        GoodWithClient(w, p, Holding(read, outcome));
        GoodWithLog(SetClient(w, p, Holding(read, outcome)), ApplyLockAndSeal(w, p, change, draws).log);
      }
    } else {
      GoodWithIdle(w, p);
    }
  }

  lemma GoodWithLog(w: World, log: seq<Entry>)
    requires Good(w)
    ensures Good(w.(log := log))
  {
  }

  lemma LockAndResealIsGood(w: World, p: nat, draws: ResealDraws)
    requires Good(w) && Enabled(w, LockAndReseal(p, draws))
    ensures Good(ApplyLockAndReseal(w, p, draws))
  {
    var c := ClientAt(w, p);
    GoodWithIdle(w, p);
    if c.user in w.tables {
      var read := ReadOf(c.user, w.tables[c.user]);
      var outcome := ResealOutcome(w.keys, read, c.floor, draws);
      if outcome.Some? {
        ResealedRowMayFollow(w, read, c.floor, draws, w.keys.current);
        GoodWithClient(w, p, HoldingReseal(read, outcome.value));
        GoodWithLog(SetClient(w, p, HoldingReseal(read, outcome.value)), ApplyLockAndReseal(w, p, draws).log);
      }
    }
  }

  /** The lock held, nothing stands between the read and the write: the row is always swapped and
      the tables hold exactly what the seal covers. */
  lemma CommitChangeIsGood(w: World, p: nat, stored: CanonicalComponents)
    requires Good(w) && Enabled(w, CommitChange(p, stored))
    ensures Good(ApplyCommitChange(w, p, stored))
    ensures var c := ClientAt(w, p);
            && c.read.userId in w.tables && Swaps(w.tables[c.read.userId].seal, c.read.seal)
            && stored == c.outcome.after
  {
    var c := ClientAt(w, p);
    var u := c.read.userId;
    assert ClientBehind(w.tables, c);
    GoodWithIdle(w, p);
    var idle := SetClient(w, p, Idle);
    match c.outcome
    case LeftUnsealed(_) => UnsealedChangeIsGood(idle, u, stored);
    case Kept(row, after) =>
      assert w.tables[u := w.tables[u].(components := stored)] == w.tables;
      GoodWithEvents(idle, {Event(u, row.version, row.digest)});
    case Sealed(row, after) => CommitIsGood(idle, u, row, stored);
  }

  lemma UnsealedChangeKeepsClients(w: World, u: UserId, tables: map<UserId, Account>)
    requires ClientsBehind(w.tables, w.clients) && !Locked(w, u)
    requires forall x :: SealAt(tables, x) == SealAt(w.tables, x)
    requires forall x | x in w.tables && x != u :: x in tables && tables[x] == w.tables[x]
    ensures ClientsBehind(tables, w.clients)
  {
    hide Behind, MayFollow, SealAt;
    forall p | p in w.clients
      ensures ClientBehind(tables, w.clients[p])
    {
      assert ClientBehind(w.tables, w.clients[p]);
      assert !HoldsLockOf(w.clients[p], u);
    }
  }

  lemma UnsealedChangeKeepsRows(w: World, u: UserId, tables: map<UserId, Account>)
    requires RowsVerify(w.tables) && EventsBehind(w.tables, w.emitted) && FloorsBehind(w.tables, w.anchors)
    requires forall x :: SealAt(tables, x) == SealAt(w.tables, x)
    requires forall x | x in tables && x != u :: x in w.tables && tables[x] == w.tables[x]
    requires SealAt(tables, u).None?
    ensures RowsVerify(tables) && EventsBehind(tables, w.emitted) && FloorsBehind(tables, w.anchors)
  {
    hide Behind, Verifies;
  }

  lemma UnsealedChangeKeepsTimes(w: World, u: UserId, stored: CanonicalComponents)
    requires CommitsAreTraced(w) && RecordsAreTraced(w) && ReadsAreTimed(w) && Histories(w)
    requires u in w.tables && w.tables[u].seal.None?
    ensures var v := w.(tables := w.tables[u := w.tables[u].(components := stored)]);
            CommitsAreTraced(v) && RecordsAreTraced(v) && ReadsAreTimed(v) && Histories(v)
  {
    hide CommitsAreTraced, RecordsAreTraced, ReadsAreTimed, Histories;
    UnsealedChangeKeepsCommits(w, u, stored);
    UnsealedChangeKeepsHistories(w, u, stored);
  }

  lemma UnsealedChangeKeepsCommits(w: World, u: UserId, stored: CanonicalComponents)
    requires CommitsAreTraced(w) && RecordsAreTraced(w) && u in w.tables && w.tables[u].seal.None?
    ensures var v := w.(tables := w.tables[u := w.tables[u].(components := stored)]);
            CommitsAreTraced(v) && RecordsAreTraced(v)
  {
    var v := w.(tables := w.tables[u := w.tables[u].(components := stored)]);
    assert forall x :: SealAt(v.tables, x) == SealAt(w.tables, x);
  }

  lemma UnsealedChangeKeepsHistories(w: World, u: UserId, stored: CanonicalComponents)
    requires ReadsAreTimed(w) && Histories(w) && u in w.tables && w.tables[u].seal.None?
    ensures var v := w.(tables := w.tables[u := w.tables[u].(components := stored)]);
            ReadsAreTimed(v) && Histories(v)
  {
    hide IsHistory;
    var v := w.(tables := w.tables[u := w.tables[u].(components := stored)]);
    assert forall x :: SealAt(v.tables, x) == SealAt(w.tables, x);
  }

  lemma UnsealedChangeIsGood(w: World, u: UserId, stored: CanonicalComponents)
    requires Good(w) && u in w.tables && w.tables[u].seal.None? && !Locked(w, u)
    ensures Good(w.(tables := w.tables[u := w.tables[u].(components := stored)]))
  {
    hide ClientsBehind, Exclusive, RowsVerify, EventsBehind, FloorsBehind, CommitsAreTraced, RecordsAreTraced, ReadsAreTimed, Histories;
    var v := w.(tables := w.tables[u := w.tables[u].(components := stored)]);
    assert forall x :: SealAt(v.tables, x) == SealAt(w.tables, x);
    UnsealedChangeKeepsClients(w, u, v.tables);
    UnsealedChangeKeepsRows(w, u, v.tables);
    UnsealedChangeKeepsTimes(w, u, stored);
  }

  lemma CommitResealIsGood(w: World, p: nat)
    requires Good(w) && Enabled(w, CommitReseal(p))
    ensures Good(Apply(w, CommitReseal(p)))
  {
    var c := ClientAt(w, p);
    assert ClientBehind(w.tables, c);
    GoodWithIdle(w, p);
    CommitIsGood(SetClient(w, p, Idle), c.read.userId, c.row, w.tables[c.read.userId].components);
  }

  lemma CreateIsGood(w: World, u: UserId, components: CanonicalComponents)
    requires Good(w) && Enabled(w, CreateAccount(u, components))
    ensures Good(Apply(w, CreateAccount(u, components)))
  {
    var row := CreatedRow(u, components, w.keys.current);
    var v := w.(log := w.log + [Entry(row.digest, SignUp)]);
    assert Good(v);
    forall p | p in w.clients
      ensures !HoldsLockOf(w.clients[p], u)
    {
      assert ClientBehind(w.tables, w.clients[p]);
    }
    CommitIsGood(v, u, row, components);
  }

  lemma RecordKeepsCommits(w: World, e: Event, a: nat)
    requires CommitsAreTraced(w) && a < |w.anchors|
    ensures CommitsAreTraced(ApplyRecord(w, e, a))
    ensures forall x, v, d | CommittedAs(w, x, v, d) :: CommittedAs(ApplyRecord(w, e, a), x, v, d)
  {
  }

  lemma RecordKeepsRecords(w: World, e: Event, a: nat)
    requires CommitsAreTraced(w) && RecordsAreTraced(w) && e in w.emitted && a < |w.anchors|
    requires forall x, v, d | CommittedAs(w, x, v, d) :: CommittedAs(ApplyRecord(w, e, a), x, v, d)
    ensures RecordsAreTraced(ApplyRecord(w, e, a))
  {
    hide CommittedAs, CommitsAreTraced, FloorIsTraced;
    var v := ApplyRecord(w, e, a);
    forall b, u | 0 <= b < |v.anchors| && u in v.anchors[b]
      ensures FloorIsTraced(v, b, u, v.anchors[b][u])
    {
      if v == w || b != a || u != e.user {
        OldFloorStaysTraced(w, e, a, b, u);
      } else {
        NewFloorIsTraced(w, e, a);
      }
    }
  }

  lemma OldFloorStaysTraced(w: World, e: Event, a: nat, b: nat, u: UserId)
    requires RecordsAreTraced(w) && a < |w.anchors| && b < |w.anchors| && u in w.anchors[b]
    requires ApplyRecord(w, e, a) == w || b != a || u != e.user
    requires forall x, v, d | CommittedAs(w, x, v, d) :: CommittedAs(ApplyRecord(w, e, a), x, v, d)
    ensures FloorIsTraced(ApplyRecord(w, e, a), b, u, w.anchors[b][u])
    ensures ApplyRecord(w, e, a).anchors[b][u] == w.anchors[b][u]
  {
    hide CommittedAs;
    assert FloorIsTraced(w, b, u, w.anchors[b][u]);
  }

  lemma NewFloorIsTraced(w: World, e: Event, a: nat)
    requires CommitsAreTraced(w) && e in w.emitted && a < |w.anchors| && ApplyRecord(w, e, a) != w
    requires forall x, v, d | CommittedAs(w, x, v, d) :: CommittedAs(ApplyRecord(w, e, a), x, v, d)
    ensures FloorIsTraced(ApplyRecord(w, e, a), a, e.user, Floor(e.version, e.digest))
  {
    assert CommittedAs(w, e.user, e.version, e.digest);
  }

  lemma RecordKeepsReads(w: World, e: Event, a: nat)
    requires ReadsAreTimed(w) && a < |w.anchors|
    requires forall x, v, d | CommittedAs(w, x, v, d) :: CommittedAs(ApplyRecord(w, e, a), x, v, d)
    ensures ReadsAreTimed(ApplyRecord(w, e, a))
  {
    hide CommittedAs;
    var v := ApplyRecord(w, e, a);
    forall p | p in v.clients && v.clients[p].Resolving?
      ensures ReadIsTimed(v, v.clients[p].read, v.clients[p].at)
    {
      assert ReadIsTimed(w, w.clients[p].read, w.clients[p].at);
    }
  }

  lemma RecordIsGood(w: World, e: Event, a: nat)
    requires Good(w) && e in w.emitted && a < |w.anchors|
    ensures Good(ApplyRecord(w, e, a))
  {
    hide CommitsAreTraced, RecordsAreTraced, ReadsAreTimed, IsHistory, Follows, Exclusive, RowsVerify, ClientBehind;
    RecordKeepsCommits(w, e, a);
    RecordKeepsRecords(w, e, a);
    RecordKeepsReads(w, e, a);
  }

  lemma ReadingsAreBehind(w: World, u: UserId, answered: bool)
    requires Good(w)
    ensures ReadingBehind(w.tables, u, ReadingFor(w, u, answered))
  {
    var floors := FloorsFor(w, u);
    forall f | f in floors && f.Some?
      ensures Behind(f.value.version, f.value.digest, SealAt(w.tables, u))
    {
      var a :| 0 <= a < |floors| && floors[a] == f;
    }
  }

  lemma ResolvingIsGood(w: World, p: nat, u: UserId, second: bool)
    requires Good(w) && u in w.tables
    ensures Good(SetClient(w, p, Resolving(ReadOf(u, w.tables[u]), second, |w.trace|)))
  {
    GoodWithClient(w, p, Resolving(ReadOf(u, w.tables[u]), second, |w.trace|));
  }

  lemma CheckIsGood(w: World, p: nat)
    requires Good(w) && ClientAt(w, p).ToCheck?
    ensures Good(Apply(w, ReadForCheck(p)))
  {
    var c := ClientAt(w, p);
    GoodWithIdle(w, p);
    if c.user in w.tables {
      var read := ReadOf(c.user, w.tables[c.user]);
      GoodWithEvents(SetClient(w, p, Idle), EmittedByCheck(w.keys, w.mode, read, c.reading));
    }
  }

  lemma SessionIsGood(w: World, p: nat, answered: bool)
    requires Good(w) && ClientAt(w, p).Resolving?
    ensures Good(ApplyAskForSession(w, p, answered))
  {
    var c := ClientAt(w, p);
    assert ClientBehind(w.tables, c) && ReadIsTimed(w, c.read, c.at);
    var reading := ReadingFor(w, c.read.userId, answered);
    GoodWithIdle(w, p);
    GoodWithClient(w, p, ToReadAgain(c.read.userId));
    GoodWithEvents(SetClient(w, p, Idle), EmittedByCheck(w.keys, w.mode, c.read, reading));
  }

  lemma StepIsGood(w: World, s: Step)
    requires Good(w) && Enabled(w, s) && !s.Tamper?
    ensures Good(Apply(w, s))
  {
    if s.LockAndSeal? || s.CommitChange? || s.LockAndReseal? || s.CommitReseal? || s.CreateAccount? {
      match s
      case LockAndSeal(p, change, draws) => LockAndSealIsGood(w, p, change, draws);
      case CommitChange(p, stored) => CommitChangeIsGood(w, p, stored);
      case LockAndReseal(p, draws) => LockAndResealIsGood(w, p, draws);
      case CommitReseal(p) => CommitResealIsGood(w, p);
      case CreateAccount(u, components) => CreateIsGood(w, u, components);
    } else {
      OtherStepIsGood(w, s);
    }
  }

  lemma RotateIsGood(w: World, s: Step)
    requires Good(w) && s.Rotate?
    ensures Good(Apply(w, s))
  {
  }

  lemma OtherStepIsGood(w: World, s: Step)
    requires Good(w) && Enabled(w, s) && !s.Tamper?
    requires !(s.LockAndSeal? || s.CommitChange? || s.LockAndReseal? || s.CommitReseal? || s.CreateAccount?)
    ensures Good(Apply(w, s))
  {
    hide Good;
    match s
    case AskForChange(p, u, leave, answered) =>
      ReadingsAreBehind(w, u, answered);
      GoodWithClient(w, p, ToChange(u, ReadingFor(w, u, answered), leave));
    case Abort(p) => GoodWithIdle(w, p);
    case AskForCheck(p, u, answered) =>
      ReadingsAreBehind(w, u, answered);
      GoodWithClient(w, p, ToCheck(u, ReadingFor(w, u, answered)));
    case ReadForCheck(p) => CheckIsGood(w, p);
    case ReadForSession(p, u) => ResolvingIsGood(w, p, u, false);
    case AskForSession(p, answered) => SessionIsGood(w, p, answered);
    case ReadAgain(p) =>
      GoodWithIdle(w, p);
      if ClientAt(w, p).user in w.tables {
        ResolvingIsGood(w, p, ClientAt(w, p).user, true);
      }
    case AskForReseal(p, u, answered) => GoodWithClient(w, p, ToReseal(u, HighestFloor(FloorsFor(w, u))));
    case Record(e, a) => RecordIsGood(w, e, a);
    case Rotate(_) => RotateIsGood(w, s);
  }

  lemma {:induction false} HonestRunIsGood(worlds: seq<World>, steps: seq<Step>, n: nat)
    requires HonestRun(worlds, steps) && n < |worlds|
    ensures Good(worlds[n])
  {
    if n > 0 {
      hide Good, Apply, Enabled;
      HonestRunIsGood(worlds, steps, n - 1);
      assert Enabled(worlds[n - 1], steps[n - 1]) && worlds[n] == Apply(worlds[n - 1], steps[n - 1]);
      StepIsGood(worlds[n - 1], steps[n - 1]);
    }
  }

  // ---- the main results

  lemma BehindIsAdmitted(seal: Option<SealRow>, reading: Reading)
    requires reading.Answered? ==>
      forall f | f in reading.floors && f.Some? :: Behind(f.value.version, f.value.digest, seal)
    ensures CompareWithFloors(seal, reading) !in {VersionBelowAnchor, AnchorMismatch}
  {
    CompareMeaning(seal, reading);
  }

  /** Anchors asked first and the account read afterwards: neither a change nor a check ever finds
      the seal below an anchor or in conflict with one. */
  lemma NoFalseAlarm(worlds: seq<World>, steps: seq<Step>, n: nat, p: nat)
    requires HonestRun(worlds, steps) && n < |worlds|
    ensures var c := ClientAt(worlds[n], p);
            c.ToChange? || c.ToCheck? ==>
              CompareWithFloors(SealAt(worlds[n].tables, c.user), c.reading) !in {VersionBelowAnchor, AnchorMismatch}
  {
    HonestRunIsGood(worlds, steps, n);
    var c := ClientAt(worlds[n], p);
    if c.ToChange? || c.ToCheck? {
      assert ClientBehind(worlds[n].tables, c);
      BehindIsAdmitted(SealAt(worlds[n].tables, c.user), c.reading);
    }
  }

  /** Some seal of the account above the one that was read was committed and recorded since. */
  ghost predicate OvertakenSince(trace: seq<Happening>, read: Read, at: nat) {
    exists i, j, a, v | at <= i < j < |trace| ::
      && trace[i].Committed? && trace[i].user == read.userId && trace[i].version == v
      && trace[j] == Recorded(a, read.userId, v)
      && (read.seal.None? || v > read.seal.value.version)
  }

  /** Read first and the anchors asked afterwards: a resolution finds itself behind an anchor only
      if another seal of that account was committed and recorded between the two. It never finds
      a mismatch. */
  lemma BehindOnlyWhenOvertaken(worlds: seq<World>, steps: seq<Step>, n: nat, p: nat)
    requires HonestRun(worlds, steps) && n < |worlds| && ClientAt(worlds[n], p).Resolving?
    ensures var w := worlds[n];
            var c := ClientAt(w, p);
            var verdict := CompareWithFloors(c.read.seal, ReadingFor(w, c.read.userId, true));
            && (verdict == VersionBelowAnchor ==> OvertakenSince(w.trace, c.read, c.at))
            && verdict != AnchorMismatch
  {
    HonestRunIsGood(worlds, steps, n);
    var w := worlds[n];
    var c := ClientAt(w, p);
    var floors := FloorsFor(w, c.read.userId);
    assert ClientBehind(w.tables, c) && ReadIsTimed(w, c.read, c.at);
    hide Good, CompareWithFloors, OvertakenSince, Below, Admits, ReadIsTimed;
    CompareMeaning(c.read.seal, ReadingFor(w, c.read.userId, true));
    forall a | 0 <= a < |floors| && Below(floors[a], c.read.seal)
      ensures OvertakenSince(w.trace, c.read, c.at)
    {
      FloorAboveWasOvertaking(w, c.read, c.at, a);
    }
    forall a | 0 <= a < |floors| && !Below(floors[a], c.read.seal)
      ensures Admits(floors[a], c.read.seal)
    {
      FloorReachedIsAdmitted(w, c.read, c.at, a);
    }
  }

  lemma FloorAboveWasOvertaking(w: World, read: Read, at: nat, a: nat)
    requires Good(w) && ReadIsTimed(w, read, at) && a < |w.anchors| && Below(FloorsFor(w, read.userId)[a], read.seal)
    ensures OvertakenSince(w.trace, read, at)
  {
    var u := read.userId;
    var v := w.anchors[a][u].version;
    assert FloorIsTraced(w, a, u, w.anchors[a][u]);
    hide Good;
    assert w.trace[w.commits[(u, v)]].version == v && w.trace[w.records[(a, u)]] == Recorded(a, u, v);
  }

  lemma FloorReachedIsAdmitted(w: World, read: Read, at: nat, a: nat)
    requires Good(w) && ReadIsTimed(w, read, at) && a < |w.anchors| && !Below(FloorsFor(w, read.userId)[a], read.seal)
    ensures Admits(FloorsFor(w, read.userId)[a], read.seal)
  {
    assert read.userId in w.anchors[a] ==> FloorIsTraced(w, a, read.userId, w.anchors[a][read.userId]);
    hide Good;
  }

  /** In every honest run a stored seal verifies against the stored components. */
  lemma EveryStoredSealVerifies(worlds: seq<World>, steps: seq<Step>, n: nat, u: UserId)
    requires HonestRun(worlds, steps) && n < |worlds| && u in worlds[n].tables && worlds[n].tables[u].seal.Some?
    ensures Verifies(u, worlds[n].tables[u].seal.value, worlds[n].tables[u].components)
  {
    HonestRunIsGood(worlds, steps, n);
  }

  /** What a committed change leaves of its account. */
  ghost predicate ChangeMoved(before: Account, after: Account, outcome: Outcome) {
    match outcome
    case LeftUnsealed(components) => after == Account(None, components)
    case Kept(_, _) => after == before
    case Sealed(row, components) =>
      after == Account(Some(row), components) && row.version == VersionOf(before.seal) + 1
    case Refused(_) => false
  }

  lemma ChangeCommitted(w: World, p: nat, stored: CanonicalComponents)
    requires Good(w) && Enabled(w, CommitChange(p, stored))
    ensures var v := Apply(w, CommitChange(p, stored));
            var c := ClientAt(w, p);
            var u := c.read.userId;
            && u in w.tables && u in v.tables && c.read == ReadOf(u, w.tables[u])
            && (v.tables[u].seal.Some? ==> Verifies(u, v.tables[u].seal.value, v.tables[u].components))
            && ChangeMoved(w.tables[u], v.tables[u], c.outcome)
  {
    hide Follows, SignsInAsBefore, IsHistory, Histories, CommitsAreTraced, RecordsAreTraced, ReadsAreTimed, Exclusive;
    hide FloorsBehind, EventsBehind, Verifies;
    assert ClientBehind(w.tables, ClientAt(w, p));
  }

  lemma ResealCommitted(w: World, p: nat)
    requires Good(w) && Enabled(w, CommitReseal(p))
    ensures var v := Apply(w, CommitReseal(p));
            var c := ClientAt(w, p);
            var u := c.read.userId;
            && u in w.tables && u in v.tables && c.read == ReadOf(u, w.tables[u])
            && v.tables[u].seal == Some(c.row) && Verifies(u, c.row, v.tables[u].components)
            && c.row.version > VersionOf(w.tables[u].seal)
            && forall a | 0 <= a < |w.anchors| && u in w.anchors[a] :: c.row.version > w.anchors[a][u].version
  {
    hide Follows, SignsInAsBefore, IsHistory, Histories, CommitsAreTraced, RecordsAreTraced, ReadsAreTimed;
    hide Verifies;
    assert ClientBehind(w.tables, ClientAt(w, p));
    var c := ClientAt(w, p);
    var u := c.read.userId;
    forall a | 0 <= a < |w.anchors| && u in w.anchors[a]
      ensures c.row.version > w.anchors[a][u].version
    {
      assert Behind(w.anchors[a][u].version, w.anchors[a][u].digest, SealAt(w.tables, u));
    }
  }

  /** What a commit leaves of an account's seal: a change steps the version by one or keeps the very
      row, a reseal lands above the stored version and above every floor, and an account changed
      without being sealed stays without a row. */
  lemma EachCommitMovesTheVersion(worlds: seq<World>, steps: seq<Step>, n: nat)
    requires HonestRun(worlds, steps) && n < |steps| && (steps[n].CommitChange? || steps[n].CommitReseal?)
    ensures var w, v := worlds[n], worlds[n + 1];
            var c := ClientAt(w, steps[n].client);
            var u := c.read.userId;
            && u in w.tables && u in v.tables && c.read == ReadOf(u, w.tables[u])
            && (v.tables[u].seal.Some? ==> Verifies(u, v.tables[u].seal.value, v.tables[u].components))
            && (steps[n].CommitChange? ==> c.Holding? && ChangeMoved(w.tables[u], v.tables[u], c.outcome))
            && (steps[n].CommitReseal? ==>
                  && c.HoldingReseal? && v.tables[u].seal == Some(c.row)
                  && c.row.version > VersionOf(w.tables[u].seal)
                  && forall a | 0 <= a < |w.anchors| && u in w.anchors[a] :: c.row.version > w.anchors[a][u].version)
  {
    hide Good, ChangeMoved, Verifies;
    var w := worlds[n];
    HonestRunIsGood(worlds, steps, n);
    assert Enabled(w, steps[n]) && worlds[n + 1] == Apply(w, steps[n]);
    match steps[n]
    case CommitChange(p, stored) => ChangeCommitted(w, p, stored);
    case CommitReseal(p) => ResealCommitted(w, p);
  }

  // ---- what reaches the anchors

  lemma ChangeIsEmitted(w: World, p: nat, stored: CanonicalComponents)
    requires Good(w) && Enabled(w, CommitChange(p, stored))
    ensures var v := Apply(w, CommitChange(p, stored));
            var u := ClientAt(w, p).read.userId;
            u in v.tables && v.tables[u].seal.Some? ==>
              Event(u, v.tables[u].seal.value.version, v.tables[u].seal.value.digest) in v.emitted
  {
    hide Follows, SignsInAsBefore, IsHistory, Histories, CommitsAreTraced, RecordsAreTraced, ReadsAreTimed, Exclusive;
    hide FloorsBehind, EventsBehind, Verifies, RowsVerify, MayFollow;
    assert ClientBehind(w.tables, ClientAt(w, p));
  }

  lemma ResealIsEmitted(w: World, p: nat)
    requires Good(w) && Enabled(w, CommitReseal(p))
    ensures var v := Apply(w, CommitReseal(p));
            var c := ClientAt(w, p);
            Event(c.read.userId, c.row.version, c.row.digest) in v.emitted
  {
    hide Follows, SignsInAsBefore, IsHistory, Histories, CommitsAreTraced, RecordsAreTraced, ReadsAreTimed, Exclusive;
    hide FloorsBehind, EventsBehind, Verifies, RowsVerify, MayFollow;
    assert ClientBehind(w.tables, ClientAt(w, p));
  }

  /** Every seal a commit leaves is on its way to the anchors. */
  lemma EachCommitIsEmitted(worlds: seq<World>, steps: seq<Step>, n: nat)
    requires HonestRun(worlds, steps) && n < |steps| && (steps[n].CommitChange? || steps[n].CommitReseal?)
    ensures var v := worlds[n + 1];
            var u := ClientAt(worlds[n], steps[n].client).read.userId;
            u in v.tables && v.tables[u].seal.Some? ==>
              Event(u, v.tables[u].seal.value.version, v.tables[u].seal.value.digest) in v.emitted
  {
    hide Good;
    var w := worlds[n];
    HonestRunIsGood(worlds, steps, n);
    assert Enabled(w, steps[n]) && worlds[n + 1] == Apply(w, steps[n]);
    match steps[n]
    case CommitChange(p, stored) => ChangeIsEmitted(w, p, stored);
    case CommitReseal(p) =>
      ResealIsEmitted(w, p);
      ResealCommitted(w, p);
  }

  /** Recording lifts an anchor to the seal or leaves it above, and moves no other floor. */
  lemma RecordLifts(w: World, e: Event, a: nat)
    requires a < |w.anchors|
    ensures var v := ApplyRecord(w, e, a);
            && |v.anchors| == |w.anchors| && e.user in v.anchors[a] && v.anchors[a][e.user].version >= e.version
            && (e.user in w.anchors[a] ==> v.anchors[a][e.user].version >= w.anchors[a][e.user].version)
            && (v.anchors[a][e.user] == Floor(e.version, e.digest)
                || (e.user in w.anchors[a] && v.anchors[a][e.user] == w.anchors[a][e.user]))
            && (forall b, u | 0 <= b < |w.anchors| && (b != a || u != e.user) ::
                  (u in v.anchors[b] <==> u in w.anchors[b])
                  && (u in w.anchors[b] ==> v.anchors[b][u] == w.anchors[b][u]))
            && v.tables == w.tables && v.clients == w.clients
  {
  }

  /** Two moments of one account's run: the later version is higher, an equal components version
      means the same epoch and the same way of signing in, and any other value is above everything
      the account had carried until then. */
  lemma ComponentsVersionOverARun(worlds: seq<World>, steps: seq<Step>, n: nat, u: UserId, i: nat, j: nat)
    requires HonestRun(worlds, steps) && n < |worlds|
    requires u in worlds[n].history && i < j < |worlds[n].history[u]|
    ensures var s, t := worlds[n].history[u][i], worlds[n].history[u][j];
            && 1 <= s.generations.componentsVersion <= s.version < t.version
            && (s.generations.componentsVersion == t.generations.componentsVersion ==>
                  s.sessionEpoch == t.sessionEpoch && SignsInAsBefore(s.components, t.components))
            && (s.generations.componentsVersion != t.generations.componentsVersion ==>
                  t.generations.componentsVersion > s.version)
  {
    HonestRunIsGood(worlds, steps, n);
    assert Follows(worlds[n].history[u][i], worlds[n].history[u][j]);
  }
}
