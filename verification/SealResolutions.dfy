/** A session resolution from its first read to its answer: behind an anchor it is read once more, and
    only a second read is refused for it. */
module SealResolutions {
  import opened Options
  import opened StateEncoding
  import opened Sealing
  import opened SealProtocol
  import opened SealHonestRuns

  /** Some anchor holds a version above the one that was read. */
  ghost predicate BelowAFloor(w: World, read: Read) {
    exists a | 0 <= a < |w.anchors| && read.userId in w.anchors[a] ::
      read.seal.None? || read.seal.value.version < w.anchors[a][read.userId].version
  }

  /** From after step i up to world n, the client stands where it stood. */
  ghost predicate StaysSince(worlds: seq<World>, p: nat, i: nat, n: nat, c: Client) {
    n < |worlds| && forall k | i < k <= n :: ClientAt(worlds[k], p) == c
  }

  /** Step i asked the anchors for a first read of u, which was below a floor, and sent it back. */
  ghost predicate SentBackAt(worlds: seq<World>, steps: seq<Step>, p: nat, u: UserId, i: nat)
    requires |worlds| == |steps| + 1
  {
    && i < |steps| && steps[i] == AskForSession(p, true)
    && ClientAt(worlds[i], p).Resolving? && !ClientAt(worlds[i], p).second
    && ClientAt(worlds[i], p).read.userId == u && BelowAFloor(worlds[i], ClientAt(worlds[i], p).read)
  }

  /** Step j read u for the session, the first time or again. */
  ghost predicate ReadAt(worlds: seq<World>, steps: seq<Step>, p: nat, c: Client, j: nat)
    requires |worlds| == |steps| + 1 && c.Resolving?
  {
    && j < |steps| && c.read.userId in worlds[j].tables
    && c.read == ReadOf(c.read.userId, worlds[j].tables[c.read.userId]) && c.at == |worlds[j].trace|
    && steps[j] == (if c.second then ReadAgain(p) else ReadForSession(p, c.read.userId))
    && ClientAt(worlds[j], p) == if c.second then ToReadAgain(c.read.userId) else Idle
  }

  // ---- one step of one client

  lemma BelowIsBelow(w: World, read: Read)
    ensures CompareWithFloors(read.seal, ReadingFor(w, read.userId, true)) == VersionBelowAnchor ==> BelowAFloor(w, read)
    ensures CompareWithFloors(read.seal, ReadingFor(w, read.userId, false)) != VersionBelowAnchor
  {
    CompareMeaning(read.seal, ReadingFor(w, read.userId, true));
    assert CompareWithFloors(read.seal, Unavailable) == AnchorUnavailable;
    hide CompareWithFloors;
    var floors := FloorsFor(w, read.userId);
    if CompareWithFloors(read.seal, ReadingFor(w, read.userId, true)) == VersionBelowAnchor {
      var a: nat :| FirstBelow(floors, read.seal, a);
      assert floors[a] == Some(w.anchors[a][read.userId]);
    }
  }

  /** A client that stands where it stood, is done or holds a lock. */
  predicate KeptOrElsewhere(before: Client, after: Client) {
    after == before || after.Idle? || after.Holding? || after.HoldingReseal?
  }

  lemma LockAndSealSets(w: World, q: nat, change: Change, draws: Draws, p: nat)
    requires ClientAt(w, q).ToChange?
    ensures KeptOrElsewhere(ClientAt(w, p), ClientAt(ApplyLockAndSeal(w, q, change, draws), p))
  {
    hide SealOutcome, IndexOf;
  }

  lemma CommitChangeSets(w: World, q: nat, stored: CanonicalComponents, p: nat)
    requires ClientAt(w, q).Holding?
    ensures KeptOrElsewhere(ClientAt(w, p), ClientAt(ApplyCommitChange(w, q, stored), p))
  {
    hide Swaps;
  }

  lemma LockAndResealSets(w: World, q: nat, draws: ResealDraws, p: nat)
    requires ClientAt(w, q).ToReseal?
    ensures KeptOrElsewhere(ClientAt(w, p), ClientAt(ApplyLockAndReseal(w, q, draws), p))
  {
    hide ResealOutcome;
  }

  lemma CommitResealSets(w: World, q: nat, p: nat)
    requires Enabled(w, CommitReseal(q))
    ensures KeptOrElsewhere(ClientAt(w, p), ClientAt(Apply(w, CommitReseal(q)), p))
  {
    hide Swaps, WithCommit;
    var c := ClientAt(w, q);
    var u := c.read.userId;
    if u in w.tables {
      CommitKeepsClients(SetClient(w, q, Idle), u, c.row, w.tables[u].components);
    }
  }

  lemma CommitKeepsClients(w: World, u: UserId, row: SealRow, stored: CanonicalComponents)
    ensures WithCommit(w, u, row, stored).clients == w.clients
  {
  }

  /** The steps under an account lock leave no client in the middle of a resolution that was not there. */
  lemma LockedStepsSetNone(w: World, s: Step, p: nat)
    requires Enabled(w, s) && (s.LockAndSeal? || s.CommitChange? || s.LockAndReseal? || s.CommitReseal?)
    ensures KeptOrElsewhere(ClientAt(w, p), ClientAt(Apply(w, s), p))
  {
    hide ApplyLockAndSeal, ApplyCommitChange, ApplyLockAndReseal, WithCommit, Swaps, Locked, KeptOrElsewhere;
    match s
    case LockAndSeal(q, change, draws) => LockAndSealSets(w, q, change, draws, p);
    case CommitChange(q, stored) => CommitChangeSets(w, q, stored, p);
    case LockAndReseal(q, draws) => LockAndResealSets(w, q, draws, p);
    case CommitReseal(q) => CommitResealSets(w, q, p);
  }

  lemma OtherStepsSetNone(w: World, s: Step, p: nat)
    requires Enabled(w, s) && (s.CreateAccount? || s.Record? || s.Rotate? || s.Tamper? || s.Abort? || s.ReadForCheck?)
    ensures KeptOrElsewhere(ClientAt(w, p), ClientAt(Apply(w, s), p))
  {
    hide EmittedByCheck, CreatedRow, ApplyRecord, WithCommit, CanMac;
    match s
    case CreateAccount(u, c) =>
      var row := CreatedRow(u, c, w.keys.current);
      CommitKeepsClients(w.(log := w.log + [Entry(row.digest, SignUp)]), u, row, c);
    case Record(e, a) => RecordLifts(w, e, a);
    case _ =>
  }

  lemma OnlyAskingSendsBack(w: World, s: Step, p: nat)
    requires Enabled(w, s) && ClientAt(Apply(w, s), p).ToReadAgain? && ClientAt(Apply(w, s), p) != ClientAt(w, p)
    ensures s.AskForSession? && s.client == p
  {
    if s.LockAndSeal? || s.CommitChange? || s.LockAndReseal? || s.CommitReseal? {
      LockedStepsSetNone(w, s, p);
    }
    if s.CreateAccount? || s.Record? || s.Rotate? || s.Tamper? || s.Abort? || s.ReadForCheck? {
      OtherStepsSetNone(w, s, p);
    }
    hide ApplyLockAndSeal, ApplyCommitChange, ApplyLockAndReseal, WithCommit, Swaps, Locked, ApplyRecord;
    hide CompareWithFloors, EmittedByCheck, ReadingFor, CreatedRow, HighestFloor;
  }

  lemma SentBackByAsking(w: World, s: Step, p: nat)
    requires Enabled(w, s) && ClientAt(Apply(w, s), p).ToReadAgain? && ClientAt(Apply(w, s), p) != ClientAt(w, p)
    ensures s == AskForSession(p, true) && ClientAt(w, p).Resolving? && !ClientAt(w, p).second
    ensures ClientAt(Apply(w, s), p) == ToReadAgain(ClientAt(w, p).read.userId) && BelowAFloor(w, ClientAt(w, p).read)
  {
    OnlyAskingSendsBack(w, s, p);
    BelowIsBelow(w, ClientAt(w, p).read);
    hide CompareWithFloors, EmittedByCheck, BelowAFloor, Locked, ReadingFor;
    assert Apply(w, s) == ApplyAskForSession(w, p, s.answered);
  }

  lemma ResolvingByReading(w: World, s: Step, p: nat)
    requires Enabled(w, s) && ClientAt(Apply(w, s), p).Resolving? && ClientAt(Apply(w, s), p) != ClientAt(w, p)
    ensures var c := ClientAt(Apply(w, s), p);
            && c.read.userId in w.tables && c.read == ReadOf(c.read.userId, w.tables[c.read.userId])
            && c.at == |w.trace|
            && s == (if c.second then ReadAgain(p) else ReadForSession(p, c.read.userId))
            && ClientAt(w, p) == if c.second then ToReadAgain(c.read.userId) else Idle
  {
    if s.LockAndSeal? || s.CommitChange? || s.LockAndReseal? || s.CommitReseal? {
      LockedStepsSetNone(w, s, p);
    }
    if s.CreateAccount? || s.Record? || s.Rotate? || s.Tamper? || s.Abort? || s.ReadForCheck? {
      OtherStepsSetNone(w, s, p);
    }
    hide ApplyLockAndSeal, ApplyCommitChange, ApplyLockAndReseal, WithCommit, Swaps, Locked, ApplyRecord;
    hide CompareWithFloors, EmittedByCheck, ReadingFor, CreatedRow, HighestFloor;
  }

  // ---- back along the run

  lemma StaysOneMore(worlds: seq<World>, p: nat, i: nat, n: nat, c: Client)
    requires 0 < n < |worlds| && i < n && StaysSince(worlds, p, i, n - 1, c) && ClientAt(worlds[n], p) == c
    ensures StaysSince(worlds, p, i, n, c)
  {
    hide ClientAt;
  }

  lemma StaysFromHere(worlds: seq<World>, p: nat, n: nat)
    requires 0 < n < |worlds|
    ensures StaysSince(worlds, p, n - 1, n, ClientAt(worlds[n], p))
  {
    hide ClientAt;
  }

  lemma OneStep(worlds: seq<World>, steps: seq<Step>, n: nat)
    requires Run(worlds, steps) && 0 < n < |worlds|
    ensures Enabled(worlds[n - 1], steps[n - 1]) && worlds[n] == Apply(worlds[n - 1], steps[n - 1])
  {
    hide Apply, Enabled, Init;
  }

  lemma NobodyAtFirst(worlds: seq<World>, steps: seq<Step>, p: nat)
    requires Run(worlds, steps)
    ensures ClientAt(worlds[0], p) == Idle
  {
    hide Apply, Enabled;
  }

  /** A client that is to read again was sent back by a first consultation below a floor. */
  lemma {:induction false} SentBack(worlds: seq<World>, steps: seq<Step>, n: nat, p: nat) returns (i: nat)
    requires Run(worlds, steps) && n < |worlds| && ClientAt(worlds[n], p).ToReadAgain?
    ensures i < n && SentBackAt(worlds, steps, p, ClientAt(worlds[n], p).user, i)
    ensures StaysSince(worlds, p, i, n, ClientAt(worlds[n], p))
  {
    hide Apply, Enabled, BelowAFloor, StaysSince, Init;
    NobodyAtFirst(worlds, steps, p);
    OneStep(worlds, steps, n);
    if ClientAt(worlds[n], p) == ClientAt(worlds[n - 1], p) {
      i := SentBack(worlds, steps, n - 1, p);
      StaysOneMore(worlds, p, i, n, ClientAt(worlds[n], p));
    } else {
      SentBackByAsking(worlds[n - 1], steps[n - 1], p);
      StaysFromHere(worlds, p, n);
      i := n - 1;
    }
  }

  lemma ReadJustNow(worlds: seq<World>, steps: seq<Step>, n: nat, p: nat)
    requires Run(worlds, steps) && 0 < n < |worlds| && ClientAt(worlds[n], p).Resolving?
    requires ClientAt(worlds[n], p) != ClientAt(worlds[n - 1], p)
    ensures ReadAt(worlds, steps, p, ClientAt(worlds[n], p), n - 1)
  {
    OneStep(worlds, steps, n);
    hide Apply, Enabled, Run, ClientAt;
    ResolvingByReading(worlds[n - 1], steps[n - 1], p);
  }

  /** What a resolution holds was read by the step that began it, and has stood since. */
  lemma {:induction false} WasRead(worlds: seq<World>, steps: seq<Step>, n: nat, p: nat) returns (j: nat)
    requires Run(worlds, steps) && n < |worlds| && ClientAt(worlds[n], p).Resolving?
    ensures j < n && ReadAt(worlds, steps, p, ClientAt(worlds[n], p), j)
    ensures StaysSince(worlds, p, j, n, ClientAt(worlds[n], p))
  {
    hide ReadAt, StaysSince, ClientAt;
    NobodyAtFirst(worlds, steps, p);
    RunIsLong(worlds, steps);
    hide Run;
    if ClientAt(worlds[n], p) == ClientAt(worlds[n - 1], p) {
      j := WasRead(worlds, steps, n - 1, p);
      StaysOneMore(worlds, p, j, n, ClientAt(worlds[n], p));
    } else {
      ReadJustNow(worlds, steps, n, p);
      StaysFromHere(worlds, p, n);
      j := n - 1;
    }
  }

  lemma RunIsLong(worlds: seq<World>, steps: seq<Step>)
    requires Run(worlds, steps)
    ensures |worlds| == |steps| + 1
  {
    hide Apply, Enabled, Init;
  }

  // ---- the main results

  /** In an honest run a read is found below a floor, or not at all in conflict. */
  lemma BelowExactly(worlds: seq<World>, steps: seq<Step>, n: nat, p: nat)
    requires HonestRun(worlds, steps) && n < |worlds| && ClientAt(worlds[n], p).Resolving?
    ensures var read := ClientAt(worlds[n], p).read;
            var verdict := CompareWithFloors(read.seal, ReadingFor(worlds[n], read.userId, true));
            && (verdict == VersionBelowAnchor <==> BelowAFloor(worlds[n], read))
            && (Passes(verdict) <==> !BelowAFloor(worlds[n], read))
  {
    var w := worlds[n];
    var read := ClientAt(w, p).read;
    BehindOnlyWhenOvertaken(worlds, steps, n, p);
    BelowIsBelow(w, read);
    CompareMeaning(read.seal, ReadingFor(w, read.userId, true));
    hide CompareWithFloors;
    var floors := FloorsFor(w, read.userId);
    if BelowAFloor(w, read) {
      var a :| 0 <= a < |w.anchors| && read.userId in w.anchors[a]
               && (read.seal.None? || read.seal.value.version < w.anchors[a][read.userId].version);
      assert floors[a] in floors && !Admits(floors[a], read.seal);
    }
  }

  /** A first read below a floor is never the answer: the client goes to read the same account again,
      and nothing else has happened. */
  lemma FirstReadBelowIsReadAgain(worlds: seq<World>, steps: seq<Step>, n: nat, p: nat)
    requires HonestRun(worlds, steps) && n < |steps| && steps[n] == AskForSession(p, true)
    requires !ClientAt(worlds[n], p).second && BelowAFloor(worlds[n], ClientAt(worlds[n], p).read)
    ensures worlds[n + 1] == worlds[n].(clients := worlds[n].clients[p := ToReadAgain(ClientAt(worlds[n], p).read.userId)])
  {
    assert Enabled(worlds[n], steps[n]) && worlds[n + 1] == Apply(worlds[n], steps[n]);
    BelowExactly(worlds, steps, n, p);
    hide BelowAFloor, CompareWithFloors, EmittedByCheck;
  }

  /** What stands behind an answer given although the read was below a floor: a first consultation
      below a floor, a second read of the same account after it, and another seal committed and
      recorded since that second read. */
  ghost predicate RefusedAfterASecondRead(worlds: seq<World>, steps: seq<Step>, n: nat, p: nat, i: nat, j: nat)
    requires |worlds| == |steps| + 1 && n < |worlds| && ClientAt(worlds[n], p).Resolving?
  {
    var c := ClientAt(worlds[n], p);
    && i < j < n && c.second
    && SentBackAt(worlds, steps, p, c.read.userId, i) && StaysSince(worlds, p, i, j, ToReadAgain(c.read.userId))
    && ReadAt(worlds, steps, p, c, j) && StaysSince(worlds, p, j, n, c)
    && OvertakenSince(worlds[n].trace, c.read, |worlds[j].trace|)
  }

  lemma OnlyASecondReadIsRefused(worlds: seq<World>, steps: seq<Step>, n: nat, p: nat)
    requires HonestRun(worlds, steps) && n < |steps| && steps[n] == AskForSession(p, true)
    requires ClientAt(worlds[n], p).Resolving? && BelowAFloor(worlds[n], ClientAt(worlds[n], p).read)
    requires ClientAt(worlds[n + 1], p).Idle?
    ensures exists i, j :: RefusedAfterASecondRead(worlds, steps, n, p, i, j)
  {
    var c := ClientAt(worlds[n], p);
    if !c.second {
      FirstReadBelowIsReadAgain(worlds, steps, n, p);
      assert false;
    }
    BelowExactly(worlds, steps, n, p);
    BehindOnlyWhenOvertaken(worlds, steps, n, p);
    hide BelowAFloor, CompareWithFloors, OvertakenSince, HonestRun, ReadingFor;
    var j := SecondWasRead(worlds, steps, n, p);
    var i := FirstWasSentBack(worlds, steps, j, p);
    assert RefusedAfterASecondRead(worlds, steps, n, p, i, j);
  }

  lemma SecondWasRead(worlds: seq<World>, steps: seq<Step>, n: nat, p: nat) returns (j: nat)
    requires HonestRun(worlds, steps) && n < |worlds| && ClientAt(worlds[n], p).Resolving?
    ensures j < n && ReadAt(worlds, steps, p, ClientAt(worlds[n], p), j)
    ensures StaysSince(worlds, p, j, n, ClientAt(worlds[n], p))
  {
    hide Run, ReadAt;
    j := WasRead(worlds, steps, n, p);
  }

  lemma FirstWasSentBack(worlds: seq<World>, steps: seq<Step>, n: nat, p: nat) returns (i: nat)
    requires HonestRun(worlds, steps) && n < |worlds| && ClientAt(worlds[n], p).ToReadAgain?
    ensures i < n && SentBackAt(worlds, steps, p, ClientAt(worlds[n], p).user, i)
    ensures StaysSince(worlds, p, i, n, ClientAt(worlds[n], p))
  {
    hide Run, SentBackAt;
    i := SentBack(worlds, steps, n, p);
  }

  /** Some anchor that was asked holds nothing of the account, or an older seal. */
  predicate LagsBehind(read: Read, reading: Reading) {
    && reading.Answered? && read.seal.Some?
    && exists f | f in reading.floors :: f.None? || f.value.version < read.seal.value.version
  }

  /** A resolution that may use its read sends the seal to an anchor that lags behind it, and sends nothing
      else; so does a check of an account. */
  lemma ResolutionRecordsAgain(worlds: seq<World>, steps: seq<Step>, n: nat, p: nat)
    requires HonestRun(worlds, steps) && n < |steps| && steps[n] == AskForSession(p, true)
    requires !BelowAFloor(worlds[n], ClientAt(worlds[n], p).read)
    ensures var w := worlds[n];
            var read := ClientAt(w, p).read;
            var reading := ReadingFor(w, read.userId, true);
            worlds[n + 1].emitted == w.emitted +
              if Usable(w.keys, w.mode, read, reading) && LagsBehind(read, reading)
              then {Event(read.userId, read.seal.value.version, read.seal.value.digest)} else {}
  {
    assert Enabled(worlds[n], steps[n]) && worlds[n + 1] == Apply(worlds[n], steps[n]);
    BelowExactly(worlds, steps, n, p);
    var w := worlds[n];
    var read := ClientAt(w, p).read;
    EmittedExactly(w.keys, w.mode, read, ReadingFor(w, read.userId, true));
    hide BelowAFloor, CompareWithFloors, EmittedByCheck, Usable, LagsBehind;
  }

  lemma CheckRecordsAgain(w: World, p: nat)
    requires ClientAt(w, p).ToCheck? && ClientAt(w, p).user in w.tables
    ensures var read, reading := ReadOf(ClientAt(w, p).user, w.tables[ClientAt(w, p).user]), ClientAt(w, p).reading;
            Apply(w, ReadForCheck(p)).emitted == w.emitted +
              if Usable(w.keys, w.mode, read, reading) && LagsBehind(read, reading)
              then {Event(read.userId, read.seal.value.version, read.seal.value.digest)} else {}
  {
    var c := ClientAt(w, p);
    EmittedExactly(w.keys, w.mode, ReadOf(c.user, w.tables[c.user]), c.reading);
    hide EmittedByCheck, Usable, LagsBehind;
  }

  lemma EmittedExactly(keys: Keys, mode: Mode, read: Read, reading: Reading)
    ensures EmittedByCheck(keys, mode, read, reading) ==
      if Usable(keys, mode, read, reading) && LagsBehind(read, reading)
      then {Event(read.userId, read.seal.value.version, read.seal.value.digest)} else {}
  {
    CompareMeaning(read.seal, reading);
    hide CompareWithFloors, CheckSecurityState;
    assert reading.Answered? ==> forall f | f in reading.floors ::
      IsAheadOf(read.seal, f) <==> read.seal.Some? && (f.None? || f.value.version < read.seal.value.version);
  }

  /** In an honest run an answered resolution that is not below a floor is refused for nothing but the
      key of its seal, or for having no seal where one is required. */
  lemma ResolutionIsUsable(worlds: seq<World>, steps: seq<Step>, n: nat, p: nat)
    requires HonestRun(worlds, steps) && n < |worlds| && ClientAt(worlds[n], p).Resolving?
    requires !BelowAFloor(worlds[n], ClientAt(worlds[n], p).read)
    ensures var w := worlds[n];
            var read := ClientAt(w, p).read;
            Usable(w.keys, w.mode, read, ReadingFor(w, read.userId, true)) <==>
              if read.seal.None? then w.mode.Migrating?
              else
                && IsStorable(read.seal.value.keyVersion) && read.seal.value.keyVersion in w.keys.ring
                && w.keys.ring[read.seal.value.keyVersion]
  {
    BelowExactly(worlds, steps, n, p);
    var j := SecondWasRead(worlds, steps, n, p);
    var read := ClientAt(worlds[n], p).read;
    if read.seal.Some? {
      EveryStoredSealVerifies(worlds, steps, j, read.userId);
    }
    hide CompareWithFloors, BelowAFloor, HonestRun;
  }
}
