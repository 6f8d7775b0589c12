/** One sealing transaction: what is read under the account lock, what is refused, and the row a
    change, a first seal or an administrator's reseal leaves. */
module Sealing {
  import opened Bytes
  import opened Options
  import opened StateEncoding

  type UserId = seq<byte>

  /** The message authentication code, taken as ideal: a digest verifies only for the state and the
      key version it was computed over. States are canonical, which StateEncodingTheorems shows to
      be the same as comparing the encoded bytes. */
  datatype Digest = Mac(keyVersion: int, state: CanonicalState) | Forged(value: int)

  datatype SealRow = SealRow(
    version: int, digest: Digest, keyVersion: int, sessionEpoch: int, generations: Generations)

  /** One account's rows: its seal row, if it has one, and every sign-in component. */
  datatype Account = Account(seal: Option<SealRow>, components: CanonicalComponents)

  /** What the one statement returns. */
  datatype Read = Read(userId: UserId, seal: Option<SealRow>, components: CanonicalComponents)

  datatype Mode = Required | Migrating

  /** The state-mac versions the key provider holds, each with whether its key can be used. */
  datatype Keys = Keys(current: int, ring: map<int, bool>)

  const MAXIMUM_KEY_VERSION := 2_147_483_647
  const MAXIMUM_DRAW := 0x20_0000_0000_0000
  const ATTEMPTS := 3

  function StateOf(userId: UserId, row: SealRow, c: CanonicalComponents): CanonicalState {
    CanonicalState(userId, row.version, row.sessionEpoch, row.generations, c)
  }

  function ReadOf(userId: UserId, a: Account): Read {
    Read(userId, a.seal, a.components)
  }

  // ---- checking a read

  datatype Verdict = Valid | SealMismatch | KeyVersionUnknown | KeyUnusable | Unsealed | SealMissing

  predicate IsStorable(keyVersion: int) {
    1 <= keyVersion <= MAXIMUM_KEY_VERSION
  }

  function VerifySeal(keys: Keys, state: CanonicalState, row: SealRow): Verdict {
    if !IsStorable(row.keyVersion) || row.keyVersion !in keys.ring then KeyVersionUnknown
    else if !keys.ring[row.keyVersion] then KeyUnusable
    else if row.digest == Mac(row.keyVersion, state) then Valid
    else SealMismatch
  }

  function CheckSecurityState(keys: Keys, read: Read, mode: Mode): Verdict {
    match read.seal
    case None => if mode.Required? then SealMissing else Unsealed
    case Some(row) => VerifySeal(keys, StateOf(read.userId, row, read.components), row)
  }

  // ---- anchors

  datatype Floor = Floor(version: int, digest: Digest)

  /** What one anchor answers; Unreadable stands for a throw or for anything no floor decodes from. */
  datatype Answer = NoFloor | Known(floor: Floor) | Unreadable

  datatype Reading = Answered(floors: seq<Option<Floor>>) | Unavailable

  datatype AnchorVerdict = WithinFloor | AheadOfAnchor | VersionBelowAnchor | AnchorMismatch | AnchorUnavailable

  function DecodeAnswer(a: Answer): Answer {
    if a.Known? && !(1 <= a.floor.version <= MAX_SAFE_INTEGER) then Unreadable else a
  }

  /** What a floor says about a stored seal. */
  predicate Admits(floor: Option<Floor>, stored: Option<SealRow>) {
    floor.Some? ==>
      && stored.Some? && stored.value.version >= floor.value.version
      && (stored.value.version == floor.value.version ==> stored.value.digest == floor.value.digest)
  }

  predicate Below(floor: Option<Floor>, stored: Option<SealRow>) {
    floor.Some? && (stored.None? || stored.value.version < floor.value.version)
  }

  predicate IsAheadOf(stored: Option<SealRow>, floor: Option<Floor>) {
    stored.Some? && (floor.None? || stored.value.version > floor.value.version)
  }

  predicate Passes(v: AnchorVerdict) {
    v.WithinFloor? || v.AheadOfAnchor?
  }

  /** The verdict, stated over all floors: the first floor that does not admit the seal decides. */
  ghost predicate IsAnchorVerdict(v: AnchorVerdict, stored: Option<SealRow>, reading: Reading) {
    match reading
    case Unavailable => v == AnchorUnavailable
    case Answered(floors) =>
      match v
      case AnchorUnavailable => false
      case WithinFloor =>
        (forall f | f in floors :: Admits(f, stored)) && (forall f | f in floors :: !IsAheadOf(stored, f))
      case AheadOfAnchor =>
        (forall f | f in floors :: Admits(f, stored)) && (exists f | f in floors :: IsAheadOf(stored, f))
      case VersionBelowAnchor =>
        exists i :: FirstBelow(floors, stored, i)
      case AnchorMismatch =>
        exists i :: FirstMismatch(floors, stored, i)
  }

  function VerdictFrom(floors: seq<Option<Floor>>, stored: Option<SealRow>, ahead: bool): AnchorVerdict {
    if floors == [] then (if ahead then AheadOfAnchor else WithinFloor)
    else if Below(floors[0], stored) then VersionBelowAnchor
    else if !Admits(floors[0], stored) then AnchorMismatch
    else VerdictFrom(floors[1..], stored, ahead || IsAheadOf(stored, floors[0]))
  }

  function CompareWithFloors(stored: Option<SealRow>, reading: Reading): AnchorVerdict {
    match reading
    case Unavailable => AnchorUnavailable
    case Answered(floors) => VerdictFrom(floors, stored, false)
  }

  ghost predicate FirstBelow(floors: seq<Option<Floor>>, stored: Option<SealRow>, i: nat) {
    i < |floors| && Below(floors[i], stored) && forall j | 0 <= j < i :: Admits(floors[j], stored)
  }

  ghost predicate FirstMismatch(floors: seq<Option<Floor>>, stored: Option<SealRow>, i: nat) {
    && i < |floors| && !Admits(floors[i], stored) && !Below(floors[i], stored)
    && forall j | 0 <= j < i :: Admits(floors[j], stored)
  }

  lemma {:induction false} FailingVerdict(floors: seq<Option<Floor>>, stored: Option<SealRow>, ahead: bool)
    ensures VerdictFrom(floors, stored, ahead) == VersionBelowAnchor ==> exists i :: FirstBelow(floors, stored, i)
    ensures VerdictFrom(floors, stored, ahead) == AnchorMismatch ==> exists i :: FirstMismatch(floors, stored, i)
  {
    hide IsAheadOf;
    if floors != [] {
      if Below(floors[0], stored) {
        assert FirstBelow(floors, stored, 0);
      } else if !Admits(floors[0], stored) {
        assert FirstMismatch(floors, stored, 0);
      } else {
        var rest := floors[1..];
        FailingVerdict(rest, stored, ahead || IsAheadOf(stored, floors[0]));
        FailsLater(floors, stored);
      }
    }
  }

  lemma FailsLater(floors: seq<Option<Floor>>, stored: Option<SealRow>)
    requires floors != [] && Admits(floors[0], stored)
    ensures (exists i :: FirstBelow(floors[1..], stored, i)) ==> exists i :: FirstBelow(floors, stored, i)
    ensures (exists i :: FirstMismatch(floors[1..], stored, i)) ==> exists i :: FirstMismatch(floors, stored, i)
  {
    hide Admits, Below;
    assert floors == [floors[0]] + floors[1..];
    forall i: nat | FirstBelow(floors[1..], stored, i)
      ensures FirstBelow(floors, stored, i + 1)
    {
    }
    forall i: nat | FirstMismatch(floors[1..], stored, i)
      ensures FirstMismatch(floors, stored, i + 1)
    {
    }
  }

  lemma {:induction false} VerdictFromMeaning(floors: seq<Option<Floor>>, stored: Option<SealRow>, ahead: bool)
    ensures var v := VerdictFrom(floors, stored, ahead);
            && v != AnchorUnavailable
            && (Passes(v) <==> forall f | f in floors :: Admits(f, stored))
            && (v == AheadOfAnchor ==> ahead || exists f | f in floors :: IsAheadOf(stored, f))
            && (v == WithinFloor ==> !ahead && forall f | f in floors :: !IsAheadOf(stored, f))
  {
    if floors != [] {
      assert floors[0] in floors;
      if Admits(floors[0], stored) {
        hide Admits, IsAheadOf;
        var rest := floors[1..];
        VerdictFromMeaning(rest, stored, ahead || IsAheadOf(stored, floors[0]));
        assert floors == [floors[0]] + rest;
      }
    }
  }

  lemma CompareMeaning(stored: Option<SealRow>, reading: Reading)
    ensures IsAnchorVerdict(CompareWithFloors(stored, reading), stored, reading)
    ensures Passes(CompareWithFloors(stored, reading))
      <==> reading.Answered? && forall f | f in reading.floors :: Admits(f, stored)
  {
    if reading.Answered? {
      VerdictFromMeaning(reading.floors, stored, false);
      FailingVerdict(reading.floors, stored, false);
    }
  }

  /** The loop over the floors, which remembers only whether the seal was ahead of one. */
  method CompareWithAnchors(stored: Option<SealRow>, reading: Reading) returns (verdict: AnchorVerdict)
    ensures IsAnchorVerdict(verdict, stored, reading)
    ensures verdict == CompareWithFloors(stored, reading)
  {
    CompareMeaning(stored, reading);
    if reading.Unavailable? {
      return AnchorUnavailable;
    }
    var ahead := false;
    for i := 0 to |reading.floors|
      invariant VerdictFrom(reading.floors, stored, false) == VerdictFrom(reading.floors[i..], stored, ahead)
    {
      var floor := reading.floors[i];
      assert reading.floors[i..][1..] == reading.floors[i + 1..];
      if floor.None? {
        ahead := ahead || stored.Some?;
      } else {
        if stored.None? || stored.value.version < floor.value.version {
          return VersionBelowAnchor;
        }
        if stored.value.version == floor.value.version && stored.value.digest != floor.value.digest {
          return AnchorMismatch;
        }
        ahead := ahead || stored.value.version > floor.value.version;
      }
    }
    verdict := if ahead then AheadOfAnchor else WithinFloor;
  }

  /** Asking every anchor: one unreadable answer makes the whole reading unavailable. */
  method ConsultAnchors(answers: seq<Answer>) returns (reading: Reading)
    ensures reading.Unavailable? <==> exists a | a in answers :: DecodeAnswer(a).Unreadable?
    ensures reading.Answered? <==>
      forall a | a in answers :: a.NoFloor? || (a.Known? && 1 <= a.floor.version <= MAX_SAFE_INTEGER)
    ensures reading.Answered? ==> |reading.floors| == |answers|
    ensures reading.Answered? ==> forall i | 0 <= i < |answers| ::
      reading.floors[i] == if answers[i].Known? then Some(answers[i].floor) else None
    ensures reading.Answered? ==> forall f | f in reading.floors && f.Some? :: 1 <= f.value.version <= MAX_SAFE_INTEGER
  {
    var floors := [];
    for i := 0 to |answers|
      invariant |floors| == i
      invariant forall k | 0 <= k < i :: !DecodeAnswer(answers[k]).Unreadable?
      invariant forall k | 0 <= k < i :: floors[k] == if answers[k].Known? then Some(answers[k].floor) else None
    {
      match DecodeAnswer(answers[i])
      case Unreadable =>
        assert answers[i] in answers;
        assert !(answers[i].NoFloor? || (answers[i].Known? && 1 <= answers[i].floor.version <= MAX_SAFE_INTEGER));
        return Unavailable;
      case NoFloor => floors := floors + [None];
      case Known(floor) => floors := floors + [Some(floor)];
    }
    reading := Answered(floors);
  }

  // ---- a change

  datatype AttemptMove = AttemptMove(last: seq<byte>, to: int)
  datatype TokenMove = TokenMove(purpose: Purpose, last: seq<byte>)

  /** Which generations a change moves. */
  datatype Moves = Moves(session: bool, attempt: Option<AttemptMove>, token: Option<TokenMove>)

  const NO_MOVES := Moves(false, None, None)

  /** What a change decides on the verified read: whether it draws a new epoch, what it moves, the
      components it leaves, and whether it only stores the verified password again. Declines stands
      for a write that throws. */
  datatype Plan =
    | Declines
    | Plan(raise: bool, moves: Moves, after: CanonicalComponents, restoresPassword: bool)

  type Change = Read -> Plan

  /** The values the random draws of one transaction return. */
  datatype Draws = Draws(epoch: int, session: int, token: int)

  predicate IsDraw(v: int, current: int) {
    1 <= v < MAXIMUM_DRAW && v != current
  }

  function MovedGenerations(current: Generations, moves: Moves, draws: Draws): Generations {
    Generations(
      current.componentsVersion,
      if moves.session then draws.session else current.sessionGeneration,
      match moves.attempt case Some(m) => m.to case None => current.attemptGeneration,
      match moves.attempt case Some(m) => Some(m.last) case None => current.attemptLast,
      match moves.token
      case Some(m) => current.tokenGenerations.With(m.purpose, draws.token)
      case None => current.tokenGenerations,
      match moves.token case Some(m) => Some(m.last) case None => current.tokenLast)
  }

  predicate MovesAnything(m: Moves) {
    m.session || m.attempt.Some? || m.token.Some?
  }

  /** All components but the password are as they were, and the password keeps the session it was
      set by: only its hash and key version may differ. */
  predicate OnlyThePasswordHashMoved(before: CanonicalComponents, after: CanonicalComponents) {
    && before.password.Some? && after.password.Some?
    && before.password.value.setBySessionId == after.password.value.setBySessionId
    && after.(password := before.password) == before
  }

  predicate SignsInAsBefore(before: CanonicalComponents, after: CanonicalComponents) {
    before == after || OnlyThePasswordHashMoved(before, after)
  }

  function GenerationsOf(seal: Option<SealRow>): Generations {
    match seal case Some(row) => row.generations case None => FIRST_GENERATIONS
  }

  function EpochOf(seal: Option<SealRow>): int {
    match seal case Some(row) => row.sessionEpoch case None => 1
  }

  function VersionOf(seal: Option<SealRow>): int {
    match seal case Some(row) => row.version case None => 0
  }

  function ComponentsVersionAfter(read: Read, plan: Plan, version: int): int
    requires plan.Plan?
  {
    if read.seal.None? || plan.raise
       || !(read.components == plan.after
            || (plan.restoresPassword && OnlyThePasswordHashMoved(read.components, plan.after)))
    then version
    else GenerationsOf(read.seal).componentsVersion
  }

  function NextRow(read: Read, plan: Plan, draws: Draws, keyVersion: int): SealRow
    requires plan.Plan?
  {
    var version := VersionOf(read.seal) + 1;
    var epoch := if plan.raise then draws.epoch else EpochOf(read.seal);
    var moved := MovedGenerations(GenerationsOf(read.seal), plan.moves, draws)
                 .(componentsVersion := ComponentsVersionAfter(read, plan, version));
    var unsigned := SealRow(version, Forged(0), keyVersion, epoch, moved);
    unsigned.(digest := Mac(keyVersion, StateOf(read.userId, unsigned, plan.after)))
  }

  predicate IsDrawnFor(read: Read, plan: Plan, draws: Draws)
    requires plan.Plan?
  {
    && (plan.raise ==> IsDraw(draws.epoch, EpochOf(read.seal)))
    && (plan.moves.session ==> IsDraw(draws.session, GenerationsOf(read.seal).sessionGeneration))
    && (plan.moves.token.Some? ==>
          IsDraw(draws.token, GenerationsOf(read.seal).tokenGenerations.At(plan.moves.token.value.purpose)))
  }

  /** What a change's row moves, told by the values left: each is another one exactly where the plan
      moves it, and is what the plan and the draws say. */
  lemma ChangeMovesExactly(read: Read, plan: Plan, draws: Draws, keyVersion: int)
    requires plan.Plan? && IsDrawnFor(read, plan, draws)
    ensures var row := NextRow(read, plan, draws, keyVersion);
            var before, after := GenerationsOf(read.seal), row.generations;
            && (row.sessionEpoch != EpochOf(read.seal) <==> plan.raise)
            && (plan.raise ==> row.sessionEpoch == draws.epoch)
            && (after.sessionGeneration != before.sessionGeneration <==> plan.moves.session)
            && (plan.moves.session ==> after.sessionGeneration == draws.session)
            && (forall p: Purpose ::
                  after.tokenGenerations.At(p) != before.tokenGenerations.At(p)
                  <==> plan.moves.token.Some? && plan.moves.token.value.purpose == p)
            && after.tokenLast == (if plan.moves.token.Some? then Some(plan.moves.token.value.last) else before.tokenLast)
            && after.attemptGeneration
            == (if plan.moves.attempt.Some? then plan.moves.attempt.value.to else before.attemptGeneration)
            && after.attemptLast
            == (if plan.moves.attempt.Some? then Some(plan.moves.attempt.value.last) else before.attemptLast)
            && row.version == VersionOf(read.seal) + 1 && row.keyVersion == keyVersion
            && row.digest == Mac(keyVersion, StateOf(read.userId, row, plan.after))
  {
  }

  datatype Refusal =
    | BrokenState(verdict: Verdict)
    | BrokenAnchor(anchor: AnchorVerdict)
    | AccountMissing
    | VersionExhausted
    | KeyFailed
    | ChangeDeclined

  datatype Outcome =
    | Refused(reason: Refusal)
    | LeftUnsealed(after: CanonicalComponents)
    | Kept(row: SealRow, after: CanonicalComponents)
    | Sealed(row: SealRow, after: CanonicalComponents)

  predicate CanMac(keys: Keys) {
    IsStorable(keys.current) && keys.current in keys.ring && keys.ring[keys.current]
  }

  predicate KeepsTheSeal(keys: Keys, read: Read, plan: Plan)
    requires plan.Plan?
  {
    && read.seal.Some? && !plan.raise && !MovesAnything(plan.moves)
    && read.components == plan.after && read.seal.value.keyVersion == keys.current
  }

  /** Everything a sealing transaction decides once it holds the lock and has read the account. */
  function SealOutcome(
      keys: Keys, mode: Mode, leaveUnsealed: bool, read: Read, reading: Reading, change: Change, draws: Draws): Outcome
  {
    var verdict := CheckSecurityState(keys, read, mode);
    var anchor := CompareWithFloors(read.seal, reading);
    if verdict != Valid && verdict != Unsealed then Refused(BrokenState(verdict))
    else if !Passes(anchor) then Refused(BrokenAnchor(anchor))
    else
      var plan := change(read);
      if read.seal.None? && leaveUnsealed then
        if plan.Declines? then Refused(ChangeDeclined) else LeftUnsealed(plan.after)
      else if VersionOf(read.seal) >= MAX_SAFE_INTEGER then Refused(VersionExhausted)
      else if plan.Declines? then Refused(ChangeDeclined)
      else if KeepsTheSeal(keys, read, plan) then Kept(read.seal.value, plan.after)
      else if !CanMac(keys) then Refused(KeyFailed)
      else Sealed(NextRow(read, plan, draws, keys.current), plan.after)
  }

  /** The stored row is what the library would accept, told without the verdicts. */
  predicate Intact(keys: Keys, mode: Mode, read: Read) {
    match read.seal
    case None => mode.Migrating?
    case Some(row) =>
      && 1 <= row.keyVersion <= MAXIMUM_KEY_VERSION && row.keyVersion in keys.ring && keys.ring[row.keyVersion]
      && row.digest == Mac(row.keyVersion, StateOf(read.userId, row, read.components))
  }

  /** The change leaves everything as it is, under a seal of the current key. */
  predicate ChangesNothing(keys: Keys, read: Read, plan: Plan)
    requires plan.Plan?
  {
    && read.seal.Some? && read.seal.value.keyVersion == keys.current && read.components == plan.after
    && !plan.raise && !plan.moves.session && plan.moves.attempt.None? && plan.moves.token.None?
  }

  /** Exactly when a change goes on, and what it then leaves: the account unsealed where it may stay so,
      the very row where the change changes nothing, and a row of the current key otherwise. */
  lemma ChangeGoesOnExactly(
      keys: Keys, mode: Mode, leaveUnsealed: bool, read: Read, reading: Reading, change: Change, draws: Draws)
    ensures var outcome, plan := SealOutcome(keys, mode, leaveUnsealed, read, reading, change, draws), change(read);
            var stays := read.seal.None? && leaveUnsealed;
            && (!outcome.Refused? <==>
                  && Intact(keys, mode, read)
                  && reading.Answered? && (forall f | f in reading.floors :: Admits(f, read.seal))
                  && plan.Plan?
                  && (stays || (VersionOf(read.seal) < MAX_SAFE_INTEGER && (ChangesNothing(keys, read, plan) || CanMac(keys)))))
            && (outcome.LeftUnsealed? <==> !outcome.Refused? && stays)
            && (outcome.Kept? <==> !outcome.Refused? && !stays && ChangesNothing(keys, read, plan))
            && (outcome.Kept? ==> read.seal == Some(outcome.row))
            && (outcome.Kept? || outcome.Sealed? ==> outcome.row.keyVersion == keys.current)
            && (outcome.Sealed? ==> outcome.row.version <= MAX_SAFE_INTEGER)
            && (!outcome.Refused? ==> outcome.after == plan.after)
  {
    CompareMeaning(read.seal, reading);
    hide CompareWithFloors;
  }

  /** Which refusal: a broken state before an anchor, an anchor before an exhausted version. */
  lemma RefusalsInOrder(
      keys: Keys, mode: Mode, leaveUnsealed: bool, read: Read, reading: Reading, change: Change, draws: Draws)
    ensures var outcome := SealOutcome(keys, mode, leaveUnsealed, read, reading, change, draws);
            var admitted := reading.Answered? && forall f | f in reading.floors :: Admits(f, read.seal);
            var exhausted := VersionOf(read.seal) >= MAX_SAFE_INTEGER && !(read.seal.None? && leaveUnsealed);
            && (outcome.Refused? && outcome.reason.BrokenState? <==> !Intact(keys, mode, read))
            && (outcome.Refused? && outcome.reason.BrokenAnchor? <==> Intact(keys, mode, read) && !admitted)
            && (outcome == Refused(VersionExhausted) <==> Intact(keys, mode, read) && admitted && exhausted)
            && outcome != Refused(AccountMissing)
  {
    CompareMeaning(read.seal, reading);
    hide CompareWithFloors;
  }

  /** The verified read is exactly a state some digest was computed over. */
  lemma PassedReadIsItsDigest(
      keys: Keys, mode: Mode, leaveUnsealed: bool, read: Read, reading: Reading, change: Change, draws: Draws)
    requires !SealOutcome(keys, mode, leaveUnsealed, read, reading, change, draws).Refused?
    ensures read.seal.Some? ==>
      read.seal.value.digest == Mac(read.seal.value.keyVersion, StateOf(read.userId, read.seal.value, read.components))
    ensures read.seal.None? ==> mode.Migrating?
    ensures reading.Answered? && forall f | f in reading.floors :: Admits(f, read.seal)
  {
    CompareMeaning(read.seal, reading);
  }

  /** The components version stays exactly when the epoch is kept and the account signs in as
      before: with equal components, or with a new hash of the password where the change stores the
      verified one again. Anything else moves it to the new version. */
  lemma ComponentsVersionMeaning(read: Read, plan: Plan, draws: Draws, keyVersion: int)
    requires plan.Plan? && read.seal.Some?
    requires 1 <= read.seal.value.generations.componentsVersion <= read.seal.value.version
    ensures var row := NextRow(read, plan, draws, keyVersion);
            var previous := read.seal.value.generations.componentsVersion;
            && row.version == read.seal.value.version + 1
            && 1 <= row.generations.componentsVersion <= row.version
            && (row.generations.componentsVersion == previous
                <==> !plan.raise
                     && (read.components == plan.after
                         || (plan.restoresPassword && OnlyThePasswordHashMoved(read.components, plan.after))))
            && (row.generations.componentsVersion != previous ==> row.generations.componentsVersion == row.version)
            && (row.generations.componentsVersion == previous ==>
                  row.sessionEpoch == read.seal.value.sessionEpoch && SignsInAsBefore(read.components, plan.after))
  {
  }

  // ---- an administrator's reseal

  datatype ResealDraws = ResealDraws(epoch: int, session: int, attempt: int, tokens: TokenGenerations)

  predicate IsDrawnForReseal(read: Read, d: ResealDraws) {
    var g := GenerationsOf(read.seal);
    && IsDraw(d.epoch, EpochOf(read.seal)) && IsDraw(d.session, g.sessionGeneration)
    && IsDraw(d.attempt, g.attemptGeneration)
    && IsDraw(d.tokens.emailVerify, g.tokenGenerations.emailVerify)
    && IsDraw(d.tokens.passwordReset, g.tokenGenerations.passwordReset)
    && IsDraw(d.tokens.emailChange, g.tokenGenerations.emailChange)
    && IsDraw(d.tokens.magicLink, g.tokenGenerations.magicLink)
  }

  function HighestFloor(floors: seq<Option<Floor>>): (v: nat)
    ensures forall f | f in floors && f.Some? :: f.value.version <= v
    ensures v == 0 || exists f | f in floors && f.Some? :: f.value.version == v
  {
    if floors == [] then 0
    else
      var rest := HighestFloor(floors[1..]);
      if floors[0].Some? && floors[0].value.version > rest then floors[0].value.version else rest
  }

  function Max(a: int, b: int): int {
    if a > b then a else b
  }

  function GenerationsAfterReseal(version: int, d: ResealDraws): Generations {
    Generations(version, d.session, d.attempt, None, d.tokens, None)
  }

  function ResealedRow(read: Read, floor: nat, d: ResealDraws, keyVersion: int): SealRow {
    var version := Max(VersionOf(read.seal), floor) + 1;
    var g := GenerationsAfterReseal(version, d);
    var unsigned := SealRow(version, Forged(0), keyVersion, d.epoch, g);
    unsigned.(digest := Mac(keyVersion, StateOf(read.userId, unsigned, read.components)))
  }

  /** Nothing a writer may have planted survives: the epoch and every generation differ from those
      that were read, the rows that last moved them are forgotten, and the version is the lowest above
      the stored one and the floor. */
  ghost predicate ResealMoves(read: Read, floor: nat, row: SealRow) {
    var before, after := GenerationsOf(read.seal), row.generations;
    && row.sessionEpoch != EpochOf(read.seal) && after.sessionGeneration != before.sessionGeneration
    && after.attemptGeneration != before.attemptGeneration
    && (forall p: Purpose :: after.tokenGenerations.At(p) != before.tokenGenerations.At(p))
    && after.attemptLast.None? && after.tokenLast.None?
    && row.version > VersionOf(read.seal) && row.version > floor
    && (row.version == VersionOf(read.seal) + 1 || row.version == floor + 1)
    && after.componentsVersion == row.version
  }

  lemma ResealMovesEverything(read: Read, floor: nat, d: ResealDraws, keyVersion: int)
    requires IsDrawnForReseal(read, d)
    ensures ResealMoves(read, floor, ResealedRow(read, floor, d, keyVersion))
  {
  }

  /** None where the version is exhausted or the key cannot be used. */
  function ResealOutcome(keys: Keys, read: Read, floor: nat, d: ResealDraws): Option<SealRow> {
    if Max(VersionOf(read.seal), floor) >= MAX_SAFE_INTEGER || !CanMac(keys) then None
    else Some(ResealedRow(read, floor, d, keys.current))
  }

  // ---- a first seal at sign-up

  function CreatedRow(userId: UserId, c: CanonicalComponents, keyVersion: int): SealRow {
    var unsigned := SealRow(1, Forged(0), keyVersion, 1, FIRST_GENERATIONS);
    unsigned.(digest := Mac(keyVersion, StateOf(userId, unsigned, c)))
  }

  // ---- the rows a transaction works on

  datatype Written = RowWritten | RowConflict | RowChanged

  /** The compare-and-set columns: version, digest, key version and epoch as the read saw them. */
  predicate StillTheRow(stored: Option<SealRow>, read: SealRow) {
    && stored.Some? && stored.value.version == read.version && stored.value.digest == read.digest
    && stored.value.keyVersion == read.keyVersion && stored.value.sessionEpoch == read.sessionEpoch
  }

  class Store {
    var tables: map<UserId, Account>

    constructor ()
      ensures tables == map[]
    {
      tables := map[];
    }

    /** Inserts the first seal row or swaps the one the read saw; a row written past the lock since
        is never overwritten. */
    method WriteSealRow(read: Read, row: SealRow) returns (written: Written)
      requires read.userId in tables
      modifies this
      ensures written.RowWritten? <==>
        (if read.seal.None? then old(tables)[read.userId].seal.None?
         else StillTheRow(old(tables)[read.userId].seal, read.seal.value))
      ensures written.RowWritten? ==>
        var stored := old(tables)[read.userId].seal;
        match read.seal
        case None => stored.None?
        case Some(was) =>
          && stored.Some? && stored.value.version == was.version && stored.value.digest == was.digest
          && stored.value.keyVersion == was.keyVersion && stored.value.sessionEpoch == was.sessionEpoch
      ensures written.RowConflict? ==> read.seal.None?
      ensures written.RowChanged? ==> read.seal.Some?
      ensures written.RowWritten? ==>
        tables == old(tables)[read.userId := old(tables)[read.userId].(seal := Some(row))]
      ensures !written.RowWritten? ==> tables == old(tables)
    {
      var account := tables[read.userId];
      if read.seal.None? {
        if account.seal.Some? {
          return RowConflict;
        }
      } else if !StillTheRow(account.seal, read.seal.value) {
        return RowChanged;
      }
      tables := tables[read.userId := account.(seal := Some(row))];
      written := RowWritten;
    }

    /** One transaction with nothing written past the lock: read, verify, write, reseal, or refuse
        and roll back. */
    method SealUnderAccountLock(
        userId: UserId, keys: Keys, mode: Mode, leaveUnsealed: bool, reading: Reading, change: Change, draws: Draws)
        returns (outcome: Outcome)
      modifies this
      ensures userId !in old(tables) ==> outcome == Refused(AccountMissing) && tables == old(tables)
      ensures userId in old(tables) ==>
        outcome == SealOutcome(keys, mode, leaveUnsealed, ReadOf(userId, old(tables)[userId]), reading, change, draws)
      ensures userId in old(tables) ==>
        match outcome
        case Refused(_) => tables == old(tables)
        case LeftUnsealed(after) => tables == old(tables)[userId := Account(None, after)]
        case Kept(row, after) => tables == old(tables)[userId := Account(Some(row), after)]
        case Sealed(row, after) => tables == old(tables)[userId := Account(Some(row), after)]
    {
      if userId !in tables {
        return Refused(AccountMissing);
      }
      var read := ReadOf(userId, tables[userId]);
      var verdict := CheckSecurityState(keys, read, mode);
      if verdict != Valid && verdict != Unsealed {
        return Refused(BrokenState(verdict));
      }
      var anchor := CompareWithAnchors(read.seal, reading);
      if !Passes(anchor) {
        return Refused(BrokenAnchor(anchor));
      }
      var plan := change(read);
      if read.seal.None? && leaveUnsealed {
        if plan.Declines? {
          return Refused(ChangeDeclined);
        }
        tables := tables[userId := Account(None, plan.after)];
        return LeftUnsealed(plan.after);
      }
      if read.seal.Some? && read.seal.value.version >= MAX_SAFE_INTEGER {
        return Refused(VersionExhausted);
      }
      if plan.Declines? {
        return Refused(ChangeDeclined);
      }
      if !KeepsTheSeal(keys, read, plan) && !CanMac(keys) {
        return Refused(KeyFailed);
      }
      tables := tables[userId := Account(read.seal, plan.after)];
      if KeepsTheSeal(keys, read, plan) {
        return Kept(read.seal.value, plan.after);
      }
      var row := NextRow(read, plan, draws, keys.current);
      var _ := WriteSealRow(read, row);
      outcome := Sealed(row, plan.after);
    }

    /** The first seal of an account row the same transaction inserted. */
    method SealCreatedAccount(userId: UserId, keys: Keys) returns (outcome: Outcome)
      modifies this
      ensures outcome.Sealed? <==>
        userId in old(tables) && old(tables)[userId].seal.None? && CanMac(keys)
      ensures outcome.Sealed? ==>
        && outcome.row == CreatedRow(userId, old(tables)[userId].components, keys.current)
        && outcome.row.version == 1 && outcome.row.sessionEpoch == 1 && outcome.row.generations == FIRST_GENERATIONS
        && outcome.row.keyVersion == keys.current
        && outcome.row.digest == Mac(keys.current, StateOf(userId, outcome.row, old(tables)[userId].components))
        && tables == old(tables)[userId := old(tables)[userId].(seal := Some(outcome.row))]
      ensures !outcome.Sealed? ==> outcome.Refused? && tables == old(tables)
    {
      if userId !in tables {
        return Refused(AccountMissing);
      }
      var read := ReadOf(userId, tables[userId]);
      if read.seal.Some? {
        return Refused(BrokenState(SealMismatch));
      }
      if !CanMac(keys) {
        return Refused(KeyFailed);
      }
      var row := CreatedRow(userId, read.components, keys.current);
      var _ := WriteSealRow(read, row);
      outcome := Sealed(row, read.components);
    }

    /** An administrator's reseal checks nothing it seals and lands above the stored version and the
        highest floor, with every generation and the epoch drawn afresh. */
    method ResealUnderAccountLock(userId: UserId, keys: Keys, floor: nat, draws: ResealDraws)
        returns (row: Option<SealRow>)
      modifies this
      ensures row == if userId in old(tables)
                     then ResealOutcome(keys, ReadOf(userId, old(tables)[userId]), floor, draws) else None
      ensures row.Some? ==>
        && row.value.version > floor && row.value.version > VersionOf(old(tables)[userId].seal)
        && row.value.generations.componentsVersion == row.value.version
        && row.value.digest == Mac(keys.current, StateOf(userId, row.value, old(tables)[userId].components))
        && tables == old(tables)[userId := old(tables)[userId].(seal := row)]
      ensures row.Some? && IsDrawnForReseal(ReadOf(userId, old(tables)[userId]), draws) ==>
        ResealMoves(ReadOf(userId, old(tables)[userId]), floor, row.value) && row.value.sessionEpoch == draws.epoch
      ensures row.None? <==>
        || userId !in old(tables) || !CanMac(keys)
        || VersionOf(old(tables)[userId].seal) >= MAX_SAFE_INTEGER || floor >= MAX_SAFE_INTEGER
      ensures row.None? ==> tables == old(tables)
    {
      if userId !in tables {
        return None;
      }
      var read := ReadOf(userId, tables[userId]);
      if Max(VersionOf(read.seal), floor) >= MAX_SAFE_INTEGER || !CanMac(keys) {
        return None;
      }
      var resealed := ResealedRow(read, floor, draws, keys.current);
      var _ := WriteSealRow(read, resealed);
      row := Some(resealed);
    }
  }

  /** The version a computed row carries: one more than the read, and above every floor on a reseal. */
  lemma VersionsOfComputedRows(read: Read, plan: Plan, draws: Draws, floors: seq<Option<Floor>>, d: ResealDraws, k: int)
    requires plan.Plan?
    ensures NextRow(read, plan, draws, k).version == VersionOf(read.seal) + 1
    ensures ResealedRow(read, HighestFloor(floors), d, k).version > VersionOf(read.seal)
    ensures forall f | f in floors && f.Some? :: ResealedRow(read, HighestFloor(floors), d, k).version > f.value.version
    ensures !Below(Some(Floor(HighestFloor(floors), ResealedRow(read, HighestFloor(floors), d, k).digest)),
                   Some(ResealedRow(read, HighestFloor(floors), d, k)))
  {
  }

  /** What one run of the transaction body came to. */
  datatype Attempt<T> = Done(value: T) | Conflict

  /** A conflict on the first seal's insert is tried again, three times in all, and then refused. */
  method RunSealingTransaction<T>(work: nat -> Attempt<T>) returns (result: Option<T>, ghost ran: nat)
    ensures 1 <= ran <= ATTEMPTS
    ensures forall k | 1 <= k < ran :: work(k).Conflict?
    ensures result.Some? ==> work(ran) == Done(result.value)
    ensures result.None? <==> forall k | 1 <= k <= ATTEMPTS :: work(k).Conflict?
  {
    var attempt := 1;
    ran := 1;
    while true
      invariant 1 <= attempt <= ATTEMPTS && ran == attempt
      invariant forall k | 1 <= k < attempt :: work(k).Conflict?
      decreases ATTEMPTS - attempt
    {
      match work(attempt)
      case Done(value) => return Some(value), attempt;
      case Conflict =>
        if attempt >= ATTEMPTS {
          return None, attempt;
        }
        attempt := attempt + 1;
        ran := attempt;
    }
  }
}
