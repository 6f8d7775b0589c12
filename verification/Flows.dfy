/** Two concrete sealing changes: the confirmation of an address and the replacement of a password.
    Each seals exactly the rows it stores. */
module Flows {
  import opened Bytes
  import opened Options
  import opened Sealing
  import opened StateEncoding

  type SessionId = seq<byte>

  /** A redeemed one-time token: what it was for, its hash, and the generation it was issued under. */
  datatype SpentToken = SpentToken(purpose: Purpose, tokenSha256: seq<byte>, generation: Option<int>)

  /** The session a confirmation is made in, with the account it belongs to. */
  datatype ConfirmingSession = ConfirmingSession(userId: UserId, sessionId: SessionId)

  function MovesOfSpentToken(spent: SpentToken): Moves {
    Moves(false, None, Some(TokenMove(spent.purpose, spent.tokenSha256)))
  }

  /** A link written back after its redemption binds a generation the account has left. */
  predicate WrittenBack(spent: SpentToken, read: Read) {
    spent.generation != Some(GenerationsOf(read.seal).tokenGenerations.At(spent.purpose))
  }

  function SessionIdOnTheAccount(session: Option<ConfirmingSession>, userId: UserId): Option<SessionId> {
    if session.Some? && session.value.userId == userId then Some(session.value.sessionId) else None
  }

  predicate PasswordSetIn(c: CanonicalComponents, sessionId: Option<SessionId>) {
    sessionId.Some? && c.password.Some? && c.password.value.setBySessionId == sessionId
  }

  /** A first confirmation that removes a password is a mass revocation. */
  predicate ConfirmationRaises(c: CanonicalComponents, sessionId: Option<SessionId>) {
    !c.emailVerified && c.password.Some? && !PasswordSetIn(c, sessionId)
  }

  /** The components a confirmation seals, from the read and what the write reports. */
  function ConfirmedComponents(c: CanonicalComponents, newEmail: Option<Text>, passwordDeleted: bool): CanonicalComponents {
    c.(email := if newEmail.Some? then newEmail else c.email,
       emailVerified := true,
       password := if passwordDeleted then None else c.password)
  }

  function ConfirmationChange(
      spent: SpentToken, sessionId: Option<SessionId>, newEmail: Option<Text>, taken: bool): Change
  {
    (read: Read) =>
      if WrittenBack(spent, read) || (newEmail.Some? && taken) then Declines
      else
        var raises := ConfirmationRaises(read.components, sessionId);
        Plan(raises, MovesOfSpentToken(spent), ConfirmedComponents(read.components, newEmail, raises), false)
  }

  datatype ConfirmationWrite =
    | AddressTaken
    | Confirmed(first: bool, passwordDeleted: bool, revoked: set<SessionId>)

  // ---- replacing a password

  predicate UniqueCodes(codes: seq<RecoveryCode>) {
    forall i, j | 0 <= i < j < |codes| :: codes[i].codeHmac != codes[j].codeHmac
  }

  /** DELETE by account and hmac. */
  function WithoutHmac(codes: seq<RecoveryCode>, hmac: seq<byte>): seq<RecoveryCode> {
    if codes == [] then []
    else (if codes[0].codeHmac == hmac then [] else [codes[0]]) + WithoutHmac(codes[1..], hmac)
  }

  predicate HasCode(codes: seq<RecoveryCode>, hmac: seq<byte>) {
    exists i | 0 <= i < |codes| :: codes[i].codeHmac == hmac
  }

  /** One of the candidates named a stored code and that code alone is gone. */
  predicate OneCodeSpent(before: seq<RecoveryCode>, after: seq<RecoveryCode>, candidates: seq<seq<byte>>) {
    exists h | h in candidates :: HasCode(before, h) && after == WithoutHmac(before, h)
  }

  /** The filter over the codes that were read, which drops the first match and no other. */
  method WithoutTheSpentCode(codes: seq<RecoveryCode>, spent: Option<seq<byte>>) returns (left: seq<RecoveryCode>)
    requires UniqueCodes(codes)
    ensures left == if spent.None? then codes else WithoutHmac(codes, spent.value)
  {
    if spent.None? {
      return codes;
    }
    var removed := false;
    left := [];
    ghost var at := 0;
    assert codes[0..] == codes;
    for i := 0 to |codes|
      invariant left + WithoutHmac(codes[i..], spent.value) == WithoutHmac(codes, spent.value)
      invariant removed ==> at < i && codes[at].codeHmac == spent.value
    {
      OneCodeFiltered(codes, i, spent.value, left);
      if !removed && codes[i].codeHmac == spent.value {
        removed := true;
        at := i;
      } else {
        left := left + [codes[i]];
      }
    }
    assert left + [] == left;
  }

  lemma OneCodeFiltered(codes: seq<RecoveryCode>, i: nat, hmac: seq<byte>, left: seq<RecoveryCode>)
    requires i < |codes|
    ensures left + WithoutHmac(codes[i..], hmac)
      == (if codes[i].codeHmac == hmac then left else left + [codes[i]]) + WithoutHmac(codes[i + 1..], hmac)
  {
    assert codes[i..][1..] == codes[i + 1..];
  }

  /** With one row per hmac the deletion takes exactly one code and keeps the others in order. */
  lemma {:induction false} DeletionTakesOneCode(codes: seq<RecoveryCode>, hmac: seq<byte>, i: nat)
    requires UniqueCodes(codes) && i < |codes| && codes[i].codeHmac == hmac
    ensures WithoutHmac(codes, hmac) == codes[..i] + codes[i + 1..]
  {
    if i == 0 {
      NothingToDelete(codes[1..], hmac);
    } else {
      assert codes[1..][i - 1] == codes[i];
      DeletionTakesOneCode(codes[1..], hmac, i - 1);
      assert codes[..i] == [codes[0]] + codes[1..][..i - 1];
      assert codes[i + 1..] == codes[1..][i..];
    }
  }

  lemma {:induction false} NothingToDelete(codes: seq<RecoveryCode>, hmac: seq<byte>)
    requires !HasCode(codes, hmac)
    ensures WithoutHmac(codes, hmac) == codes
  {
    if codes != [] {
      assert codes[0].codeHmac != hmac;
      forall k | 0 <= k < |codes[1..]|
        ensures codes[1..][k].codeHmac != hmac
      {
        assert codes[1..][k] == codes[k + 1];
      }
      NothingToDelete(codes[1..], hmac);
      assert codes == [codes[0]] + codes[1..];
    }
  }

  /** What a reset holds before the lock: a redeemed link with the address it was sent to, or the
      hmacs a recovery code has under the account's pepper versions. */
  datatype Proof =
    | ByLink(spent: SpentToken, address: Option<Text>)
    | ByRecoveryCode(candidates: seq<seq<byte>>)

  /** What the proof came to under the lock. */
  datatype Claim = Claim(spentCode: Option<seq<byte>>, disabled: bool)

  predicate NamesACode(codes: multiset<RecoveryCode>, hmac: seq<byte>) {
    exists c | c in codes :: c.codeHmac == hmac
  }

  function FirstNamed(codes: multiset<RecoveryCode>, candidates: seq<seq<byte>>): Option<seq<byte>> {
    if candidates == [] then None
    else if NamesACode(codes, candidates[0]) then Some(candidates[0])
    else FirstNamed(codes, candidates[1..])
  }

  ghost function WithoutTheNamed(codes: multiset<RecoveryCode>, hmac: seq<byte>): multiset<RecoveryCode>
    requires NamesACode(codes, hmac)
  {
    var c :| c in codes && c.codeHmac == hmac;
    codes - multiset{c}
  }

  /** A link proves the account while it carries the account's address and generation, a recovery
      code while it is one of the account's. */
  predicate Proves(proof: Proof, read: Read) {
    match proof
    case ByLink(spent, address) => address.Some? && read.components.email == address && !WrittenBack(spent, read)
    case ByRecoveryCode(candidates) => FirstNamed(read.components.recoveryCodes, candidates).Some?
  }

  function MovesOf(proof: Proof): Moves {
    match proof
    case ByLink(spent, _) => MovesOfSpentToken(spent)
    case ByRecoveryCode(_) => NO_MOVES
  }

  /** A link that proved its account does not prove it again once its generation has moved. */
  lemma SpentLinkIsWrittenBack(proof: Proof, read: Read, after: Read, token: int)
    requires proof.ByLink? && Proves(proof, read)
    requires GenerationsOf(after.seal).tokenGenerations
          == GenerationsOf(read.seal).tokenGenerations.With(proof.spent.purpose, token)
    requires token != GenerationsOf(read.seal).tokenGenerations.At(proof.spent.purpose)
    ensures WrittenBack(proof.spent, after) && !Proves(proof, after)
  {
  }

  lemma {:induction false} FirstNamedIsNamed(codes: multiset<RecoveryCode>, candidates: seq<seq<byte>>)
    ensures var first := FirstNamed(codes, candidates);
            && (first.Some? ==> first.value in candidates && NamesACode(codes, first.value))
            && (first.None? ==> forall h | h in candidates :: !NamesACode(codes, h))
  {
    if candidates != [] && !NamesACode(codes, candidates[0]) {
      FirstNamedIsNamed(codes, candidates[1..]);
    }
  }

  lemma NamedIsStored(codes: seq<RecoveryCode>, hmac: seq<byte>)
    ensures NamesACode(multiset(codes), hmac) <==> HasCode(codes, hmac)
  {
    if HasCode(codes, hmac) {
      var i :| 0 <= i < |codes| && codes[i].codeHmac == hmac;
      assert codes[i] in multiset(codes);
    }
  }

  /** With one row per hmac the deletion by hmac leaves the codes without the named one. */
  lemma DeletionTakesTheNamed(codes: seq<RecoveryCode>, hmac: seq<byte>)
    requires UniqueCodes(codes) && NamesACode(multiset(codes), hmac)
    ensures multiset(WithoutHmac(codes, hmac)) == WithoutTheNamed(multiset(codes), hmac)
  {
    NamedIsStored(codes, hmac);
    var i: nat :| i < |codes| && codes[i].codeHmac == hmac;
    DeletionTakesOneCode(codes, hmac, i);
    OneTaken(codes, i);
    NamedOnce(codes, i);
  }

  lemma OneTaken<T>(s: seq<T>, i: nat)
    requires i < |s|
    ensures multiset(s[..i] + s[i + 1..]) == multiset(s) - multiset{s[i]}
  {
    assert s == s[..i] + [s[i]] + s[i + 1..];
  }

  lemma NamedOnce(codes: seq<RecoveryCode>, i: nat)
    requires UniqueCodes(codes) && i < |codes|
    ensures forall c | c in multiset(codes) && c.codeHmac == codes[i].codeHmac :: c == codes[i]
  {
    forall c | c in multiset(codes) && c.codeHmac == codes[i].codeHmac
      ensures c == codes[i]
    {
      assert c in codes;
    }
  }

  /** The filtered list is the codes the change plans. */
  lemma LeftIsPlanned(
      proof: Proof, codes: seq<RecoveryCode>, spent: Option<seq<byte>>, left: seq<RecoveryCode>)
    requires UniqueCodes(codes)
    requires spent == if proof.ByLink? then None else FirstNamed(multiset(codes), proof.candidates)
    requires proof.ByLink? || spent.Some?
    requires left == if spent.None? then codes else WithoutHmac(codes, spent.value)
    ensures multiset(left) == CodesLeft(proof, multiset(codes))
  {
    if proof.ByRecoveryCode? {
      FirstNamedIsNamed(multiset(codes), proof.candidates);
      DeletionTakesTheNamed(codes, spent.value);
    }
  }

  ghost function CodesLeft(proof: Proof, codes: multiset<RecoveryCode>): multiset<RecoveryCode> {
    if proof.ByLink? then codes
    else
      var first := FirstNamed(codes, proof.candidates);
      if first.Some? && NamesACode(codes, first.value) then WithoutTheNamed(codes, first.value) else codes
  }

  function ReplacedComponents(
      c: CanonicalComponents, codes: multiset<RecoveryCode>, password: Option<CanonicalPassword>): CanonicalComponents
  {
    var spent := c.(recoveryCodes := codes);
    if password.Some? then spent.(password := password) else spent
  }

  /** The password replacement as a change: it raises the epoch, moves the generation of a link, and
      leaves a disabled account its password. */
  ghost function ReplacementChange(proof: Proof, password: CanonicalPassword): Change {
    (read: Read) =>
      if !Proves(proof, read) then Declines
      else
        Plan(true, MovesOf(proof),
             ReplacedComponents(read.components, CodesLeft(proof, read.components.recoveryCodes),
                                if read.components.disabled then None else Some(password)),
             false)
  }

  /** An account left unsealed gives no session an authorisation, and a reset that would let an
      enabled account in without one is rolled back. */
  function AnsweredAs(outcome: Outcome, disabled: bool): Outcome {
    if outcome.LeftUnsealed? && !disabled then Refused(ChangeDeclined) else outcome
  }

  /** A refusal that is the change's own, or that of a key that cannot be used. */
  predicate RefusedForItself(keys: Keys, change: Change, read: Read, outcome: Outcome) {
    && (outcome == Refused(ChangeDeclined) <==> change(read).Declines?)
    && (outcome.Refused? ==> change(read).Declines? || (outcome.reason == KeyFailed && !CanMac(keys)))
  }

  function RefusalOfTheRead(keys: Keys, mode: Mode, read: Read, reading: Reading): Option<Refusal> {
    var verdict := CheckSecurityState(keys, read, mode);
    var anchor := CompareWithFloors(read.seal, reading);
    if verdict != Valid && verdict != Unsealed then Some(BrokenState(verdict))
    else if !Passes(anchor) then Some(BrokenAnchor(anchor))
    else if VersionOf(read.seal) >= MAX_SAFE_INTEGER then Some(VersionExhausted)
    else None
  }

  /** What is refused for the read is the reason every change of it is refused with, whether or not
      its account may be left unsealed; where nothing is, a change is refused only for its own sake
      or for want of a key. */
  lemma RefusalMeaning(
      keys: Keys, mode: Mode, leave: bool, read: Read, reading: Reading, change: Change, draws: Draws)
    ensures var refusal := RefusalOfTheRead(keys, mode, read, reading);
            var outcome := SealOutcome(keys, mode, leave, read, reading, change, draws);
            && (refusal.Some? ==> outcome == Refused(refusal.value))
            && (refusal.None? ==> RefusedForItself(keys, change, read, outcome))
            && (refusal.None? <==> (outcome.Refused? ==> outcome.reason == ChangeDeclined || outcome.reason == KeyFailed))
            && (refusal.None? && read.seal.None? ==> mode.Migrating?)
  {
    hide CompareWithFloors;
  }

  /** A change that is not refused for the read, does not decline and raises or moves something. */
  lemma OutcomeOfAMove(
      keys: Keys, mode: Mode, leave: bool, read: Read, reading: Reading, change: Change, draws: Draws)
    requires RefusedForItself(keys, change, read, SealOutcome(keys, mode, leave, read, reading, change, draws))
    requires var plan := change(read); plan.Plan? && (plan.raise || MovesAnything(plan.moves))
    ensures var plan := change(read);
            SealOutcome(keys, mode, leave, read, reading, change, draws) ==
              if read.seal.None? && leave then LeftUnsealed(plan.after)
              else if !CanMac(keys) then Refused(KeyFailed)
              else Sealed(NextRow(read, plan, draws, keys.current), plan.after)
  {
    hide CheckSecurityState, CompareWithFloors;
  }

  // ---- the rows of one account

  class AccountRows {
    const userId: UserId
    var seal: Option<SealRow>
    // the account's row and its one-to-one rows; the recovery codes are kept as the table holds them
    var rows: CanonicalComponents
    var codes: seq<RecoveryCode>
    var sessions: set<SessionId>

    constructor (userId: UserId, rows: CanonicalComponents)
      ensures this.userId == userId && seal.None? && this.rows == rows && codes == [] && sessions == {}
    {
      this.userId := userId;
      this.rows := rows;
      seal, codes, sessions := None, [], {};
    }

    function Stored(): CanonicalComponents
      reads this
    {
      rows.(recoveryCodes := multiset(codes))
    }

    function TheRead(): Read
      reads this
    {
      Read(userId, seal, Stored())
    }

    /** The statements of a confirmation, in their order. A taken address throws and the transaction
        is rolled back. */
    method ConfirmUnderTheLock(sessionId: Option<SessionId>, newEmail: Option<Text>, taken: bool)
        returns (written: ConfirmationWrite)
      modifies this`rows, this`sessions
      ensures written.AddressTaken? <==> newEmail.Some? && taken
      // the address and its confirmation, whatever becomes of the password
      ensures written.Confirmed? ==>
        rows == old(rows).(email := if newEmail.Some? then newEmail else old(rows).email, emailVerified := true,
                           password := rows.password)
      // an account confirmed before, one without a password and one whose password was set in this session keep
      // what they have; any other loses its password and every session
      ensures written.Confirmed? && (old(rows).emailVerified || old(rows).password.None?) ==>
        rows.password == old(rows).password && sessions == old(sessions)
      ensures written.Confirmed? && !old(rows).emailVerified && old(rows).password.Some? ==>
        if sessionId.Some? && old(rows).password.value.setBySessionId == sessionId
        then rows.password == old(rows).password && sessions == old(sessions)
        else rows.password.None? && sessions == {}
      ensures written.AddressTaken? ==> rows == old(rows) && sessions == old(sessions)
      ensures written.Confirmed? ==>
        && written.first == !old(rows).emailVerified
        && written.passwordDeleted == ConfirmationRaises(old(Stored()), sessionId)
        && Stored() == ConfirmedComponents(old(Stored()), newEmail, written.passwordDeleted)
        && (written.passwordDeleted <==> old(rows).password.Some? && rows.password.None?)
        && sessions == (if written.passwordDeleted then {} else old(sessions))
        && written.revoked == (if written.passwordDeleted then old(sessions) else {})
    {
      if newEmail.Some? && taken {
        return AddressTaken;
      }
      var first := !rows.emailVerified;
      rows := rows.(emailVerified := true);
      if newEmail.Some? {
        rows := rows.(email := newEmail);
      }
      if !first {
        return Confirmed(first, false, {});
      }
      var password := rows.password;
      var deleted := password.Some? && (sessionId.None? || password.value.setBySessionId != sessionId);
      if !deleted {
        return Confirmed(first, false, {});
      }
      rows := rows.(password := None);
      var revoked := sessions;
      sessions := {};
      written := Confirmed(first, true, revoked);
    }

    /** The whole confirmation: verify, refuse a link written back, write, seal. */
    method ConfirmAddress(
        keys: Keys, mode: Mode, reading: Reading, spent: SpentToken, session: Option<ConfirmingSession>,
        newEmail: Option<Text>, taken: bool, draws: Draws)
        returns (outcome: Outcome)
      modifies this`rows, this`sessions, this`seal
      // it is the sealing transaction of its change
      ensures outcome == SealOutcome(keys, mode, false, old(TheRead()), reading,
        ConfirmationChange(spent, SessionIdOnTheAccount(session, userId), newEmail, taken), draws)
      ensures outcome.Refused? ==> TheRead() == old(TheRead()) && sessions == old(sessions)
      // and it never keeps the old seal, because it always moves the token generation
      ensures outcome.Refused? || outcome.Sealed?
      // what it seals is what it stored
      ensures outcome.Sealed? ==> SealsItsRows(outcome, keys.current)
      // which accounts keep their password, sessions and epoch: those confirmed before, those without a password,
      // and those whose password was set in the confirming session, if that is a session of this account
      ensures outcome.Sealed? ==>
        var password := old(rows).password;
        if || old(rows).emailVerified || password.None?
           || (session.Some? && session.value.userId == userId
               && password.value.setBySessionId == Some(session.value.sessionId))
        then rows.password == password && sessions == old(sessions) && outcome.row.sessionEpoch == EpochOf(old(seal))
        else rows.password.None? && sessions == {} && outcome.row.sessionEpoch == draws.epoch
      ensures outcome.Sealed? ==>
        rows == old(rows).(email := if newEmail.Some? then newEmail else old(rows).email, emailVerified := true,
                           password := rows.password)
      // the link is refused once the account has left its generation, and leaves it behind itself
      ensures spent.generation != Some(GenerationsOf(old(seal)).tokenGenerations.At(spent.purpose)) ==> outcome.Refused?
      ensures outcome.Sealed? ==>
        && outcome.row.generations.tokenGenerations == GenerationsOf(old(seal)).tokenGenerations.With(spent.purpose, draws.token)
        && outcome.row.generations.tokenLast == Some(spent.tokenSha256)
      ensures outcome.Sealed? && draws.token != GenerationsOf(old(seal)).tokenGenerations.At(spent.purpose)
        ==> WrittenBack(spent, TheRead())
      ensures newEmail.Some? && taken ==> outcome.Refused?
      // the epoch is drawn anew exactly when the password row goes, and then every session goes
      ensures outcome.Sealed? ==>
        var raised := ConfirmationRaises(old(Stored()), SessionIdOnTheAccount(session, userId));
        && (raised <==> old(rows).password.Some? && rows.password.None?)
        && outcome.row.sessionEpoch == (if raised then draws.epoch else EpochOf(old(seal)))
        && sessions == (if raised then {} else old(sessions))
    {
      hide SealOutcome, RefusalOfTheRead;
      var read := TheRead();
      var sessionId := SessionIdOnTheAccount(session, userId);
      var change := ConfirmationChange(spent, sessionId, newEmail, taken);
      var refusal := RefusalBeforeWriting(keys, mode, reading);
      RefusalMeaning(keys, mode, false, read, reading, change, draws);
      if refusal.Some? {
        return Refused(refusal.value);
      }
      if WrittenBack(spent, read) || (newEmail.Some? && taken) {
        return Refused(ChangeDeclined);
      }
      OutcomeOfAMove(keys, mode, false, read, reading, change, draws);
      if !CanMac(keys) {
        return Refused(KeyFailed);
      }
      var written := ConfirmUnderTheLock(sessionId, newEmail, taken);
      assert change(read) == Plan(written.passwordDeleted, MovesOfSpentToken(spent), Stored(), false);
      outcome := SealPlan(read, change(read), draws, keys.current);
    }

    ghost predicate SealsItsRows(outcome: Outcome, keyVersion: int)
      requires outcome.Sealed?
      reads this
    {
      && seal == Some(outcome.row) && outcome.after == Stored()
      && outcome.row.digest == Mac(keyVersion, StateOf(userId, outcome.row, Stored()))
    }

    /** What is refused before anything is written: a broken state, a broken anchor, an exhausted
        version. */
    method RefusalBeforeWriting(keys: Keys, mode: Mode, reading: Reading) returns (refusal: Option<Refusal>)
      ensures refusal == RefusalOfTheRead(keys, mode, TheRead(), reading)
    {
      var verdict := CheckSecurityState(keys, TheRead(), mode);
      if verdict != Valid && verdict != Unsealed {
        return Some(BrokenState(verdict));
      }
      var anchor := CompareWithAnchors(seal, reading);
      if !Passes(anchor) {
        return Some(BrokenAnchor(anchor));
      }
      refusal := if VersionOf(seal) >= MAX_SAFE_INTEGER then Some(VersionExhausted) else None;
    }

    /** Seals what the plan leaves. */
    method SealPlan(read: Read, plan: Plan, draws: Draws, keyVersion: int) returns (outcome: Outcome)
      requires plan.Plan? && read.userId == userId && plan.after == Stored()
      modifies this`seal
      ensures outcome == Sealed(NextRow(read, plan, draws, keyVersion), plan.after)
      ensures SealsItsRows(outcome, keyVersion)
      ensures outcome.row.version == VersionOf(read.seal) + 1
      ensures outcome.row.sessionEpoch == if plan.raise then draws.epoch else EpochOf(read.seal)
      ensures plan.raise ==> outcome.row.generations.componentsVersion == outcome.row.version
    {
      var row := NextRow(read, plan, draws, keyVersion);
      seal := Some(row);
      outcome := Sealed(row, plan.after);
    }

    /** Consumes the first candidate that names a stored code. */
    method ConsumeCode(candidates: seq<seq<byte>>) returns (spent: Option<seq<byte>>)
      modifies this`codes
      ensures spent == FirstNamed(multiset(old(codes)), candidates)
      ensures spent.None? ==> codes == old(codes) && forall h | h in candidates :: !HasCode(old(codes), h)
      ensures spent.Some? ==>
        spent.value in candidates && HasCode(old(codes), spent.value) && codes == WithoutHmac(old(codes), spent.value)
    {
      FirstNamedIsNamed(multiset(codes), candidates);
      assert candidates[0..] == candidates;
      for i := 0 to |candidates|
        invariant codes == old(codes)
        invariant forall k | 0 <= k < i :: !HasCode(codes, candidates[k])
        invariant FirstNamed(multiset(codes), candidates) == FirstNamed(multiset(codes), candidates[i..])
      {
        NamedIsStored(codes, candidates[i]);
        assert candidates[i..][1..] == candidates[i + 1..];
        if HasCode(codes, candidates[i]) {
          codes := WithoutHmac(codes, candidates[i]);
          return Some(candidates[i]);
        }
      }
      spent := None;
    }

    /** The claim of a reset: a link is held against the account's address and generation, a recovery
        code is consumed. */
    method ClaimUnderTheLock(proof: Proof) returns (claim: Option<Claim>)
      requires UniqueCodes(codes)
      modifies this`codes
      ensures claim.Some? <==> Proves(proof, old(TheRead()))
      ensures claim.Some? <==>
        match proof
        case ByLink(spent, address) =>
          && address.Some? && old(rows).email == address
          && spent.generation == Some(GenerationsOf(seal).tokenGenerations.At(spent.purpose))
        case ByRecoveryCode(candidates) => exists h | h in candidates :: HasCode(old(codes), h)
      ensures claim.Some? ==> claim.value.disabled == rows.disabled
      ensures claim.Some? && proof.ByLink? ==> claim.value.spentCode.None?
      ensures claim.Some? && proof.ByRecoveryCode? ==>
        && claim.value.spentCode == FirstNamed(multiset(old(codes)), proof.candidates)
        && OneCodeSpent(old(codes), codes, proof.candidates)
        && codes == WithoutHmac(old(codes), claim.value.spentCode.value)
      ensures claim.None? || proof.ByLink? ==> codes == old(codes)
    {
      match proof
      case ByLink(spent, address) =>
        if address.None? || rows.email != address {
          return None;
        }
        if WrittenBack(spent, TheRead()) {
          return None;
        }
        claim := Some(Claim(None, rows.disabled));
      case ByRecoveryCode(candidates) =>
        var consumed := ConsumeCode(candidates);
        if consumed.None? {
          return None;
        }
        claim := Some(Claim(consumed, rows.disabled));
    }

    /** The write of a password replacement: the claim and, unless the account is disabled, every
        session revoked and the password stored as set by the new session. What `after` computes
        from the rows that were read is what is stored, and what the change plans. */
    method ReplaceUnderTheLock(proof: Proof, password: CanonicalPassword)
        returns (claim: Option<Claim>, after: CanonicalComponents)
      requires UniqueCodes(codes)
      modifies this`codes, this`rows, this`sessions
      ensures after == Stored()
      ensures ReplacementChange(proof, password)(old(TheRead()))
        == if claim.None? then Declines else Plan(true, MovesOf(proof), after, false)
      ensures claim.None? ==> rows == old(rows) && codes == old(codes) && sessions == old(sessions)
      ensures claim.Some? ==>
        && claim.value.disabled == old(rows).disabled
        && (if proof.ByLink? then codes == old(codes) else OneCodeSpent(old(codes), codes, proof.candidates))
        && rows == (if claim.value.disabled then old(rows) else old(rows).(password := Some(password)))
        && sessions == (if claim.value.disabled then old(sessions) else {})
    {
      hide CodesLeft, WithoutHmac, FirstNamed, UniqueCodes, OneCodeSpent;
      var read := Stored();
      var readCodes := codes;
      after := read;
      claim := ClaimUnderTheLock(proof);
      if claim.None? {
        return;
      }
      var left := WithoutTheSpentCode(readCodes, claim.value.spentCode);
      LeftIsPlanned(proof, readCodes, claim.value.spentCode, left);
      if rows.disabled {
        after := ReplacedComponents(read, multiset(left), None);
      } else {
        sessions := {};
        rows := rows.(password := Some(password));
        after := ReplacedComponents(read, multiset(left), Some(password));
      }
    }

    /** A reset, as one transaction, by a link or by a recovery code. The link proves its account, so
        an unsealed one is given its first seal; with a recovery code an unsealed account is left
        unsealed. */
    method ReplacePassword(
        keys: Keys, mode: Mode, reading: Reading, proof: Proof, phcSha256: seq<byte>,
        passwordKeyVersion: int, sessionId: SessionId, draws: Draws)
        returns (outcome: Outcome, issued: bool)
      requires UniqueCodes(codes)
      modifies this`codes, this`rows, this`sessions, this`seal
      // it is the sealing transaction of its change, but for the roll back of an unsealed account
      ensures var password := CanonicalPassword(phcSha256, passwordKeyVersion, Some(sessionId));
              outcome == AnsweredAs(
                SealOutcome(keys, mode, proof.ByRecoveryCode?, old(TheRead()), reading,
                            ReplacementChange(proof, password), draws),
                old(rows).disabled)
      ensures outcome.Refused? ==> rows == old(rows) && seal == old(seal) && sessions == old(sessions) && codes == old(codes)
      ensures !outcome.Kept?
      // what it seals is what it stored, under a new epoch and a new components version
      ensures outcome.Sealed? ==>
        && SealsItsRows(outcome, keys.current)
        && outcome.row.sessionEpoch == draws.epoch && outcome.row.version == VersionOf(old(seal)) + 1
        && outcome.row.generations.componentsVersion == outcome.row.version
      // a first seal is given to a proven account alone
      ensures outcome.Sealed? && old(seal).None? ==> proof.ByLink? && mode.Migrating?
      ensures outcome.LeftUnsealed? ==>
        && old(rows).disabled && mode.Migrating? && proof.ByRecoveryCode? && seal.None? && old(seal).None?
      // a link moves the generation of its purpose and no other, so that written back it is refused
      ensures outcome.Sealed? ==>
        outcome.row.generations.tokenGenerations ==
          if proof.ByLink? then GenerationsOf(old(seal)).tokenGenerations.With(proof.spent.purpose, draws.token)
          else GenerationsOf(old(seal)).tokenGenerations
      ensures outcome.Sealed? && proof.ByLink? ==> outcome.row.generations.tokenLast == Some(proof.spent.tokenSha256)
      ensures outcome.Sealed? && proof.ByLink?
              && draws.token != GenerationsOf(old(seal)).tokenGenerations.At(proof.spent.purpose)
        ==> !Proves(proof, TheRead())
      // a link takes no code; with a recovery code exactly one is gone, and it was one of the candidates
      ensures !outcome.Refused? ==>
        if proof.ByLink? then codes == old(codes) else OneCodeSpent(old(codes), codes, proof.candidates)
      // an enabled account is left with the new password and the new session alone; a disabled one
      // keeps both, and its proof stays spent
      ensures issued <==> outcome.Sealed? && !old(rows).disabled
      ensures rows ==
        if issued then old(rows).(password := Some(CanonicalPassword(phcSha256, passwordKeyVersion, Some(sessionId))))
        else old(rows)
      ensures sessions == if issued then {sessionId} else old(sessions)
    {
      hide SealOutcome, RefusalOfTheRead, Proves, CodesLeft, ReplacedComponents, OneCodeSpent;
      var read := TheRead();
      var password := CanonicalPassword(phcSha256, passwordKeyVersion, Some(sessionId));
      var refusal := RefusalBeforeWriting(keys, mode, reading);
      RefusalMeaning(keys, mode, proof.ByRecoveryCode?, read, reading, ReplacementChange(proof, password), draws);
      if refusal.Some? {
        return Refused(refusal.value), false;
      }
      var rowsBefore, codesBefore, sessionsBefore := rows, codes, sessions;
      var claim, after := ReplaceUnderTheLock(proof, password);
      if claim.None? {
        return Refused(ChangeDeclined), false;
      }
      OutcomeOfAMove(keys, mode, proof.ByRecoveryCode?, read, reading, ReplacementChange(proof, password), draws);
      if seal.None? && proof.ByRecoveryCode? && claim.value.disabled {
        return LeftUnsealed(after), false;
      }
      var unsealed := seal.None? && proof.ByRecoveryCode?;
      if unsealed || !CanMac(keys) {
        rows, codes, sessions := rowsBefore, codesBefore, sessionsBefore;
        return Refused(if unsealed then ChangeDeclined else KeyFailed), false;
      }
      outcome := SealPlan(read, Plan(true, MovesOf(proof), after, false), draws, keys.current);
      issued := false;
      if !claim.value.disabled {
        issued := IssueUnder(outcome.row.generations.componentsVersion, outcome.row.sessionEpoch, sessionId);
      }
      if proof.ByLink? && draws.token != GenerationsOf(read.seal).tokenGenerations.At(proof.spent.purpose) {
        SpentLinkIsWrittenBack(proof, read, TheRead(), draws.token);
      }
    }

    /** A session is inserted only while the seal row still holds what authorised it. */
    method IssueUnder(componentsVersion: int, sessionEpoch: int, sessionId: SessionId) returns (inserted: bool)
      modifies this`sessions
      ensures inserted <==>
        seal.Some? && seal.value.generations.componentsVersion == componentsVersion && seal.value.sessionEpoch == sessionEpoch
      ensures sessions == old(sessions) + if inserted then {sessionId} else {}
    {
      inserted := seal.Some? && seal.value.generations.componentsVersion == componentsVersion
                  && seal.value.sessionEpoch == sessionEpoch;
      if inserted {
        sessions := sessions + {sessionId};
      }
    }
  }
}
