/** Tokens and attempts that take effect at most once, although their rows can be written back. */
module SingleUse {
  import opened Bytes
  import opened Options
  import opened Sealing
  import opened StateEncoding

  type Hash = seq<byte>

  /** What a one-time token's row says, all of it under the row's MAC. */
  datatype TokenRow = TokenRow(purpose: Purpose, owner: UserId, generation: int)

  /** A pending authentication's row: whose it is, and the attempt generation it was last booked to. */
  datatype PendingRow = PendingRow(owner: UserId, generation: int)

  /** A booking of one row in one of its states. */
  datatype Booking = Booking(hash: Hash, row: PendingRow)

  /** Sealed accounts by their generations, the rows as anyone may have left them, the rows the
      library signed, and what has taken effect so far. */
  datatype World = World(
    accounts: map<UserId, Generations>,
    tokens: map<Hash, TokenRow>, issued: map<Hash, TokenRow>, redeemed: seq<Hash>,
    pending: map<Hash, PendingRow>, signed: set<Booking>, booked: seq<Booking>,
    left: set<(UserId, Option<Purpose>, int)>)

  datatype Step =
    | Issue(hash: Hash, purpose: Purpose, owner: UserId)
    | Redeem(hash: Hash, purpose: Purpose, draws: Draws)
    | Begin(pendingHash: Hash, pendingOwner: UserId)
    | Book(bookedHash: Hash, to: int)
    | Revoke(user: UserId, revokeDraws: Draws)
    | Reseal(resealed: UserId, version: int, resealDraws: ResealDraws)
    | WriteBack(tokens: map<Hash, TokenRow>, pending: map<Hash, PendingRow>)

  // ---- what a redemption checks and moves

  /** The row is the library's own and binds the generation the account is at. */
  predicate TakesEffect(w: World, h: Hash, purpose: Purpose) {
    && h in w.tokens && h in w.issued && w.tokens[h] == w.issued[h]
    && w.tokens[h].purpose == purpose && w.tokens[h].owner in w.accounts
    && w.tokens[h].generation == w.accounts[w.tokens[h].owner].tokenGenerations.At(purpose)
  }

  /** The token could still be redeemed if its row were put back as it was issued. */
  predicate Outstanding(w: World, h: Hash) {
    && h in w.issued && w.issued[h].owner in w.accounts
    && w.issued[h].generation == w.accounts[w.issued[h].owner].tokenGenerations.At(w.issued[h].purpose)
  }

  predicate BookingCounts(w: World, h: Hash) {
    && h in w.pending && Booking(h, w.pending[h]) in w.signed && w.pending[h].owner in w.accounts
    && w.pending[h].generation == w.accounts[w.pending[h].owner].attemptGeneration
  }

  function TokenMoves(h: Hash, purpose: Purpose): Moves {
    Moves(false, None, Some(TokenMove(purpose, h)))
  }

  function AttemptMoves(h: Hash, to: int): Moves {
    Moves(false, Some(AttemptMove(h, to)), None)
  }

  /** The assumption on the draws: a value the account has left is never drawn again. */
  predicate FreshToken(w: World, u: UserId, purpose: Purpose, v: int)
    requires u in w.accounts
  {
    v != w.accounts[u].tokenGenerations.At(purpose) && (u, Some(purpose), v) !in w.left
  }

  predicate FreshAttempt(w: World, u: UserId, v: int)
    requires u in w.accounts
  {
    v != w.accounts[u].attemptGeneration && (u, None, v) !in w.left
  }

  ghost predicate Enabled(w: World, s: Step) {
    match s
    case Issue(h, _, owner) => h !in w.issued && owner in w.accounts
    case Redeem(h, purpose, draws) =>
      TakesEffect(w, h, purpose) ==> FreshToken(w, w.tokens[h].owner, purpose, draws.token)
    case Begin(h, owner) => owner in w.accounts && forall b | b in w.signed :: b.hash != h
    case Book(h, to) => BookingCounts(w, h) ==> FreshAttempt(w, w.pending[h].owner, to)
    case Revoke(u, _) => u in w.accounts
    case Reseal(u, _, d) =>
      && u in w.accounts && FreshAttempt(w, u, d.attempt)
      && FreshToken(w, u, EmailVerify, d.tokens.emailVerify) && FreshToken(w, u, PasswordReset, d.tokens.passwordReset)
      && FreshToken(w, u, EmailChange, d.tokens.emailChange) && FreshToken(w, u, MagicLink, d.tokens.magicLink)
    case WriteBack(_, _) => true
  }

  function LeavingToken(w: World, u: UserId, purpose: Purpose): (UserId, Option<Purpose>, int)
    requires u in w.accounts
  {
    (u, Some(purpose), w.accounts[u].tokenGenerations.At(purpose))
  }

  function LeavingAttempt(w: World, u: UserId): (UserId, Option<Purpose>, int)
    requires u in w.accounts
  {
    (u, None, w.accounts[u].attemptGeneration)
  }

  function Apply(w: World, s: Step): World
    requires s.Issue? ==> s.owner in w.accounts
    requires s.Begin? ==> s.pendingOwner in w.accounts
    requires s.Revoke? ==> s.user in w.accounts
    requires s.Reseal? ==> s.resealed in w.accounts
  {
    match s
    case Issue(h, purpose, owner) =>
      var row := TokenRow(purpose, owner, w.accounts[owner].tokenGenerations.At(purpose));
      w.(tokens := w.tokens[h := row], issued := w.issued[h := row])
    case Redeem(h, purpose, draws) =>
      if !TakesEffect(w, h, purpose) then w
      else
        var u := w.tokens[h].owner;
        w.(tokens := w.tokens - {h}, redeemed := w.redeemed + [h],
           left := w.left + {LeavingToken(w, u, purpose)},
           accounts := w.accounts[u := MovedGenerations(w.accounts[u], TokenMoves(h, purpose), draws)])
    case Begin(h, owner) =>
      var row := PendingRow(owner, w.accounts[owner].attemptGeneration);
      w.(pending := w.pending[h := row], signed := w.signed + {Booking(h, row)})
    case Book(h, to) =>
      if !BookingCounts(w, h) then w
      else
        var row := w.pending[h];
        var next := row.(generation := to);
        w.(pending := w.pending[h := next], signed := w.signed + {Booking(h, next)},
           booked := w.booked + [Booking(h, row)], left := w.left + {LeavingAttempt(w, row.owner)},
           accounts := w.accounts[row.owner := MovedGenerations(w.accounts[row.owner], AttemptMoves(h, to), Draws(0, 0, 0))])
    case Revoke(u, draws) =>
      w.(accounts := w.accounts[u := MovedGenerations(w.accounts[u], Moves(true, None, None), draws)])
    case Reseal(u, version, d) =>
      w.(accounts := w.accounts[u := GenerationsAfterReseal(version, d)],
         left := w.left + {LeavingAttempt(w, u), LeavingToken(w, u, EmailVerify), LeavingToken(w, u, PasswordReset),
                           LeavingToken(w, u, EmailChange), LeavingToken(w, u, MagicLink)})
    case WriteBack(tokens, pending) => w.(tokens := tokens, pending := pending)
  }

  ghost predicate Init(w: World) {
    w.issued == map[] && w.redeemed == [] && w.signed == {} && w.booked == [] && w.left == {}
  }

  ghost predicate Run(worlds: seq<World>, steps: seq<Step>) {
    && |worlds| == |steps| + 1 && Init(worlds[0])
    && forall i | 0 <= i < |steps| :: Enabled(worlds[i], steps[i]) && worlds[i + 1] == Apply(worlds[i], steps[i])
  }

  // ---- the invariant

  /** The generation a row binds is the account's own or one it has left, and no account is at a
      generation it has left. */
  ghost predicate CurrentIsNotLeft(w: World) {
    forall u | u in w.accounts :: NotLeftAt(w, u)
  }

  ghost predicate NotLeftAt(w: World, u: UserId)
    requires u in w.accounts
  {
    LeavingAttempt(w, u) !in w.left && forall p :: LeavingToken(w, u, p) !in w.left
  }

  /** A step that moves one account and leaves only values of that account behind. */
  lemma OthersStay(w: World, v: World, u: UserId)
    requires CurrentIsNotLeft(w) && u in w.accounts && v.accounts.Keys == w.accounts.Keys
    requires forall x | x in w.accounts && x != u :: v.accounts[x] == w.accounts[x]
    requires forall t | t in v.left :: t in w.left || t.0 == u
    requires NotLeftAt(v, u)
    ensures CurrentIsNotLeft(v)
  {
    forall x | x in v.accounts
      ensures NotLeftAt(v, x)
    {
      if x != u {
        assert NotLeftAt(w, x);
        assert LeavingAttempt(v, x) == LeavingAttempt(w, x);
        forall p
          ensures LeavingToken(v, x, p) !in v.left
        {
          assert LeavingToken(v, x, p) == LeavingToken(w, x, p);
        }
      }
    }
  }

  ghost predicate RedeemedAreLeft(w: World) {
    forall i | 0 <= i < |w.redeemed| ::
      && w.redeemed[i] in w.issued
      && var row := w.issued[w.redeemed[i]];
         (row.owner, Some(row.purpose), row.generation) in w.left
  }

  ghost predicate BookedAreLeft(w: World) {
    forall i | 0 <= i < |w.booked| :: (w.booked[i].row.owner, None, w.booked[i].row.generation) in w.left
  }

  ghost predicate OnceEach(w: World) {
    && (forall i, j | 0 <= i < j < |w.redeemed| :: w.redeemed[i] != w.redeemed[j])
    && (forall i, j | 0 <= i < j < |w.booked| :: w.booked[i] != w.booked[j])
  }

  ghost predicate Spent(w: World) {
    CurrentIsNotLeft(w) && RedeemedAreLeft(w) && BookedAreLeft(w) && OnceEach(w)
  }

  lemma OtherPurposesStay(t: TokenGenerations, p: Purpose, q: Purpose, v: int)
    ensures t.With(p, v).At(q) == if p == q then v else t.At(q)
  {
  }

  lemma RedeemKeepsSpent(w: World, h: Hash, purpose: Purpose, draws: Draws)
    requires Spent(w) && Enabled(w, Redeem(h, purpose, draws)) && TakesEffect(w, h, purpose)
    ensures Spent(Apply(w, Redeem(h, purpose, draws)))
  {
    var v := Apply(w, Redeem(h, purpose, draws));
    var u := w.tokens[h].owner;
    assert NotLeftAt(w, u);
    assert LeavingAttempt(v, u) == LeavingAttempt(w, u);
    forall q
      ensures LeavingToken(v, u, q) !in v.left
    {
      OtherPurposesStay(w.accounts[u].tokenGenerations, purpose, q, draws.token);
      assert LeavingToken(w, u, q) !in w.left;
    }
    OthersStay(w, v, u);
    assert forall i | 0 <= i < |w.redeemed| :: w.redeemed[i] != h by {
      assert LeavingToken(w, u, purpose) !in w.left;
    }
  }

  lemma BookKeepsSpent(w: World, h: Hash, to: int)
    requires Spent(w) && Enabled(w, Book(h, to)) && BookingCounts(w, h)
    ensures Spent(Apply(w, Book(h, to)))
  {
    var v := Apply(w, Book(h, to));
    var u := w.pending[h].owner;
    assert NotLeftAt(w, u);
    assert LeavingAttempt(v, u) == (u, None, to);
    forall q
      ensures LeavingToken(v, u, q) !in v.left
    {
      assert LeavingToken(v, u, q) == LeavingToken(w, u, q);
    }
    OthersStay(w, v, u);
    assert forall i | 0 <= i < |w.booked| :: w.booked[i] != Booking(h, w.pending[h]) by {
      assert LeavingAttempt(w, u) !in w.left;
    }
  }

  lemma ResealKeepsSpent(w: World, u: UserId, version: int, d: ResealDraws)
    requires Spent(w) && Enabled(w, Reseal(u, version, d))
    ensures Spent(Apply(w, Reseal(u, version, d)))
  {
    var v := Apply(w, Reseal(u, version, d));
    forall q
      ensures LeavingToken(v, u, q) !in v.left
    {
      assert LeavingToken(v, u, q) == (u, Some(q), d.tokens.At(q));
      assert FreshToken(w, u, q, d.tokens.At(q));
    }
    OthersStay(w, v, u);
  }

  lemma RevokeKeepsSpent(w: World, u: UserId, draws: Draws)
    requires Spent(w) && Enabled(w, Revoke(u, draws))
    ensures Spent(Apply(w, Revoke(u, draws)))
  {
    var v := Apply(w, Revoke(u, draws));
    assert NotLeftAt(w, u);
    forall q
      ensures LeavingToken(v, u, q) !in v.left
    {
      assert LeavingToken(v, u, q) == LeavingToken(w, u, q);
    }
    OthersStay(w, v, u);
  }

  /** A step that moves no account and takes nothing into effect. */
  lemma QuietStepKeepsSpent(w: World, v: World)
    requires Spent(w) && v.accounts == w.accounts && v.left == w.left && v.redeemed == w.redeemed && v.booked == w.booked
    requires forall h | h in w.issued :: h in v.issued && v.issued[h] == w.issued[h]
    ensures Spent(v)
  {
    forall u | u in v.accounts
      ensures NotLeftAt(v, u)
    {
      assert NotLeftAt(w, u);
      forall p
        ensures LeavingToken(v, u, p) !in v.left
      {
        assert LeavingToken(v, u, p) == LeavingToken(w, u, p);
      }
    }
  }

  lemma StepKeepsSpent(w: World, s: Step)
    requires Spent(w) && Enabled(w, s)
    ensures Spent(Apply(w, s))
  {
    if s.Redeem? && TakesEffect(w, s.hash, s.purpose) {
      RedeemKeepsSpent(w, s.hash, s.purpose, s.draws);
    } else if s.Book? && BookingCounts(w, s.bookedHash) {
      BookKeepsSpent(w, s.bookedHash, s.to);
    } else if s.Reseal? {
      ResealKeepsSpent(w, s.resealed, s.version, s.resealDraws);
    } else if s.Revoke? {
      RevokeKeepsSpent(w, s.user, s.revokeDraws);
    } else {
      QuietStepKeepsSpent(w, Apply(w, s));
    }
  }

  lemma {:induction false} RunKeepsSpent(worlds: seq<World>, steps: seq<Step>, n: nat)
    requires Run(worlds, steps) && n < |worlds|
    ensures Spent(worlds[n])
  {
    if n > 0 {
      RunKeepsSpent(worlds, steps, n - 1);
      assert Enabled(worlds[n - 1], steps[n - 1]) && worlds[n] == Apply(worlds[n - 1], steps[n - 1]);
      StepKeepsSpent(worlds[n - 1], steps[n - 1]);
    }
  }

  // ---- the main results

  /** Over every run, whatever rows are written back between the steps: a token takes effect at most
      once, and a pending row is booked at most once in each of its states. */
  lemma EachTakesEffectAtMostOnce(worlds: seq<World>, steps: seq<Step>, n: nat)
    requires Run(worlds, steps) && n < |worlds|
    ensures forall i, j | 0 <= i < j < |worlds[n].redeemed| :: worlds[n].redeemed[i] != worlds[n].redeemed[j]
    ensures forall i, j | 0 <= i < j < |worlds[n].booked| :: worlds[n].booked[i] != worlds[n].booked[j]
    ensures forall i | 0 <= i < |worlds[n].redeemed| :: !Outstanding(worlds[n], worlds[n].redeemed[i])
    ensures forall h | BookingCounts(worlds[n], h) :: Booking(h, worlds[n].pending[h]) !in worlds[n].booked
  {
    RunKeepsSpent(worlds, steps, n);
    var w := worlds[n];
    forall i | 0 <= i < |w.redeemed| && w.issued[w.redeemed[i]].owner in w.accounts
      ensures !Outstanding(w, w.redeemed[i])
    {
      var row := w.issued[w.redeemed[i]];
      assert LeavingToken(w, row.owner, row.purpose) !in w.left;
    }
    forall h | BookingCounts(w, h)
      ensures Booking(h, w.pending[h]) !in w.booked
    {
      assert LeavingAttempt(w, w.pending[h].owner) !in w.left;
    }
  }

  /** Redeeming one token ends every outstanding token of its account and purpose, its own included,
      and leaves every other token as redeemable as it was. */
  lemma RedeemingEndsItsPurposeAlone(w: World, h: Hash, purpose: Purpose, draws: Draws, other: Hash)
    requires Enabled(w, Redeem(h, purpose, draws)) && TakesEffect(w, h, purpose) && other in w.issued
    ensures var v := Apply(w, Redeem(h, purpose, draws));
            var same := w.issued[other].owner == w.tokens[h].owner && w.issued[other].purpose == purpose;
            && (same && Outstanding(w, other) ==> !Outstanding(v, other))
            && (!same ==> (Outstanding(v, other) <==> Outstanding(w, other)))
  {
    var u := w.tokens[h].owner;
    OtherPurposesStay(w.accounts[u].tokenGenerations, purpose, w.issued[other].purpose, draws.token);
  }

  /** After an administrator's reseal no token and no pending row of the account that was good before it
      is good any more, and those of every other account are as good as they were. The generations it
      leaves are those of the row it writes. */
  lemma ResealEndsEverything(w: World, u: UserId, version: int, d: ResealDraws, h: Hash)
    requires Enabled(w, Reseal(u, version, d))
    ensures var v := Apply(w, Reseal(u, version, d));
            && (h in w.issued && w.issued[h].owner == u && Outstanding(w, h) ==> !Outstanding(v, h))
            && (h in w.issued && w.issued[h].owner != u ==> (Outstanding(v, h) <==> Outstanding(w, h)))
            && (h in w.pending && w.pending[h].owner == u && BookingCounts(w, h) ==> !BookingCounts(v, h))
            && (h in w.pending && w.pending[h].owner != u ==> (BookingCounts(v, h) <==> BookingCounts(w, h)))
            && forall read: Read, floor: nat, k: int | ResealedRow(read, floor, d, k).version == version ::
                 ResealedRow(read, floor, d, k).generations == v.accounts[u]
  {
    if h in w.issued && w.issued[h].owner == u {
      assert d.tokens.At(w.issued[h].purpose) != w.accounts[u].tokenGenerations.At(w.issued[h].purpose);
    }
  }

  // ---- a token that nothing has ended does take effect

  /** A step that leaves a token as it is: no redemption of its purpose and account and none of the token
      itself, no reseal of its account, and no rows written back. */
  predicate Spares(w: World, s: Step, h: Hash)
    requires h in w.issued
  {
    match s
    case Redeem(other, purpose, _) =>
      && other != h
      && (TakesEffect(w, other, purpose) ==> w.tokens[other].owner != w.issued[h].owner || purpose != w.issued[h].purpose)
    case Reseal(u, _, _) => u != w.issued[h].owner
    case WriteBack(_, _) => false
    case _ => true
  }

  lemma SparedStaysGood(w: World, s: Step, h: Hash)
    requires Enabled(w, s) && h in w.issued && Spares(w, s, h) && TakesEffect(w, h, w.issued[h].purpose)
    ensures var v := Apply(w, s);
            h in v.issued && v.issued[h] == w.issued[h] && TakesEffect(v, h, v.issued[h].purpose)
  {
    if s.Redeem? && TakesEffect(w, s.hash, s.purpose) {
      OtherPurposesStay(w.accounts[w.tokens[s.hash].owner].tokenGenerations, s.purpose, w.issued[h].purpose, s.draws.token);
    }
  }

  /** Over every run: a token issued at one step takes effect when it is redeemed, unless a step between
      redeemed one of its purpose and account, resealed its account or wrote rows back. */
  lemma {:induction false} IssuedTakesEffect(worlds: seq<World>, steps: seq<Step>, i: nat, n: nat)
    requires Run(worlds, steps) && i < n < |worlds| && steps[i].Issue?
    requires forall k | i < k < n :: steps[i].hash in worlds[k].issued ==> Spares(worlds[k], steps[k], steps[i].hash)
    ensures steps[i].hash in worlds[n].issued
    ensures worlds[n].issued[steps[i].hash].purpose == steps[i].purpose && worlds[n].issued[steps[i].hash].owner == steps[i].owner
    ensures TakesEffect(worlds[n], steps[i].hash, steps[i].purpose)
    decreases n
  {
    OneStep(worlds, steps, n);
    hide Run, Spares;
    if i < n - 1 {
      hide TakesEffect, Apply, Enabled;
      IssuedTakesEffect(worlds, steps, i, n - 1);
      SparedStaysGood(worlds[n - 1], steps[n - 1], steps[i].hash);
    } else {
      JustIssued(worlds[i], steps[i].hash, steps[i].purpose, steps[i].owner);
    }
  }

  lemma OneStep(worlds: seq<World>, steps: seq<Step>, n: nat)
    requires Run(worlds, steps) && 0 < n < |worlds|
    ensures Enabled(worlds[n - 1], steps[n - 1]) && worlds[n] == Apply(worlds[n - 1], steps[n - 1])
  {
    hide Apply, Enabled, Init;
  }

  lemma JustIssued(w: World, h: Hash, purpose: Purpose, owner: UserId)
    requires Enabled(w, Issue(h, purpose, owner))
    ensures var v := Apply(w, Issue(h, purpose, owner));
            h in v.issued && v.issued[h].purpose == purpose && v.issued[h].owner == owner && TakesEffect(v, h, purpose)
  {
  }

  /** What redeeming does to the row, the list of what took effect and the account. */
  lemma RedeemingTakesEffect(w: World, h: Hash, purpose: Purpose, draws: Draws)
    requires Enabled(w, Redeem(h, purpose, draws))
    ensures var v := Apply(w, Redeem(h, purpose, draws));
            if TakesEffect(w, h, purpose) then
              && v.redeemed == w.redeemed + [h] && h !in v.tokens
              && v.accounts[w.tokens[h].owner].tokenLast == Some(h)
              && v.accounts[w.tokens[h].owner].tokenGenerations.At(purpose) == draws.token
            else v == w
  {
    if TakesEffect(w, h, purpose) {
      OtherPurposesStay(w.accounts[w.tokens[h].owner].tokenGenerations, purpose, purpose, draws.token);
    }
  }

  /** A pending row just begun can be booked, and so can the row a booking leaves. */
  lemma BegunIsBookable(w: World, h: Hash, owner: UserId)
    requires Enabled(w, Begin(h, owner))
    ensures BookingCounts(Apply(w, Begin(h, owner)), h)
  {
  }

  lemma BookedIsBookable(w: World, h: Hash, to: int)
    requires Enabled(w, Book(h, to)) && BookingCounts(w, h)
    ensures BookingCounts(Apply(w, Book(h, to)), h) && Apply(w, Book(h, to)).booked == w.booked + [Booking(h, w.pending[h])]
  {
  }

  /** A booking moves the account away from the generation its row bound, names the row as the one
      that moved it, and leaves the token generations and the session generation alone. */
  lemma BookingLeavesItsGeneration(w: World, h: Hash, to: int)
    requires Enabled(w, Book(h, to)) && BookingCounts(w, h)
    ensures var u := w.pending[h].owner;
            var before, after := w.accounts[u], Apply(w, Book(h, to)).accounts[u];
            && after.attemptGeneration != w.pending[h].generation && after.attemptLast == Some(h)
            && after.tokenGenerations == before.tokenGenerations && after.sessionGeneration == before.sessionGeneration
            && !BookingCounts(Apply(w, Book(h, to)).(pending := w.pending), h)
  {
  }
}
